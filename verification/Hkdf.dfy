/** The hand-written HKDF of ratchet.cpp against sections 2.2 and 2.3 of RFC 5869. */
module Hkdf {
  import opened Bytes
  import opened Crypto

  const HASH_BYTES := 32

  /** Section 2.2: an absent salt is a string of HashLen zeros. */
  function Extract(p: Primitives, salt: ByteString, ikm: ByteString): ByteString {
    p.hmac(if salt == [] then Zeros(HASH_BYTES) else salt, ikm)
  }

  /** T(i) of section 2.3, defined there for i up to 255. */
  function T(p: Primitives, prk: ByteString, info: ByteString, i: nat): ByteString
    requires i <= 255
  {
    if i == 0 then [] else p.hmac(prk, T(p, prk, info, i - 1) + info + [i])
  }

  /** T(1) | T(2) | ... | T(n). */
  function Blocks(p: Primitives, prk: ByteString, info: ByteString, n: nat): ByteString
    requires n <= 255
  {
    if n == 0 then [] else Blocks(p, prk, info, n - 1) + T(p, prk, info, n)
  }

  /** The i-th block the loop produces; its counter is one byte wide and wraps. */
  function LoopBlock(p: Primitives, prk: ByteString, info: ByteString, i: nat): ByteString
    requires i >= 1
  {
    var counter := i % 256;
    p.hmac(prk, (if counter > 1 then LoopBlock(p, prk, info, i - 1) else []) + info + [counter])
  }

  function LoopStream(p: Primitives, prk: ByteString, info: ByteString, n: nat): (s: ByteString)
    requires p.HmacSized()
    ensures |s| == n * HASH_BYTES
  {
    if n == 0 then [] else LoopStream(p, prk, info, n - 1) + LoopBlock(p, prk, info, n)
  }

  function BlockCount(len: nat): (n: nat)
    ensures (n - 1) * HASH_BYTES < len <= n * HASH_BYTES || len == n == 0
  {
    (len + HASH_BYTES - 1) / HASH_BYTES
  }

  /** What hkdf_expand writes into an output of `len` bytes. */
  function Expand(p: Primitives, prk: ByteString, info: ByteString, len: nat): (okm: ByteString)
    requires p.HmacSized()
    ensures |okm| == len
  {
    LoopStream(p, prk, info, BlockCount(len))[..len]
  }

  lemma BlockAppends(p: Primitives, prk: ByteString, info: ByteString, i: nat, c: nat)
    requires p.HmacSized() && c <= HASH_BYTES
    ensures |LoopBlock(p, prk, info, i + 1)| == HASH_BYTES
    ensures LoopStream(p, prk, info, i) + LoopBlock(p, prk, info, i + 1)[..c]
            == LoopStream(p, prk, info, i + 1)[..i * HASH_BYTES + c]
  {
  }

  method CopyInto(okm: array<byte>, at: nat, src: ByteString, count: nat)
    requires count <= |src| && at + count <= okm.Length
    modifies okm
    ensures okm[..at + count] == old(okm[..at]) + src[..count]
  {
    forall k | 0 <= k < count {
      okm[at + k] := src[k];
    }
  }

  lemma NextCounter(i: nat)
    ensures (i % 256 + 1) % 256 == (i + 1) % 256
  {
  }

  method HkdfExpand(p: Primitives, okm: array<byte>, prk: ByteString, info: ByteString)
    requires p.HmacSized()
    modifies okm
    ensures okm[..] == Expand(p, prk, info, okm.Length)
  {
    var previous := Zeros(HASH_BYTES);
    var generated := 0;
    var counter: byte := 1;
    ghost var i := 0;
    while generated < okm.Length
      invariant counter == (i + 1) % 256
      invariant i > 0 ==> previous == LoopBlock(p, prk, info, i)
      invariant generated < okm.Length ==> generated == i * HASH_BYTES
      invariant generated <= okm.Length && generated <= i * HASH_BYTES < generated + HASH_BYTES
      invariant okm[..generated] == LoopStream(p, prk, info, i)[..generated]
      decreases okm.Length - generated
    {
      ghost var before := okm[..generated];
      assert before == LoopStream(p, prk, info, i);
      var message := (if counter > 1 then previous else []) + info + [counter];
      previous := p.hmac(prk, message);
      assert previous == LoopBlock(p, prk, info, i + 1);
      ghost var block := previous;
      var toCopy := if okm.Length - generated < HASH_BYTES then okm.Length - generated else HASH_BYTES;
      BlockAppends(p, prk, info, i, toCopy);
      CopyInto(okm, generated, previous, toCopy);
      assert okm[..generated + toCopy] == LoopStream(p, prk, info, i + 1)[..generated + toCopy];
      generated := generated + toCopy;
      NextCounter(i + 1);
      counter := (counter + 1) % 256;
      i := i + 1;
      assert i >= 1 && previous == block == LoopBlock(p, prk, info, i);
    }
    assert i == BlockCount(okm.Length);
    assert okm[..] == okm[..generated];
  }

  lemma {:induction false} LoopBlockIsT(p: Primitives, prk: ByteString, info: ByteString, i: nat)
    requires 1 <= i <= 255
    ensures LoopBlock(p, prk, info, i) == T(p, prk, info, i)
  {
    if i > 1 {
      LoopBlockIsT(p, prk, info, i - 1);
    }
  }

  lemma {:induction false} LoopStreamIsBlocks(p: Primitives, prk: ByteString, info: ByteString, n: nat)
    requires p.HmacSized() && n <= 255
    ensures LoopStream(p, prk, info, n) == Blocks(p, prk, info, n)
  {
    if n > 0 {
      LoopStreamIsBlocks(p, prk, info, n - 1);
      LoopBlockIsT(p, prk, info, n);
    }
  }

  /** Within the limit of section 2.3 the output is the first `len` bytes of T(1) | T(2) | ... */
  lemma ExpandMeetsRfc5869(p: Primitives, prk: ByteString, info: ByteString, len: nat)
    requires p.HmacSized() && len <= 255 * HASH_BYTES
    ensures BlockCount(len) <= 255 && len <= |Blocks(p, prk, info, BlockCount(len))|
    ensures Expand(p, prk, info, len) == Blocks(p, prk, info, BlockCount(len))[..len]
  {
    LoopStreamIsBlocks(p, prk, info, BlockCount(len));
  }

  lemma {:induction false} StreamExtends(p: Primitives, prk: ByteString, info: ByteString, m: nat, n: nat)
    requires p.HmacSized() && m <= n
    ensures LoopStream(p, prk, info, m) <= LoopStream(p, prk, info, n)
  {
    if m < n {
      StreamExtends(p, prk, info, m, n - 1);
    }
  }

  /** A shorter output is a prefix of every longer one. */
  lemma ShorterIsPrefix(p: Primitives, prk: ByteString, info: ByteString, short: nat, long: nat)
    requires p.HmacSized() && short <= long
    ensures Expand(p, prk, info, short) <= Expand(p, prk, info, long)
  {
    StreamExtends(p, prk, info, BlockCount(short), BlockCount(long));
  }

  /** Beyond the limit the loop does not stop: once its counter has wrapped and passed zero, the output repeats. */
  lemma {:induction false} OutputRepeats(p: Primitives, prk: ByteString, info: ByteString, i: nat)
    requires i >= 1
    ensures LoopBlock(p, prk, info, i + 256) == LoopBlock(p, prk, info, i)
  {
    if i % 256 > 1 {
      OutputRepeats(p, prk, info, i - 1);
    }
  }
}
