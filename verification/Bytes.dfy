/** Byte strings, the source's integer widths and its big-endian encodings. */
module Bytes {
  type byte = x: int | 0 <= x < 256
  type u32 = x: int | 0 <= x < U32_LIMIT
  type u64 = x: int | 0 <= x < U64_LIMIT

  type ByteString = seq<byte>

  const U32_LIMIT := 0x1_0000_0000
  const U64_LIMIT := 0x1_0000_0000_0000_0000

  datatype Option<+T> = None | Some(value: T) {
    predicate IsFailure() {
      None?
    }

    function PropagateFailure<U>(): Option<U>
      requires None?
    {
      None
    }

    function Extract(): T
      requires Some?
    {
      value
    }
  }

  /** The numbers below `n`. */
  function Below(n: nat): (r: set<nat>)
    ensures |r| == n
    ensures forall i: nat :: i in r <==> i < n
  {
    if n == 0 then {} else Below(n - 1) + {n - 1}
  }

  function Zeros(n: nat): (b: ByteString)
    ensures |b| == n
  {
    seq(n, i => 0)
  }

  function Pow256(n: nat): (r: nat)
    ensures r > 0
  {
    if n == 0 then 1 else 256 * Pow256(n - 1)
  }

  /** The low `n` bytes of `v`, most significant first. */
  function BigEndian(v: nat, n: nat): (b: ByteString)
    ensures |b| == n
  {
    if n == 0 then [] else BigEndian(v / 256, n - 1) + [v % 256]
  }

  function FromBigEndian(b: ByteString): (v: nat)
    ensures v < Pow256(|b|)
  {
    if b == [] then 0 else FromBigEndian(b[..|b| - 1]) * 256 + b[|b| - 1]
  }

  lemma {:induction false} BigEndianReads(v: nat, n: nat)
    requires v < Pow256(n)
    ensures FromBigEndian(BigEndian(v, n)) == v
  {
    if n > 0 {
      BigEndianReads(v / 256, n - 1);
      assert BigEndian(v, n)[..n - 1] == BigEndian(v / 256, n - 1);
    }
  }

  lemma {:induction false} BigEndianWrites(b: ByteString)
    ensures BigEndian(FromBigEndian(b), |b|) == b
  {
    if b != [] {
      var front, last := b[..|b| - 1], b[|b| - 1];
      BigEndianWrites(front);
      assert FromBigEndian(b) / 256 == FromBigEndian(front) && FromBigEndian(b) % 256 == last;
      assert b == front + [last];
    }
  }

  lemma FourBytes(v: u32)
    ensures BigEndian(v, 4) == [v / 0x100_0000 % 256, v / 0x1_0000 % 256, v / 0x100 % 256, v % 256]
  {
    assert v / 256 / 256 == v / 0x1_0000;
    assert v / 0x1_0000 / 256 == v / 0x100_0000;
    assert BigEndian(v / 0x100_0000, 1) == [v / 0x100_0000 % 256];
    assert BigEndian(v / 0x1_0000, 2) == BigEndian(v / 0x100_0000, 1) + [v / 0x1_0000 % 256];
    assert BigEndian(v / 0x100, 3) == BigEndian(v / 0x1_0000, 2) + [v / 0x100 % 256];
  }

  function Word(b0: int, b1: int, b2: int, b3: int): int {
    b0 * 0x100_0000 + b1 * 0x1_0000 + b2 * 0x100 + b3
  }

  lemma FromFourBytes(b: ByteString)
    requires |b| == 4
    ensures FromBigEndian(b) == Word(b[0], b[1], b[2], b[3])
  {
    assert b[..3][..2] == b[..2] && b[..2][..1] == b[..1] && b[..1][..0] == [];
    assert FromBigEndian(b[..1]) == b[0];
    assert FromBigEndian(b[..2]) == FromBigEndian(b[..1]) * 256 + b[1];
    assert FromBigEndian(b[..3]) == FromBigEndian(b[..2]) * 256 + b[2];
  }

  /** Four pushes, most significant byte first. */
  method PushU32(out: ByteString, v: u32) returns (r: ByteString)
    ensures r == out + BigEndian(v, 4)
  {
    FourBytes(v);
    r := out + [v / 0x100_0000 % 256];
    r := r + [v / 0x1_0000 % 256];
    r := r + [v / 0x100 % 256];
    r := r + [v % 256];
  }

  /** Reads four bytes at `off`; fails when fewer are left. */
  method ReadU32(bytes: ByteString, off: nat) returns (r: Option<u32>)
    requires off <= |bytes|
    ensures r.Some? <==> off + 4 <= |bytes|
    ensures r.Some? ==> r.value == FromBigEndian(bytes[off..off + 4])
  {
    if off + 4 > |bytes| {
      return None;
    }
    FromFourBytes(bytes[off..off + 4]);
    assert Pow256(4) == U32_LIMIT;
    r := Some(Word(bytes[off], bytes[off + 1], bytes[off + 2], bytes[off + 3]));
  }

  lemma PowGrows(m: nat, n: nat)
    requires m <= n
    ensures Pow256(m) <= Pow256(n)
  {
    if m < n {
      PowGrows(m, n - 1);
    }
  }

  /** `v >> 8 * n`. */
  function ShiftBytes(v: nat, n: nat): nat {
    if n == 0 then v else ShiftBytes(v, n - 1) / 256
  }

  /** The shift loop of the serialisers, from the top byte of the timestamp down. */
  method PushU64(out: ByteString, v: u64) returns (r: ByteString)
    ensures r == out + BigEndian(v, 8)
  {
    r := out;
    for i := 8 downto 0
      invariant r == out + BigEndian(ShiftBytes(v, i), 8 - i)
    {
      r := r + [ShiftBytes(v, i) % 256];
    }
  }

  /** The accumulate loop of the parsers; the caller has checked that eight bytes are left. */
  method ReadU64(bytes: ByteString, off: nat) returns (v: u64)
    requires off + 8 <= |bytes|
    ensures v == FromBigEndian(bytes[off..off + 8])
  {
    v := 0;
    for i := 0 to 8
      invariant v == FromBigEndian(bytes[off..off + i])
    {
      PowGrows(i + 1, 8);
      assert Pow256(8) == U64_LIMIT;
      assert v * 256 < Pow256(i) * 256 == Pow256(i + 1);
      assert bytes[off..off + i + 1][..i] == bytes[off..off + i];
      v := v * 256 % U64_LIMIT + bytes[off + i];
    }
  }
}
