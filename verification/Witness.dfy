/** One concrete instance of the primitives. It is no cipher; it shows that the hypotheses of the theorems can hold
    together, and gives a concrete run on which decryption after a Diffie-Hellman round fails. */
module Witness {
  import opened Bytes
  import opened Crypto
  import opened Envelopes
  import opened RatchetSession
  import opened Delivery
  import Hkdf
  import GroupKeys
  import Mls
  import Migration
  import Roots

  /** The part of a key that no chain step touches. */
  const PREFIX := 24

  function Fit(b: ByteString): (r: ByteString)
    ensures |r| == KEY_BYTES
  {
    (b + Zeros(KEY_BYTES))[..KEY_BYTES]
  }

  function Next(n: nat): nat {
    if n >= U32_LIMIT - 1 then 0 else n + 1
  }

  function After(start: u32, n: nat): u32 {
    if n == 0 then start else Next(After(start, n - 1))
  }

  lemma {:induction false} AfterIs(start: u32, n: nat)
    requires n < U32_LIMIT
    ensures After(start, n) == if start + n < U32_LIMIT then start + n else start + n - U32_LIMIT
  {
    if n > 0 {
      AfterIs(start, n - 1);
    }
  }

  function Number(key: ByteString): u32
    requires |key| == KEY_BYTES
  {
    assert Pow256(4) == U32_LIMIT;
    FromBigEndian(key[PREFIX..PREFIX + 4])
  }

  /** The chain label counts up in four bytes of the key, the message label returns the key. */
  function Mac(k: ByteString, m: ByteString): (r: ByteString)
    ensures |r| == KEY_BYTES
  {
    if |k| == KEY_BYTES && m == CHAIN_LABEL then k[..PREFIX] + BigEndian(Next(Number(k)), 4) + k[PREFIX + 4..]
    else if |k| == KEY_BYTES && m == MSG_LABEL then k
    else Fit(m)
  }

  /** What a sealed message shows of its key. */
  function Mark(k: ByteString): (r: ByteString)
    ensures |r| == NONCE_BYTES + TAG_BYTES
  {
    Fit(k)[..NONCE_BYTES + TAG_BYTES]
  }

  function Plus(x: byte, y: byte): byte {
    (x + y) % 256
  }

  function Sum(a: ByteString, b: ByteString): (r: ByteString)
    requires |a| == |b|
    ensures |r| == |a|
  {
    seq(|a|, i requires 0 <= i < |a| => Plus(a[i], b[i]))
  }

  /** The unkeyed hash tells one string from all others. */
  function Toy(c: ByteString): Primitives {
    Primitives(
      (k, m) => Mac(k, m),
      (k, m) => if k == [] then Fit(if m == c then [1] else [2]) else Fit(m + k),
      (k, n, h, t) => Mark(k) + t,
      (k, h, ct) => if Mark(k) <= ct then Some(ct[NONCE_BYTES + TAG_BYTES..]) else None,
      a => Fit(a),
      (a, b) => Some(Sum(Fit(a), Fit(b))))
  }

  lemma FitTwice(b: ByteString)
    ensures Fit(Fit(b)) == Fit(b)
    ensures |b| == KEY_BYTES ==> Fit(b) == b
  {
    assert (Fit(b) + Zeros(KEY_BYTES))[..KEY_BYTES] == Fit(b);
  }

  lemma ToySound(c: ByteString)
    ensures Toy(c).Sound()
  {
    forall k, n, h, t
      ensures Toy(c).unseal(k, h, Toy(c).seal(k, n, h, t)) == Some(t)
    {
      assert (Mark(k) + t)[NONCE_BYTES + TAG_BYTES..] == t;
    }
    forall a, b
      ensures Toy(c).dh(a, Toy(c).publicKey(b)) == Toy(c).dh(b, Toy(c).publicKey(a))
    {
      FitTwice(a);
      FitTwice(b);
      assert Sum(Fit(a), Fit(b)) == Sum(Fit(b), Fit(a));
    }
  }

  lemma MarksDiffer(c: ByteString, k: ByteString, k': ByteString, h: ByteString, n: ByteString, t: ByteString)
    requires Mark(k) != Mark(k')
    ensures Toy(c).unseal(k, h, Toy(c).seal(k', n, h, t)) == None
  {
    assert (Mark(k') + t)[..NONCE_BYTES + TAG_BYTES] == Mark(k');
  }

  lemma ToyNext(c: ByteString, chain: ByteString)
    requires |chain| == KEY_BYTES
    ensures var next := NextChain(Toy(c), chain);
            |next| == KEY_BYTES && Number(next) == Next(Number(chain)) && next[..PREFIX] == chain[..PREFIX]
  {
    assert Pow256(4) == U32_LIMIT;
    BigEndianReads(Next(Number(chain)), 4);
    assert NextChain(Toy(c), chain)[PREFIX..PREFIX + 4] == BigEndian(Next(Number(chain)), 4);
  }

  lemma {:induction false} ToyChain(c: ByteString, root: ByteString, n: nat)
    requires |root| == KEY_BYTES
    ensures var chain := ChainAt(Toy(c), root, n);
            |chain| == KEY_BYTES && Number(chain) == After(Number(root), n) && chain[..PREFIX] == root[..PREFIX]
  {
    hide Number;
    if n > 0 {
      ToyChain(c, root, n - 1);
      ToyNext(c, ChainAt(Toy(c), root, n - 1));
    }
  }

  /** Keys of one chain differ by their number, keys of chains with different prefixes by those. */
  lemma ToyKeysDiffer(c: ByteString, root: ByteString, i: nat, root': ByteString, j: nat)
    requires |root| == |root'| == KEY_BYTES
    requires root[..PREFIX] != root'[..PREFIX] || (root == root' && i < j < U32_LIMIT)
    ensures Mark(KeyAt(Toy(c), root, i)) != Mark(KeyAt(Toy(c), root', j))
  {
    hide FromBigEndian, ChainAt;
    ToyChain(c, root, i);
    ToyChain(c, root', j);
    var x, y := ChainAt(Toy(c), root, i), ChainAt(Toy(c), root', j);
    FitTwice(x);
    FitTwice(y);
    assert Mark(x)[..PREFIX] == x[..PREFIX] && Mark(y)[..PREFIX] == y[..PREFIX];
    if root == root' {
      AfterIs(Number(root), i);
      AfterIs(Number(root), j);
      assert Mark(x)[PREFIX..PREFIX + 4] == x[PREFIX..PREFIX + 4];
      assert Mark(y)[PREFIX..PREFIX + 4] == y[PREFIX..PREFIX + 4];
    }
  }

  lemma ToyKeysSeparate(c: ByteString, l: Link)
    requires l.p == Toy(c) && |l.root| == KEY_BYTES
    ensures KeysSeparate(l)
  {
    forall i: u32, j: u32, d | i < j && d in l.used
      ensures l.p.unseal(KeyAt(l.p, l.root, j), Header(i, l.peer), l.Ciphertext(i, d)) == None
    {
      ToyKeysDiffer(c, l.root, i, l.root, j);
      MarksDiffer(c, KeyAt(Toy(c), l.root, j), KeyAt(Toy(c), l.root, i), Header(i, l.peer), d.nonce, d.text);
    }
  }

  lemma ToyChainShut(c: ByteString, l: Link, chain: ByteString)
    requires l.p == Toy(c) && |l.root| == |chain| == KEY_BYTES && l.root[..PREFIX] != chain[..PREFIX]
    ensures ChainShut(l, chain)
  {
    forall i: u32, j: u32, d | d in l.used
      ensures l.p.unseal(KeyAt(l.p, chain, j), Header(i, l.peer), l.Ciphertext(i, d)) == None
    {
      ToyKeysDiffer(c, l.root, i, chain, j);
      MarksDiffer(c, KeyAt(Toy(c), chain, j), KeyAt(Toy(c), l.root, i), Header(i, l.peer), d.nonce, d.text);
    }
  }

  lemma MarkKeeps(x: ByteString, k: ByteString)
    requires |x| <= NONCE_BYTES + TAG_BYTES
    ensures Mark(Fit(x + k))[..|x|] == x
  {
    FitTwice(x + k);
    assert Fit(x + k)[..|x|] == x;
  }

  /** Over whatever leaf lists, secrets that differ do so in the first byte. */
  lemma ToySecrets(c: ByteString, a: seq<ByteString>, b: seq<ByteString>)
    requires c == Mls.Concat(a) && GroupKeys.LeafSized(a) && GroupKeys.LeafSized(b)
    ensures GroupKeys.NoCollision(Toy(c), a, b)
    ensures var s, s' := Mls.EpochSecret(Toy(c), a), Mls.EpochSecret(Toy(c), b);
            |s| == |s'| == KEY_BYTES && (s == s' || s[0] != s'[0])
  {
    GroupKeys.ConcatLayout(a, 0);
    GroupKeys.ConcatLayout(b, 0);
    assert Fit([1])[0] == 1 && Fit([2])[0] == 2;
  }

  lemma ToyEpochsSeparate(c: ByteString, g: Mls.Group, g': Mls.Group, nonce: ByteString, text: ByteString)
    requires |g.id| == |g'.id| == Mls.GROUP_ID_BYTES && |g.epochSecret| == |g'.epochSecret| == KEY_BYTES
    requires g.epochSecret == g'.epochSecret || g.epochSecret[0] != g'.epochSecret[0]
    ensures GroupKeys.EpochsSeparate(Toy(c), g, g', nonce, text)
  {
    var x, y := Mls.EpochInfo(g.id, g.epoch), Mls.EpochInfo(g'.id, g'.epoch);
    var k, k' := Fit(x + g.epochSecret), Fit(y + g'.epochSecret);
    MarkKeeps(x, g.epochSecret);
    MarkKeeps(y, g'.epochSecret);
    if x != y {
      MarksDiffer(c, k', k, x, nonce, text);
    } else if g.epochSecret != g'.epochSecret {
      MarkShows(x, g.epochSecret);
      MarkShows(y, g'.epochSecret);
      MarksDiffer(c, k', k, x, nonce, text);
    }
  }

  lemma MarkShows(x: ByteString, k: ByteString)
    requires |x| == PREFIX && |k| == KEY_BYTES
    ensures Mark(Fit(x + k))[PREFIX] == k[0]
  {
    FitTwice(x + k);
  }

  lemma ToyExpand(c: ByteString, prk: ByteString, info: ByteString)
    requires |info| == 9
    ensures Toy(c).HmacSized()
    ensures Hkdf.Expand(Toy(c), prk, info, KEY_BYTES) == Fit(info + [1])
  {
    ToySound(c);
    Roots.OneBlock(Toy(c), prk, info);
  }

  ghost predicate OfLeaves(p: Primitives, g: Mls.Group, leaves: seq<ByteString>) {
    |g.id| == Mls.GROUP_ID_BYTES && g.leafSecrets == leaves && Mls.Consistent(p, g)
  }

  /** The hypotheses of the theorems hold together: for every root key and whatever is sealed, no later key opens an
      earlier message, the chains that Diffie-Hellman steps derive are of no use to a root that does not begin like
      them, and keys of any two states of groups are separate and the secrets of their leaves do not collide. */
  lemma HypothesesHoldTogether(
    l: Link, s: RatchetState, secret: ByteString, a: seq<ByteString>, b: seq<ByteString>)
    returns (p: Primitives)
    requires |l.root| == |l.peer| == KEY_BYTES && GroupKeys.LeafSized(a) && GroupKeys.LeafSized(b)
    ensures p.Sound()
    ensures l.(p := p, stale := map[]).Usable()
    ensures l.root[0] != RECV_INFO[0] ==> ChainShut(l.(p := p), RootChain(p, s, secret).recvChain)
    ensures GroupKeys.NoCollision(p, a, b)
    ensures forall g, g', nonce, text :: OfLeaves(p, g, a) && OfLeaves(p, g', b) ==>
              GroupKeys.EpochsSeparate(p, g, g', nonce, text)
  {
    var c := Mls.Concat(a);
    p := Toy(c);
    ToySound(c);
    ToyKeysSeparate(c, l.(p := p, stale := map[]));
    ToyExpand(c, Hkdf.Extract(p, s.rootKey, secret), RECV_INFO);
    if l.root[0] != RECV_INFO[0] {
      var chain := RootChain(p, s, secret).recvChain;
      assert l.root[..PREFIX][0] != chain[..PREFIX][0];
      ToyChainShut(c, l.(p := p), chain);
    }
    ToySecrets(c, a, b);
    forall g, g', nonce, text | OfLeaves(p, g, a) && OfLeaves(p, g', b)
      ensures GroupKeys.EpochsSeparate(p, g, g', nonce, text)
    {
      ToyEpochsSeparate(c, g, g', nonce, text);
    }
  }

  /** Two freshly initialized sides with any two different keys step on each other's key; nothing that the one then
      sends ever arrives at the other. */
  lemma RoundLosesMessages(
    root: ByteString, sessionId: ByteString, privA: ByteString, privB: ByteString, sends: seq<Sending>)
    returns (p: Primitives, a: RatchetState, b: RatchetState)
    requires |root| == |privA| == |privB| == KEY_BYTES && privA != privB && sessionId != [] && |sends| < U32_LIMIT
    ensures p.Sound() && a.dhPublic != b.dhPublic
    ensures Migration.Round(
              p, Initialize(Fresh(p, privA), root, sessionId), Initialize(Fresh(p, privB), root, sessionId))
            == Some((a, b))
    ensures forall arrivals, es ::
              var l := Link(p, a.sendChain, sessionId, a.dhPublic, Drafts(sends), map[]);
              AllArrive(l, Send(p, a, sends).1, arrivals, es) && OnlyCopies(arrivals) ==> Nothing(Receive(p, b, es).1)
  {
    p := Toy([]);
    ToySound([]);
    FitTwice(privA);
    FitTwice(privB);
    var a0, b0 := Initialize(Fresh(p, privA), root, sessionId), Initialize(Fresh(p, privB), root, sessionId);
    Migration.RoundPairs(p, a0, b0);
    var sides := Migration.Round(p, a0, b0).value;
    a, b := sides.0, sides.1;
    ToyExpand([], a.rootKey, SEND_INFO);
    ToyExpand([], b.rootKey, RECV_INFO);
    var l := Link(p, a.sendChain, sessionId, a.dhPublic, Drafts(sends), map[]);
    ToyKeysSeparate([], l);
    assert l.root[..PREFIX][0] != b.recvChain[..PREFIX][0];
    ToyChainShut([], l, b.recvChain);
    assert Migration.Rounds(p, a0, b0, 0) == Some((a0, b0));
    assert Migration.Rounds(p, a0, b0, 1) == Some((a, b));
    forall arrivals, es | AllArrive(l, Send(p, a, sends).1, arrivals, es) && OnlyCopies(arrivals)
      ensures Nothing(Receive(p, b, es).1)
    {
      Migration.ArrivesAfterRoundsIff(p, a0, b0, 1, a, b, sessionId, sends, arrivals, es);
    }
  }
}
