/** What survives moving a ratchet's state, and what paired Diffie-Hellman steps agree on. */
module Migration {
  import opened Bytes
  import opened Crypto
  import opened Envelopes
  import opened RatchetSession
  import opened Delivery
  import opened Kept
  import opened Sessions
  import opened Roots
  import Hkdf

  predicate SameExported(s: RatchetState, t: RatchetState) {
    && s.rootKey == t.rootKey && s.sendChain == t.sendChain && s.recvChain == t.recvChain
    && s.sendNumber == t.sendNumber && s.recvNumber == t.recvNumber
    && s.dhPrivate == t.dhPrivate && s.dhPublic == t.dhPublic
  }

  /** All seven exported fields come back, whatever follows them, and export again to the same bytes. */
  lemma ImportRestores(s: RatchetState, t: RatchetState, extra: ByteString)
    requires s.Keyed()
    ensures |Export(s)| == STATE_BYTES
    ensures var b := Export(s);
            && b[..32] == s.rootKey && b[32..64] == s.sendChain && b[64..96] == s.recvChain
            && FromBigEndian(b[96..100]) == s.sendNumber && FromBigEndian(b[100..104]) == s.recvNumber
            && b[104..136] == s.dhPrivate && b[136..] == s.dhPublic
    ensures var m := Import(t, Export(s) + extra);
            m.Some? && SameExported(m.value, s) && Export(m.value) == Export(s)
            && m.value.lastRemote == [] && m.value.sessionId == t.sessionId && m.value.skipped == t.skipped
  {
    var b := Export(s) + extra;
    assert forall i, j :: 0 <= i <= j <= STATE_BYTES ==> b[i..j] == Export(s)[i..j];
    assert Pow256(4) == U32_LIMIT;
    BigEndianReads(s.sendNumber, 4);
    BigEndianReads(s.recvNumber, 4);
    assert b[..32] == s.rootKey;
    assert b[32..64] == s.sendChain;
    assert b[64..96] == s.recvChain;
    assert b[96..100] == BigEndian(s.sendNumber, 4);
    assert b[100..104] == BigEndian(s.recvNumber, 4);
    assert b[104..136] == s.dhPrivate;
    assert b[136..168] == s.dhPublic;
  }

  /** Too few bytes are refused. */
  lemma ShortStateRefused(t: RatchetState, s: RatchetState, b: ByteString)
    requires s.Keyed() && b < Export(s)
    ensures Import(t, b) == None
  {
    ImportRestores(s, t, []);
  }

  lemma {:induction false} SendsAlike(p: Primitives, s: RatchetState, t: RatchetState, sends: seq<Sending>)
    requires s.sessionId == t.sessionId && s.recvNumber == t.recvNumber && s.dhPublic == t.dhPublic
    requires s.sendChain == t.sendChain && s.sendNumber == t.sendNumber
    ensures var (s', logS) := Send(p, s, sends);
            var (t', logT) := Send(p, t, sends);
            && logS == logT
            && s' == s.(sessionId := s'.sessionId, sendChain := s'.sendChain, sendNumber := s'.sendNumber)
            && t' == t.(sessionId := s'.sessionId, sendChain := s'.sendChain, sendNumber := s'.sendNumber)
  {
    if sends != [] {
      SendsAlike(p, s, t, sends[..|sends| - 1]);
    }
  }

  /** A migrated ratchet sends the very same future envelopes. Of the peer's messages it accepts, once each, exactly
      those at or above the exported receive counter: the skipped keys are left behind, and a key that the importing
      ratchet already stored under a number shuts that number out. If it stored keys of the chain itself, as the
      exporting ratchet does, these count as well, and `AsTaken` says what arrives. */
  lemma {:induction false} MigrationContinues(
    l: Link, l': Link, done: set<nat>, s: RatchetState, t: RatchetState, sends: seq<Sending>,
    log: seq<Envelope>, texts: seq<ByteString>, arrivals: seq<Arrival>, es: seq<Envelope>)
    requires l.Usable() && s.Keyed() && ReceiverInv(l, done, s)
    requires t.sessionId == s.sessionId && l' == l.(stale := l'.stale) && l'.Usable() && Keeps(l', t.skipped)
    requires |log| == |texts| < U32_LIMIT
    requires forall i :: 0 <= i < |log| ==> IsMessage(l, i, log[i], texts[i])
    requires AllArrive(l, log, arrivals, es) && AllArrive(l', log, arrivals, es)
    ensures Import(t, Export(s)).Some?
    ensures var m := Import(t, Export(s)).value;
            && Send(l.p, m, sends).1 == Send(l.p, s, sends).1
            && AsTaken(l', m, Receive(l.p, m, es).1, texts, arrivals)
            && (t.skipped == l'.stale ==>
                  AsExpected(Receive(l.p, m, es).1, texts, Below(s.recvNumber) + t.skipped.Keys, arrivals))
            && AsExpected(Receive(l.p, s, es).1, texts, done + l.stale.Keys, arrivals)
  {
    hide Receive, Send, AllArrive, AsTaken, AsExpected, Export, Import, ReceiverInv, IsMessage, Below, Link.Usable;
    hide OnChain, Keeps, NoneAhead;
    var m := ImportedState(l, l', done, s, t);
    SendsAlike(l.p, s, m, sends);
    MigratedReceives(l, l', s.recvNumber, m, log, texts, arrivals, es);
    FirstCopiesOnly(l, log, texts, done, s, arrivals, es);
  }

  lemma MigratedReceives(
    l: Link, l': Link, n: nat, m: RatchetState,
    log: seq<Envelope>, texts: seq<ByteString>, arrivals: seq<Arrival>, es: seq<Envelope>)
    requires l' == l.(stale := l'.stale) && l'.Usable() && OnChain(l', m)
    requires m.skipped == l'.stale ==> ReceiverInv(l', Below(n) - l'.stale.Keys, m)
    requires |log| == |texts| < U32_LIMIT
    requires forall i :: 0 <= i < |log| ==> IsMessage(l, i, log[i], texts[i])
    requires AllArrive(l', log, arrivals, es)
    ensures AsTaken(l', m, Receive(l.p, m, es).1, texts, arrivals)
    ensures m.skipped == l'.stale ==> AsExpected(Receive(l.p, m, es).1, texts, Below(n) + l'.stale.Keys, arrivals)
  {
    hide Receive, AllArrive, AsTaken, AsExpected, ReceiverInv, OnChain, IsMessage, Below, Link.Usable;
    forall i | 0 <= i < |log|
      ensures IsMessage(l', i, log[i], texts[i])
    {
      SameMessages(l, l', i, log[i], texts[i]);
    }
    EveryArrival(l', log, texts, m, arrivals, es);
    if m.skipped == l'.stale {
      var closed := Below(n) - l'.stale.Keys;
      FirstCopiesOnly(l', log, texts, closed, m, arrivals, es);
      assert closed + l'.stale.Keys == Below(n) + l'.stale.Keys;
    }
  }

  /** The importing ratchet walks the exported chain; what it stored itself stays. */
  lemma ImportedState(l: Link, l': Link, done: set<nat>, s: RatchetState, t: RatchetState) returns (m: RatchetState)
    requires s.Keyed() && ReceiverInv(l, done, s) && t.sessionId == s.sessionId
    requires l' == l.(stale := l'.stale) && Keeps(l', t.skipped)
    ensures Import(t, Export(s)) == Some(m)
    ensures SameExported(m, s) && m.sessionId == s.sessionId && m.skipped == t.skipped && OnChain(l', m)
    ensures t.skipped == l'.stale ==> ReceiverInv(l', Below(s.recvNumber) - l'.stale.Keys, m)
  {
    hide Export, Import, KeyAt, ChainAt;
    ImportRestores(s, t, []);
    assert Export(s) + [] == Export(s);
    m := Import(t, Export(s)).value;
  }

  lemma SameMessages(l: Link, l': Link, i: u32, e: Envelope, text: ByteString)
    requires IsMessage(l, i, e, text) && l' == l.(stale := l'.stale)
    ensures IsMessage(l', i, e, text)
  {
    var d :| d in l.used && d.text == text && e.ciphertext == l.Ciphertext(i, d);
    assert e.ciphertext == l'.Ciphertext(i, d);
  }

  /** One round: each side steps on the other's public key. None when either side throws. */
  function Round(p: Primitives, a: RatchetState, b: RatchetState): Option<(RatchetState, RatchetState)>
    requires p.HmacSized()
  {
    var a' :- RatchetStep(p, a, b.dhPublic);
    var b' :- RatchetStep(p, b, a.dhPublic);
    Some((a', b'))
  }

  function Rounds(p: Primitives, a: RatchetState, b: RatchetState, n: nat): Option<(RatchetState, RatchetState)>
    requires p.HmacSized()
  {
    if n == 0 then Some((a, b)) else
    var (a', b') :- Rounds(p, a, b, n - 1);
    Round(p, a', b')
  }

  predicate KeyPair(p: Primitives, s: RatchetState) {
    s.dhPublic == p.publicKey(s.dhPrivate)
  }

  /** What a side holds after stepping: both chains derived from the new root, and counters at zero. */
  predicate Stepped(p: Primitives, s: RatchetState)
    requires p.HmacSized()
  {
    && s.sendChain == Hkdf.Expand(p, s.rootKey, SEND_INFO, KEY_BYTES)
    && s.recvChain == Hkdf.Expand(p, s.rootKey, RECV_INFO, KEY_BYTES)
    && s.sendNumber == s.recvNumber == 0
  }

  predicate Paired(p: Primitives, a: RatchetState, b: RatchetState)
    requires p.HmacSized()
  {
    && a.rootKey == b.rootKey && a.sendChain == b.sendChain && a.recvChain == b.recvChain
    && Stepped(p, a) && Stepped(p, b)
    && a.lastRemote == b.dhPublic && b.lastRemote == a.dhPublic
  }

  lemma RoundPairs(p: Primitives, a: RatchetState, b: RatchetState)
    requires p.Sound() && a.rootKey == b.rootKey && KeyPair(p, a) && KeyPair(p, b)
    ensures RatchetStep(p, a, b.dhPublic).Some? <==> RatchetStep(p, b, a.dhPublic).Some?
    ensures var r := Round(p, a, b);
            r.Some? ==> Paired(p, r.value.0, r.value.1) && SameIdentity(a, r.value.0) && SameIdentity(b, r.value.1)
  {
    assert p.dh(a.dhPrivate, p.publicKey(b.dhPrivate)) == p.dh(b.dhPrivate, p.publicKey(a.dhPrivate));
  }

  /** After any number of rounds from equal roots the two sides hold the same root and the same two chains. */
  lemma {:induction false} RoundsAgree(p: Primitives, a: RatchetState, b: RatchetState, n: nat)
    requires p.Sound() && a.rootKey == b.rootKey && KeyPair(p, a) && KeyPair(p, b)
    ensures var r := Rounds(p, a, b, n);
            r.Some? ==> (n > 0 ==> Paired(p, r.value.0, r.value.1)) && r.value.0.rootKey == r.value.1.rootKey
                        && SameIdentity(a, r.value.0) && SameIdentity(b, r.value.1)
  {
    if n > 0 {
      RoundsAgree(p, a, b, n - 1);
      if Rounds(p, a, b, n - 1).Some? {
        var (a', b') := Rounds(p, a, b, n - 1).value;
        RoundPairs(p, a', b');
      }
    }
  }

  /** The root derives the same chain under both labels. */
  predicate SameChain(p: Primitives, root: ByteString)
    requires p.HmacSized()
  {
    Hkdf.Expand(p, root, SEND_INFO, KEY_BYTES) == Hkdf.Expand(p, root, RECV_INFO, KEY_BYTES)
  }

  /** What each side starts its new chains from. */
  lemma RoundsEnd(p: Primitives, a0: RatchetState, b0: RatchetState, n: nat, a: RatchetState, b: RatchetState)
    requires p.Sound() && a0.rootKey == b0.rootKey && KeyPair(p, a0) && KeyPair(p, b0)
    requires n > 0 && Rounds(p, a0, b0, n) == Some((a, b))
    ensures a.sendChain == Hkdf.Expand(p, b.rootKey, SEND_INFO, KEY_BYTES)
    ensures b.recvChain == Hkdf.Expand(p, b.rootKey, RECV_INFO, KEY_BYTES)
    ensures a.sendNumber == b.recvNumber == 0 && b.lastRemote == a.dhPublic && |a.dhPublic| == KEY_BYTES
  {
    RoundsAgree(p, a0, b0, n);
  }

  lemma OffChainIsJunk(l: Link, chain: ByteString, i: u32, e: Envelope, text: ByteString)
    requires |l.peer| == KEY_BYTES && StaleShut(l) && ChainShut(l, chain) && IsMessage(l, i, e, text)
    ensures IsJunk(l.(root := chain, used := {}), e)
  {
    HeaderReads(i, l.peer);
    var d :| d in l.used && d.text == text && e.ciphertext == l.Ciphertext(i, d);
    forall j: u32
      ensures l.p.unseal(KeyAt(l.p, chain, j), e.associatedData, e.ciphertext) == None
    {
      assert KeyShut(l, KeyAt(l.p, chain, j), i);
    }
    if i in l.stale {
      assert KeyShut(l, l.stale[i], i);
    }
  }

  /** A receiver at the start of a chain: if it is the chain of the sender everything arrives once, if not nothing
      does. */
  lemma StartOfChain(
    l: Link, b: RatchetState, log: seq<Envelope>, texts: seq<ByteString>, arrivals: seq<Arrival>, es: seq<Envelope>)
    requires l.Usable() && b.sessionId == l.sessionId && b.lastRemote == l.peer
    requires b.recvNumber == 0 && b.skipped == l.stale
    requires b.recvChain != l.root ==> ChainShut(l, b.recvChain)
    requires |log| == |texts| < U32_LIMIT
    requires forall i :: 0 <= i < |log| ==> IsMessage(l, i, log[i], texts[i])
    requires AllArrive(l, log, arrivals, es) && OnlyCopies(arrivals)
    ensures var got := Receive(l.p, b, es).1;
            if b.recvChain == l.root then AsExpected(got, texts, l.stale.Keys, arrivals)
            else Nothing(got)
  {
    hide IsMessage, Outcome, Receive, KeyShut;
    assert {} + l.stale.Keys == l.stale.Keys;
    if b.recvChain == l.root {
      FirstCopiesOnly(l, log, texts, {}, b, arrivals, es);
    } else {
      var l' := l.(root := b.recvChain, used := {});
      var junk := seq(|es|, k requires 0 <= k < |es| => Junk(es[k]));
      forall k | 0 <= k < |es|
        ensures Arrives(l', [], junk[k], es[k])
      {
        assert Arrives(l, log, arrivals[k], es[k]);
        var i := arrivals[k].index;
        OffChainIsJunk(l, b.recvChain, i, es[k], texts[i]);
      }
      NothingUsed(l', l);
      FirstCopiesOnly(l', [], [], {}, b, junk, es);
      NothingFromJunk(Receive(l.p, b, es).1, [], {} + l'.stale.Keys, junk);
    }
  }

  lemma NothingUsed(l: Link, l': Link)
    requires l'.Usable() && l == l'.(root := l.root, used := {})
    ensures l.Usable()
  {
  }

  lemma NothingFromJunk(got: seq<Option<ByteString>>, texts: seq<ByteString>, closed: set<nat>, arrivals: seq<Arrival>)
    requires AsExpected(got, texts, closed, arrivals)
    ensures forall k :: 0 <= k < |got| && arrivals[k].Junk? ==> got[k] == None
  {
  }

  /** Everything arrives as expected, or nothing does, as `sameChain` says; so something new arrives exactly if it is
      true and some copy has a number under which the receiver keeps no older key. */
  ghost predicate ChainDecides(
    sameChain: bool, got: seq<Option<ByteString>>, texts: seq<ByteString>, stale: set<nat>, arrivals: seq<Arrival>)
  {
    && |got| == |arrivals|
    && (sameChain ==> AsExpected(got, texts, stale, arrivals))
    && (!sameChain ==> Nothing(got))
    && ((exists k :: 0 <= k < |got| && got[k].Some?) <==> sameChain && !(Indices(arrivals) <= stale))
  }

  lemma ChainHasDecided(
    sameChain: bool, got: seq<Option<ByteString>>, l: Link, log: seq<Envelope>, texts: seq<ByteString>,
    arrivals: seq<Arrival>, es: seq<Envelope>)
    requires AllArrive(l, log, arrivals, es) && OnlyCopies(arrivals) && |log| == |texts| && |got| == |es|
    requires if sameChain then AsExpected(got, texts, l.stale.Keys, arrivals)
             else Nothing(got)
    ensures ChainDecides(sameChain, got, texts, l.stale.Keys, arrivals)
  {
    if sameChain && !(Indices(arrivals) <= l.stale.Keys) {
      var k :| 0 <= k < |arrivals| && arrivals[k].index !in l.stale.Keys;
      var first := FirstCopy(arrivals, k);
      assert Arrives(l, log, arrivals[first], es[first]);
      assert got[first].Some?;
    }
    if k :| 0 <= k < |es| && got[k].Some? {
      assert arrivals[k].index in Indices(arrivals);
    }
  }

  lemma StartDecides(
    l: Link, b: RatchetState, log: seq<Envelope>, texts: seq<ByteString>, arrivals: seq<Arrival>, es: seq<Envelope>)
    requires l.Usable() && b.sessionId == l.sessionId && b.lastRemote == l.peer
    requires b.recvNumber == 0 && b.skipped == l.stale
    requires b.recvChain != l.root ==> ChainShut(l, b.recvChain)
    requires |log| == |texts| < U32_LIMIT
    requires forall i :: 0 <= i < |log| ==> IsMessage(l, i, log[i], texts[i])
    requires AllArrive(l, log, arrivals, es) && OnlyCopies(arrivals)
    ensures ChainDecides(b.recvChain == l.root, Receive(l.p, b, es).1, texts, l.stale.Keys, arrivals)
  {
    hide Receive, IsMessage, KeyShut, Arrives, ChainDecides;
    StartOfChain(l, b, log, texts, arrivals, es);
    ChainHasDecided(b.recvChain == l.root, Receive(l.p, b, es).1, l, log, texts, arrivals, es);
  }

  /** The sides do not swap the roles of the two chains. So after any number of rounds what one side sends arrives at
      the other if and only if the send chain and the receive chain derived from the shared root are the same one. */
  lemma {:induction false} ArrivesAfterRoundsIff(
    p: Primitives, a0: RatchetState, b0: RatchetState, n: nat, a: RatchetState, b: RatchetState, name: ByteString,
    sends: seq<Sending>, arrivals: seq<Arrival>, es: seq<Envelope>)
    requires p.Sound() && a0.rootKey == b0.rootKey && KeyPair(p, a0) && KeyPair(p, b0)
    requires n > 0 && Rounds(p, a0, b0, n) == Some((a, b))
    requires |sends| < U32_LIMIT && name != []
    requires SenderNamed(a.sessionId, sends, name) && ReceiverNamed(b.sessionId, es, name)
    requires var l := Link(p, a.sendChain, name, a.dhPublic, Drafts(sends), b.skipped);
             && l.Usable() && (a.sendChain != b.recvChain ==> ChainShut(l, b.recvChain))
             && AllArrive(l, Send(p, a, sends).1, arrivals, es) && OnlyCopies(arrivals)
    ensures ChainDecides(SameChain(p, b.rootKey), Receive(p, b, es).1, Texts(sends), b.skipped.Keys, arrivals)
  {
    hide Receive, Send, Rounds, Hkdf.Expand, KeysSeparate, StaleShut, ChainShut, IsMessage, AllArrive, OnlyCopies;
    hide ChainDecides, SenderNamed, ReceiverNamed, KeyPair;
    RoundsEnd(p, a0, b0, n, a, b);
    var l := Link(p, a.sendChain, name, a.dhPublic, Drafts(sends), b.skipped);
    StartNamedDecides(l, a, b, sends, arrivals, es);
  }

  lemma {:induction false} StartNamedDecides(
    l: Link, a: RatchetState, b: RatchetState, sends: seq<Sending>, arrivals: seq<Arrival>, es: seq<Envelope>)
    requires l.Usable() && |sends| < U32_LIMIT && Drafts(sends) <= l.used && l.sessionId != []
    requires SenderInv(l, 0, a.(sessionId := l.sessionId)) && SenderNamed(a.sessionId, sends, l.sessionId)
    requires ReceiverNamed(b.sessionId, es, l.sessionId)
    requires b.lastRemote == l.peer && b.recvNumber == 0 && b.skipped == l.stale
    requires b.recvChain != l.root ==> ChainShut(l, b.recvChain)
    requires AllArrive(l, Send(l.p, a, sends).1, arrivals, es) && OnlyCopies(arrivals)
    ensures ChainDecides(b.recvChain == l.root, Receive(l.p, b, es).1, Texts(sends), l.stale.Keys, arrivals)
  {
    hide Receive, Send, KeysSeparate, StaleShut, ChainShut, IsMessage, AllArrive, OnlyCopies, SenderInv, SenderNamed;
    hide ReceiverNamed, ChainDecides;
    NamedSends(l, a, sends);
    NamedReceives(l.p, b, l.sessionId, es);
    StartDecides(l, b.(sessionId := l.sessionId), Send(l.p, a, sends).1, Texts(sends), arrivals, es);
  }

  lemma {:induction false} RawStartDecides(
    l: Link, a: RatchetState, b: RatchetState, name: ByteString,
    sends: seq<Sending>, arrivals: seq<Arrival>, bs: seq<ByteString>)
    requires l.Usable() && |sends| < U32_LIMIT && Drafts(sends) <= l.used
    requires SenderInv(l, 0, a.(sessionId := l.sessionId)) && name != [] && SenderNamed(a.sessionId, sends, name)
    requires b.sessionId == l.sessionId && b.lastRemote == l.peer && b.recvNumber == 0 && b.skipped == l.stale
    requires b.recvChain != l.root ==> ChainShut(l, b.recvChain)
    requires |arrivals| == |bs| && OnlyCopies(arrivals)
    requires forall k :: 0 <= k < |bs| ==> RawArrives(l, Send(l.p, a, sends).1, arrivals[k], bs[k])
    ensures ChainDecides(b.recvChain == l.root, ReceiveRaw(l.p, b, bs).1, Texts(sends), l.stale.Keys, arrivals)
  {
    hide Receive, ReceiveRaw, Send, KeysSeparate, StaleShut, ChainShut, IsMessage, AllArrive, OnlyCopies, RawArrives;
    hide SenderInv, SenderNamed, ChainDecides;
    var log := RawLog(l, a, name, sends, arrivals, bs);
    RawAsEnvelopes(l.p, b, bs);
    StartDecides(l, b, log, Texts(sends), arrivals, Unpacked(b.sessionId, bs));
  }

  /** The same through `encrypt` and `decrypt`, whatever session ids the two sides have or lack. */
  lemma {:induction false} RawArrivesAfterRoundsIff(
    p: Primitives, a0: RatchetState, b0: RatchetState, n: nat, a: RatchetState, b: RatchetState, name: ByteString,
    sends: seq<Sending>, arrivals: seq<Arrival>, bs: seq<ByteString>)
    requires p.Sound() && a0.rootKey == b0.rootKey && KeyPair(p, a0) && KeyPair(p, b0)
    requires n > 0 && Rounds(p, a0, b0, n) == Some((a, b))
    requires |sends| < U32_LIMIT && name != [] && SenderNamed(a.sessionId, sends, name)
    requires var l := Link(p, a.sendChain, b.sessionId, a.dhPublic, Drafts(sends), b.skipped);
             && l.Usable() && (a.sendChain != b.recvChain ==> ChainShut(l, b.recvChain))
             && |arrivals| == |bs| && OnlyCopies(arrivals)
             && forall k :: 0 <= k < |bs| ==> RawArrives(l, Send(p, a, sends).1, arrivals[k], bs[k])
    ensures ChainDecides(SameChain(p, b.rootKey), ReceiveRaw(p, b, bs).1, Texts(sends), b.skipped.Keys, arrivals)
  {
    hide Receive, ReceiveRaw, Send, Rounds, Hkdf.Expand, KeysSeparate, StaleShut, ChainShut, IsMessage;
    hide AllArrive, OnlyCopies, RawArrives, SenderNamed, ChainDecides, KeyPair;
    RoundsEnd(p, a0, b0, n, a, b);
    var l := Link(p, a.sendChain, b.sessionId, a.dhPublic, Drafts(sends), b.skipped);
    RawStartDecides(l, a, b, name, sends, arrivals, bs);
  }
}
