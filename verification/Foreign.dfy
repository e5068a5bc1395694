/** What an envelope that carries a key other than the peer's does to a session: which messages it costs. */
module Foreign {
  import opened Bytes
  import opened Crypto
  import opened Envelopes
  import opened RatchetSession
  import opened Delivery

  predicate IsForeign(l: Link, e: Envelope) {
    e.sessionId == l.sessionId && |e.associatedData| >= HEADER_BYTES && !CarriesKey(e, l.peer)
  }

  function KeyOf(e: Envelope): ByteString
    requires |e.associatedData| >= HEADER_BYTES
  {
    e.associatedData[4..HEADER_BYTES]
  }

  /** The messages in `open` still have their own key stored; whatever else is stored opens nothing. */
  ghost predicate OnlyOpen(l: Link, open: set<nat>, skipped: map<nat, ByteString>) {
    && (forall i :: i in open ==> i in skipped && skipped[i] == KeyAt(l.p, l.root, i))
    && (forall i: u32 :: i in skipped && i !in open ==> KeyShut(l, skipped[i], i))
  }

  /** A receiver that has left the sender's chain for one of no use to it. */
  ghost predicate Stranded(l: Link, chain: ByteString, open: set<nat>, s: RatchetState) {
    s.recvChain == ChainAt(l.p, chain, s.recvNumber) && OnlyOpen(l, open, s.skipped)
  }

  lemma {:induction false} StrandedCatchUp(l: Link, chain: ByteString, open: set<nat>, s: RatchetState, number: u32)
    requires ChainShut(l, chain) && Stranded(l, chain, open, s)
    ensures var s' := CatchUp(l.p, s, number);
            && Stranded(l, chain, open, s')
            && s'.lastRemote == s.lastRemote && s'.sessionId == s.sessionId && s'.dhPrivate == s.dhPrivate
    decreases number - s.recvNumber
  {
    if s.recvNumber < number {
      assert KeyShut(l, KeyAt(l.p, chain, s.recvNumber), s.recvNumber);
      StrandedCatchUp(l, chain, open, SkipOne(l.p, s), number);
    }
  }

  /** A stranded receiver takes what it has a stored key for, once. */
  lemma StrandedStep(
    l: Link, chain: ByteString, open: set<nat>, s: RatchetState, i: u32, e: Envelope, text: ByteString)
    requires l.Usable() && ChainShut(l, chain) && Stranded(l, chain, open, s)
    requires s.sessionId == l.sessionId && s.lastRemote == l.peer && IsMessage(l, i, e, text)
    ensures var (s', r) := Decrypt(l.p, s, e);
            && r == (if i in open then Some(text) else None)
            && Stranded(l, chain, open - {i}, s') && s'.sessionId == l.sessionId && s'.lastRemote == l.peer
  {
    hide Header, ClaimedNumber, KeysSeparate, StaleShut;
    HeaderReads(i, l.peer);
    var s1 := s.(sessionId := e.sessionId);
    assert s1 == s && s1.(lastRemote := l.peer) == s;
    StrandedCatchUp(l, chain, open, s, i);
    var caught := CatchUp(l.p, s, i);
    assert Decrypt(l.p, s, e) == OpenAt(l.p, caught, i, e);
    var d :| d in l.used && d.text == text && e.ciphertext == l.Ciphertext(i, d);
    if i !in open {
      assert open - {i} == open;
      assert KeyShut(l, KeyAt(l.p, chain, caught.recvNumber), i);
      assert i in caught.skipped ==> KeyShut(l, caught.skipped[i], i);
    }
  }

  /** Over a whole run of genuine arrivals: each message in `open` on its first copy, nothing else. */
  lemma {:induction false} StrandedRun(
    l: Link, chain: ByteString, open: set<nat>, s: RatchetState, log: seq<Envelope>, texts: seq<ByteString>,
    arrivals: seq<Arrival>, es: seq<Envelope>)
    requires l.Usable() && ChainShut(l, chain) && Stranded(l, chain, open, s)
    requires s.sessionId == l.sessionId && s.lastRemote == l.peer
    requires |log| == |texts| < U32_LIMIT
    requires forall i :: 0 <= i < |log| ==> IsMessage(l, i, log[i], texts[i])
    requires AllArrive(l, log, arrivals, es) && OnlyCopies(arrivals)
    ensures var (s', got) := Receive(l.p, s, es);
            && Stranded(l, chain, open - Indices(arrivals), s')
            && s'.sessionId == l.sessionId && s'.lastRemote == l.peer
            && AsExpected(got, texts, Below(|log|) - open, arrivals)
  {
    hide IsMessage, Decrypt, Outcome, ChainShut, Stranded, KeysSeparate, StaleShut, Below;
    if es == [] {
      assert open - Indices(arrivals) == open;
    } else {
      var last := |es| - 1;
      var before, a := arrivals[..last], arrivals[last];
      AllButLast(l, log, arrivals, es);
      StrandedRun(l, chain, open, s, log, texts, before, es[..last]);
      var (s1, got) := Receive(l.p, s, es[..last]);
      var left := open - Indices(before);
      assert a.Copy? && a.index < |log| && es[last] == log[a.index];
      StrandedStep(l, chain, left, s1, a.index, es[last], texts[a.index]);
      IndicesGrow(arrivals);
      OneIndex(a);
      assert open - Indices(arrivals) == left - {a.index};
      ExpectOpen(texts, open, Indices(before), a);
      ExpectMore(got, texts, Below(|log|) - open, arrivals, Decrypt(l.p, s1, es[last]).1);
    }
  }

  lemma OneIndex(a: Arrival)
    requires a.Copy?
    ensures Indices([a]) == {a.index}
  {
    assert a in [a];
  }

  lemma ExpectOpen(texts: seq<ByteString>, open: set<nat>, before: set<nat>, a: Arrival)
    requires a.Copy? && a.index < |texts|
    ensures Outcome(texts, Below(|texts|) - open + before, [a], 0)
            == if a.index in open - before then Some(texts[a.index]) else None
  {
    assert Indices([a][..0]) == {};
  }

  /** The numbers whose own key is still stored once a foreign key has been met. */
  function Survivors(l: Link, done: set<nat>, s: RatchetState, e: Envelope): set<nat>
    requires |e.associatedData| >= HEADER_BYTES
  {
    var reached := if s.lastRemote == [] then Max(s.recvNumber, ClaimedNumber(e.associatedData)) else s.recvNumber;
    Below(reached) - done - l.stale.Keys
  }

  /** The chain the foreign key leads to, if the source steps onto one, is of no use to the sender's messages. */
  ghost predicate AwayShut(l: Link, s: RatchetState, e: Envelope)
    requires l.p.HmacSized() && |e.associatedData| >= HEADER_BYTES
  {
    var met := MeetPeer(l.p, s, KeyOf(e));
    s.lastRemote != [] && met.Some? ==> ChainShut(l, met.value.recvChain)
  }

  /** And so is the chain that the next genuine message leads to. */
  ghost predicate ReturnShut(l: Link, s: RatchetState)
    requires l.p.HmacSized()
  {
    var met := MeetPeer(l.p, s, l.peer);
    met.Some? ==> ChainShut(l, met.value.recvChain)
  }

  lemma StoredSurvive(l: Link, done: set<nat>, s: RatchetState, open: set<nat>)
    requires StaleShut(l) && ReceiverInv(l, done, s) && open == Below(s.recvNumber) - done - l.stale.Keys
    ensures OnlyOpen(l, open, s.skipped)
  {
    hide KeyShut, KeyAt;
  }

  /** Before any key has been met, the foreign one is taken for the peer's, and the chain catches up. */
  lemma FirstKeyForeign(l: Link, done: set<nat>, s: RatchetState, e: Envelope)
    requires l.Usable() && ReceiverInv(l, done, s) && IsForeign(l, e) && Inauthentic(l, e) && s.lastRemote == []
    ensures var (s', r) := Decrypt(l.p, s, e);
            && r == None && OnlyOpen(l, Survivors(l, done, s, e), s'.skipped)
            && s'.sessionId == l.sessionId && s'.lastRemote == KeyOf(e) && s'.dhPrivate == s.dhPrivate
  {
    var number := ClaimedNumber(e.associatedData);
    var l' := l.(peer := KeyOf(e));
    var s2 := s.(sessionId := e.sessionId, lastRemote := KeyOf(e));
    assert ReceiverInv(l', done, s2);
    CatchUpKeeps(l', done, s2, number);
    var caught := CatchUp(l.p, s2, number);
    assert ReceiverInv(l, done, caught.(lastRemote := []));
    assert Decrypt(l.p, s, e) == OpenAt(l.p, caught, number, e);
    assert l.p.unseal(KeyAt(l.p, l.root, number), e.associatedData, e.ciphertext) == None;
    assert l.p.unseal(KeyAt(l.p, l.root, caught.recvNumber), e.associatedData, e.ciphertext) == None;
    StoredSurvive(l, done, caught.(lastRemote := []), Survivors(l, done, s, e));
  }

  /** Once the peer's key has been met, a foreign one steps the root and leaves the chain behind. */
  lemma LaterKeyForeign(l: Link, done: set<nat>, s: RatchetState, e: Envelope)
    requires l.Usable() && ReceiverInv(l, done, s) && IsForeign(l, e) && Inauthentic(l, e) && s.lastRemote != []
    requires MeetPeer(l.p, s, KeyOf(e)).Some? && AwayShut(l, s, e)
    ensures var s' := Decrypt(l.p, s, e).0;
            && OnlyOpen(l, Survivors(l, done, s, e), s'.skipped)
            && s'.sessionId == l.sessionId && s'.lastRemote == KeyOf(e) && s'.dhPrivate == s.dhPrivate
  {
    hide KeysSeparate, ChainShut, Inauthentic, StaleShut, OnlyOpen, OpenAt;
    var number, open := ClaimedNumber(e.associatedData), Survivors(l, done, s, e);
    assert s.(sessionId := e.sessionId) == s;
    var met := MeetPeer(l.p, s, KeyOf(e)).value;
    StoredSurvive(l, done, s, open);
    assert Stranded(l, met.recvChain, open, met);
    StrandedCatchUp(l, met.recvChain, open, met, number);
    var caught := CatchUp(l.p, met, number);
    assert Decrypt(l.p, s, e) == OpenAt(l.p, caught, number, e);
    OpenKeepsOpen(l, open, caught, number, e);
  }

  lemma OpenKeepsOpen(l: Link, open: set<nat>, s: RatchetState, number: u32, e: Envelope)
    requires OnlyOpen(l, open, s.skipped) && Inauthentic(l, e)
    ensures var s' := OpenAt(l.p, s, number, e).0;
            && OnlyOpen(l, open, s'.skipped)
            && s'.sessionId == s.sessionId && s'.lastRemote == s.lastRemote && s'.dhPrivate == s.dhPrivate
  {
    hide KeyShut, KeyAt;
    assert number in open ==> l.p.unseal(KeyAt(l.p, l.root, number), e.associatedData, e.ciphertext) == None;
  }

  /** A genuine message that finds the session at a foreign key steps the root once more, or is refused for good. */
  lemma ComesBack(l: Link, s: RatchetState, i: u32, e: Envelope, text: ByteString)
    requires l.Usable() && s.sessionId == l.sessionId && s.lastRemote != [] && s.lastRemote != l.peer
    requires IsMessage(l, i, e, text)
    ensures var met := MeetPeer(l.p, s, l.peer);
            if met.None? then Decrypt(l.p, s, e) == (s, None) else Decrypt(l.p, s, e) == Decrypt(l.p, met.value, e)
  {
    hide Header, ClaimedNumber, KeysSeparate, StaleShut, CatchUp, OpenAt;
    HeaderReads(i, l.peer);
    assert s.(sessionId := e.sessionId) == s;
    var met := MeetPeer(l.p, s, l.peer);
    if met.Some? {
      assert met.value.(sessionId := e.sessionId) == met.value;
      assert MeetPeer(l.p, met.value, l.peer) == Some(met.value);
    }
  }

  /** After one unauthentic envelope with a foreign key that the source acts on: of the messages not yet delivered,
      exactly those whose key is stored by then still open, on their first copy, provided that the shared secret with
      the peer can be computed; all others are lost. */
  lemma AfterForeignKey(
    l: Link, done: set<nat>, s: RatchetState, e: Envelope, log: seq<Envelope>, texts: seq<ByteString>,
    arrivals: seq<Arrival>, es: seq<Envelope>)
    requires l.Usable() && ReceiverInv(l, done, s) && IsForeign(l, e) && Inauthentic(l, e)
    requires MeetPeer(l.p, s, KeyOf(e)).Some? && AwayShut(l, s, e) && ReturnShut(l, Decrypt(l.p, s, e).0)
    requires |log| == |texts| < U32_LIMIT
    requires forall i :: 0 <= i < |log| ==> IsMessage(l, i, log[i], texts[i])
    requires AllArrive(l, log, arrivals, es) && OnlyCopies(arrivals)
    ensures var got := Receive(l.p, Decrypt(l.p, s, e).0, es).1;
            if l.p.dh(s.dhPrivate, l.peer).None? then Nothing(got)
            else AsExpected(got, texts, Below(|log|) - Survivors(l, done, s, e), arrivals)
  {
    hide IsMessage, Receive, ReceiverInv, Inauthentic, KeysSeparate, StaleShut, ChainShut, OnlyOpen, Below, RootChain;
    var s' := AtForeignKey(l, done, s, e);
    var open := Survivors(l, done, s, e);
    var met := MeetPeer(l.p, s', l.peer);
    RunComesBack(l, s', log, texts, arrivals, es);
    if met.Some? {
      Returned(l, open, s');
      StrandedRun(l, met.value.recvChain, open, met.value, log, texts, arrivals, es);
    }
  }

  lemma AtForeignKey(l: Link, done: set<nat>, s: RatchetState, e: Envelope) returns (s': RatchetState)
    requires l.Usable() && ReceiverInv(l, done, s) && IsForeign(l, e) && Inauthentic(l, e)
    requires MeetPeer(l.p, s, KeyOf(e)).Some? && AwayShut(l, s, e)
    ensures s' == Decrypt(l.p, s, e).0
    ensures OnlyOpen(l, Survivors(l, done, s, e), s'.skipped)
    ensures s'.sessionId == l.sessionId && s'.lastRemote == KeyOf(e) && s'.dhPrivate == s.dhPrivate
  {
    hide Decrypt, ReceiverInv, Inauthentic, KeysSeparate, StaleShut, OnlyOpen, Survivors;
    s' := Decrypt(l.p, s, e).0;
    if s.lastRemote == [] {
      FirstKeyForeign(l, done, s, e);
    } else {
      LaterKeyForeign(l, done, s, e);
    }
  }

  lemma Returned(l: Link, open: set<nat>, s: RatchetState)
    requires l.p.HmacSized() && OnlyOpen(l, open, s.skipped)
    requires s.sessionId == l.sessionId && s.lastRemote != [] && s.lastRemote != l.peer
    requires MeetPeer(l.p, s, l.peer).Some?
    ensures var met := MeetPeer(l.p, s, l.peer).value;
            && Stranded(l, met.recvChain, open, met) && met.sessionId == l.sessionId && met.lastRemote == l.peer
  {
    hide OnlyOpen;
  }

  lemma {:induction false} RunComesBack(
    l: Link, s: RatchetState, log: seq<Envelope>, texts: seq<ByteString>, arrivals: seq<Arrival>, es: seq<Envelope>)
    requires l.Usable() && s.sessionId == l.sessionId && s.lastRemote != [] && s.lastRemote != l.peer
    requires |log| == |texts| < U32_LIMIT
    requires forall i :: 0 <= i < |log| ==> IsMessage(l, i, log[i], texts[i])
    requires AllArrive(l, log, arrivals, es) && OnlyCopies(arrivals)
    ensures var met := MeetPeer(l.p, s, l.peer);
            if met.None? then Receive(l.p, s, es).0 == s && Nothing(Receive(l.p, s, es).1)
            else es != [] ==> Receive(l.p, s, es) == Receive(l.p, met.value, es)
  {
    hide IsMessage, Decrypt, MeetPeer, KeysSeparate, StaleShut;
    if es != [] {
      var last := |es| - 1;
      AllButLast(l, log, arrivals, es);
      RunComesBack(l, s, log, texts, arrivals[..last], es[..last]);
      if last == 0 || MeetPeer(l.p, s, l.peer).None? {
        assert arrivals[last].Copy?;
        ComesBack(l, s, arrivals[last].index, es[last], texts[arrivals[last].index]);
      }
    }
  }

  /** Which unauthentic envelopes cost an undelivered message: those that carry a foreign key which the source acts on,
      unless the key of the message is stored by then and the session finds its way back to the peer. */
  lemma JunkHarmlessIff(
    l: Link, done: set<nat>, s: RatchetState, e: Envelope, i: u32, g: Envelope, text: ByteString)
    requires l.Usable() && ReceiverInv(l, done, s) && Inauthentic(l, e) && (l.sessionId == [] ==> e.sessionId == [])
    requires IsForeign(l, e) && MeetPeer(l.p, s, KeyOf(e)).Some? ==>
               AwayShut(l, s, e) && ReturnShut(l, Decrypt(l.p, s, e).0)
    requires IsMessage(l, i, g, text) && i + 1 < U32_LIMIT && i !in done && i !in l.stale
    ensures Decrypt(l.p, Decrypt(l.p, s, e).0, g).1 == Some(text)
            <==> !IsForeign(l, e) || MeetPeer(l.p, s, KeyOf(e)).None?
                 || (i in Survivors(l, done, s, e) && l.p.dh(s.dhPrivate, l.peer).Some?)
    ensures ReceiverInv(l, done, Decrypt(l.p, s, e).0) <==> !IsForeign(l, e) || MeetPeer(l.p, s, KeyOf(e)).None?
  {
    hide IsMessage, Decrypt, Inauthentic, KeysSeparate, StaleShut, ChainShut, OnlyOpen, Survivors;
    if !IsForeign(l, e) || MeetPeer(l.p, s, KeyOf(e)).None? {
      HarmlessKeeps(l, done, s, e);
      DecryptMessage(l, done, Decrypt(l.p, s, e).0, i, g, text);
    } else {
      var s' := AtForeignKey(l, done, s, e);
      ComesBack(l, s', i, g, text);
      var met := MeetPeer(l.p, s', l.peer);
      if met.Some? {
        Returned(l, Survivors(l, done, s, e), s');
        StrandedStep(l, met.value.recvChain, Survivors(l, done, s, e), met.value, i, g, text);
      }
    }
  }

  lemma HarmlessKeeps(l: Link, done: set<nat>, s: RatchetState, e: Envelope)
    requires l.Usable() && ReceiverInv(l, done, s) && Inauthentic(l, e) && (l.sessionId == [] ==> e.sessionId == [])
    requires !IsForeign(l, e) || MeetPeer(l.p, s, KeyOf(e)).None?
    ensures ReceiverInv(l, done, Decrypt(l.p, s, e).0)
  {
    if IsJunk(l, e) {
      DecryptJunk(l, done, s, e);
    }
  }

  /** Both directions share their keys and nothing authenticates who sent an envelope, so a side's own message can open
      when it comes back to the session it was sent from: exactly if no message of that number has been accepted and
      either no key has been met yet or the key of that number is among the skipped ones. */
  lemma ReflectionOpensIff(l: Link, own: Link, done: set<nat>, s: RatchetState, i: u32, e: Envelope, text: ByteString)
    requires own.Usable() && own == l.(peer := s.dhPublic, used := own.used) && own.peer != l.peer
    requires ReceiverInv(l, done, s) && IsMessage(own, i, e, text) && i + 1 < U32_LIMIT && |l.peer| == KEY_BYTES
    requires s.lastRemote != [] ==> ReturnShut(own, s)
    ensures Decrypt(l.p, s, e).1
            == if i !in done && i !in l.stale
                  && (s.lastRemote == [] || (i < s.recvNumber && l.p.dh(s.dhPrivate, s.dhPublic).Some?))
               then Some(text) else None
  {
    hide IsMessage, Decrypt, KeysSeparate, StaleShut, ChainShut, OnlyOpen, Stranded;
    var unmet := s.(lastRemote := []);
    assert ReceiverInv(own, done, unmet);
    if s.lastRemote == [] {
      DecryptMessage(own, done, s, i, e, text);
    } else {
      var open := Below(s.recvNumber) - done - l.stale.Keys;
      StoredSurvive(own, done, unmet, open);
      ComesBack(own, s, i, e, text);
      var met := MeetPeer(l.p, s, own.peer);
      if met.Some? {
        Returned(own, open, s);
        StrandedStep(own, met.value.recvChain, open, met.value, i, e, text);
      }
    }
  }

  /** A key that a receiver may have come to store under a number: its own one, an older one, or one of a chain in
      `away`. If it is its own, the message has not been taken; otherwise it opens no message of that number. */
  ghost predicate MayStore(l: Link, away: set<ByteString>, done: set<nat>, i: u32, key: ByteString) {
    if i in l.stale then key == l.stale[i] && KeyShut(l, key, i)
    else if key == KeyAt(l.p, l.root, i) then i !in done || KeyShut(l, key, i)
    else KeyShut(l, key, i) && exists c :: c in away && key == KeyAt(l.p, c, i)
  }

  /** Which chain the receiver walks: the session's, or one that a Diffie-Hellman step has led to. */
  datatype Walk = Home | Away(chain: ByteString)

  ghost predicate Walks(l: Link, away: set<ByteString>, w: Walk, s: RatchetState) {
    match w
    case Home => s.recvChain == ChainAt(l.p, l.root, s.recvNumber)
    case Away(c) => c in away && s.recvChain == ChainAt(l.p, c, s.recvNumber)
  }

  /** The receiver's state after the messages in `done` have been accepted. */
  ghost predicate Safe(l: Link, away: set<ByteString>, w: Walk, done: set<nat>, s: RatchetState) {
    && s.sessionId == l.sessionId && Walks(l, away, w, s)
    && (w.Home? ==> (forall i :: i in done ==> i < s.recvNumber)
                    && forall i: nat :: i in s.skipped ==> i in l.stale || i < s.recvNumber)
    && (forall i :: i in l.stale ==> i in s.skipped)
    && (forall i: u32 :: i in s.skipped ==> MayStore(l, away, done, i, s.skipped[i]))
  }

  ghost predicate AllShut(l: Link, away: set<ByteString>) {
    forall c :: c in away ==> ChainShut(l, c)
  }

  /** No key of the session, nor of any chain in `away`, opens `e`. */
  ghost predicate Forgery(l: Link, away: set<ByteString>, e: Envelope) {
    Inauthentic(l, e)
    && forall c, j: u32 :: c in away ==> l.p.unseal(KeyAt(l.p, c, j), e.associatedData, e.ciphertext) == None
  }

  /** `e` makes the receiver step the root. */
  predicate Steps(l: Link, s: RatchetState, e: Envelope)
    requires l.p.HmacSized()
  {
    && |e.associatedData| >= HEADER_BYTES && s.lastRemote != [] && KeyOf(e) != s.lastRemote
    && MeetPeer(l.p, s, KeyOf(e)).Some?
  }

  /** If it does, it comes to a chain in `away`. */
  ghost predicate LeadsInto(l: Link, away: set<ByteString>, s: RatchetState, e: Envelope)
    requires l.p.HmacSized()
  {
    Steps(l, s, e) ==> MeetPeer(l.p, s, KeyOf(e)).value.recvChain in away
  }

  lemma SafeStart(l: Link, away: set<ByteString>, done: set<nat>, s: RatchetState)
    requires StaleShut(l) && ReceiverInv(l, done, s)
    ensures Safe(l, away, Home, done, s)
  {
    hide KeyShut, KeyAt, ChainAt;
  }

  lemma SafeMeets(l: Link, away: set<ByteString>, w: Walk, done: set<nat>, s: RatchetState, e: Envelope)
    returns (w': Walk)
    requires l.p.HmacSized() && Safe(l, away, w, done, s) && LeadsInto(l, away, s, e)
    requires |e.associatedData| >= HEADER_BYTES && MeetPeer(l.p, s, KeyOf(e)).Some?
    ensures Safe(l, away, w', done, MeetPeer(l.p, s, KeyOf(e)).value)
  {
    hide MayStore;
    w' := if Steps(l, s, e) then Away(MeetPeer(l.p, s, KeyOf(e)).value.recvChain) else w;
  }

  lemma MayStoreOwn(l: Link, away: set<ByteString>, done: set<nat>, i: u32)
    requires i !in done && i !in l.stale
    ensures MayStore(l, away, done, i, KeyAt(l.p, l.root, i))
  {
  }

  lemma MayStoreAway(l: Link, away: set<ByteString>, done: set<nat>, i: u32, c: ByteString)
    requires c in away && AllShut(l, away) && i !in l.stale
    ensures MayStore(l, away, done, i, KeyAt(l.p, c, i))
  {
    assert KeyShut(l, KeyAt(l.p, c, i), i);
  }

  lemma SafeSkips(l: Link, away: set<ByteString>, w: Walk, done: set<nat>, s: RatchetState)
    requires AllShut(l, away) && Safe(l, away, w, done, s) && s.recvNumber + 1 < U32_LIMIT
    ensures Safe(l, away, w, done, SkipOne(l.p, s))
  {
    hide MayStore, AllShut;
    if s.recvNumber !in s.skipped {
      match w
      case Home => MayStoreOwn(l, away, done, s.recvNumber);
      case Away(c) => MayStoreAway(l, away, done, s.recvNumber, c);
    }
  }

  lemma {:induction false} SafeCatchUp(
    l: Link, away: set<ByteString>, w: Walk, done: set<nat>, s: RatchetState, number: u32)
    requires AllShut(l, away) && Safe(l, away, w, done, s)
    ensures var s' := CatchUp(l.p, s, number);
            Safe(l, away, w, done, s') && s'.recvNumber == Max(s.recvNumber, number)
    decreases number - s.recvNumber
  {
    hide AllShut, Safe;
    if s.recvNumber < number {
      SafeSkips(l, away, w, done, s);
      SafeCatchUp(l, away, w, done, SkipOne(l.p, s), number);
    }
  }

  lemma TakingKeeps(l: Link, away: set<ByteString>, done: set<nat>, i: nat, j: u32, key: ByteString)
    requires MayStore(l, away, done, j, key) && i != j
    ensures MayStore(l, away, done + {i}, j, key)
  {
  }

  /** With the chain caught up, a genuine message opens only if it has not been taken, and with its own text. */
  lemma SafeOpens(
    l: Link, away: set<ByteString>, w: Walk, done: set<nat>, s: RatchetState, i: u32, e: Envelope, text: ByteString)
    requires l.Usable() && AllShut(l, away) && Safe(l, away, w, done, s) && i <= s.recvNumber && i + 1 < U32_LIMIT
    requires IsMessage(l, i, e, text)
    ensures var (s', r) := OpenAt(l.p, s, i, e);
            && (r.Some? ==> r == Some(text) && i !in done)
            && Safe(l, away, w, if r.Some? then done + {i} else done, s')
  {
    hide MayStore, StaleShut, KeyAt;
    var d :| d in l.used && d.text == text && e.ciphertext == l.Ciphertext(i, d);
    var (s', r) := OpenAt(l.p, s, i, e);
    if i in s.skipped {
      StoredOpens(l, away, done, i, s.skipped[i], e, text);
    } else {
      ChainOpens(l, away, w, s, i, e, text);
    }
    if r.Some? {
      forall j: u32 | j in s'.skipped
        ensures MayStore(l, away, done + {i}, j, s'.skipped[j])
      {
        TakingKeeps(l, away, done, i, j, s.skipped[j]);
      }
    }
  }

  lemma StoredOpens(
    l: Link, away: set<ByteString>, done: set<nat>, i: u32, key: ByteString, e: Envelope, text: ByteString)
    requires l.p.Sound() && MayStore(l, away, done, i, key) && IsMessage(l, i, e, text)
    ensures var r := l.p.unseal(key, e.associatedData, e.ciphertext);
            r.Some? ==> r == Some(text) && i !in done && i !in l.stale
  {
    hide KeyAt;
    var d :| d in l.used && d.text == text && e.ciphertext == l.Ciphertext(i, d);
  }

  lemma ChainOpens(l: Link, away: set<ByteString>, w: Walk, s: RatchetState, i: u32, e: Envelope, text: ByteString)
    requires l.Usable() && AllShut(l, away) && Walks(l, away, w, s) && i <= s.recvNumber && IsMessage(l, i, e, text)
    ensures var r := l.p.unseal(MessageKey(l.p, s.recvChain), e.associatedData, e.ciphertext);
            r.Some? ==> r == Some(text) && w.Home? && i == s.recvNumber
  {
    hide ChainAt, StaleShut;
    var d :| d in l.used && d.text == text && e.ciphertext == l.Ciphertext(i, d);
    match w
    case Home =>
      if i < s.recvNumber {
        assert KeyShut(l, KeyAt(l.p, l.root, s.recvNumber), i);
      }
    case Away(c) =>
      assert ChainShut(l, c) && KeyShut(l, KeyAt(l.p, c, s.recvNumber), i);
  }

  lemma SafeRefuses(
    l: Link, away: set<ByteString>, w: Walk, done: set<nat>, s: RatchetState, e: Envelope)
    requires Safe(l, away, w, done, s) && Forgery(l, away, e) && |e.associatedData| >= HEADER_BYTES
    ensures OpenAt(l.p, s, ClaimedNumber(e.associatedData), e) == (s, None)
  {
    hide ClaimedNumber, ChainAt;
    var number := ClaimedNumber(e.associatedData);
    if number in s.skipped {
      assert MayStore(l, away, done, number, s.skipped[number]);
    } else if w.Home? {
      assert l.p.unseal(KeyAt(l.p, l.root, s.recvNumber), e.associatedData, e.ciphertext) == None;
    } else {
      assert l.p.unseal(KeyAt(l.p, w.chain, s.recvNumber), e.associatedData, e.ciphertext) == None;
    }
  }

  /** What reaches a receiver: a copy of a message, or something no key it may come to hold opens. */
  ghost predicate Mixed(l: Link, away: set<ByteString>, log: seq<Envelope>, a: Arrival, e: Envelope) {
    match a
    case Copy(i) => i < |log| && e == log[i]
    case Junk(x) => e == x && Forgery(l, away, x)
  }

  lemma SafeStep(
    l: Link, away: set<ByteString>, w: Walk, done: set<nat>, s: RatchetState,
    log: seq<Envelope>, texts: seq<ByteString>, a: Arrival, e: Envelope) returns (w': Walk)
    requires l.Usable() && l.sessionId != [] && AllShut(l, away) && Safe(l, away, w, done, s)
    requires LeadsInto(l, away, s, e) && Mixed(l, away, log, a, e) && |log| == |texts| < U32_LIMIT
    requires forall i :: 0 <= i < |log| ==> IsMessage(l, i, log[i], texts[i])
    ensures var (s', r) := Decrypt(l.p, s, e);
            && (r.Some? ==> a.Copy? && a.index < |texts| && r == Some(texts[a.index]) && a.index !in done)
            && Safe(l, away, w', if r.Some? then done + {a.index} else done, s')
  {
    hide MayStore, AllShut, KeysSeparate, StaleShut, Header, ClaimedNumber, Safe, LeadsInto, IsMessage, Forgery;
    w' := w;
    SafeSameId(l, away, w, done, s);
    if e.sessionId == l.sessionId && |e.associatedData| >= HEADER_BYTES && MeetPeer(l.p, s, KeyOf(e)).Some? {
      w' := SafeMeets(l, away, w, done, s, e);
      var met := MeetPeer(l.p, s, KeyOf(e)).value;
      var number := ClaimedNumber(e.associatedData);
      SafeCatchUp(l, away, w', done, met, number);
      var caught := CatchUp(l.p, met, number);
      assert Decrypt(l.p, s, e) == OpenAt(l.p, caught, number, e);
      match a {
        case Copy(i) =>
          NumberIs(l, i, e, texts[i]);
          SafeOpens(l, away, w', done, caught, i, e, texts[i]);
        case Junk(_) => SafeRefuses(l, away, w', done, caught, e);
      }
    }
  }

  lemma SafeSameId(l: Link, away: set<ByteString>, w: Walk, done: set<nat>, s: RatchetState)
    requires Safe(l, away, w, done, s)
    ensures s.sessionId == l.sessionId && s.(sessionId := l.sessionId) == s
  {
  }

  lemma NumberIs(l: Link, i: u32, e: Envelope, text: ByteString)
    requires IsMessage(l, i, e, text) && |l.peer| == KEY_BYTES
    ensures |e.associatedData| >= HEADER_BYTES && ClaimedNumber(e.associatedData) == i
  {
    HeaderReads(i, l.peer);
  }

  ghost predicate AllMixed(
    l: Link, away: set<ByteString>, log: seq<Envelope>, arrivals: seq<Arrival>, es: seq<Envelope>)
  {
    |arrivals| == |es| && forall k :: 0 <= k < |es| ==> Mixed(l, away, log, arrivals[k], es[k])
  }

  /** Every chain that the run steps onto is in `away`. */
  ghost predicate AllLeadInto(l: Link, away: set<ByteString>, s: RatchetState, es: seq<Envelope>)
    requires l.p.HmacSized()
  {
    forall k :: 0 <= k < |es| ==> LeadsInto(l, away, Receive(l.p, s, es[..k]).0, es[k])
  }

  /** Nothing but copies of messages is taken, each message at most once and with its own text, and none in `done`. */
  ghost predicate AtMostOnce(
    got: seq<Option<ByteString>>, texts: seq<ByteString>, done: set<nat>, arrivals: seq<Arrival>)
  {
    && |got| == |arrivals|
    && (forall k :: 0 <= k < |got| && got[k].Some? ==>
          && arrivals[k].Copy? && arrivals[k].index < |texts| && arrivals[k].index !in done
          && got[k] == Some(texts[arrivals[k].index]))
    && (forall j, k :: 0 <= j < k < |got| && got[j].Some? && got[k].Some? ==> arrivals[j] != arrivals[k])
  }

  lemma OnceMore(
    got: seq<Option<ByteString>>, texts: seq<ByteString>, done: set<nat>, done': set<nat>, arrivals: seq<Arrival>,
    one: Option<ByteString>)
    requires arrivals != [] && AtMostOnce(got, texts, done, arrivals[..|arrivals| - 1]) && done <= done'
    requires forall k :: 0 <= k < |got| && got[k].Some? ==> arrivals[k].Copy? && arrivals[k].index in done'
    requires var a := arrivals[|arrivals| - 1];
             one.Some? ==> a.Copy? && a.index < |texts| && a.index !in done' && one == Some(texts[a.index])
    ensures AtMostOnce(got + [one], texts, done, arrivals)
  {
  }

  lemma MixedButLast(
    l: Link, away: set<ByteString>, s: RatchetState, log: seq<Envelope>, arrivals: seq<Arrival>, es: seq<Envelope>)
    requires l.p.HmacSized() && AllMixed(l, away, log, arrivals, es) && AllLeadInto(l, away, s, es) && es != []
    ensures var last := |es| - 1;
            && AllMixed(l, away, log, arrivals[..last], es[..last]) && AllLeadInto(l, away, s, es[..last])
            && Mixed(l, away, log, arrivals[last], es[last])
            && LeadsInto(l, away, Receive(l.p, s, es[..last]).0, es[last])
  {
    hide Mixed, LeadsInto, Receive;
    var last := |es| - 1;
    forall k | 0 <= k < last
      ensures LeadsInto(l, away, Receive(l.p, s, es[..last][..k]).0, es[..last][k])
    {
      assert es[..last][..k] == es[..k];
    }
  }

  /** Whatever foreign keys come and however often the root is stepped: over every mix of genuine copies and envelopes
      that no key opens, each message is taken at most once, on a copy of it and with its own text. */
  lemma {:induction false} AtMostOnceWhatever(
    l: Link, away: set<ByteString>, done: set<nat>, s: RatchetState, log: seq<Envelope>, texts: seq<ByteString>,
    arrivals: seq<Arrival>, es: seq<Envelope>) returns (w: Walk, done': set<nat>)
    requires l.Usable() && l.sessionId != [] && AllShut(l, away) && ReceiverInv(l, done, s)
    requires AllMixed(l, away, log, arrivals, es) && AllLeadInto(l, away, s, es) && |log| == |texts| < U32_LIMIT
    requires forall i :: 0 <= i < |log| ==> IsMessage(l, i, log[i], texts[i])
    ensures var (s', got) := Receive(l.p, s, es);
            && AtMostOnce(got, texts, done, arrivals)
            && Safe(l, away, w, done', s') && done <= done'
            && forall k :: 0 <= k < |got| && got[k].Some? ==> arrivals[k].Copy? && arrivals[k].index in done'
  {
    hide IsMessage, Decrypt, Safe, AllShut, LeadsInto, AllLeadInto, Mixed, ReceiverInv, KeysSeparate, StaleShut;
    if es == [] {
      SafeStart(l, away, done, s);
      w, done' := Home, done;
    } else {
      var last := |es| - 1;
      MixedButLast(l, away, s, log, arrivals, es);
      var w1, done1 := AtMostOnceWhatever(l, away, done, s, log, texts, arrivals[..last], es[..last]);
      var (s1, got) := Receive(l.p, s, es[..last]);
      w := SafeStep(l, away, w1, done1, s1, log, texts, arrivals[last], es[last]);
      var one := Decrypt(l.p, s1, es[last]).1;
      done' := if one.Some? then done1 + {arrivals[last].index} else done1;
      OnceMore(got, texts, done, done1, arrivals, one);
    }
  }
}
