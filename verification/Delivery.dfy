/** Whole runs of one ratchet direction over a network that reorders, drops, duplicates and injects junk. */
module Delivery {
  import opened Bytes
  import opened Crypto
  import opened Envelopes
  import opened RatchetSession

  function Max(a: int, b: int): int {
    if a < b then b else a
  }

  function ChainAt(p: Primitives, root: ByteString, n: nat): ByteString {
    if n == 0 then root else NextChain(p, ChainAt(p, root, n - 1))
  }

  function KeyAt(p: Primitives, root: ByteString, n: nat): ByteString {
    MessageKey(p, ChainAt(p, root, n))
  }

  /** Section 2.2 of the Double Ratchet: the key of a message and the next chain key come from one chain key under the
      labels "msg" and "ck", so a message key is the next chain key only if HMAC takes both labels to the same. */
  lemma KeyIsNotChain(p: Primitives, root: ByteString, n: nat)
    ensures var c := ChainAt(p, root, n);
            KeyAt(p, root, n) == ChainAt(p, root, n + 1) <==> p.hmac(c, [109, 115, 103]) == p.hmac(c, [99, 107])
    ensures KeyAt(p, root, n) == p.hmac(ChainAt(p, root, n), [109, 115, 103])
  {
  }

  /** What the sender hands to the cipher: a nonce and a plaintext. */
  datatype Draft = Draft(nonce: ByteString, text: ByteString)

  /** One direction of a session, as its receiver sees it: the root of the chain, the session id, the sender's public
      key, what the sender ever seals, and the keys that were stored under the numbers of an earlier session. */
  datatype Link = Link(
    p: Primitives, root: ByteString, sessionId: ByteString, peer: ByteString, used: set<Draft>,
    stale: map<nat, ByteString>)
  {
    function Ciphertext(i: u32, d: Draft): ByteString {
      p.seal(KeyAt(p, root, i), d.nonce, Header(i, peer), d.text)
    }

    function StoredKey(i: nat): ByteString {
      if i in stale then stale[i] else KeyAt(p, root, i)
    }

    ghost predicate Usable() {
      p.Sound() && |peer| == KEY_BYTES && KeysSeparate(this) && StaleShut(this)
    }
  }

  /** `key` opens no i-th message of the direction. */
  ghost predicate KeyShut(l: Link, key: ByteString, i: u32) {
    forall d :: d in l.used ==> l.p.unseal(key, Header(i, l.peer), l.Ciphertext(i, d)) == None
  }

  /** What authenticated encryption gives a session: a later message key does not open an earlier message. */
  ghost predicate KeysSeparate(l: Link) {
    forall i: u32, j: u32 :: i < j ==> KeyShut(l, KeyAt(l.p, l.root, j), i)
  }

  /** No key of the chain that starts at `chain` opens any message of the direction. */
  ghost predicate ChainShut(l: Link, chain: ByteString) {
    forall i: u32, j: u32 :: KeyShut(l, KeyAt(l.p, chain, j), i)
  }

  ghost predicate StaleShut(l: Link) {
    forall i: u32 :: i in l.stale ==> KeyShut(l, l.stale[i], i)
  }

  /** `e` is the i-th message of the direction and carries `text`. */
  ghost predicate IsMessage(l: Link, i: u32, e: Envelope, text: ByteString) {
    && e.sessionId == l.sessionId
    && e.associatedData == Header(i, l.peer)
    && exists d :: d in l.used && d.text == text && e.ciphertext == l.Ciphertext(i, d)
  }

  /** No message key of the session opens `e`, nor does the older key stored under the number that `e` claims. */
  ghost predicate Inauthentic(l: Link, e: Envelope) {
    && (forall j: u32 :: l.p.unseal(KeyAt(l.p, l.root, j), e.associatedData, e.ciphertext) == None)
    && (|e.associatedData| >= 4 && ClaimedNumber(e.associatedData) in l.stale ==>
          l.p.unseal(l.stale[ClaimedNumber(e.associatedData)], e.associatedData, e.ciphertext) == None)
  }

  predicate CarriesKey(e: Envelope, key: ByteString) {
    |e.associatedData| >= HEADER_BYTES && e.associatedData[4..HEADER_BYTES] == key
  }

  /** Junk that leaves the session intact: another session's, too short a header, or the peer's key but no valid seal.
      A session without an id takes every envelope as its own, so there only those that keep it without one are junk. */
  ghost predicate IsJunk(l: Link, e: Envelope) {
    if e.sessionId != l.sessionId then l.sessionId != []
    else |e.associatedData| < HEADER_BYTES || (CarriesKey(e, l.peer) && Inauthentic(l, e))
  }

  /** The receiver walks the session's chain, and every key it stores is the session's own or an older one. */
  ghost predicate OnChain(l: Link, s: RatchetState) {
    && s.sessionId == l.sessionId
    && (s.lastRemote == [] || s.lastRemote == l.peer)
    && s.recvChain == ChainAt(l.p, l.root, s.recvNumber)
    && Keeps(l, s.skipped)
  }

  ghost predicate Keeps(l: Link, skipped: map<nat, ByteString>) {
    (forall i :: i in l.stale ==> i in skipped) && (forall i :: i in skipped ==> skipped[i] == l.StoredKey(i))
  }

  /** The receiver's state after the messages in `done` have been accepted. */
  ghost predicate ReceiverInv(l: Link, done: set<nat>, s: RatchetState) {
    && OnChain(l, s)
    && (forall i: nat :: i in s.skipped <==> i in l.stale || (i < s.recvNumber && i !in done))
    && (forall i :: i in done ==> i < s.recvNumber && i !in l.stale)
  }

  ghost predicate SenderInv(l: Link, n: nat, s: RatchetState) {
    && s.sessionId == l.sessionId
    && s.dhPublic == l.peer
    && s.sendNumber == n
    && s.sendChain == ChainAt(l.p, l.root, n)
  }

  /** Everything decrypt_envelope leaves alone while the peer's key does not change. */
  predicate SameButReceiving(s: RatchetState, s': RatchetState) {
    s' == s.(recvChain := s'.recvChain, recvNumber := s'.recvNumber, lastRemote := s'.lastRemote, skipped := s'.skipped)
  }

  /** Catching up stores the key of every number it passes, unless one is there. */
  lemma {:induction false} CatchUpOnChain(l: Link, s: RatchetState, number: u32)
    requires OnChain(l, s)
    ensures var s' := CatchUp(l.p, s, number);
            && OnChain(l, s') && SameButReceiving(s, s') && s'.lastRemote == s.lastRemote
            && s'.recvNumber == Max(s.recvNumber, number)
            && forall i: nat :: i in s'.skipped <==> i in s.skipped || s.recvNumber <= i < number
    decreases number - s.recvNumber
  {
    if s.recvNumber < number {
      CatchUpOnChain(l, SkipOne(l.p, s), number);
    }
  }

  lemma CatchUpKeeps(l: Link, done: set<nat>, s: RatchetState, number: u32)
    requires ReceiverInv(l, done, s)
    ensures var s' := CatchUp(l.p, s, number);
            && ReceiverInv(l, done, s') && SameButReceiving(s, s') && s'.lastRemote == s.lastRemote
            && s'.recvNumber == Max(s.recvNumber, number)
  {
    hide OnChain;
    CatchUpOnChain(l, s, number);
  }

  /** Decrypting what carries the peer's key only catches up and tries one key. */
  lemma DecryptFromPeer(l: Link, s: RatchetState, e: Envelope) returns (caught: RatchetState)
    requires l.Usable() && OnChain(l, s) && e.sessionId == l.sessionId && CarriesKey(e, l.peer)
    ensures var number := ClaimedNumber(e.associatedData);
            && Decrypt(l.p, s, e) == OpenAt(l.p, caught, number, e)
            && OnChain(l, caught) && SameButReceiving(s, caught) && caught.lastRemote == l.peer
            && caught.recvNumber == Max(s.recvNumber, number)
            && forall i: nat :: i in caught.skipped <==> i in s.skipped || s.recvNumber <= i < number
  {
    hide Keeps;
    var s1 := s.(sessionId := e.sessionId);
    var s2 := s1.(lastRemote := l.peer);
    assert MeetPeer(l.p, s1, l.peer) == Some(s2);
    CatchUpOnChain(l, s2, ClaimedNumber(e.associatedData));
    caught := CatchUp(l.p, s2, ClaimedNumber(e.associatedData));
  }

  lemma HeaderReads(number: u32, key: ByteString)
    requires |key| == KEY_BYTES
    ensures |Header(number, key)| == HEADER_BYTES
    ensures ClaimedNumber(Header(number, key)) == number && Header(number, key)[4..HEADER_BYTES] == key
  {
    assert Pow256(4) == U32_LIMIT;
    BigEndianReads(number, 4);
    assert Header(number, key)[..4] == BigEndian(number, 4);
  }

  /** The i-th message is accepted exactly if no older key sits under its number and its key is stored or to come. */
  lemma TakeMessage(l: Link, s: RatchetState, i: u32, e: Envelope, text: ByteString)
    requires l.Usable() && OnChain(l, s) && IsMessage(l, i, e, text) && i + 1 < U32_LIMIT
    ensures var (s', r) := Decrypt(l.p, s, e);
            && r == (if i !in l.stale && (i in s.skipped || s.recvNumber <= i) then Some(text) else None)
            && OnChain(l, s') && SameButReceiving(s, s')
            && s'.recvNumber == Max(s.recvNumber, if i in s.skipped then i else i + 1)
            && forall k: nat ::
                 k in s'.skipped <==> (k != i || i in l.stale) && (k in s.skipped || s.recvNumber <= k < i)
  {
    hide Decrypt, Header, ClaimedNumber;
    HeaderReads(i, l.peer);
    var caught := DecryptFromPeer(l, s, e);
    var d :| d in l.used && d.text == text && e.ciphertext == l.Ciphertext(i, d);
    if i in l.stale {
      assert KeyShut(l, l.stale[i], i);
    } else if i !in s.skipped && i < s.recvNumber {
      assert KeyShut(l, KeyAt(l.p, l.root, caught.recvNumber), i);
    }
  }

  /** A message is accepted exactly when it is new and no older key sits under its number, whatever arrived before
      it. */
  lemma DecryptMessage(l: Link, done: set<nat>, s: RatchetState, i: u32, e: Envelope, text: ByteString)
    requires l.Usable() && ReceiverInv(l, done, s) && IsMessage(l, i, e, text) && i + 1 < U32_LIMIT
    ensures var (s', r) := Decrypt(l.p, s, e);
            && r == (if i in done || i in l.stale then None else Some(text))
            && ReceiverInv(l, if i in l.stale then done else done + {i}, s') && SameButReceiving(s, s')
            && s'.recvNumber == Max(s.recvNumber, if i in l.stale then i else i + 1)
  {
    hide Decrypt, OnChain, IsMessage;
    TakeMessage(l, s, i, e, text);
  }

  /** How far an envelope makes the chain catch up. */
  function Reaches(l: Link, e: Envelope): nat {
    if e.sessionId == l.sessionId && CarriesKey(e, l.peer) then ClaimedNumber(e.associatedData) else 0
  }

  /** Junk is refused; all it can do is make the chain catch up. */
  lemma TakeJunk(l: Link, s: RatchetState, e: Envelope)
    requires l.Usable() && OnChain(l, s) && IsJunk(l, e)
    ensures var (s', r) := Decrypt(l.p, s, e);
            && r == None && OnChain(l, s') && SameButReceiving(s, s')
            && s'.recvNumber == Max(s.recvNumber, Reaches(l, e))
            && s'.lastRemote == (if e.sessionId == l.sessionId && CarriesKey(e, l.peer) then l.peer else s.lastRemote)
            && forall k: nat :: k in s'.skipped <==> k in s.skipped || s.recvNumber <= k < Reaches(l, e)
  {
    if e.sessionId == l.sessionId && |e.associatedData| >= HEADER_BYTES {
      var caught := DecryptFromPeer(l, s, e);
      assert l.p.unseal(KeyAt(l.p, l.root, ClaimedNumber(e.associatedData)), e.associatedData, e.ciphertext) == None;
      assert l.p.unseal(KeyAt(l.p, l.root, caught.recvNumber), e.associatedData, e.ciphertext) == None;
    }
  }

  lemma DecryptJunk(l: Link, done: set<nat>, s: RatchetState, e: Envelope)
    requires l.Usable() && ReceiverInv(l, done, s) && IsJunk(l, e)
    ensures var (s', r) := Decrypt(l.p, s, e);
            r == None && ReceiverInv(l, done, s') && SameButReceiving(s, s')
  {
    hide Decrypt, OnChain, IsJunk;
    TakeJunk(l, s, e);
  }

  /** Skipped keys and accepted messages account for every index below the receive counter. */
  lemma Accounting(l: Link, done: set<nat>, s: RatchetState)
    requires ReceiverInv(l, done, s) && l.stale == map[]
    ensures s.skipped.Keys + done == Below(s.recvNumber) && |s.skipped| + |done| == s.recvNumber
  {
    hide KeyAt, ChainAt;
    forall i: nat
      ensures i in s.skipped.Keys + done <==> i in Below(s.recvNumber)
      ensures i !in s.skipped.Keys || i !in done
    {
      assert i in s.skipped <==> i < s.recvNumber && i !in done;
    }
    assert s.skipped.Keys !! done;
    assert |s.skipped.Keys + done| == |s.skipped.Keys| + |done|;
  }

  /** Decrypts a sequence of arrivals in order. */
  function Receive(p: Primitives, s: RatchetState, arrivals: seq<Envelope>)
    : (r: (RatchetState, seq<Option<ByteString>>))
    requires p.HmacSized()
    ensures |r.1| == |arrivals|
  {
    if arrivals == [] then (s, []) else
    var last := |arrivals| - 1;
    var (s1, texts) := Receive(p, s, arrivals[..last]);
    var (s2, text) := Decrypt(p, s1, arrivals[last]);
    (s2, texts + [text])
  }

  /** One call of encrypt_envelope, with the random session id it draws if it needs one and the random nonce. */
  datatype Sending = Sending(randomId: ByteString, nonce: ByteString, now: u64, text: ByteString)

  function Drafts(sends: seq<Sending>): set<Draft> {
    set s | s in sends :: Draft(s.nonce, s.text)
  }

  function Texts(sends: seq<Sending>): (texts: seq<ByteString>)
    ensures |texts| == |sends|
  {
    seq(|sends|, i requires 0 <= i < |sends| => sends[i].text)
  }

  /** Encrypts a sequence of plaintexts in order. */
  function Send(p: Primitives, s: RatchetState, sends: seq<Sending>): (r: (RatchetState, seq<Envelope>))
    ensures |r.1| == |sends|
  {
    if sends == [] then (s, []) else
    var last := |sends| - 1;
    var (s1, log) := Send(p, s, sends[..last]);
    var (s2, env) := Encrypt(p, s1, sends[last].randomId, sends[last].nonce, sends[last].now, sends[last].text);
    (s2, log + [env])
  }

  lemma EncryptMessage(
    l: Link, n: u32, s: RatchetState, randomId: ByteString, nonce: ByteString, now: u64, text: ByteString)
    requires l.sessionId != [] && SenderInv(l, n, s) && n + 1 < U32_LIMIT && Draft(nonce, text) in l.used
    ensures var (s', e) := Encrypt(l.p, s, randomId, nonce, now, text);
            && SenderInv(l, n + 1, s') && IsMessage(l, n, e, text)
            && e.messageIndex == n && e.previousCounter == s.recvNumber && e.timestamp == now
            && e.Bare() && e.senderDeviceId == []
  {
    var e := Encrypt(l.p, s, randomId, nonce, now, text).1;
    assert e.ciphertext == l.Ciphertext(n, Draft(nonce, text));
  }

  lemma {:induction false} SentAreMessages(l: Link, s: RatchetState, sends: seq<Sending>)
    requires l.sessionId != [] && SenderInv(l, 0, s) && |sends| < U32_LIMIT && Drafts(sends) <= l.used
    ensures SenderInv(l, |sends|, Send(l.p, s, sends).0)
    ensures forall i :: 0 <= i < |sends| ==> IsMessage(l, i, Send(l.p, s, sends).1[i], sends[i].text)
  {
    if sends != [] {
      var last := |sends| - 1;
      assert Draft(sends[last].nonce, sends[last].text) in Drafts(sends);
      SentAreMessages(l, s, sends[..last]);
      EncryptMessage(
        l, last, Send(l.p, s, sends[..last]).0, sends[last].randomId, sends[last].nonce, sends[last].now,
        sends[last].text);
    }
  }

  /** What arrives: a copy of the message with the given index, or junk. */
  datatype Arrival = Copy(index: nat) | Junk(env: Envelope)

  ghost predicate Arrives(l: Link, log: seq<Envelope>, a: Arrival, e: Envelope) {
    match a
    case Copy(i) => i < |log| && e == log[i]
    case Junk(env) => e == env && IsJunk(l, env)
  }

  ghost predicate AllArrive(l: Link, log: seq<Envelope>, arrivals: seq<Arrival>, es: seq<Envelope>) {
    |arrivals| == |es| && forall k :: 0 <= k < |es| ==> Arrives(l, log, arrivals[k], es[k])
  }

  function Indices(arrivals: seq<Arrival>): set<nat> {
    set a | a in arrivals && a.Copy? :: a.index
  }

  /** The plaintext on the first copy of a message, nothing on any later copy and nothing on junk. */
  function Outcome(texts: seq<ByteString>, closed: set<nat>, arrivals: seq<Arrival>, k: nat): Option<ByteString>
    requires k < |arrivals|
  {
    match arrivals[k]
    case Junk(_) => None
    case Copy(i) => if i < |texts| && i !in closed && i !in Indices(arrivals[..k]) then Some(texts[i]) else None
  }

  ghost predicate AsExpected(
    got: seq<Option<ByteString>>, texts: seq<ByteString>, closed: set<nat>, arrivals: seq<Arrival>)
  {
    |got| == |arrivals| && forall k :: 0 <= k < |got| ==> got[k] == Outcome(texts, closed, arrivals, k)
  }

  predicate OnlyCopies(arrivals: seq<Arrival>) {
    forall k :: 0 <= k < |arrivals| ==> arrivals[k].Copy?
  }

  predicate Nothing(got: seq<Option<ByteString>>) {
    forall k :: 0 <= k < |got| ==> got[k] == None
  }

  lemma ReceiveOne(
    l: Link, log: seq<Envelope>, texts: seq<ByteString>, done: set<nat>, s: RatchetState, a: Arrival, e: Envelope)
    requires l.Usable() && ReceiverInv(l, done, s)
    requires |log| == |texts| < U32_LIMIT
    requires forall i :: 0 <= i < |log| ==> IsMessage(l, i, log[i], texts[i])
    requires Arrives(l, log, a, e)
    ensures var (s', got) := Decrypt(l.p, s, e);
            && ReceiverInv(l, done + (Indices([a]) - l.stale.Keys), s')
            && SameButReceiving(s, s')
            && got == Outcome(texts, done + l.stale.Keys, [a], 0)
  {
    hide Decrypt;
    if a.Copy? {
      DecryptMessage(l, done, s, a.index, e, texts[a.index]);
      assert Indices([a]) == {a.index} by {
        assert a in [a];
      }
      if a.index in l.stale {
        assert done + (Indices([a]) - l.stale.Keys) == done;
      } else {
        assert Indices([a]) - l.stale.Keys == {a.index};
      }
    } else {
      DecryptJunk(l, done, s, e);
      assert done + (Indices([a]) - l.stale.Keys) == done;
    }
  }

  lemma IndicesGrow(arrivals: seq<Arrival>)
    requires arrivals != []
    ensures var last := |arrivals| - 1; Indices(arrivals) == Indices(arrivals[..last]) + Indices([arrivals[last]])
  {
    var last := |arrivals| - 1;
    assert arrivals == arrivals[..last] + [arrivals[last]];
    assert forall a :: a in arrivals <==> a in arrivals[..last] || a in [arrivals[last]];
  }

  /** What is expected of one more arrival. */
  lemma ExpectMore(
    got: seq<Option<ByteString>>, texts: seq<ByteString>, closed: set<nat>, arrivals: seq<Arrival>,
    one: Option<ByteString>)
    requires arrivals != []
    requires var last := |arrivals| - 1;
             && AsExpected(got, texts, closed, arrivals[..last])
             && one == Outcome(texts, closed + Indices(arrivals[..last]), [arrivals[last]], 0)
    ensures AsExpected(got + [one], texts, closed, arrivals)
  {
    var last := |arrivals| - 1;
    forall k | 0 <= k < last
      ensures Outcome(texts, closed, arrivals, k) == Outcome(texts, closed, arrivals[..last], k)
    {
      assert arrivals[..last][..k] == arrivals[..k];
    }
    assert Indices([arrivals[last]][..0]) == {};
  }

  lemma AllButLast(l: Link, log: seq<Envelope>, arrivals: seq<Arrival>, es: seq<Envelope>)
    requires AllArrive(l, log, arrivals, es) && es != []
    ensures AllArrive(l, log, arrivals[..|es| - 1], es[..|es| - 1]) && Arrives(l, log, arrivals[|es| - 1], es[|es| - 1])
  {
  }

  /** Exactly-once delivery from any state in which the messages in `closed` are no longer accepted. */
  lemma {:induction false} FirstCopiesOnly(
    l: Link, log: seq<Envelope>, texts: seq<ByteString>, closed: set<nat>, s: RatchetState,
    arrivals: seq<Arrival>, es: seq<Envelope>)
    requires l.Usable() && ReceiverInv(l, closed, s)
    requires |log| == |texts| < U32_LIMIT
    requires forall i :: 0 <= i < |log| ==> IsMessage(l, i, log[i], texts[i])
    requires AllArrive(l, log, arrivals, es)
    ensures var (s', got) := Receive(l.p, s, es);
            && ReceiverInv(l, closed + (Indices(arrivals) - l.stale.Keys), s')
            && SameButReceiving(s, s')
            && AsExpected(got, texts, closed + l.stale.Keys, arrivals)
  {
    hide ReceiverInv, IsMessage, Arrives, Decrypt, Outcome;
    if es == [] {
      assert closed + (Indices(arrivals) - l.stale.Keys) == closed;
    } else {
      var last := |es| - 1;
      var before := arrivals[..last];
      AllButLast(l, log, arrivals, es);
      FirstCopiesOnly(l, log, texts, closed, s, before, es[..last]);
      var (s1, got) := Receive(l.p, s, es[..last]);
      var done := closed + (Indices(before) - l.stale.Keys);
      ReceiveOne(l, log, texts, done, s1, arrivals[last], es[last]);
      IndicesGrow(arrivals);
      assert closed + (Indices(arrivals) - l.stale.Keys) == done + (Indices([arrivals[last]]) - l.stale.Keys);
      assert done + l.stale.Keys == closed + l.stale.Keys + Indices(before);
      ExpectMore(got, texts, closed + l.stale.Keys, arrivals, Decrypt(l.p, s1, es[last]).1);
    }
  }
}
