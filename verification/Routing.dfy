/** A dispatcher with any number of sessions: what concerns one of them touches no other. */
module Routing {
  import opened Bytes
  import opened Crypto
  import opened Envelopes
  import opened RatchetSession
  import opened Dispatch
  import D = Delivery

  datatype Op =
    | Create(remote: ByteString, root: ByteString, priv: ByteString)
    | Post(remote: ByteString, nonce: ByteString, now: u64, text: ByteString)
    | Take(bytes: ByteString)

  /** What the caller, the transport or the callback gets. */
  datatype Result = Made(ok: bool) | Sent(bytes: Option<ByteString>) | Told(inbound: Option<Envelope>)

  function Do(p: Primitives, d: DispatcherState, op: Op): (DispatcherState, Result)
    requires p.HmacSized()
  {
    match op
    case Create(remote, root, priv) => var (d', ok) := CreateSession(p, d, remote, root, priv); (d', Made(ok))
    case Post(remote, nonce, now, text) => var (d', out) := SendMessage(p, d, remote, nonce, now, text); (d', Sent(out))
    case Take(bytes) => var (d', inbound) := OnRaw(p, d, bytes); (d', Told(inbound))
  }

  function DoAll(p: Primitives, d: DispatcherState, ops: seq<Op>): (r: (DispatcherState, seq<Result>))
    requires p.HmacSized()
    ensures |r.1| == |ops|
  {
    if ops == [] then (d, []) else
    var last := |ops| - 1;
    var (d1, results) := DoAll(p, d, ops[..last]);
    var (d2, result) := Do(p, d1, ops[last]);
    (d2, results + [result])
  }

  /** The operation is about the session with `remote`: a packet is about the sender it names. */
  predicate Concerns(op: Op, remote: ByteString) {
    match op
    case Create(r, _, _) => r == remote
    case Post(r, _, _, _) => r == remote
    case Take(bytes) => Parse(bytes).Some? && Parse(bytes).value.senderDeviceId == remote
  }

  function Lookup(d: DispatcherState, remote: ByteString): Option<Session> {
    if remote in d.sessions then Some(d.sessions[remote]) else None
  }

  /** No operation touches another session, the device id or the callback. */
  lemma OthersStay(p: Primitives, d: DispatcherState, op: Op, remote: ByteString)
    requires p.HmacSized()
    ensures var d' := Do(p, d, op).0;
            && d'.deviceId == d.deviceId && d'.listening == d.listening
            && (!Concerns(op, remote) ==> Lookup(d', remote) == Lookup(d, remote))
  {
    hide Encrypt, Decrypt, Initialize, Fresh, Parse, Encode, SessionId;
  }

  /** What an operation does and returns depends on its own session only. */
  lemma OwnDecides(p: Primitives, d: DispatcherState, e: DispatcherState, op: Op, remote: ByteString)
    requires p.HmacSized() && Concerns(op, remote)
    requires d.deviceId == e.deviceId && d.listening == e.listening && Lookup(d, remote) == Lookup(e, remote)
    ensures Do(p, d, op).1 == Do(p, e, op).1
    ensures Lookup(Do(p, d, op).0, remote) == Lookup(Do(p, e, op).0, remote)
  {
    hide Encrypt, Decrypt, Initialize, Fresh, Parse, Encode, SessionId;
  }

  function Concerning(ops: seq<Op>, remote: ByteString): seq<Op> {
    if ops == [] then [] else
    var last := |ops| - 1;
    Concerning(ops[..last], remote) + if Concerns(ops[last], remote) then [ops[last]] else []
  }

  function ResultsFor(ops: seq<Op>, results: seq<Result>, remote: ByteString): seq<Result>
    requires |results| == |ops|
  {
    if ops == [] then [] else
    var last := |ops| - 1;
    ResultsFor(ops[..last], results[..last], remote) + if Concerns(ops[last], remote) then [results[last]] else []
  }

  lemma DoAppends(p: Primitives, d: DispatcherState, ops: seq<Op>, op: Op)
    requires p.HmacSized()
    ensures var (d1, results) := DoAll(p, d, ops);
            DoAll(p, d, ops + [op]) == (Do(p, d1, op).0, results + [Do(p, d1, op).1])
  {
    hide Do;
    assert (ops + [op])[..|ops|] == ops;
  }

  /** Sessions are isolated: over every sequence of operations, the session with `remote` and all that its operations
      return are what they would have been without any operation on the others. */
  lemma {:induction false} SessionsIsolated(p: Primitives, d: DispatcherState, ops: seq<Op>, remote: ByteString)
    requires p.HmacSized()
    ensures var (d1, results) := DoAll(p, d, ops);
            var (d2, alone) := DoAll(p, d, Concerning(ops, remote));
            && Lookup(d1, remote) == Lookup(d2, remote) && ResultsFor(ops, results, remote) == alone
            && d1.deviceId == d2.deviceId == d.deviceId && d1.listening == d2.listening == d.listening
  {
    hide Do, Concerns, Lookup;
    if ops != [] {
      var last := |ops| - 1;
      var before, op := ops[..last], ops[last];
      SessionsIsolated(p, d, before, remote);
      var (d1, results) := DoAll(p, d, before);
      var d2 := DoAll(p, d, Concerning(before, remote)).0;
      OthersStay(p, d1, op, remote);
      OthersStay(p, d2, op, remote);
      assert (results + [Do(p, d1, op).1])[..last] == results;
      if Concerns(op, remote) {
        OwnDecides(p, d1, d2, op, remote);
        DoAppends(p, d, Concerning(before, remote), op);
      } else {
        assert Concerning(before, remote) + [] == Concerning(before, remote);
        assert ResultsFor(before, results, remote) + [] == ResultsFor(before, results, remote);
      }
    }
  }

  function Takes(packets: seq<ByteString>): (ops: seq<Op>)
    ensures |ops| == |packets|
  {
    seq(|packets|, k requires 0 <= k < |packets| => Take(packets[k]))
  }

  lemma TakeNone(p: Primitives, d: DispatcherState, remote: ByteString)
    requires p.HmacSized() && remote in d.sessions
    ensures DoAll(p, d, Takes([])) == (d, []) && d == d.(sessions := d.sessions[remote := d.sessions[remote]])
  {
  }

  lemma TakeOne(p: Primitives, d: DispatcherState, remote: ByteString, packet: ByteString, e: Envelope)
    requires p.HmacSized() && remote in d.sessions && Parse(packet) == Some(e) && e.senderDeviceId == remote
    ensures var (ratchet, text) := Decrypt(p, d.sessions[remote].ratchet, e);
            Do(p, d, Take(packet))
            == (d.(sessions := d.sessions[remote := d.sessions[remote].(ratchet := ratchet)]),
                Told(if text.Some? && d.listening then Some(e.(ciphertext := text.value)) else None))
  {
    hide Decrypt, Parse;
  }

  /** To packets that name `remote` the dispatcher is the ratchet of that session: taken or refused, each leaves the
      session as decrypting its envelope leaves the ratchet, and the callback is told the envelopes that open. */
  lemma {:induction false} TakesAsRatchet(
    p: Primitives, d: DispatcherState, remote: ByteString, packets: seq<ByteString>, es: seq<Envelope>)
    requires p.HmacSized() && remote in d.sessions && |es| == |packets|
    requires forall k :: 0 <= k < |es| ==> Parse(packets[k]) == Some(es[k]) && es[k].senderDeviceId == remote
    ensures var (d', results) := DoAll(p, d, Takes(packets));
            var (ratchet, texts) := D.Receive(p, d.sessions[remote].ratchet, es);
            && d' == d.(sessions := d.sessions[remote := d.sessions[remote].(ratchet := ratchet)])
            && forall k :: 0 <= k < |es| ==>
                 results[k] == Told(if texts[k].Some? && d.listening
                                    then Some(es[k].(ciphertext := texts[k].value)) else None)
  {
    hide Decrypt, Parse, Do, DoAll;
    if es == [] {
      TakeNone(p, d, remote);
    } else {
      var last := |es| - 1;
      TakesAsRatchet(p, d, remote, packets[..last], es[..last]);
      assert Takes(packets) == Takes(packets[..last]) + [Take(packets[last])];
      DoAppends(p, d, Takes(packets[..last]), Take(packets[last]));
      TakeOne(p, DoAll(p, d, Takes(packets[..last])).0, remote, packets[last], es[last]);
    }
  }

  /** A root key of any other length is refused, but an entry is there afterwards: the one that was, or a new one that
      cannot send. */
  lemma RefusedRootLeavesEntry(
    p: Primitives, d: DispatcherState, remote: ByteString, root: ByteString, priv: ByteString,
    nonce: ByteString, now: u64, text: ByteString)
    requires p.HmacSized() && |root| != 32
    ensures var (d', ok) := CreateSession(p, d, remote, root, priv);
            && !ok && remote in d'.sessions
            && (remote in d.sessions ==> d' == d)
            && (remote !in d.sessions ==> SendMessage(p, d', remote, nonce, now, text) == (d', None))
  {
  }

  /** A new session starts both chains at the root with the key pair just drawn; one that was there keeps its key pair
      and its skipped keys and forgets the rest. */
  lemma AcceptedRootStarts(p: Primitives, d: DispatcherState, remote: ByteString, root: ByteString, priv: ByteString)
    requires p.HmacSized() && |root| == 32
    ensures var (d', ok) := CreateSession(p, d, remote, root, priv);
            && ok && remote in d'.sessions && d'.sessions[remote].initialized
            && var s := d'.sessions[remote].ratchet;
               && s.rootKey == s.sendChain == s.recvChain == root && s.sendNumber == s.recvNumber == 0
               && s.lastRemote == [] && s.sessionId == SessionId(p, d.deviceId, remote, root)
               && (if remote in d.sessions
                   then s.dhPrivate == d.sessions[remote].ratchet.dhPrivate
                        && s.dhPublic == d.sessions[remote].ratchet.dhPublic
                        && s.skipped == d.sessions[remote].ratchet.skipped
                   else s.dhPrivate == priv && s.dhPublic == p.publicKey(priv) && s.skipped == map[])
  {
  }
}
