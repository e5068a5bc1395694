/** Handing a batch of queued messages to the dispatcher: what leaves, for whom, and under which numbers. */
module Batches {
  import opened Bytes
  import opened Crypto
  import opened Dispatch
  import opened Envelopes
  import opened RatchetSession
  import opened Offline
  import D = Delivery
  import N = Network

  /** A send to `recipient` does not throw. */
  predicate Ready(d: DispatcherState, recipient: ByteString) {
    recipient in d.sessions && d.sessions[recipient].initialized
  }

  /** Handing a batch to the dispatcher, message by message; None where it throws. */
  function SendAll(p: Primitives, d: DispatcherState, batch: seq<Row>, nonce: nat -> ByteString, clock: nat -> u64)
    : (r: (DispatcherState, seq<Option<ByteString>>))
    ensures |r.1| == |batch|
  {
    if batch == [] then (d, []) else
    var last := |batch| - 1;
    var (d1, packets) := SendAll(p, d, batch[..last], nonce, clock);
    var (d2, packet) := SendMessage(p, d1, batch[last].recipient, nonce(last), clock(last), batch[last].envelope);
    (d2, packets + [packet])
  }

  lemma SendKeepsReady(
    p: Primitives, d: DispatcherState, recipient: ByteString, nonce: ByteString, now: u64, text: ByteString)
    ensures var (d', packet) := SendMessage(p, d, recipient, nonce, now, text);
            && (packet.Some? <==> Ready(d, recipient))
            && d'.deviceId == d.deviceId && d'.sessions.Keys == d.sessions.Keys
            && forall r :: Ready(d', r) <==> Ready(d, r)
  {
  }

  /** Exactly those messages leave whose recipient has an initialized session. */
  lemma {:induction false} SentIffReady(
    p: Primitives, d: DispatcherState, batch: seq<Row>, nonce: nat -> ByteString, clock: nat -> u64)
    ensures var (d', packets) := SendAll(p, d, batch, nonce, clock);
            && (forall i :: 0 <= i < |batch| ==> (packets[i].Some? <==> Ready(d, batch[i].recipient)))
            && d'.deviceId == d.deviceId && forall r :: Ready(d', r) <==> Ready(d, r)
  {
    hide SendMessage, Ready;
    if batch != [] {
      var last := |batch| - 1;
      SentIffReady(p, d, batch[..last], nonce, clock);
      SendKeepsReady(
        p, SendAll(p, d, batch[..last], nonce, clock).0, batch[last].recipient, nonce(last), clock(last),
        batch[last].envelope);
    }
  }

  /** What a batch hands to the session with `recipient`. */
  function SendsTo(batch: seq<Row>, recipient: ByteString, nonce: nat -> ByteString, clock: nat -> u64)
    : seq<D.Sending>
  {
    if batch == [] then [] else
    var last := |batch| - 1;
    SendsTo(batch[..last], recipient, nonce, clock)
    + if batch[last].recipient == recipient then [D.Sending([], nonce(last), clock(last), batch[last].envelope)] else []
  }

  function PacketsTo(batch: seq<Row>, packets: seq<Option<ByteString>>, recipient: ByteString): seq<Option<ByteString>>
    requires |packets| == |batch|
  {
    if batch == [] then [] else
    var last := |batch| - 1;
    PacketsTo(batch[..last], packets[..last], recipient)
    + if batch[last].recipient == recipient then [packets[last]] else []
  }

  lemma SendOne(p: Primitives, d: DispatcherState, row: Row, recipient: ByteString, nonce: ByteString, now: u64)
    requires Ready(d, recipient)
    ensures var (d', packet) := SendMessage(p, d, row.recipient, nonce, now, row.envelope);
            && Ready(d', recipient) && d'.deviceId == d.deviceId
            && var s := d.sessions[recipient].ratchet;
               var (s', env) := Encrypt(p, s, [], nonce, now, row.envelope);
               if row.recipient == recipient
               then d'.sessions[recipient].ratchet == s' && packet == Some(Encode(env.(senderDeviceId := d.deviceId)))
               else d'.sessions[recipient].ratchet == s
  {
    hide Encode, Encrypt;
  }

  lemma SendAppends(p: Primitives, s: RatchetState, sends: seq<D.Sending>, m: D.Sending)
    ensures var (s1, log) := D.Send(p, s, sends);
            var (s2, env) := Encrypt(p, s1, m.randomId, m.nonce, m.now, m.text);
            D.Send(p, s, sends + [m]) == (s2, log + [env])
  {
    assert (sends + [m])[..|sends|] == sends;
  }

  function Serialized(deviceId: ByteString, log: seq<Envelope>): seq<Option<ByteString>> {
    seq(|log|, k requires 0 <= k < |log| => Some(Encode(log[k].(senderDeviceId := deviceId))))
  }

  /** The messages of a batch for one recipient leave as the next messages of its session, in the order of the batch:
      the packets are the serialized envelopes, and the session is left as encrypting them leaves it. */
  lemma {:induction false} SendsInOrder(
    p: Primitives, d: DispatcherState, batch: seq<Row>, recipient: ByteString,
    nonce: nat -> ByteString, clock: nat -> u64)
    requires Ready(d, recipient)
    ensures var (d', packets) := SendAll(p, d, batch, nonce, clock);
            var (ratchet, log) := D.Send(p, d.sessions[recipient].ratchet, SendsTo(batch, recipient, nonce, clock));
            && Ready(d', recipient) && d'.sessions[recipient].ratchet == ratchet && d'.deviceId == d.deviceId
            && PacketsTo(batch, packets, recipient) == Serialized(d.deviceId, log)
  {
    hide Encode, Encrypt, SendMessage, D.Send;
    if batch == [] {
      SendsNothing(p, d.sessions[recipient].ratchet);
    } else {
      var last := |batch| - 1;
      var row, before := batch[last], SendsTo(batch[..last], recipient, nonce, clock);
      SendsInOrder(p, d, batch[..last], recipient, nonce, clock);
      var (d1, packets) := SendAll(p, d, batch[..last], nonce, clock);
      SendOne(p, d1, row, recipient, nonce(last), clock(last));
      var (d2, packet) := SendMessage(p, d1, row.recipient, nonce(last), clock(last), row.envelope);
      assert SendAll(p, d, batch, nonce, clock) == (d2, packets + [packet]);
      assert (packets + [packet])[..last] == packets;
      SendAppends(p, d.sessions[recipient].ratchet, before, D.Sending([], nonce(last), clock(last), row.envelope));
      assert before + [] == before;
    }
  }

  lemma SendsNothing(p: Primitives, s: RatchetState)
    ensures D.Send(p, s, []) == (s, [])
  {
  }

  /** What a batch amounts to in the two-party network: sends to the peer, and writing to others. */
  function SendSteps(side: N.Side, peer: ByteString, batch: seq<Row>, nonce: nat -> ByteString, clock: nat -> u64)
    : (steps: seq<N.Step>)
    ensures |steps| == |batch|
  {
    if batch == [] then [] else
    var last := |batch| - 1;
    SendSteps(side, peer, batch[..last], nonce, clock)
    + [StepOf(side, peer, batch[last], nonce(last), clock(last))]
  }

  function StepOf(side: N.Side, peer: ByteString, row: Row, nonce: ByteString, now: u64): N.Step {
    if row.recipient == peer then N.Send(side, nonce, now, row.envelope)
    else N.Aside(side, N.Write(row.recipient, nonce, now, row.envelope))
  }

  function Leaving(packets: seq<Option<ByteString>>): seq<ByteString> {
    if packets == [] then [] else
    var last := |packets| - 1;
    Leaving(packets[..last]) + if packets[last].Some? then [packets[last].value] else []
  }

  /** Where the network stands once the end of `side` has become `d` and has handed over `packets` to the peer. */
  function Onward(s: N.System, side: N.Side, d: DispatcherState, packets: seq<Option<ByteString>>): N.System {
    s.(ends := s.ends.With(side, d), wire := s.wire + Leaving(packets))
  }

  lemma RunAppends(p: Primitives, ids: N.Duo<ByteString>, s: N.System, steps: seq<N.Step>, step: N.Step)
    requires p.HmacSized()
    ensures N.Run(p, ids, s, steps + [step]) == N.Next(p, ids, N.Run(p, ids, s, steps), step)
  {
    assert (steps + [step])[..|steps|] == steps;
  }

  lemma OneMoreOnward(
    p: Primitives, ids: N.Duo<ByteString>, s: N.System, side: N.Side, d: DispatcherState,
    packets: seq<Option<ByteString>>, row: Row, nonce: ByteString, now: u64)
    requires p.HmacSized()
    ensures var peer := ids.At(N.Other(side));
            var (d', packet) := SendMessage(p, d, row.recipient, nonce, now, row.envelope);
            N.Next(p, ids, Onward(s, side, d, packets), StepOf(side, peer, row, nonce, now))
            == Onward(s, side, d', packets + if row.recipient == peer then [packet] else [])
  {
    hide SendMessage;
    var packet := SendMessage(p, d, row.recipient, nonce, now, row.envelope).1;
    assert (packets + [packet])[..|packets|] == packets && packets + [] == packets;
    assert (s.wire + Leaving(packets)) + [] == s.wire + Leaving(packets);
  }

  lemma OnwardNothing(s: N.System, side: N.Side)
    ensures Onward(s, side, s.ends.At(side), []) == s
  {
    assert s.wire + [] == s.wire;
  }

  /** To the network a retry pass is a run of sends to the peer and writing to others, so everything that holds of all
      runs of the network holds with retry passes among its steps. */
  lemma {:induction false} PassIsSends(
    p: Primitives, ids: N.Duo<ByteString>, s: N.System, side: N.Side, batch: seq<Row>,
    nonce: nat -> ByteString, clock: nat -> u64)
    requires p.HmacSized()
    ensures var peer := ids.At(N.Other(side));
            var (d, packets) := SendAll(p, s.ends.At(side), batch, nonce, clock);
            N.Run(p, ids, s, SendSteps(side, peer, batch, nonce, clock))
            == Onward(s, side, d, PacketsTo(batch, packets, peer))
  {
    hide SendMessage, Onward, N.Next, StepOf;
    var peer := ids.At(N.Other(side));
    if batch == [] {
      OnwardNothing(s, side);
    } else {
      var last := |batch| - 1;
      PassIsSends(p, ids, s, side, batch[..last], nonce, clock);
      var (d, packets) := SendAll(p, s.ends.At(side), batch[..last], nonce, clock);
      var packet := SendMessage(p, d, batch[last].recipient, nonce(last), clock(last), batch[last].envelope).1;
      assert (packets + [packet])[..last] == packets;
      OneMoreOnward(
        p, ids, s, side, d, PacketsTo(batch[..last], packets, peer), batch[last], nonce(last), clock(last));
      RunAppends(p, ids, s, SendSteps(side, peer, batch[..last], nonce, clock),
                 StepOf(side, peer, batch[last], nonce(last), clock(last)));
    }
  }

  /** How many messages of a batch are for `recipient`. */
  function CountTo(batch: seq<Row>, recipient: ByteString): (n: nat)
    ensures n <= |batch|
  {
    if batch == [] then 0 else
    var last := |batch| - 1;
    CountTo(batch[..last], recipient) + if batch[last].recipient == recipient then 1 else 0
  }

  /** The messages of the batch for the peer may be sealed and fit the codec. */
  ghost predicate Sendable(
    c: N.Setup, peer: ByteString, batch: seq<Row>, nonce: nat -> ByteString)
  {
    forall j :: 0 <= j < |batch| && batch[j].recipient == peer ==>
      N.Fits(batch[j].envelope) && D.Draft(nonce(j), batch[j].envelope) in c.used
  }

  /** Every message of a batch for the peer leaves as a packet with its text under the next number of the session. */
  lemma {:induction false} BatchPackets(
    c: N.Setup, side: N.Side, sent: nat, seen: set<nat>, d: DispatcherState, batch: seq<Row>,
    nonce: nat -> ByteString, clock: nat -> u64)
    requires c.Good() && N.EndInv(c, side, sent, seen, d) && sent + |batch| < U32_LIMIT
    requires Sendable(c, c.ids.At(N.Other(side)), batch, nonce)
    ensures var peer := c.ids.At(N.Other(side));
            var (d', packets) := SendAll(c.p, d, batch, nonce, clock);
            && N.EndInv(c, side, sent + CountTo(batch, peer), seen, d')
            && forall j :: 0 <= j < |batch| && batch[j].recipient == peer ==>
                 packets[j].Some?
                 && N.Packet(c, side, sent + CountTo(batch[..j], peer), batch[j].envelope, packets[j].value)
  {
    hide SendMessage, N.EndInv, N.Packet, N.Fits, D.KeysSeparate;
    if batch != [] {
      var last, peer := |batch| - 1, c.ids.At(N.Other(side));
      var row := batch[last];
      BatchPackets(c, side, sent, seen, d, batch[..last], nonce, clock);
      var d1 := SendAll(c.p, d, batch[..last], nonce, clock).0;
      var n := sent + CountTo(batch[..last], peer);
      if row.recipient == peer {
        N.SendsPacket(c, side, n, seen, d1, nonce(last), clock(last), row.envelope);
      } else {
        N.ActKeepsEnd(c, side, n, seen, d1, N.Write(row.recipient, nonce(last), clock(last), row.envelope));
      }
      assert forall j :: 0 <= j < last ==> batch[..last][..j] == batch[..j];
    }
  }
}
