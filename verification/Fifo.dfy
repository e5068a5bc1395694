/** Any number of threads at each end call send_message_to_device over the connected pair of in-memory transports,
    while both workers run: dispatcher mutexes, transport mutexes, queues and ratchets together. */
module Fifo {
  import opened Bytes
  import opened Crypto
  import opened Delivery
  import opened Dispatch
  import opened Network
  import T = Transport

  /** Where a sending thread is. From Holding to Leaving it holds its dispatcher's mutex; in Locked and Queued it also
      holds the mutex of the peer's transport. */
  datatype Stage =
    | Idle
    | Holding(text: ByteString)
    | Sealed(packet: ByteString)
    | Locked(packet: ByteString)
    | Queued
    | Leaving

  /** One end: `sent` is the order in which plaintexts were encrypted, `told` what the callback was given. */
  datatype Station = Station(
    d: DispatcherState,
    mutex: Option<nat>,
    threads: map<nat, Stage>,
    tr: T.State,
    sent: seq<ByteString>,
    told: seq<Notice>
  )

  function StageOf(threads: map<nat, Stage>, t: nat): Stage {
    if t in threads then threads[t] else Idle
  }

  datatype Move =
    | Call(side: Side, thread: nat, text: ByteString)
    | Encrypt(side: Side, thread: nat, nonce: ByteString, now: u64)
    | LockPeer(side: Side, thread: nat)
    | Push(side: Side, thread: nat)
    | UnlockPeer(side: Side, thread: nat)
    | Leave(side: Side, thread: nat)
    | Work(side: Side, work: T.Step)
    | Callback(side: Side)

  predicate IsWork(w: T.Step) {
    w.Start? || w.Stop? || w.Enter? || w.Loop? || w.Test? || w.Wake? || w.Drain? || w.Relock?
  }

  predicate Enabled(s: Duo<Station>, m: Move) {
    var own, peer := s.At(m.side), s.At(Other(m.side));
    match m
    case Call(_, t, _) => own.mutex.None? && StageOf(own.threads, t).Idle?
    case Encrypt(_, t, _, _) => StageOf(own.threads, t).Holding?
    case LockPeer(_, t) => StageOf(own.threads, t).Sealed? && T.Enabled(peer.tr, T.DeliverLock(t))
    case Push(_, t) =>
      StageOf(own.threads, t).Locked? && T.Enabled(peer.tr, T.DeliverPush(t, StageOf(own.threads, t).packet))
    case UnlockPeer(_, t) => StageOf(own.threads, t).Queued? && T.Enabled(peer.tr, T.DeliverUnlock(t))
    case Leave(_, t) => StageOf(own.threads, t).Leaving?
    case Work(_, w) => IsWork(w) && T.Enabled(own.tr, w)
    case Callback(_) => own.tr.worker.Calling? && own.mutex.None?
  }

  function Do(p: Primitives, ids: Duo<ByteString>, s: Duo<Station>, m: Move): Duo<Station>
    requires p.HmacSized() && Enabled(s, m)
  {
    var side, far := m.side, Other(m.side);
    var own, peer := s.At(side), s.At(far);
    match m
    case Call(_, t, text) => s.With(side, own.(mutex := Some(t), threads := own.threads[t := Holding(text)]))
    case Encrypt(_, t, nonce, now) =>
      var text := StageOf(own.threads, t).text;
      var (d, out) := SendMessage(p, own.d, ids.At(far), nonce, now, text);
      if out.None? then s.With(side, own.(d := d, threads := own.threads[t := Leaving]))
      else s.With(side, own.(d := d, threads := own.threads[t := Sealed(out.value)], sent := own.sent + [text]))
    case LockPeer(_, t) =>
      s.With(side, own.(threads := own.threads[t := Locked(StageOf(own.threads, t).packet)]))
       .With(far, peer.(tr := T.Do(peer.tr, T.DeliverLock(t))))
    case Push(_, t) =>
      s.With(side, own.(threads := own.threads[t := Queued]))
       .With(far, peer.(tr := T.Do(peer.tr, T.DeliverPush(t, StageOf(own.threads, t).packet))))
    case UnlockPeer(_, t) =>
      s.With(side, own.(threads := own.threads[t := Leaving]))
       .With(far, peer.(tr := T.Do(peer.tr, T.DeliverUnlock(t))))
    case Leave(_, t) => s.With(side, own.(mutex := None, threads := own.threads[t := Idle]))
    case Work(_, w) => s.With(side, own.(tr := T.Do(own.tr, w)))
    case Callback(_) => s.With(side, Called(p, own))
  }

  /** on_raw_message on what the worker popped, and the return to the worker. */
  function Called(p: Primitives, own: Station): Station
    requires p.HmacSized() && own.tr.worker.Calling?
  {
    var (d, inbound) := OnRaw(p, own.d, own.tr.worker.msg);
    own.(d := d, told := own.told + NewsOf(inbound), tr := T.Do(own.tr, T.Return))
  }

  /** The packet that has been sealed but not yet pushed. */
  function Pending(mutex: Option<nat>, threads: map<nat, Stage>): seq<ByteString> {
    match mutex
    case None => []
    case Some(t) =>
      var stage := StageOf(threads, t);
      if stage.Sealed? || stage.Locked? then [stage.packet] else []
  }

  /** Only the holder of the mutex is at work. */
  ghost predicate Exclusive(mutex: Option<nat>, threads: map<nat, Stage>) {
    && (forall t: nat :: StageOf(threads, t) != Idle ==> mutex == Some(t))
    && (forall t: nat :: StageOf(threads, t).Holding? ==> Fits(StageOf(threads, t).text))
  }

  /** The packets of a direction, in the order the ratchet numbered them. */
  ghost predicate InOrder(c: Setup, from: Side, sent: seq<ByteString>, packets: seq<ByteString>)
    requires c.p.HmacSized()
  {
    && |packets| == |sent| < U32_LIMIT
    && forall i :: 0 <= i < |sent| ==> Packet(c, from, i, sent[i], packets[i])
  }

  ghost predicate Told(c: Setup, side: Side, told: seq<Notice>, peerSent: seq<ByteString>) {
    && |told| <= |peerSent|
    && forall j :: 0 <= j < |told| ==> told[j] == Notice(c.ids.At(Other(side)), j, peerSent[j])
  }

  /** The ratchet of an end: `sent` messages out, the first `taken` of the peer's messages in, none skipped. */
  ghost predicate RatchetInv(c: Setup, side: Side, sent: nat, taken: nat, d: DispatcherState)
    requires c.p.HmacSized()
  {
    && EndInv(c, side, sent, Below(taken), d) && d.listening
    && d.sessions[c.ids.At(Other(side))].ratchet.recvNumber == taken
  }

  ghost predicate StationInv(c: Setup, side: Side, st: Station)
    requires c.p.HmacSized()
  {
    && T.Inv(st.tr) && Exclusive(st.mutex, st.threads)
    && |st.told| == |st.tr.handed|
    && RatchetInv(c, side, |st.sent|, |st.tr.handed|, st.d)
  }

  /** What holds between the two ends: `own` sends, `peer` receives. */
  ghost predicate LinkInv(c: Setup, side: Side, own: Station, peer: Station)
    requires c.p.HmacSized()
  {
    && InOrder(c, side, own.sent, peer.tr.pushed + Pending(own.mutex, own.threads))
    && Told(c, Other(side), peer.told, own.sent)
    && LocksMatch(own.threads, peer.tr.lock)
  }

  /** The thread that holds the peer's transport mutex is between taking and releasing it. */
  ghost predicate LocksMatch(threads: map<nat, Stage>, lock: T.Lock) {
    lock.Thread? ==> StageOf(threads, lock.id).Locked? || StageOf(threads, lock.id).Queued?
  }

  ghost predicate PairInv(c: Setup, side: Side, own: Station, peer: Station)
    requires c.p.HmacSized()
  {
    && StationInv(c, side, own) && StationInv(c, Other(side), peer)
    && LinkInv(c, side, own, peer) && LinkInv(c, Other(side), peer, own)
  }

  ghost predicate Inv(c: Setup, s: Duo<Station>)
    requires c.p.HmacSized()
  {
    PairInv(c, Alice, s.alice, s.bob)
  }

  lemma PairSymmetric(c: Setup, alice: Station, bob: Station)
    requires c.p.HmacSized()
    ensures PairInv(c, Alice, alice, bob) <==> PairInv(c, Bob, bob, alice)
  {
  }

  /** A thread that may be at work moves to another stage. */
  lemma StageChange(mutex: Option<nat>, threads: map<nat, Stage>, t: nat, stage: Stage, mutex': Option<nat>)
    requires Exclusive(mutex, threads) && (mutex == Some(t) || mutex.None?) && (stage.Holding? ==> Fits(stage.text))
    requires mutex' == if stage.Idle? then None else Some(t)
    ensures Exclusive(mutex', threads[t := stage])
    ensures Pending(mutex', threads[t := stage]) == if stage.Sealed? || stage.Locked? then [stage.packet] else []
  {
    var changed := threads[t := stage];
    forall u: nat
      ensures StageOf(changed, u) != Idle ==> mutex' == Some(u)
      ensures StageOf(changed, u).Holding? ==> Fits(StageOf(changed, u).text)
    {
      assert u != t ==> StageOf(changed, u) == StageOf(threads, u);
    }
  }

  lemma CallKeeps(c: Setup, side: Side, own: Station, peer: Station, t: nat, text: ByteString)
    requires c.p.HmacSized() && PairInv(c, side, own, peer) && own.mutex.None? && Fits(text)
    ensures PairInv(c, side, own.(mutex := Some(t), threads := own.threads[t := Holding(text)]), peer)
  {
    hide RatchetInv, InOrder, Told, T.Inv;
    StageChange(own.mutex, own.threads, t, Holding(text), Some(t));
  }

  lemma LeaveKeeps(c: Setup, side: Side, own: Station, peer: Station, t: nat)
    requires c.p.HmacSized() && PairInv(c, side, own, peer) && StageOf(own.threads, t).Leaving?
    ensures PairInv(c, side, own.(mutex := None, threads := own.threads[t := Idle]), peer)
  {
    hide RatchetInv, InOrder, Told, T.Inv;
    assert own.mutex == Some(t);
    StageChange(own.mutex, own.threads, t, Idle, None);
  }

  /** Taking and releasing the peer's transport mutex. */
  lemma LockKeeps(c: Setup, side: Side, own: Station, peer: Station, t: nat)
    requires c.p.HmacSized() && PairInv(c, side, own, peer)
    requires StageOf(own.threads, t).Sealed? && peer.tr.lock.Free?
    ensures PairInv(c, side, own.(threads := own.threads[t := Locked(StageOf(own.threads, t).packet)]),
                    peer.(tr := T.Do(peer.tr, T.DeliverLock(t))))
  {
    hide RatchetInv, InOrder, Told, T.Inv;
    assert own.mutex == Some(t);
    StageChange(own.mutex, own.threads, t, Locked(StageOf(own.threads, t).packet), own.mutex);
    T.StepKeeps(peer.tr, T.DeliverLock(t));
  }

  lemma UnlockKeeps(c: Setup, side: Side, own: Station, peer: Station, t: nat)
    requires c.p.HmacSized() && PairInv(c, side, own, peer)
    requires StageOf(own.threads, t).Queued? && peer.tr.lock == T.Thread(t)
    ensures PairInv(c, side, own.(threads := own.threads[t := Leaving]),
                    peer.(tr := T.Do(peer.tr, T.DeliverUnlock(t))))
  {
    hide RatchetInv, InOrder, Told, T.Inv;
    assert own.mutex == Some(t);
    StageChange(own.mutex, own.threads, t, Leaving, own.mutex);
    T.StepKeeps(peer.tr, T.DeliverUnlock(t));
  }

  lemma PushKeeps(c: Setup, side: Side, own: Station, peer: Station, t: nat)
    requires c.p.HmacSized() && PairInv(c, side, own, peer)
    requires StageOf(own.threads, t).Locked? && peer.tr.lock == T.Thread(t)
    ensures PairInv(c, side, own.(threads := own.threads[t := Queued]),
                    peer.(tr := T.Do(peer.tr, T.DeliverPush(t, StageOf(own.threads, t).packet))))
  {
    hide RatchetInv, InOrder, Told, T.Inv;
    var packet := StageOf(own.threads, t).packet;
    assert own.mutex == Some(t);
    StageChange(own.mutex, own.threads, t, Queued, own.mutex);
    T.StepKeeps(peer.tr, T.DeliverPush(t, packet));
    assert (peer.tr.pushed + [packet]) + [] == peer.tr.pushed + [packet];
  }

  lemma OneMoreInOrder(
    c: Setup, from: Side, sent: seq<ByteString>, packets: seq<ByteString>, text: ByteString, packet: ByteString)
    requires c.p.HmacSized() && InOrder(c, from, sent, packets) && |sent| + 1 < U32_LIMIT
    requires Packet(c, from, |sent|, text, packet)
    ensures InOrder(c, from, sent + [text], packets + [packet])
  {
  }

  lemma EncryptKeeps(c: Setup, side: Side, own: Station, peer: Station, t: nat, nonce: ByteString, now: u64)
    requires c.Good() && PairInv(c, side, own, peer) && StageOf(own.threads, t).Holding? && |own.sent| + 1 < U32_LIMIT
    requires Draft(nonce, StageOf(own.threads, t).text) in c.used
    ensures var text := StageOf(own.threads, t).text;
            var (d, out) := SendMessage(c.p, own.d, c.ids.At(Other(side)), nonce, now, text);
            && out.Some?
            && PairInv(
                 c, side, own.(d := d, threads := own.threads[t := Sealed(out.value)], sent := own.sent + [text]), peer)
  {
    hide EndInv, Packet, T.Inv, SendMessage, KeysSeparate;
    var text := StageOf(own.threads, t).text;
    assert own.mutex == Some(t);
    SendsPacket(c, side, |own.sent|, Below(|own.tr.handed|), own.d, nonce, now, text);
    var packet := SendMessage(c.p, own.d, c.ids.At(Other(side)), nonce, now, text).1.value;
    StageChange(own.mutex, own.threads, t, Sealed(packet), own.mutex);
    assert peer.tr.pushed + [] == peer.tr.pushed;
    OneMoreInOrder(c, side, own.sent, peer.tr.pushed, text, packet);
  }

  lemma WorkKeeps(c: Setup, side: Side, own: Station, peer: Station, w: T.Step)
    requires c.p.HmacSized() && PairInv(c, side, own, peer) && IsWork(w) && T.Enabled(own.tr, w)
    ensures PairInv(c, side, own.(tr := T.Do(own.tr, w)), peer)
  {
    hide RatchetInv, InOrder, Told, T.Inv, Exclusive;
    T.StepKeeps(own.tr, w);
    assert T.Do(own.tr, w).pushed == own.tr.pushed && T.Do(own.tr, w).handed == own.tr.handed;
  }

  /** The packet in the worker's hands is the next one of its direction. */
  lemma NextInHand(c: Setup, side: Side, own: Station, peer: Station)
    requires c.p.HmacSized() && PairInv(c, side, own, peer) && own.tr.worker.Calling?
    ensures |own.told| == |own.tr.handed| < |peer.sent| < U32_LIMIT
    ensures Packet(c, Other(side), |own.tr.handed|, peer.sent[|own.tr.handed|], own.tr.worker.msg)
  {
    hide RatchetInv, Packet, Exclusive;
    var n, msg := |own.tr.handed|, own.tr.worker.msg;
    assert own.tr.pushed[n] == msg;
    assert (own.tr.pushed + Pending(peer.mutex, peer.threads))[n] == msg;
  }

  lemma OneMoreTold(c: Setup, side: Side, told: seq<Notice>, peerSent: seq<ByteString>)
    requires Told(c, side, told, peerSent) && |told| < |peerSent|
    ensures Told(c, side, told + [Notice(c.ids.At(Other(side)), |told|, peerSent[|told|])], peerSent)
  {
  }

  /** The dispatcher takes the next packet of its direction. */
  lemma TakesNext(c: Setup, side: Side, sent: nat, n: nat, d: DispatcherState, text: ByteString, packet: ByteString)
    requires c.Good() && RatchetInv(c, side, sent, n, d) && n + 1 < U32_LIMIT
    requires Packet(c, Other(side), n, text, packet)
    ensures var (d', inbound) := OnRaw(c.p, d, packet);
            RatchetInv(c, side, sent, n + 1, d') && NewsOf(inbound) == [Notice(c.ids.At(Other(side)), n, text)]
  {
    hide EndInv, Packet, OnRaw;
    AcceptsNewPacket(c, side, sent, Below(n), d, n, text, packet);
    assert Below(n) + {n} == Below(n + 1);
  }

  lemma CallbackKeeps(c: Setup, side: Side, own: Station, peer: Station)
    requires c.Good() && PairInv(c, side, own, peer) && own.tr.worker.Calling?
    ensures PairInv(c, side, Called(c.p, own), peer)
  {
    hide RatchetInv, Packet, InOrder, Told, Exclusive, OnRaw, T.Inv;
    var n := |own.tr.handed|;
    NextInHand(c, side, own, peer);
    TakesNext(c, side, |own.sent|, n, own.d, peer.sent[n], own.tr.worker.msg);
    T.StepKeeps(own.tr, T.Return);
    assert Other(Other(side)) == side;
    OneMoreTold(c, side, own.told, peer.sent);
  }

  /** What an enabled Encrypt hands to the cipher. */
  function DraftOf(s: Duo<Station>, m: Move): Draft
    requires m.Encrypt? && Enabled(s, m)
  {
    Draft(m.nonce, StageOf(s.At(m.side).threads, m.thread).text)
  }

  lemma MoveKeeps(c: Setup, s: Duo<Station>, m: Move)
    requires c.Good() && Inv(c, s) && Enabled(s, m)
    requires m.Call? ==> Fits(m.text)
    requires m.Encrypt? ==> |s.At(m.side).sent| + 1 < U32_LIMIT && DraftOf(s, m) in c.used
    ensures Inv(c, Do(c.p, c.ids, s, m))
  {
    hide PairInv, SendMessage, Called, T.Do;
    var side, own, peer := m.side, s.At(m.side), s.At(Other(m.side));
    PairSymmetric(c, s.alice, s.bob);
    var s' := Do(c.p, c.ids, s, m);
    PairSymmetric(c, s'.alice, s'.bob);
    match m
    case Call(_, t, text) => CallKeeps(c, side, own, peer, t, text);
    case Encrypt(_, t, nonce, now) => EncryptKeeps(c, side, own, peer, t, nonce, now);
    case LockPeer(_, t) => LockKeeps(c, side, own, peer, t);
    case Push(_, t) => PushKeeps(c, side, own, peer, t);
    case UnlockPeer(_, t) => UnlockKeeps(c, side, own, peer, t);
    case Leave(_, t) => LeaveKeeps(c, side, own, peer, t);
    case Work(_, w) => WorkKeeps(c, side, own, peer, w);
    case Callback(_) => CallbackKeeps(c, side, own, peer);
  }

  function StartStation(d: DispatcherState): Station {
    Station(d, None, map[], T.INITIAL, [], [])
  }

  function StartStations(
    p: Primitives, ids: Duo<ByteString>, root: ByteString, privs: Duo<ByteString>,
    others: Duo<map<ByteString, Session>>): Duo<Station>
    requires p.HmacSized()
  {
    var ends := Start(p, ids, root, privs, others).ends;
    Duo(StartStation(ends.alice), StartStation(ends.bob))
  }

  /** A run: every move is enabled, plaintexts fit the codec, no counter runs out, and `used` is all that is sealed. */
  ghost predicate IsRun(
    p: Primitives, ids: Duo<ByteString>, used: set<Draft>, states: seq<Duo<Station>>, moves: seq<Move>)
    requires p.HmacSized()
  {
    && |states| == |moves| + 1
    && forall k :: 0 <= k < |moves| ==>
         && Enabled(states[k], moves[k])
         && states[k + 1] == Do(p, ids, states[k], moves[k])
         && (moves[k].Call? ==> Fits(moves[k].text))
         && (moves[k].Encrypt? ==>
               |states[k].At(moves[k].side).sent| + 1 < U32_LIMIT && DraftOf(states[k], moves[k]) in used)
  }

  lemma {:induction false} RunKeeps(c: Setup, states: seq<Duo<Station>>, moves: seq<Move>, k: nat)
    requires c.Good() && IsRun(c.p, c.ids, c.used, states, moves) && Inv(c, states[0]) && k < |states|
    ensures Inv(c, states[k])
  {
    if k > 0 {
      RunKeeps(c, states, moves, k - 1);
      MoveKeeps(c, states[k - 1], moves[k - 1]);
    }
  }

  lemma StartKeeps(
    p: Primitives, ids: Duo<ByteString>, root: ByteString, privs: Duo<ByteString>, used: set<Draft>,
    others: Duo<map<ByteString, Session>>)
    requires SetupFor(p, ids, root, privs, used).Good() && ForOthers(ids, others)
    ensures Inv(SetupFor(p, ids, root, privs, used), StartStations(p, ids, root, privs, others))
  {
    StartRefines(p, ids, root, privs, used, others);
    var c, s, m := SetupFor(p, ids, root, privs, used), Start(p, ids, root, privs, others), MailRun(ids, []);
    assert Below(0) == {};
    assert SideRefines(c, Alice, m, s.ends.At(Alice), s.inbox.At(Alice));
    assert SideRefines(c, Bob, m, s.ends.At(Bob), s.inbox.At(Bob));
  }

  /** In every interleaving nothing is ever out of order: a receiver stores no skipped key, and what its callback was
      told is a prefix of what the other side's threads encrypted, in that order; at rest it is all of it. */
  lemma FirstInFirstOut(
    p: Primitives, ids: Duo<ByteString>, root: ByteString, privs: Duo<ByteString>, used: set<Draft>,
    others: Duo<map<ByteString, Session>>, states: seq<Duo<Station>>, moves: seq<Move>, k: nat, side: Side)
    requires SetupFor(p, ids, root, privs, used).Good() && ForOthers(ids, others)
    requires IsRun(p, ids, used, states, moves) && states[0] == StartStations(p, ids, root, privs, others)
    requires k < |states|
    ensures var own, peer := states[k].At(side), states[k].At(Other(side));
            && ids.At(Other(side)) in own.d.sessions
            && own.d.sessions[ids.At(Other(side))].ratchet.skipped == map[]
            && |own.told| <= |peer.sent|
            && (forall j :: 0 <= j < |own.told| ==> own.told[j] == Notice(ids.At(Other(side)), j, peer.sent[j]))
            && (peer.mutex == None && own.tr.queue == [] && !own.tr.worker.Calling? ==> |own.told| == |peer.sent|)
  {
    hide Start, StartStations, SenderInv;
    var c := SetupFor(p, ids, root, privs, used);
    StartKeeps(p, ids, root, privs, used, others);
    RunKeeps(c, states, moves, k);
    var own := states[k].At(side);
    assert PairInv(c, side, own, states[k].At(Other(side)));
    var skipped := own.d.sessions[ids.At(Other(side))].ratchet.skipped;
    assert forall i: nat :: i !in skipped;
    assert skipped == map[];
  }
}
