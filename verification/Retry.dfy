/** The dispatcher with an offline queue behind it: what it queues, and how retry passes drain the queue. */
module Retry {
  import opened Bytes
  import opened Crypto
  import opened Dispatch
  import opened Offline
  import opened MessageIds
  import opened Batches
  import D = Delivery
  import N = Network

  datatype Connection = OfflineState | MeshOnly | Connecting | Online

  predicate Settled(r: Row, r': Row, delivered: bool, now: int) {
    if delivered then r' == r.(status := Delivered)
    else r' == r.(status := Failed, retryCount := r.retryCount + 1, lastAttempt := now)
  }

  /** The first `n` picks have been settled by whether their recipient is ready, and nothing else has changed. */
  ghost predicate SettledSoFar(
    d: DispatcherState, rows: seq<Row>, rows': seq<Row>, picks: seq<nat>, n: nat, seconds: nat -> int)
    requires n <= |picks|
  {
    && |rows'| == |rows|
    && (forall j :: 0 <= j < n ==>
          picks[j] < |rows|
          && Settled(rows[picks[j]], rows'[picks[j]], Ready(d, rows[picks[j]].recipient), seconds(j)))
    && (forall k :: 0 <= k < |rows| && k !in picks[..n] ==> rows'[k] == rows[k])
  }

  function Picked(rows: seq<Row>, picks: seq<nat>): seq<Row>
    requires forall i :: 0 <= i < |picks| ==> picks[i] < |rows|
  {
    seq(|picks|, i requires 0 <= i < |picks| => rows[picks[i]])
  }

  /** One pass of retry_queued_messages while not offline: the dispatcher before and after, the rows it picked in
      order, and what left for each. */
  datatype PassRun = PassRun(
    before: DispatcherState, after: DispatcherState, picks: seq<nat>, packets: seq<Option<ByteString>>,
    nonce: nat -> ByteString, clock: nat -> u64, seconds: nat -> int)

  ghost predicate Pass(p: Primitives, run: PassRun, rows: seq<Row>, rows': seq<Row>) {
    && OldestPending(rows, run.picks)
    && (run.after, run.packets) == SendAll(p, run.before, Picked(rows, run.picks), run.nonce, run.clock)
    && SettledSoFar(run.before, rows, rows', run.picks, |run.picks|, run.seconds)
  }

  /** The rows that the first picks do not name are those that none of them is. */
  lemma PickedSoFar(picks: seq<nat>, n: nat)
    requires n < |picks|
    ensures forall k :: k in picks[..n + 1] <==> k in picks[..n] || k == picks[n]
    ensures forall j :: 0 <= j < n ==> picks[j] in picks[..n]
  {
    assert picks[..n + 1] == picks[..n] + [picks[n]];
    assert forall j :: 0 <= j < n ==> picks[..n][j] == picks[j];
  }

  lemma MarkSettles(
    d: DispatcherState, rows: seq<Row>, rows': seq<Row>, picks: seq<nat>, n: nat, seconds: nat -> int)
    requires TableInv(rows) && OldestFirst(rows, picks) && n < |picks|
    requires SettledSoFar(d, rows, rows', picks, n, seconds)
    ensures var r := rows[picks[n]];
            SettledSoFar(
              d, rows, Marked(rows', r.messageId, Ready(d, r.recipient), seconds(n)), picks, n + 1, seconds)
  {
    hide CString, Ready;
    PickedSoFar(picks, n);
    var r := rows[picks[n]];
    var marked := Marked(rows', r.messageId, Ready(d, r.recipient), seconds(n));
    assert picks[n] !in picks[..n];
    assert rows'[picks[n]] == r;
    forall k | 0 <= k < |rows| && k != picks[n]
      ensures marked[k] == rows'[k]
    {
      SettledKeepsId(d, rows, rows', picks, n, seconds, k);
    }
  }

  lemma SettledKeepsId(
    d: DispatcherState, rows: seq<Row>, rows': seq<Row>, picks: seq<nat>, n: nat, seconds: nat -> int, k: nat)
    requires n <= |picks| && SettledSoFar(d, rows, rows', picks, n, seconds) && k < |rows|
    ensures rows'[k].messageId == rows[k].messageId
  {
    hide Ready;
    if k in picks[..n] {
      var j :| 0 <= j < n && picks[j] == k;
    }
  }

  lemma NothingAttempted(
    p: Primitives, d: DispatcherState, rows: seq<Row>, picks: seq<nat>,
    nonce: nat -> ByteString, clock: nat -> u64, seconds: nat -> int)
    ensures SendAll(p, d, [], nonce, clock) == (d, []) && SettledSoFar(d, rows, rows, picks, 0, seconds)
  {
  }

  /** One more message of the batch handed over and marked. */
  lemma OneMoreAttempt(
    p: Primitives, d0: DispatcherState, rows0: seq<Row>, picks: seq<nat>, i: nat, d: DispatcherState,
    packets: seq<Option<ByteString>>, rows: seq<Row>,
    nonce: nat -> ByteString, clock: nat -> u64, seconds: nat -> int)
    requires TableInv(rows0) && OldestFirst(rows0, picks) && i < |picks|
    requires (d, packets) == SendAll(p, d0, Picked(rows0, picks)[..i], nonce, clock)
    requires SettledSoFar(d0, rows0, rows, picks, i, seconds)
    ensures var msg := rows0[picks[i]];
            var (d', sent) := SendMessage(p, d, msg.recipient, nonce(i), clock(i), msg.envelope);
            && msg.retryCount == 0 && d'.deviceId == d.deviceId
            && (d', packets + [sent]) == SendAll(p, d0, Picked(rows0, picks)[..i + 1], nonce, clock)
            && SettledSoFar(d0, rows0, Marked(rows, msg.messageId, sent.Some?, seconds(i)), picks, i + 1, seconds)
  {
    hide SettledSoFar, SendMessage, Ready, CString;
    var msg, batch := rows0[picks[i]], Picked(rows0, picks);
    assert batch[..i + 1][..i] == batch[..i] && batch[..i + 1][i] == msg;
    SentIffReady(p, d0, batch[..i], nonce, clock);
    SendKeepsReady(p, d, msg.recipient, nonce(i), clock(i), msg.envelope);
    MarkSettles(d0, rows0, rows, picks, i, seconds);
  }

  /** What settling leaves of every row. */
  lemma SettledRow(
    d: DispatcherState, rows: seq<Row>, rows': seq<Row>, picks: seq<nat>, seconds: nat -> int, k: nat)
    requires SettledSoFar(d, rows, rows', picks, |picks|, seconds) && k < |rows|
    ensures |rows'| == |rows| && rows'[k].messageId == rows[k].messageId && rows'[k].id == rows[k].id
    ensures k !in picks ==> rows'[k] == rows[k]
    ensures k in picks ==>
              && rows'[k].status == (if Ready(d, rows[k].recipient) then Delivered else Failed)
              && rows'[k].retryCount == rows[k].retryCount + if Ready(d, rows[k].recipient) then 0 else 1
  {
    hide Ready;
    assert picks[..|picks|] == picks;
    if k in picks {
      var j :| 0 <= j < |picks| && picks[j] == k;
    }
  }

  lemma SettledKeepsInv(d: DispatcherState, rows: seq<Row>, rows': seq<Row>, picks: seq<nat>, seconds: nat -> int)
    requires TableInv(rows) && OldestFirst(rows, picks) && SettledSoFar(d, rows, rows', picks, |picks|, seconds)
    ensures TableInv(rows')
  {
    hide CString, Ready, SettledSoFar;
    if rows != [] {
      SettledRow(d, rows, rows', picks, seconds, 0);
    }
    forall k | 0 <= k < |rows|
      ensures |rows'| == |rows| && rows'[k].messageId == rows[k].messageId
      ensures rows'[k].retryCount == if rows'[k].status.Failed? then 1 else 0
    {
      SettledRow(d, rows, rows', picks, seconds, k);
      if k in picks {
        assert rows[k].status.Pending?;
      }
    }
    SameLength(d, rows, rows', picks, seconds);
  }

  lemma SameLength(d: DispatcherState, rows: seq<Row>, rows': seq<Row>, picks: seq<nat>, seconds: nat -> int)
    requires SettledSoFar(d, rows, rows', picks, |picks|, seconds)
    ensures |rows'| == |rows|
  {
  }

  lemma SettledKeepsNumbers(
    d: DispatcherState, t: Table, rows: seq<Row>, picks: seq<nat>, seconds: nat -> int)
    requires Numbered(t) && OldestFirst(t.rows, picks) && SettledSoFar(d, t.rows, rows, picks, |picks|, seconds)
    ensures Numbered(t.(rows := rows))
  {
    hide CString, Ready, TableInv, SettledSoFar;
    SettledKeepsInv(d, t.rows, rows, picks, seconds);
    SameLength(d, t.rows, rows, picks, seconds);
    forall r | r in rows
      ensures r.id <= t.lastId
    {
      var k :| 0 <= k < |rows| && rows[k] == r;
      SettledRow(d, t.rows, rows, picks, seconds, k);
      assert t.rows[k] in t.rows;
    }
  }

  class EnhancedDispatcher {
    const dispatcher: Dispatcher
    const queue: OfflineQueue
    var connection: Connection
    var offlineMode: bool
    var deviceId: ByteString
    var messagesSent: nat
    var messagesQueued: nat

    ghost predicate Valid()
      reads this, dispatcher, dispatcher.mls, queue
    {
      dispatcher.Valid() && Numbered(queue.table) && connection != Connecting && deviceId == dispatcher.deviceId
    }

    constructor (p: Primitives)
      requires p.HmacSized()
      ensures Valid() && fresh(dispatcher) && fresh(queue) && queue.table == Table([], 0)
    {
      dispatcher := new Dispatcher(p);
      queue := new OfflineQueue();
      connection, offlineMode := OfflineState, false;
      deviceId := [];
      messagesSent, messagesQueued := 0, 0;
    }

    method RegisterDevice(id: ByteString)
      requires Valid()
      modifies this`deviceId, dispatcher
      ensures Valid() && deviceId == id && dispatcher.View() == old(dispatcher.View()).(deviceId := id)
    {
      deviceId := id;
      dispatcher.RegisterDevice(id);
    }

    method CreateSessionWith(remote: ByteString, root: ByteString, priv: ByteString) returns (ok: bool)
      requires Valid() && |priv| == |dispatcher.p.publicKey(priv)| == KEY_BYTES
      modifies dispatcher
      ensures Valid()
      ensures (dispatcher.View(), ok) == CreateSession(dispatcher.p, old(dispatcher.View()), remote, root, priv)
    {
      ok := dispatcher.CreateSessionWith(remote, root, priv);
    }

    method SetOfflineMode(offline: bool)
      requires Valid()
      modifies this`offlineMode
      ensures Valid() && offlineMode == offline
    {
      offlineMode := offline;
    }

    /** The transport always counts as connected; `internet` is what the mesh reports. */
    method CheckConnectivity(internet: bool)
      requires Valid()
      modifies this`connection
      ensures Valid()
      ensures connection.Online? <==> !offlineMode
      ensures connection.OfflineState? <==> offlineMode && !internet
    {
      var transportConnected := true;
      if transportConnected && !offlineMode {
        connection := Online;
      } else if internet {
        connection := MeshOnly;
      } else {
        connection := OfflineState;
      }
    }

    /** Sent through the dispatcher when it has a session for the recipient; queued otherwise, unless it is empty. */
    method SendMessageToDevice(remote: ByteString, text: ByteString, nonce: ByteString, millis: u64, seconds: int)
      returns (sent: Option<ByteString>)
      requires Valid()
      modifies this`messagesSent, this`messagesQueued, dispatcher, queue
      ensures Valid() && messagesSent == old(messagesSent) + 1
      ensures (dispatcher.View(), sent)
              == SendMessage(dispatcher.p, old(dispatcher.View()), remote, nonce, millis, text)
      ensures sent.Some? <==> Ready(old(dispatcher.View()), remote)
      ensures messagesQueued == old(messagesQueued) + if sent.Some? then 0 else 1
      ensures queue.table == if sent.Some? then old(queue.table)
                             else QueueOne(deviceId, old(queue.table), Unsent(remote, text, millis, seconds))
    {
      messagesSent := messagesSent + 1;
      var id := MessageId(deviceId, remote, millis);
      sent := dispatcher.SendMessageToDevice(remote, nonce, millis, text);
      if sent.None? {
        QueueOneKeeps(deviceId, queue.table, Unsent(remote, text, millis, seconds));
        var queued := queue.QueueMessage(id, remote, text, seconds);
        messagesQueued := messagesQueued + 1;
      }
    }

    /** `millis` and `seconds` are the clock readings of the dispatcher and of mark_failed. */
    method Attempt(msg: Row, nonce: ByteString, millis: u64, seconds: int) returns (sent: Option<ByteString>)
      requires dispatcher.Valid()
      modifies dispatcher, queue
      ensures dispatcher.Valid()
      ensures (dispatcher.View(), sent)
              == SendMessage(dispatcher.p, old(dispatcher.View()), msg.recipient, nonce, millis, msg.envelope)
      ensures queue.table
              == old(queue.table).(rows := Marked(old(queue.table.rows), msg.messageId, sent.Some?, seconds))
    {
      sent := dispatcher.SendMessageToDevice(msg.recipient, nonce, millis, msg.envelope);
      if sent.Some? {
        queue.MarkDelivered(msg.messageId);
        assert queue.table.rows == Marked(old(queue.table.rows), msg.messageId, true, seconds);
      } else {
        queue.MarkFailed(msg.messageId, seconds);
      }
    }

    /** Each message of the batch is handed to the dispatcher once, in order, and marked by how that went. `nonce`,
        `clock` and `seconds` give the randomness and the clock readings of each attempt; `packets` is what left. */
    method RetryQueuedMessages(nonce: nat -> ByteString, clock: nat -> u64, seconds: nat -> int)
      returns (packets: seq<Option<ByteString>>, ghost picks: seq<nat>)
      requires Valid()
      modifies dispatcher, queue
      ensures Valid()
      ensures connection.OfflineState? ==>
                packets == [] && queue.table == old(queue.table) && dispatcher.View() == old(dispatcher.View())
      ensures !connection.OfflineState? ==>
                var run := PassRun(old(dispatcher.View()), dispatcher.View(), picks, packets, nonce, clock, seconds);
                Pass(dispatcher.p, run, old(queue.table.rows), queue.table.rows)
    {
      hide SendAll, SendMessage, SettledSoFar, Ready, CString, Marked;
      packets, picks := [], [];
      if connection.OfflineState? {
        return;
      }
      ghost var d0, t0 := dispatcher.View(), queue.table;
      var pending: seq<Row>;
      pending, picks := queue.GetPendingMessages();
      assert pending == Picked(t0.rows, picks) && pending[..0] == [];
      NothingAttempted(dispatcher.p, d0, t0.rows, picks, nonce, clock, seconds);
      for i := 0 to |pending|
        invariant dispatcher.Valid() && deviceId == dispatcher.deviceId && queue.table.lastId == t0.lastId
        invariant (dispatcher.View(), packets) == SendAll(dispatcher.p, d0, pending[..i], nonce, clock)
        invariant SettledSoFar(d0, t0.rows, queue.table.rows, picks, i, seconds)
      {
        var msg := pending[i];
        OneMoreAttempt(
          dispatcher.p, d0, t0.rows, picks, i, dispatcher.View(), packets, queue.table.rows, nonce, clock, seconds);
        if msg.retryCount > MAX_RETRIES {
          // Never: a pending row has not been retried, and a retried row is not pending.
          assert false;
        }
        var sent := Attempt(msg, nonce(i), clock(i), seconds(i));
        packets := packets + [sent];
      }
      assert pending[..|pending|] == pending;
      SettledKeepsNumbers(d0, t0, queue.table.rows, picks, seconds);
    }
  }

  lemma PassCounts(p: Primitives, run: PassRun, rows: seq<Row>, rows': seq<Row>)
    requires TableInv(rows) && Pass(p, run, rows, rows')
    ensures TableInv(rows') && Count(rows', Pending) == Count(rows, Pending) - |run.picks|
  {
    hide SendAll, CString, Ready, TableInv;
    SettledKeepsInv(run.before, rows, rows', run.picks, run.seconds);
    CountIsCardinality(rows, Pending);
    CountIsCardinality(rows', Pending);
    var picked := set i: nat | i in run.picks;
    PendingLeft(run, rows, rows', picked);
    DistinctCount(run.picks, picked);
  }

  lemma PendingLeft(run: PassRun, rows: seq<Row>, rows': seq<Row>, picked: set<nat>)
    requires OldestFirst(rows, run.picks)
    requires SettledSoFar(run.before, rows, rows', run.picks, |run.picks|, run.seconds)
    requires forall i: nat :: i in picked <==> i in run.picks
    ensures picked <= Indices(rows, Pending) && Indices(rows', Pending) == Indices(rows, Pending) - picked
  {
    hide Ready, SettledSoFar;
    SameLength(run.before, rows, rows', run.picks, run.seconds);
    forall k: nat
      ensures k in Indices(rows', Pending) <==> k in Indices(rows, Pending) && k !in picked
    {
      if k < |rows| {
        SettledRow(run.before, rows, rows', run.picks, run.seconds, k);
      }
    }
  }

  /** Passes with no message queued in between; the dispatcher may gain or lose sessions from pass to pass. */
  ghost predicate Draining(p: Primitives, runs: seq<PassRun>, tables: seq<seq<Row>>) {
    && |tables| == |runs| + 1
    && TableInv(tables[0])
    && forall i :: 0 <= i < |runs| ==> Pass(p, runs[i], tables[i], tables[i + 1])
  }

  /** Each pass takes the next hundred: after m of them max(0, n - 100 m) rows are still pending, so exactly
      ceil(n / 100) passes empty the queue. */
  lemma {:induction false} DrainsByHundreds(p: Primitives, runs: seq<PassRun>, tables: seq<seq<Row>>, m: nat)
    requires Draining(p, runs, tables) && m <= |runs|
    ensures TableInv(tables[m]) && |tables[m]| == |tables[0]|
    ensures var n := Count(tables[0], Pending);
            Count(tables[m], Pending) == if n < 100 * m then 0 else n - 100 * m
  {
    hide SendAll, CString, TableInv;
    if m > 0 {
      DrainsByHundreds(p, runs, tables, m - 1);
      PassCounts(p, runs[m - 1], tables[m - 1], tables[m]);
    }
  }

  /** How often the first `m` passes handed row `k` to the dispatcher. */
  function Attempts(runs: seq<PassRun>, k: nat, m: nat): nat
    requires m <= |runs|
  {
    if m == 0 then 0 else Attempts(runs, k, m - 1) + if k in runs[m - 1].picks then 1 else 0
  }

  /** A packet for row `k` left in the pass. */
  ghost predicate Left(run: PassRun, k: nat) {
    exists j :: 0 <= j < |run.picks| && j < |run.packets| && run.picks[j] == k && run.packets[j].Some?
  }

  ghost function PacketsFor(runs: seq<PassRun>, k: nat, m: nat): nat
    requires m <= |runs|
  {
    if m == 0 then 0 else PacketsFor(runs, k, m - 1) + if Left(runs[m - 1], k) then 1 else 0
  }

  /** In a pass a row is left alone, or was pending and is settled: delivered if a packet left for it, failed if not. */
  lemma PassOnRow(p: Primitives, run: PassRun, rows: seq<Row>, rows': seq<Row>, k: nat)
    requires Pass(p, run, rows, rows') && k < |rows|
    ensures |rows'| == |rows|
    ensures if k in run.picks
            then rows[k].status.Pending? && rows'[k].status == (if Left(run, k) then Delivered else Failed)
            else rows'[k] == rows[k] && !Left(run, k)
  {
    hide SendAll, Ready, SettledSoFar;
    SettledRow(run.before, rows, rows', run.picks, run.seconds, k);
    var batch := Picked(rows, run.picks);
    SentIffReady(p, run.before, batch, run.nonce, run.clock);
    assert forall j :: 0 <= j < |batch| ==> batch[j] == rows[run.picks[j]];
    if k in run.picks {
      var j :| 0 <= j < |run.picks| && run.picks[j] == k;
      assert run.packets[j].Some? <==> Ready(run.before, rows[k].recipient);
    }
  }

  /** A pending row is handed to the dispatcher at most once and is pending exactly until then; a packet leaves for it
      exactly if it ends as delivered. No other row is ever touched, so a failed message is never tried again. */
  lemma {:induction false} AttemptedOnce(p: Primitives, runs: seq<PassRun>, tables: seq<seq<Row>>, m: nat, k: nat)
    requires Draining(p, runs, tables) && m <= |runs| && k < |tables[0]|
    ensures |tables[m]| == |tables[0]|
    ensures Attempts(runs, k, m) == if tables[0][k].status.Pending? && !tables[m][k].status.Pending? then 1 else 0
    ensures PacketsFor(runs, k, m) == if tables[0][k].status.Pending? && tables[m][k].status.Delivered? then 1 else 0
    ensures tables[m][k].status.Pending? || !tables[0][k].status.Pending? ==> tables[m][k] == tables[0][k]
  {
    hide Pass, TableInv, Left;
    if m > 0 {
      AttemptedOnce(p, runs, tables, m - 1, k);
      PassOnRow(p, runs[m - 1], tables[m - 1], tables[m], k);
    }
  }

  lemma {:induction false} NonePending(rows: seq<Row>, k: nat)
    requires Count(rows, Pending) == 0 && k < |rows|
    ensures !rows[k].status.Pending?
  {
    CountIsCardinality(rows, Pending);
    assert k in Indices(rows, Pending) <==> rows[k].status.Pending?;
  }

  /** With enough passes for its n rows the queue is empty: every one of them was handed to the dispatcher exactly once,
      and a packet left for exactly those marked delivered. */
  lemma DrainsCompletely(p: Primitives, runs: seq<PassRun>, tables: seq<seq<Row>>, k: nat)
    requires Draining(p, runs, tables) && k < |tables[0]|
    requires 100 * |runs| >= Count(tables[0], Pending)
    ensures var last := tables[|runs|];
            |last| == |tables[0]| && Count(last, Pending) == 0 && !last[k].status.Pending?
    ensures Attempts(runs, k, |runs|) == if tables[0][k].status.Pending? then 1 else 0
    ensures PacketsFor(runs, k, |runs|)
            == if tables[0][k].status.Pending? && tables[|runs|][k].status.Delivered? then 1 else 0
  {
    hide Pass, TableInv, Left;
    DrainsByHundreds(p, runs, tables, |runs|);
    AttemptedOnce(p, runs, tables, |runs|, k);
    NonePending(tables[|runs|], k);
  }

  /** A pending message for the peer with fewer than a hundred others as old leaves in the next pass, as the next packet
      of the session after those for the peer that are picked before it, with its text, and is marked delivered. */
  lemma QueuedLeaves(
    c: N.Setup, side: N.Side, sent: nat, seen: set<nat>, run: PassRun, rows: seq<Row>, rows': seq<Row>, k: nat)
    returns (j: nat)
    requires c.Good() && N.EndInv(c, side, sent, seen, run.before) && sent + 100 < U32_LIMIT
    requires Pass(c.p, run, rows, rows') && k < |rows| && rows[k].status.Pending?
    requires rows[k].recipient == c.ids.At(N.Other(side)) && |AsOld(rows, k)| < 100
    requires Sendable(c, c.ids.At(N.Other(side)), Picked(rows, run.picks), run.nonce)
    ensures j < |run.picks| && run.picks[j] == k && rows'[k].status.Delivered?
    ensures var before := CountTo(Picked(rows, run.picks)[..j], c.ids.At(N.Other(side)));
            run.packets[j].Some? && N.Packet(c, side, sent + before, rows[k].envelope, run.packets[j].value)
  {
    hide N.EndInv, N.Packet, SendAll, Sendable, SettledSoFar, Ready, N.Setup.Good, AsOld;
    PickedIfOld(rows, run.picks, k);
    j :| 0 <= j < |run.picks| && run.picks[j] == k;
    var batch := Picked(rows, run.picks);
    BatchPackets(c, side, sent, seen, run.before, batch, run.nonce, run.clock);
    PassOnRow(c.p, run, rows, rows', k);
    assert batch[j] == rows[k];
  }

  /** A message that could not be sent because its recipient had no session, and that has one by the next pass. */
  lemma UnsentLeaves(
    c: N.Setup, side: N.Side, sent: nat, seen: set<nat>, own: ByteString, t: Table, m: Unsent,
    run: PassRun, rows: seq<Row>, rows': seq<Row>) returns (j: nat)
    requires Numbered(t) && m.text != [] && CString(m.remote) == c.ids.At(N.Other(side))
    requires c.Good() && N.EndInv(c, side, sent, seen, run.before) && sent + 100 < U32_LIMIT
    requires rows == QueueOne(own, t, m).rows && rows != []
    requires Pass(c.p, run, rows, rows') && |AsOld(rows, |rows| - 1)| < 100
    requires Sendable(c, c.ids.At(N.Other(side)), Picked(rows, run.picks), run.nonce)
    ensures j < |run.picks| && run.picks[j] == |rows| - 1 && rows'[|rows| - 1].status.Delivered?
    ensures var before := CountTo(Picked(rows, run.picks)[..j], c.ids.At(N.Other(side)));
            run.packets[j].Some? && N.Packet(c, side, sent + before, m.text, run.packets[j].value)
  {
    hide N.EndInv, N.Packet, Sendable, Pass, AsOld, CString, TableInv, D.KeysSeparate, QueueOne;
    QueueOneKeeps(own, t, m);
    j := QueuedLeaves(c, side, sent, seen, run, rows, rows', |rows| - 1);
  }
}
