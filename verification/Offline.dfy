/** The offline queue's table and the retry pass that drains it. */
module Offline {
  import opened Bytes

  const BATCH := 100
  const MAX_RETRIES := 10

  datatype Status = Pending | Delivered | Failed

  /** One row of `queued_messages`. */
  datatype Row = Row(
    id: nat,
    messageId: ByteString,
    recipient: ByteString,
    envelope: ByteString,
    createdAt: int,
    lastAttempt: int,
    retryCount: nat,
    status: Status
  )

  /** The table in row-id order, and the last row id AUTOINCREMENT has given out. */
  datatype Table = Table(rows: seq<Row>, lastId: nat)

  /** What SQLite is given of a text bound with length -1: the bytes before the first NUL. */
  function CString(b: ByteString): ByteString {
    if b == [] || b[0] == 0 then [] else [b[0]] + CString(b[1..])
  }

  lemma {:induction false} CStringKeeps(b: ByteString)
    ensures CString(b) == b <==> 0 !in b
    ensures CString(CString(b)) == CString(b)
    ensures 0 !in CString(b) && CString(b) <= b && (|CString(b)| < |b| ==> b[|CString(b)|] == 0)
  {
    if b != [] && b[0] != 0 {
      CStringKeeps(b[1..]);
      assert b == [b[0]] + b[1..];
      assert CString(b)[1..] == CString(b[1..]);
    }
  }

  function Without(rows: seq<Row>, messageId: ByteString): seq<Row> {
    if rows == [] then []
    else if rows[0].messageId == messageId then Without(rows[1..], messageId)
    else [rows[0]] + Without(rows[1..], messageId)
  }

  /** INSERT OR REPLACE: the row with the same message id, if any, goes away. An empty payload has no storage, is bound
      as NULL and refused by NOT NULL, which leaves the table alone. */
  function Inserted(t: Table, messageId: ByteString, recipient: ByteString, envelope: ByteString, now: int): Table {
    if envelope == [] then t else
    var row := Row(t.lastId + 1, CString(messageId), CString(recipient), envelope, now, now, 0, Pending);
    Table(Without(t.rows, CString(messageId)) + [row], t.lastId + 1)
  }

  function MarkedRow(r: Row, messageId: ByteString, delivered: bool, now: int): Row {
    if r.messageId != messageId then r
    else if delivered then r.(status := Delivered)
    else r.(status := Failed, lastAttempt := now, retryCount := r.retryCount + 1)
  }

  /** The UPDATE of mark_delivered, or of mark_failed. */
  function Marked(rows: seq<Row>, messageId: ByteString, delivered: bool, now: int): (r: seq<Row>)
    ensures |r| == |rows|
    ensures forall k :: 0 <= k < |rows| ==> r[k] == MarkedRow(rows[k], CString(messageId), delivered, now)
  {
    seq(|rows|, k requires 0 <= k < |rows| => MarkedRow(rows[k], CString(messageId), delivered, now))
  }

  /** UNIQUE(message_id), and what the retry machine keeps: a retry is counted exactly on the rows that failed. */
  ghost predicate TableInv(rows: seq<Row>) {
    && (forall i, j :: 0 <= i < j < |rows| ==> rows[i].messageId != rows[j].messageId)
    && (forall i :: 0 <= i < |rows| ==> CString(rows[i].messageId) == rows[i].messageId)
    && (forall i :: 0 <= i < |rows| ==> rows[i].retryCount == if rows[i].status.Failed? then 1 else 0)
  }

  lemma {:induction false} WithoutKeepsOthers(rows: seq<Row>, messageId: ByteString)
    requires TableInv(rows)
    ensures TableInv(Without(rows, messageId))
    ensures forall r :: r in Without(rows, messageId) <==> r in rows && r.messageId != messageId
  {
    hide CString;
    if rows != [] {
      var rest := rows[1..];
      assert rows == [rows[0]] + rest;
      assert TableInv(rest) && rows[0] !in rest;
      WithoutKeepsOthers(rest, messageId);
      if rows[0].messageId != messageId {
        FirstKeepsInv(rows, Without(rest, messageId));
      }
    }
  }

  lemma FirstKeepsInv(rows: seq<Row>, kept: seq<Row>)
    requires rows != [] && TableInv(rows) && TableInv(kept) && forall r :: r in kept ==> r in rows[1..]
    ensures TableInv([rows[0]] + kept)
  {
    hide CString;
    forall j | 0 <= j < |kept|
      ensures kept[j].messageId != rows[0].messageId
    {
      assert kept[j] in kept;
      var k :| 0 <= k < |rows| - 1 && rows[1..][k] == kept[j];
      assert rows[k + 1] == kept[j];
    }
  }

  /** A row as it is first queued: pending, never tried, for the recipient up to the first NUL. */
  predicate IsQueued(r: Row, recipient: ByteString, envelope: ByteString, now: int) {
    && r.status.Pending? && r.retryCount == 0 && r.createdAt == r.lastAttempt == now
    && r.recipient == CString(recipient) && r.envelope == envelope
  }

  /** Queueing keeps message ids unique. It loses an older row exactly when the new message repeats its id up to the
      first NUL; the new message itself is there afterwards exactly if it is not empty. */
  lemma InsertKeepsInv(t: Table, messageId: ByteString, recipient: ByteString, envelope: ByteString, now: int)
    requires TableInv(t.rows)
    ensures var t' := Inserted(t, messageId, recipient, envelope, now);
            && TableInv(t'.rows)
            && (envelope == [] ==> t' == t)
            && (envelope != [] ==>
                  && t'.rows != [] && IsQueued(t'.rows[|t'.rows| - 1], recipient, envelope, now)
                  && forall r :: r in t.rows ==>
                       (r in t'.rows <==> r.messageId != CString(messageId) || r == t'.rows[|t'.rows| - 1]))
  {
    hide CString;
    CStringKeeps(messageId);
    WithoutKeepsOthers(t.rows, CString(messageId));
  }

  function Count(rows: seq<Row>, status: Status): nat {
    if rows == [] then 0
    else Count(rows[..|rows| - 1], status) + if rows[|rows| - 1].status == status then 1 else 0
  }

  function Retries(rows: seq<Row>): nat {
    if rows == [] then 0 else Retries(rows[..|rows| - 1]) + rows[|rows| - 1].retryCount
  }

  datatype Stats = Stats(pending: nat, delivered: nat, failed: nat, retries: nat)

  /** Every row is counted once, and the retries are the failures. */
  lemma {:induction false} StatsBalance(rows: seq<Row>)
    requires TableInv(rows)
    ensures Count(rows, Pending) + Count(rows, Delivered) + Count(rows, Failed) == |rows|
    ensures Retries(rows) == Count(rows, Failed)
  {
    if rows != [] {
      StatsBalance(rows[..|rows| - 1]);
    }
  }

  /** Distinct pending rows, oldest first, with no older pending row left out. */
  ghost predicate OldestFirst(rows: seq<Row>, picks: seq<nat>) {
    && (forall i :: 0 <= i < |picks| ==> picks[i] < |rows| && rows[picks[i]].status.Pending?)
    && (forall i, j :: 0 <= i < j < |picks| ==>
          picks[i] != picks[j] && rows[picks[i]].createdAt <= rows[picks[j]].createdAt)
    && (forall k, i :: 0 <= k < |rows| && rows[k].status.Pending? && k !in picks && 0 <= i < |picks| ==>
          rows[picks[i]].createdAt <= rows[k].createdAt)
  }

  /** What the SELECT promises: the oldest pending rows, all of them or a hundred. */
  ghost predicate OldestPending(rows: seq<Row>, picks: seq<nat>) {
    && OldestFirst(rows, picks)
    && |picks| == if Count(rows, Pending) < BATCH then Count(rows, Pending) else BATCH
  }

  /** `next` is a pending row not yet picked, and none of those is older. */
  ghost predicate IsNext(rows: seq<Row>, picks: seq<nat>, next: nat) {
    && next < |rows| && rows[next].status.Pending? && next !in picks
    && forall k :: 0 <= k < |rows| && rows[k].status.Pending? && k !in picks ==>
         rows[next].createdAt <= rows[k].createdAt
  }

  ghost predicate AllPicked(rows: seq<Row>, picks: seq<nat>) {
    forall k :: 0 <= k < |rows| && rows[k].status.Pending? ==> k in picks
  }

  lemma PickNext(rows: seq<Row>, picks: seq<nat>, next: nat)
    requires OldestFirst(rows, picks) && IsNext(rows, picks, next)
    ensures OldestFirst(rows, picks + [next])
  {
  }

  function Indices(rows: seq<Row>, status: Status): set<nat> {
    set k: nat | k < |rows| && rows[k].status == status
  }

  lemma {:induction false} CountIsCardinality(rows: seq<Row>, status: Status)
    ensures Count(rows, status) == |Indices(rows, status)|
  {
    if rows != [] {
      var last := |rows| - 1;
      CountIsCardinality(rows[..last], status);
      var before := Indices(rows[..last], status);
      if rows[last].status == status {
        assert Indices(rows, status) == before + {last};
      } else {
        assert Indices(rows, status) == before;
      }
    } else {
      assert Indices(rows, status) == {};
    }
  }

  lemma {:induction false} DistinctCount(picks: seq<nat>, within: set<nat>)
    requires forall i, j :: 0 <= i < j < |picks| ==> picks[i] != picks[j]
    requires forall i :: 0 <= i < |picks| ==> picks[i] in within
    ensures |picks| <= |within|
    ensures |picks| == |within| <==> forall k :: k in within ==> k in picks
  {
    if picks == [] {
      assert |within| == 0 <==> within == {};
      if within != {} {
        var k :| k in within;
      }
    } else {
      var last := |picks| - 1;
      var rest := within - {picks[last]};
      DistinctCount(picks[..last], rest);
      assert forall k :: k in picks <==> k in picks[..last] || k == picks[last];
    }
  }

  /** The other pending rows that are as old as row `k`. */
  function AsOld(rows: seq<Row>, k: nat): set<nat>
    requires k < |rows|
  {
    set i: nat | i < |rows| && i != k && rows[i].status.Pending? && rows[i].createdAt <= rows[k].createdAt
  }

  /** A pending row is picked if fewer than a hundred others are as old. */
  lemma PickedIfOld(rows: seq<Row>, picks: seq<nat>, k: nat)
    requires OldestPending(rows, picks) && k < |rows| && rows[k].status.Pending? && |AsOld(rows, k)| < 100
    ensures k in picks
  {
    CountIsCardinality(rows, Pending);
    DistinctCount(picks, Indices(rows, Pending));
    assert k in Indices(rows, Pending);
    if k !in picks {
      DistinctCount(picks, AsOld(rows, k));
    }
  }

  class OfflineQueue {
    var table: Table

    constructor ()
      ensures table == Table([], 0)
    {
      table := Table([], 0);
    }

    method QueueMessage(messageId: ByteString, recipient: ByteString, envelope: ByteString, now: int) returns (ok: bool)
      modifies this
      ensures ok == (envelope != [])
      ensures table == Inserted(old(table), messageId, recipient, envelope, now)
    {
      if envelope == [] {
        return false;
      }
      var key := CString(messageId);
      var row := Row(table.lastId + 1, key, CString(recipient), envelope, now, now, 0, Pending);
      var kept := [];
      for k := 0 to |table.rows|
        invariant kept + Without(table.rows[k..], key) == Without(table.rows, key)
        invariant table == old(table)
      {
        assert table.rows[k..][1..] == table.rows[k + 1..];
        if table.rows[k].messageId != key {
          kept := kept + [table.rows[k]];
        }
      }
      table := Table(kept + [row], table.lastId + 1);
      return true;
    }

    method NextOldest(picks: seq<nat>) returns (next: Option<nat>)
      ensures next.None? ==> AllPicked(table.rows, picks)
      ensures next.Some? ==> IsNext(table.rows, picks, next.value)
    {
      next := None;
      for k := 0 to |table.rows|
        invariant next.None? ==> AllPicked(table.rows[..k], picks)
        invariant next.Some? ==> IsNext(table.rows[..k], picks, next.value)
      {
        if table.rows[k].status.Pending? && k !in picks
           && (next.None? || table.rows[k].createdAt < table.rows[next.value].createdAt) {
          next := Some(k);
        }
      }
      assert table.rows[..|table.rows|] == table.rows;
    }

    method GetPendingMessages() returns (messages: seq<Row>, ghost picks: seq<nat>)
      ensures OldestPending(table.rows, picks)
      ensures |messages| == |picks| && forall i :: 0 <= i < |picks| ==> messages[i] == table.rows[picks[i]]
    {
      var chosen: seq<nat> := [];
      messages := [];
      var next := NextOldest(chosen);
      while |chosen| < BATCH && next.Some?
        invariant |messages| == |chosen| <= BATCH && OldestFirst(table.rows, chosen)
        invariant forall i :: 0 <= i < |chosen| ==> messages[i] == table.rows[chosen[i]]
        invariant if next.Some? then IsNext(table.rows, chosen, next.value) else AllPicked(table.rows, chosen)
        decreases BATCH - |chosen|
      {
        PickNext(table.rows, chosen, next.value);
        messages := messages + [table.rows[next.value]];
        chosen := chosen + [next.value];
        next := NextOldest(chosen);
      }
      picks := chosen;
      CountIsCardinality(table.rows, Pending);
      DistinctCount(picks, Indices(table.rows, Pending));
    }

    method MarkDelivered(messageId: ByteString)
      modifies this
      ensures table == old(table).(rows := Marked(old(table).rows, messageId, true, 0))
      ensures forall k :: 0 <= k < |table.rows| ==>
                var r := old(table).rows[k];
                table.rows[k] == if r.messageId == CString(messageId) then r.(status := Delivered) else r
    {
      table := table.(rows := Marked(table.rows, messageId, true, 0));
    }

    method MarkFailed(messageId: ByteString, now: int)
      modifies this
      ensures table == old(table).(rows := Marked(old(table).rows, messageId, false, now))
      ensures forall k :: 0 <= k < |table.rows| ==>
                var r := old(table).rows[k];
                table.rows[k] == if r.messageId != CString(messageId) then r
                                 else r.(status := Failed, lastAttempt := now, retryCount := r.retryCount + 1)
    {
      table := table.(rows := Marked(table.rows, messageId, false, now));
    }

    method GetStats() returns (stats: Stats)
      ensures stats == Stats(Count(table.rows, Pending), Count(table.rows, Delivered), Count(table.rows, Failed),
                             Retries(table.rows))
      ensures TableInv(table.rows) ==>
                stats.pending + stats.delivered + stats.failed == |table.rows| && stats.retries == stats.failed
    {
      var pending, delivered, failed, retries := 0, 0, 0, 0;
      for k := 0 to |table.rows|
        invariant pending == Count(table.rows[..k], Pending)
        invariant delivered == Count(table.rows[..k], Delivered)
        invariant failed == Count(table.rows[..k], Failed)
        invariant retries == Retries(table.rows[..k])
      {
        assert table.rows[..k + 1][..k] == table.rows[..k];
        match table.rows[k].status {
          case Pending => pending := pending + 1;
          case Delivered => delivered := delivered + 1;
          case Failed => failed := failed + 1;
        }
        retries := retries + table.rows[k].retryCount;
      }
      assert table.rows[..|table.rows|] == table.rows;
      if TableInv(table.rows) {
        StatsBalance(table.rows);
      }
      stats := Stats(pending, delivered, failed, retries);
    }
  }
}
