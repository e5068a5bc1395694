/** The ids under which unsent messages are queued, and which messages they cost. */
module MessageIds {
  import opened Bytes
  import opened Offline

  const DASH: ByteString := [45]

  function Decimal(n: nat): ByteString {
    if n < 10 then [48 + n] else Decimal(n / 10) + [48 + n % 10]
  }

  /** Sender, recipient and the millisecond clock. */
  function MessageId(own: ByteString, remote: ByteString, millis: u64): ByteString {
    own + DASH + remote + DASH + Decimal(millis)
  }

  lemma {:induction false} DecimalDigits(n: nat)
    ensures Decimal(n) != [] && forall b :: b in Decimal(n) ==> 48 <= b < 58
  {
    if n >= 10 {
      DecimalDigits(n / 10);
    }
  }

  function FromDecimal(d: ByteString): int {
    if d == [] then 0 else 10 * FromDecimal(d[..|d| - 1]) + d[|d| - 1] - 48
  }

  lemma {:induction false} DecimalReads(n: nat)
    ensures FromDecimal(Decimal(n)) == n
  {
    if n >= 10 {
      DecimalReads(n / 10);
      assert Decimal(n)[..|Decimal(n)| - 1] == Decimal(n / 10);
    }
  }

  lemma DecimalInjective(m: nat, n: nat)
    requires Decimal(m) == Decimal(n)
    ensures m == n
  {
    DecimalReads(m);
    DecimalReads(n);
  }

  /** What follows the last dash is found again. */
  lemma {:induction false} LastDash(x: ByteString, d: ByteString, x': ByteString, d': ByteString)
    requires x + DASH + d == x' + DASH + d' && 45 !in d && 45 !in d'
    ensures x == x' && d == d'
  {
    var s := x + DASH + d;
    var front := s[..|s| - 1];
    assert s[|s| - 1] == if d == [] then 45 else d[|d| - 1];
    assert s[|s| - 1] == if d' == [] then 45 else d'[|d'| - 1];
    if d == [] {
      assert front == x == x';
    } else {
      assert front == x + DASH + d[..|d| - 1] == x' + DASH + d'[..|d'| - 1];
      LastDash(x, d[..|d| - 1], x', d'[..|d'| - 1]);
      assert d == d[..|d| - 1] + [d[|d| - 1]] && d' == d'[..|d'| - 1] + [d'[|d'| - 1]];
    }
  }

  lemma {:induction false} CutAppend(x: ByteString, y: ByteString)
    ensures CString(x + y) == if 0 in x then CString(x) else x + CString(y)
  {
    if x == [] {
      assert x + y == y;
    } else {
      assert (x + y)[1..] == x[1..] + y;
      assert x == [x[0]] + x[1..];
      if x[0] != 0 {
        CutAppend(x[1..], y);
      }
    }
  }

  /** The id as it is stored. */
  function StoredId(own: ByteString, remote: ByteString, millis: u64): ByteString {
    CString(MessageId(own, remote, millis))
  }

  lemma StoredTailIs(remote: ByteString, end: ByteString)
    requires 0 !in end
    ensures CString(DASH + (remote + end)) == DASH + if 0 in remote then CString(remote) else remote + end
  {
    hide CString;
    CStringKeeps(end);
    CutAppend(DASH, remote + end);
    CutAppend(remote, end);
  }

  lemma StoredIdIs(own: ByteString, remote: ByteString, millis: u64)
    ensures StoredId(own, remote, millis)
            == if 0 in own then CString(own)
               else own + (DASH + if 0 in remote then CString(remote) else remote + (DASH + Decimal(millis)))
  {
    hide CString, Decimal;
    var end := DASH + Decimal(millis);
    DecimalDigits(millis);
    assert MessageId(own, remote, millis) == own + (DASH + (remote + end));
    CutAppend(own, DASH + (remote + end));
    StoredTailIs(remote, end);
  }

  /** The ids of one sender agree exactly if recipient and millisecond do, as long as no id contains a NUL. If the own
      id does, all of them agree; if a recipient's does, its messages agree at all times. */
  lemma IdsAgreeIff(own: ByteString, r: ByteString, m: u64, r': ByteString, m': u64)
    ensures 0 in own ==> StoredId(own, r, m) == StoredId(own, r', m')
    ensures 0 !in own && 0 in r && r == r' ==> StoredId(own, r, m) == StoredId(own, r', m')
    ensures 0 !in own && 0 !in r && 0 !in r' ==>
              (StoredId(own, r, m) == StoredId(own, r', m') <==> r == r' && m == m')
  {
    hide CString, Decimal, StoredId;
    StoredIdIs(own, r, m);
    StoredIdIs(own, r', m');
    if 0 !in own && 0 !in r && 0 !in r' && StoredId(own, r, m) == StoredId(own, r', m') {
      PairFound(own, r, m, r', m');
    }
  }

  lemma PairFound(own: ByteString, r: ByteString, m: u64, r': ByteString, m': u64)
    requires own + (DASH + (r + (DASH + Decimal(m)))) == own + (DASH + (r' + (DASH + Decimal(m'))))
    ensures r == r' && m == m'
  {
    hide Decimal;
    var s, n := own + (DASH + (r + (DASH + Decimal(m)))), |own| + 1;
    assert s[n..] == r + DASH + Decimal(m) == r' + DASH + Decimal(m');
    DecimalDigits(m);
    DecimalDigits(m');
    LastDash(r, Decimal(m), r', Decimal(m'));
    DecimalInjective(m, m');
  }

  /** A message that could not be sent. */
  datatype Unsent = Unsent(remote: ByteString, text: ByteString, millis: u64, seconds: int)

  function QueueOne(own: ByteString, t: Table, m: Unsent): Table {
    Inserted(t, MessageId(own, m.remote, m.millis), m.remote, m.text, m.seconds)
  }

  /** The table after a run of failed sends. */
  function QueueAll(own: ByteString, t: Table, msgs: seq<Unsent>): Table {
    if msgs == [] then t else QueueOne(own, QueueAll(own, t, msgs[..|msgs| - 1]), msgs[|msgs| - 1])
  }

  /** The table's invariant, and no row id above the last one given out. */
  ghost predicate Numbered(t: Table) {
    TableInv(t.rows) && forall r :: r in t.rows ==> r.id <= t.lastId
  }

  lemma QueueOneKeeps(own: ByteString, t: Table, m: Unsent)
    requires Numbered(t)
    ensures var t' := QueueOne(own, t, m);
            && Numbered(t') && t'.lastId >= t.lastId
            && (m.text == [] ==> t' == t)
            && (m.text != [] ==>
                  && t'.rows != [] && t'.rows[|t'.rows| - 1].messageId == StoredId(own, m.remote, m.millis)
                  && IsQueued(t'.rows[|t'.rows| - 1], m.remote, m.text, m.seconds)
                  && forall r: Row :: r.id <= t.lastId ==>
                       (r in t'.rows <==> r in t.rows && r.messageId != StoredId(own, m.remote, m.millis)))
  {
    hide TableInv, CString;
    var id := MessageId(own, m.remote, m.millis);
    InsertKeepsInv(t, id, m.remote, m.text, m.seconds);
    WithoutKeepsOthers(t.rows, CString(id));
  }

  lemma {:induction false} QueueAllKeeps(own: ByteString, t: Table, msgs: seq<Unsent>)
    requires Numbered(t)
    ensures Numbered(QueueAll(own, t, msgs))
  {
    if msgs != [] {
      QueueAllKeeps(own, t, msgs[..|msgs| - 1]);
      QueueOneKeeps(own, QueueAll(own, t, msgs[..|msgs| - 1]), msgs[|msgs| - 1]);
    }
  }

  /** The row that the k-th message of the run is given. */
  function RowOf(own: ByteString, t: Table, msgs: seq<Unsent>, k: nat): Row
    requires k < |msgs| && QueueAll(own, t, msgs[..k + 1]).rows != []
  {
    var rows := QueueAll(own, t, msgs[..k + 1]).rows;
    rows[|rows| - 1]
  }

  /** The m-th message takes the row of an earlier one away. */
  predicate Displaces(own: ByteString, m: Unsent, earlier: Unsent) {
    m.text != [] && StoredId(own, m.remote, m.millis) == StoredId(own, earlier.remote, earlier.millis)
  }

  /** A message of the run keeps its row if and only if no later one is stored under its id. */
  lemma {:induction false} RowSurvivesIff(own: ByteString, t: Table, msgs: seq<Unsent>, k: nat)
    requires Numbered(t) && k < |msgs| && msgs[k].text != []
    ensures QueueAll(own, t, msgs[..k + 1]).rows != []
    ensures var row := RowOf(own, t, msgs, k);
            && IsQueued(row, msgs[k].remote, msgs[k].text, msgs[k].seconds) && row.id <= QueueAll(own, t, msgs).lastId
            && row.messageId == StoredId(own, msgs[k].remote, msgs[k].millis)
            && (row in QueueAll(own, t, msgs).rows
                <==> forall j :: k < j < |msgs| ==> !Displaces(own, msgs[j], msgs[k]))
  {
    hide TableInv, StoredId, QueueOne, IsQueued;
    var last := |msgs| - 1;
    QueueAllKeeps(own, t, msgs[..last]);
    QueueOneKeeps(own, QueueAll(own, t, msgs[..last]), msgs[last]);
    if k == last {
      assert msgs[..k + 1] == msgs && msgs[..k + 1][..k] == msgs[..k];
    } else {
      RowSurvivesIff(own, t, msgs[..last], k);
      assert msgs[..last][..k + 1] == msgs[..k + 1];
    }
  }

  predicate Kept(own: ByteString, t: Table, msgs: seq<Unsent>, k: nat)
    requires k < |msgs|
  {
    QueueAll(own, t, msgs[..k + 1]).rows != [] && RowOf(own, t, msgs, k) in QueueAll(own, t, msgs).rows
  }

  /** As long as no id contains a NUL: a run of failed sends keeps every message that is not empty if and only if no two
      of those are to the same recipient in the same millisecond. */
  lemma AllKeptIff(own: ByteString, t: Table, msgs: seq<Unsent>)
    requires Numbered(t) && 0 !in own && forall m :: m in msgs ==> 0 !in m.remote
    ensures (forall k :: 0 <= k < |msgs| && msgs[k].text != [] ==> Kept(own, t, msgs, k))
            <==> forall j, k :: 0 <= k < j < |msgs| && msgs[k].text != [] && msgs[j].text != [] ==>
                   msgs[j].remote != msgs[k].remote || msgs[j].millis != msgs[k].millis
  {
    hide TableInv, StoredId, QueueAll, Numbered;
    forall j, k | 0 <= k < j < |msgs|
      ensures Displaces(own, msgs[j], msgs[k])
              <==> msgs[j].text != [] && msgs[j].remote == msgs[k].remote && msgs[j].millis == msgs[k].millis
    {
      IdsAgreeIff(own, msgs[j].remote, msgs[j].millis, msgs[k].remote, msgs[k].millis);
    }
    forall k | 0 <= k < |msgs| && msgs[k].text != []
      ensures Kept(own, t, msgs, k) <==> forall j :: k < j < |msgs| ==> !Displaces(own, msgs[j], msgs[k])
    {
      RowSurvivesIff(own, t, msgs, k);
    }
  }
}
