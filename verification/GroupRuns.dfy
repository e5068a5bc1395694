/** Whole runs of group operations: the roster they amount to, and which epochs can read which messages. */
module GroupRuns {
  import opened Bytes
  import opened Crypto
  import opened Envelopes
  import opened Mls

  datatype Change = Join(member: ByteString, leaf: ByteString) | Leave(member: ByteString)

  function Changed(p: Primitives, g: Group, c: Change): Group {
    match c
    case Join(m, leaf) => Joined(p, g, m, leaf)
    case Leave(m) => Left(p, g, m)
  }

  function Evolve(p: Primitives, g: Group, run: seq<Change>): Group {
    if run == [] then g else Changed(p, Evolve(p, g, run[..|run| - 1]), run[|run| - 1])
  }

  /** The group as a caller thinks of it: who holds which leaf. `strays` counts the leaves that repeated adds leave
      behind, `changes` the operations that took effect. */
  datatype Roster = Roster(leaf: map<ByteString, ByteString>, strays: nat, changes: nat)

  function Tracked(r: Roster, c: Change): Roster {
    match c
    case Join(m, leaf) =>
      if m in r.leaf then Roster(r.leaf, r.strays + 1, r.changes + 1)
      else Roster(r.leaf[m := leaf], r.strays, r.changes + 1)
    case Leave(m) =>
      if m in r.leaf then Roster(r.leaf - {m}, r.strays, r.changes + 1) else r
  }

  function Track(run: seq<Change>): Roster {
    if run == [] then Roster(map[], 0, 0) else Tracked(Track(run[..|run| - 1]), run[|run| - 1])
  }

  /** The 64-bit epoch counter after `n` increments. */
  function EpochAfter(epoch: u64, n: nat): u64 {
    if n == 0 then epoch else NextEpoch(EpochAfter(epoch, n - 1))
  }

  lemma {:induction false} EpochAfterIs(epoch: u64, n: nat)
    requires n < U64_LIMIT
    ensures EpochAfter(epoch, n) == if epoch + n < U64_LIMIT then epoch + n else epoch + n - U64_LIMIT
  {
    if n > 0 {
      EpochAfterIs(epoch, n - 1);
    }
  }

  ghost predicate Realizes(g: Group, r: Roster) {
    && g.memberIndex.Keys == r.leaf.Keys
    && (forall m :: m in g.memberIndex ==> g.memberIndex[m] < |g.leafSecrets| && LeafOf(g, m) == r.leaf[m])
    && |g.leafSecrets| == |g.memberIndex| + r.strays
  }

  lemma JoinRealizes(p: Primitives, g: Group, r: Roster, m: ByteString, leaf: ByteString)
    requires Consistent(p, g) && Realizes(g, r)
    ensures Realizes(Joined(p, g, m, leaf), Tracked(r, Join(m, leaf)))
  {
    if m in g.memberIndex {
      RepeatRealizes(p, g, r, m, leaf);
    } else {
      NewcomerRealizes(p, g, r, m, leaf);
    }
  }

  lemma RepeatRealizes(p: Primitives, g: Group, r: Roster, m: ByteString, leaf: ByteString)
    requires Consistent(p, g) && Realizes(g, r) && m in g.memberIndex
    ensures Realizes(Joined(p, g, m, leaf), Roster(r.leaf, r.strays + 1, r.changes + 1))
  {
    hide Consistent, EpochSecret;
    JoinKeepsLeaves(p, g, m, leaf);
    var g' := Joined(p, g, m, leaf);
    assert g'.memberIndex == g.memberIndex && |g'.leafSecrets| == |g.leafSecrets| + 1;
  }

  lemma NewcomerRealizes(p: Primitives, g: Group, r: Roster, m: ByteString, leaf: ByteString)
    requires Consistent(p, g) && Realizes(g, r) && m !in g.memberIndex
    ensures Realizes(Joined(p, g, m, leaf), Roster(r.leaf[m := leaf], r.strays, r.changes + 1))
  {
    hide Consistent, EpochSecret, LeafOf;
    JoinKeepsLeaves(p, g, m, leaf);
    var g', leaves := Joined(p, g, m, leaf), r.leaf[m := leaf];
    assert |g'.memberIndex| == |g.memberIndex| + 1;
    forall x | x in g'.memberIndex
      ensures LeafOf(g', x) == leaves[x]
    {
    }
  }

  lemma LeaveRealizes(p: Primitives, g: Group, r: Roster, m: ByteString)
    requires Consistent(p, g) && Realizes(g, r) && m in g.memberIndex
    ensures Realizes(Left(p, g, m), Tracked(r, Leave(m)))
  {
    hide Consistent, EpochSecret;
    LeaveKeepsLeaves(p, g, m);
    var g', r' := Left(p, g, m), Tracked(r, Leave(m));
    forall x | x in g'.memberIndex
      ensures LeafOf(g', x) == r'.leaf[x]
    {
      assert LeafOf(g', x) == LeafOf(g, x);
    }
    assert |g'.memberIndex| == |g'.memberIndex.Keys| == |g.memberIndex.Keys| - 1;
  }

  lemma ChangeRealizes(p: Primitives, g: Group, r: Roster, c: Change)
    requires Consistent(p, g) && Realizes(g, r)
    ensures Consistent(p, Changed(p, g, c)) && Realizes(Changed(p, g, c), Tracked(r, c))
  {
    match c
    case Join(m, leaf) => {
      JoinKeepsLeaves(p, g, m, leaf);
      JoinRealizes(p, g, r, m, leaf);
    }
    case Leave(m) => {
      LeaveKeepsLeaves(p, g, m);
      if m in g.memberIndex {
        LeaveRealizes(p, g, r, m);
      }
    }
  }

  /** Over every run of adds and removes the compacting vector and its index realize the plain roster,
      and the cached epoch secret is the one of the current leaves. */
  lemma {:induction false} RunRealizesRoster(p: Primitives, id: ByteString, run: seq<Change>)
    ensures Consistent(p, Evolve(p, NewGroup(p, id), run))
    ensures Realizes(Evolve(p, NewGroup(p, id), run), Track(run))
  {
    if run != [] {
      var last := |run| - 1;
      RunRealizesRoster(p, id, run[..last]);
      ChangeRealizes(p, Evolve(p, NewGroup(p, id), run[..last]), Track(run[..last]), run[last]);
    }
  }

  lemma ChangeEpoch(p: Primitives, g: Group, r: Roster, c: Change)
    requires g.memberIndex.Keys == r.leaf.Keys
    ensures Tracked(r, c).changes == r.changes || Tracked(r, c).changes == r.changes + 1
    ensures Changed(p, g, c).epoch == if Tracked(r, c).changes == r.changes then g.epoch else NextEpoch(g.epoch)
  {
  }

  /** The epoch is 1 plus the number of operations that took effect, as a 64-bit counter holds it. */
  lemma {:induction false} EpochCountsChanges(p: Primitives, id: ByteString, run: seq<Change>)
    ensures Evolve(p, NewGroup(p, id), run).epoch == EpochAfter(1, Track(run).changes)
  {
    hide Consistent, EpochSecret, Changed, Tracked;
    if run != [] {
      var before := run[..|run| - 1];
      EpochCountsChanges(p, id, before);
      RunRealizesRoster(p, id, before);
      ChangeEpoch(p, Evolve(p, NewGroup(p, id), before), Track(before), run[|run| - 1]);
    }
  }

  ghost predicate Onto(g: Group) {
    forall i :: 0 <= i < |g.leafSecrets| ==> i in g.memberIndex.Values
  }

  lemma {:induction false} InjectiveCount(index: map<ByteString, nat>)
    requires forall m, m' :: m in index && m' in index && m != m' ==> index[m] != index[m']
    ensures |index.Values| == |index|
  {
    if index != map[] {
      var m :| m in index;
      var rest := index - {m};
      assert rest.Keys == index.Keys - {m};
      InjectiveCount(rest);
      forall v | v in index.Values
        ensures v in rest.Values || v == index[m]
      {
        var m' :| m' in index && index[m'] == v;
        assert m' != m ==> m' in rest && rest[m'] == v;
      }
      assert forall m' :: m' in rest ==> rest[m'] == index[m'] != index[m];
      assert index.Values == rest.Values + {index[m]};
      assert |rest| == |rest.Keys| == |index| - 1;
    } else {
      assert index.Values == {};
    }
  }

  lemma SubsetFills(a: set<nat>, b: set<nat>)
    requires a <= b && |a| >= |b|
    ensures a == b
  {
    if x :| x in b && x !in a {
      assert a <= b - {x};
      SubsetCount(a, b - {x});
    }
  }

  lemma {:induction false} SubsetCount(a: set<nat>, b: set<nat>)
    requires a <= b
    ensures |a| <= |b|
  {
    if x :| x in a {
      SubsetCount(a - {x}, b - {x});
    }
  }

  /** The index is a bijection onto the leaves exactly when no add in the run repeated a present member. */
  lemma BijectionIffNoRepeatedAdd(p: Primitives, id: ByteString, run: seq<Change>)
    ensures Onto(Evolve(p, NewGroup(p, id), run)) <==> Track(run).strays == 0
  {
    RunRealizesRoster(p, id, run);
    var g := Evolve(p, NewGroup(p, id), run);
    var n := |g.leafSecrets|;
    InjectiveCount(g.memberIndex);
    assert g.memberIndex.Values <= Below(n);
    if Onto(g) {
      assert g.memberIndex.Values == Below(n);
    } else if Track(run).strays == 0 {
      SubsetFills(g.memberIndex.Values, Below(n));
    }
  }

  /** Operations on a manager that holds any number of groups. */
  datatype Op = Create(groupId: ByteString) | On(groupId: ByteString, change: Change)

  function Manage(p: Primitives, groups: Groups, op: Op): Groups {
    match op
    case Create(id) => if id in groups then groups else groups[id := NewGroup(p, id)]
    case On(id, c) => if id in groups then groups[id := Changed(p, groups[id], c)] else groups
  }

  function ManageAll(p: Primitives, groups: Groups, ops: seq<Op>): Groups {
    if ops == [] then groups else Manage(p, ManageAll(p, groups, ops[..|ops| - 1]), ops[|ops| - 1])
  }

  /** The operation changes the membership of the group, or repeats an add and so renews its epoch all the same. */
  predicate Effective(groups: Groups, op: Op, id: ByteString) {
    op.On? && op.groupId == id && id in groups && (op.change.Join? || op.change.member in groups[id].memberIndex)
  }

  function Changes(p: Primitives, groups: Groups, ops: seq<Op>, id: ByteString): nat {
    if ops == [] then 0 else
    var before := ops[..|ops| - 1];
    Changes(p, groups, before, id)
    + if Effective(ManageAll(p, groups, before), ops[|ops| - 1], id) then 1 else 0
  }

  lemma {:induction false} EpochCounts(p: Primitives, groups: Groups, ops: seq<Op>, id: ByteString)
    requires id in groups
    ensures var later := ManageAll(p, groups, ops);
            && id in later && later[id].id == groups[id].id
            && later[id].epoch == EpochAfter(groups[id].epoch, Changes(p, groups, ops, id))
            && (Changes(p, groups, ops, id) == 0 ==> later[id] == groups[id])
  {
    hide EpochSecret, Renumber, Erase;
    if ops != [] {
      EpochCounts(p, groups, ops[..|ops| - 1], id);
    }
  }

  /** A place in the leaf vector; nobody owns the leaf of a repeated add. */
  datatype Seat = Seat(owner: Option<ByteString>, leaf: ByteString)

  predicate Owns(seats: seq<Seat>, m: ByteString) {
    exists i :: 0 <= i < |seats| && seats[i].owner == Some(m)
  }

  function Vacated(seats: seq<Seat>, m: ByteString): seq<Seat> {
    if seats == [] then [] else
    var last := |seats| - 1;
    Vacated(seats[..last], m) + if seats[last].owner == Some(m) then [] else [seats[last]]
  }

  /** Without indices: who joins sits down at the end, who leaves takes the seat away. */
  function Seats(run: seq<Change>): seq<Seat> {
    if run == [] then [] else
    var before := Seats(run[..|run| - 1]);
    match run[|run| - 1]
    case Join(m, leaf) => before + [Seat(if Owns(before, m) then None else Some(m), leaf)]
    case Leave(m) => Vacated(before, m)
  }

  function Leaves(seats: seq<Seat>): seq<ByteString> {
    seq(|seats|, i requires 0 <= i < |seats| => seats[i].leaf)
  }

  ghost predicate Seated(g: Group, seats: seq<Seat>) {
    && g.leafSecrets == Leaves(seats)
    && (forall i :: 0 <= i < |seats| && seats[i].owner.Some? ==>
          seats[i].owner.value in g.memberIndex && g.memberIndex[seats[i].owner.value] == i)
    && (forall m :: m in g.memberIndex ==>
          g.memberIndex[m] < |seats| && seats[g.memberIndex[m]].owner == Some(m))
  }

  lemma {:induction false} NobodyVacates(seats: seq<Seat>, m: ByteString)
    requires forall i :: 0 <= i < |seats| ==> seats[i].owner != Some(m)
    ensures Vacated(seats, m) == seats
  {
    if seats != [] {
      NobodyVacates(seats[..|seats| - 1], m);
    }
  }

  lemma {:induction false} VacatedIs(seats: seq<Seat>, m: ByteString, i: nat)
    requires i < |seats| && forall j :: 0 <= j < |seats| ==> (seats[j].owner == Some(m) <==> i == j)
    ensures Vacated(seats, m) == seats[..i] + seats[i + 1..]
  {
    var last := |seats| - 1;
    if i == last {
      NobodyVacates(seats[..last], m);
      assert seats[i + 1..] == [] && Vacated(seats, m) == seats[..last];
    } else {
      VacatedIs(seats[..last], m, i);
      assert seats[..last][..i] == seats[..i] && seats[..last][i + 1..] + [seats[last]] == seats[i + 1..];
    }
  }

  /** Over every run the erased and renumbered vector holds the leaves in the order in which their owners sat down, and
      the index points each member at its own seat. */
  lemma {:induction false} RunSeats(p: Primitives, id: ByteString, run: seq<Change>)
    ensures Seated(Evolve(p, NewGroup(p, id), run), Seats(run))
  {
    hide EpochSecret;
    if run != [] {
      var before := run[..|run| - 1];
      RunSeats(p, id, before);
      ChangeSeats(p, Evolve(p, NewGroup(p, id), before), Seats(before), run);
    }
  }

  lemma ChangeSeats(p: Primitives, g: Group, seats: seq<Seat>, run: seq<Change>)
    requires run != [] && seats == Seats(run[..|run| - 1]) && Seated(g, seats)
    ensures Seated(Changed(p, g, run[|run| - 1]), Seats(run))
  {
    hide EpochSecret, Seated, Owns, Vacated;
    match run[|run| - 1]
    case Join(m, leaf) => SitDown(p, g, seats, m, leaf);
    case Leave(m) => StandUp(p, g, seats, m);
  }

  lemma SitDown(p: Primitives, g: Group, seats: seq<Seat>, m: ByteString, leaf: ByteString)
    requires Seated(g, seats)
    ensures Seated(Joined(p, g, m, leaf), seats + [Seat(if Owns(seats, m) then None else Some(m), leaf)])
  {
    hide EpochSecret;
    assert m in g.memberIndex <==> Owns(seats, m);
    assert Leaves(seats + [Seat(if Owns(seats, m) then None else Some(m), leaf)]) == Leaves(seats) + [leaf];
  }

  lemma StandUp(p: Primitives, g: Group, seats: seq<Seat>, m: ByteString)
    requires Seated(g, seats)
    ensures Seated(Left(p, g, m), Vacated(seats, m))
  {
    hide EpochSecret, Vacated, Leaves, Erase;
    if m in g.memberIndex {
      var i, g' := g.memberIndex[m], Left(p, g, m);
      VacatedIs(seats, m, i);
      LeavesWithout(seats, i);
      var rest := seats[..i] + seats[i + 1..];
      forall x | x in g'.memberIndex
        ensures g'.memberIndex[x] < |rest| && rest[g'.memberIndex[x]].owner == Some(x)
      {
        assert seats[g.memberIndex[x]].owner == Some(x) && g.memberIndex[x] != i;
      }
    } else {
      NobodyVacates(seats, m);
    }
  }

  lemma LeavesWithout(seats: seq<Seat>, i: nat)
    requires i < |seats|
    ensures Leaves(seats[..i] + seats[i + 1..]) == Erase(Leaves(seats), i)
  {
  }
}
