/** Receivers that keep keys from before: the exact outcome of every arrival, and when that is still exactly once. */
module Kept {
  import opened Bytes
  import opened Crypto
  import opened Envelopes
  import opened RatchetSession
  import opened Delivery

  /** What a receiver knows of one number: whether a key is stored under it, and whether the chain has passed it. */
  datatype Slot = Slot(stored: bool, passed: bool) {
    predicate Open() {
      stored || !passed
    }
  }

  function SlotOf(s: RatchetState, i: nat): Slot {
    Slot(i in s.skipped, i < s.recvNumber)
  }

  /** The number up to which an arrival makes the chain catch up. */
  function NumberOf(l: Link, a: Arrival): nat {
    match a
    case Copy(i) => i
    case Junk(e) => Reaches(l, e)
  }

  function SlotNext(l: Link, i: nat, slot: Slot, a: Arrival): Slot {
    if a == Copy(i) then Slot(false, slot.passed || !slot.stored)
    else if NumberOf(l, a) > i && !slot.passed then Slot(true, true)
    else slot
  }

  function SlotAfter(l: Link, i: nat, slot: Slot, arrivals: seq<Arrival>): Slot {
    if arrivals == [] then slot else
    var last := |arrivals| - 1;
    SlotNext(l, i, SlotAfter(l, i, slot, arrivals[..last]), arrivals[last])
  }

  /** One arrival moves every slot that holds no older key as the slot rules say, and opens exactly an open slot. */
  lemma StepSlot(
    l: Link, log: seq<Envelope>, texts: seq<ByteString>, s: RatchetState, a: Arrival, e: Envelope, i: nat)
    requires l.Usable() && OnChain(l, s) && Arrives(l, log, a, e) && |log| == |texts| < U32_LIMIT
    requires forall j :: 0 <= j < |log| ==> IsMessage(l, j, log[j], texts[j])
    ensures var (s', r) := Decrypt(l.p, s, e);
            && OnChain(l, s')
            && (i !in l.stale ==> SlotOf(s', i) == SlotNext(l, i, SlotOf(s, i), a))
            && match a
               case Junk(_) => r == None
               case Copy(j) => r == if j !in l.stale && SlotOf(s, j).Open() then Some(texts[j]) else None
  {
    hide Decrypt, OnChain, IsMessage, IsJunk;
    match a
    case Junk(_) => TakeJunk(l, s, e);
    case Copy(j) => TakeMessage(l, s, j, e, texts[j]);
  }

  lemma {:induction false} RunSlots(
    l: Link, log: seq<Envelope>, texts: seq<ByteString>, s: RatchetState, arrivals: seq<Arrival>, es: seq<Envelope>,
    i: nat)
    requires l.Usable() && OnChain(l, s) && AllArrive(l, log, arrivals, es) && |log| == |texts| < U32_LIMIT
    requires forall j :: 0 <= j < |log| ==> IsMessage(l, j, log[j], texts[j])
    ensures var s' := Receive(l.p, s, es).0;
            OnChain(l, s') && (i !in l.stale ==> SlotOf(s', i) == SlotAfter(l, i, SlotOf(s, i), arrivals))
  {
    hide Decrypt, OnChain, IsMessage, Arrives, SlotOf, SlotNext, KeysSeparate, StaleShut;
    if es != [] {
      var last := |es| - 1;
      AllButLast(l, log, arrivals, es);
      RunSlots(l, log, texts, s, arrivals[..last], es[..last], i);
      StepSlot(l, log, texts, Receive(l.p, s, es[..last]).0, arrivals[last], es[last], i);
    }
  }

  function CopiesOf(arrivals: seq<Arrival>, i: nat): nat {
    if arrivals == [] then 0 else
    var last := |arrivals| - 1;
    CopiesOf(arrivals[..last], i) + if arrivals[last] == Copy(i) then 1 else 0
  }

  /** Before any copy of message `i`, something with a higher number has arrived. */
  ghost predicate Overtaken(l: Link, arrivals: seq<Arrival>, i: nat) {
    exists j :: 0 <= j < |arrivals| && Overtakes(l, arrivals, i, j)
  }

  predicate Overtakes(l: Link, arrivals: seq<Arrival>, i: nat, j: nat)
    requires j < |arrivals|
  {
    NumberOf(l, arrivals[j]) > i && CopiesOf(arrivals[..j], i) == 0
  }

  lemma OvertakenMore(l: Link, arrivals: seq<Arrival>, i: nat)
    requires arrivals != []
    ensures var last := |arrivals| - 1;
            Overtaken(l, arrivals, i) <==> Overtaken(l, arrivals[..last], i) || Overtakes(l, arrivals, i, last)
  {
    hide CopiesOf, NumberOf;
    var last := |arrivals| - 1;
    assert forall j :: 0 <= j < last ==> arrivals[..last][..j] == arrivals[..j];
    if j :| 0 <= j < last && Overtakes(l, arrivals, i, j) {
      assert Overtakes(l, arrivals[..last], i, j);
    }
    if j :| 0 <= j < last && Overtakes(l, arrivals[..last], i, j) {
      assert Overtakes(l, arrivals, i, j);
    }
  }

  /** A slot opens once. One that holds a key which the chain is still to pass opens twice, unless it is overtaken:
      then the chain passes the stored key instead of storing its own. */
  ghost predicate StillOpen(l: Link, i: nat, slot: Slot, arrivals: seq<Arrival>) {
    || (CopiesOf(arrivals, i) == 0 && slot.Open())
    || (CopiesOf(arrivals, i) == 1 && slot == Slot(true, false) && !Overtaken(l, arrivals, i))
  }

  lemma {:induction false} OpenAfter(l: Link, i: nat, slot: Slot, arrivals: seq<Arrival>)
    ensures SlotAfter(l, i, slot, arrivals).Open() <==> StillOpen(l, i, slot, arrivals)
    ensures CopiesOf(arrivals, i) == 0 ==>
              var over := !slot.passed && Overtaken(l, arrivals, i);
              SlotAfter(l, i, slot, arrivals) == Slot(slot.stored || over, slot.passed || over)
    ensures CopiesOf(arrivals, i) > 0 ==> SlotAfter(l, i, slot, arrivals) != Slot(true, false)
  {
    if arrivals != [] {
      var last := |arrivals| - 1;
      OpenAfter(l, i, slot, arrivals[..last]);
      OvertakenMore(l, arrivals, i);
    }
  }

  /** What the k-th arrival gives at a receiver in state `s`. */
  ghost function Taken(l: Link, s: RatchetState, texts: seq<ByteString>, arrivals: seq<Arrival>, k: nat)
    : Option<ByteString>
    requires k < |arrivals|
  {
    match arrivals[k]
    case Junk(_) => None
    case Copy(i) =>
      if i < |texts| && i !in l.stale && StillOpen(l, i, SlotOf(s, i), arrivals[..k]) then Some(texts[i]) else None
  }

  ghost predicate AsTaken(
    l: Link, s: RatchetState, got: seq<Option<ByteString>>, texts: seq<ByteString>, arrivals: seq<Arrival>)
  {
    |got| == |arrivals| && forall k :: 0 <= k < |got| ==> got[k] == Taken(l, s, texts, arrivals, k)
  }

  lemma {:induction false} TakenStable(
    l: Link, s: RatchetState, got: seq<Option<ByteString>>, texts: seq<ByteString>, arrivals: seq<Arrival>,
    one: Option<ByteString>)
    requires arrivals != [] && AsTaken(l, s, got, texts, arrivals[..|arrivals| - 1])
    requires one == Taken(l, s, texts, arrivals, |arrivals| - 1)
    ensures AsTaken(l, s, got + [one], texts, arrivals)
  {
    hide StillOpen;
    var last := |arrivals| - 1;
    forall k | 0 <= k < last
      ensures Taken(l, s, texts, arrivals, k) == Taken(l, s, texts, arrivals[..last], k)
    {
      assert arrivals[..last][..k] == arrivals[..k];
    }
  }

  /** The outcome of every arrival at a receiver on the session's chain, whatever keys of its own it keeps: a message is
      taken on its first copy if its key is stored or to come, and once more on its second if its key was stored ahead
      of the chain and nothing with a higher number came before the first. */
  lemma {:induction false} EveryArrival(
    l: Link, log: seq<Envelope>, texts: seq<ByteString>, s: RatchetState, arrivals: seq<Arrival>, es: seq<Envelope>)
    requires l.Usable() && OnChain(l, s) && AllArrive(l, log, arrivals, es) && |log| == |texts| < U32_LIMIT
    requires forall j :: 0 <= j < |log| ==> IsMessage(l, j, log[j], texts[j])
    ensures AsTaken(l, s, Receive(l.p, s, es).1, texts, arrivals)
  {
    hide Decrypt, OnChain, IsMessage, IsJunk, KeysSeparate, StaleShut, StillOpen, SlotOf;
    if es != [] {
      var last := |es| - 1;
      var before, a := arrivals[..last], arrivals[last];
      AllButLast(l, log, arrivals, es);
      EveryArrival(l, log, texts, s, before, es[..last]);
      var (s1, got) := Receive(l.p, s, es[..last]);
      var i := if a.Copy? then a.index else 0;
      RunSlots(l, log, texts, s, before, es[..last], i);
      OpenAfter(l, i, SlotOf(s, i), before);
      StepSlot(l, log, texts, s1, a, es[last], i);
      TakenStable(l, s, got, texts, arrivals, Decrypt(l.p, s1, es[last]).1);
    }
  }

  /** The numbers whose message is not taken at all. */
  function Closed(l: Link, s: RatchetState): set<nat> {
    (Below(s.recvNumber) - s.skipped.Keys) + l.stale.Keys
  }

  lemma {:induction false} CopiesIffIndex(arrivals: seq<Arrival>, i: nat)
    ensures CopiesOf(arrivals, i) == 0 <==> i !in Indices(arrivals)
  {
    if arrivals != [] {
      var last := |arrivals| - 1;
      CopiesIffIndex(arrivals[..last], i);
      IndicesGrow(arrivals);
      assert i in Indices([arrivals[last]]) <==> arrivals[last] == Copy(i) by {
        assert arrivals[last] in [arrivals[last]];
      }
    }
  }

  /** The k-th arrival is the second copy of a message whose key was stored ahead of the chain and not overtaken. */
  ghost predicate SecondTaken(l: Link, s: RatchetState, texts: seq<ByteString>, arrivals: seq<Arrival>, k: nat)
    requires k < |arrivals|
  {
    arrivals[k].Copy? && arrivals[k].index < |texts|
    && var i := arrivals[k].index;
       && i !in l.stale && SlotOf(s, i) == Slot(true, false)
       && CopiesOf(arrivals[..k], i) == 1 && !Overtaken(l, arrivals[..k], i)
  }

  lemma TakenOnce(l: Link, s: RatchetState, texts: seq<ByteString>, arrivals: seq<Arrival>, k: nat)
    requires k < |arrivals|
    ensures Taken(l, s, texts, arrivals, k) == Outcome(texts, Closed(l, s), arrivals, k)
            <==> !SecondTaken(l, s, texts, arrivals, k)
  {
    hide Overtaken, Indices;
    if arrivals[k].Copy? {
      CopiesIffIndex(arrivals[..k], arrivals[k].index);
    }
  }

  /** A run delivers exactly once if and only if it takes no second copy. */
  lemma OnceUnlessSecond(
    l: Link, s: RatchetState, got: seq<Option<ByteString>>, texts: seq<ByteString>, arrivals: seq<Arrival>)
    requires AsTaken(l, s, got, texts, arrivals)
    ensures AsExpected(got, texts, Closed(l, s), arrivals)
            <==> forall k :: 0 <= k < |arrivals| ==> !SecondTaken(l, s, texts, arrivals, k)
  {
    hide SecondTaken, Taken, Outcome;
    forall k | 0 <= k < |arrivals|
      ensures got[k] == Outcome(texts, Closed(l, s), arrivals, k) <==> !SecondTaken(l, s, texts, arrivals, k)
    {
      TakenOnce(l, s, texts, arrivals, k);
    }
  }

  /** No number of a message to come has a key of the session's own stored ahead of the chain. */
  predicate NoneAhead(l: Link, s: RatchetState, n: nat) {
    forall i :: i in s.skipped && s.recvNumber <= i < n ==> i in l.stale
  }

  /** Whatever arrives, delivery is exactly once if and only if nothing is stored ahead of the chain. */
  lemma ExactlyOnceIff(l: Link, log: seq<Envelope>, texts: seq<ByteString>, s: RatchetState)
    requires l.Usable() && OnChain(l, s) && |log| == |texts| < U32_LIMIT
    requires forall j :: 0 <= j < |log| ==> IsMessage(l, j, log[j], texts[j])
    ensures (forall arrivals, es :: AllArrive(l, log, arrivals, es) ==>
                AsExpected(Receive(l.p, s, es).1, texts, Closed(l, s), arrivals))
            <==> NoneAhead(l, s, |log|)
  {
    if NoneAhead(l, s, |log|) {
      forall arrivals, es | AllArrive(l, log, arrivals, es)
        ensures AsExpected(Receive(l.p, s, es).1, texts, Closed(l, s), arrivals)
      {
        OnceIfNoneAhead(l, log, texts, s, arrivals, es);
      }
    } else {
      var i :| i in s.skipped && s.recvNumber <= i < |log| && i !in l.stale;
      TwiceIfAhead(l, log, texts, s, i);
    }
  }

  lemma {:induction false} OnceIfNoneAhead(
    l: Link, log: seq<Envelope>, texts: seq<ByteString>, s: RatchetState, arrivals: seq<Arrival>, es: seq<Envelope>)
    requires l.Usable() && OnChain(l, s) && AllArrive(l, log, arrivals, es) && |log| == |texts| < U32_LIMIT
    requires forall j :: 0 <= j < |log| ==> IsMessage(l, j, log[j], texts[j])
    requires NoneAhead(l, s, |log|)
    ensures AsExpected(Receive(l.p, s, es).1, texts, Closed(l, s), arrivals)
  {
    hide OnChain, IsMessage, AllArrive, AsTaken, AsExpected, Receive, Overtaken, KeysSeparate, StaleShut;
    EveryArrival(l, log, texts, s, arrivals, es);
    OnceUnlessSecond(l, s, Receive(l.p, s, es).1, texts, arrivals);
  }

  /** Two copies in a row of a message whose key is stored ahead of the chain are both taken. */
  lemma TwiceIfAhead(l: Link, log: seq<Envelope>, texts: seq<ByteString>, s: RatchetState, i: nat)
    requires l.Usable() && OnChain(l, s) && |log| == |texts| < U32_LIMIT
    requires forall j :: 0 <= j < |log| ==> IsMessage(l, j, log[j], texts[j])
    requires i in s.skipped && s.recvNumber <= i < |log| && i !in l.stale
    ensures var arrivals, es := [Copy(i), Copy(i)], [log[i], log[i]];
            && AllArrive(l, log, arrivals, es)
            && !AsExpected(Receive(l.p, s, es).1, texts, Closed(l, s), arrivals)
  {
    hide OnChain, IsMessage, AsTaken, AsExpected, Receive, KeysSeparate, StaleShut;
    var arrivals, es := [Copy(i), Copy(i)], [log[i], log[i]];
    assert arrivals[..1] == [Copy(i)] && [Copy(i)][..0] == [];
    assert CopiesOf([Copy(i)], i) == 1;
    assert SecondTaken(l, s, texts, arrivals, 1);
    EveryArrival(l, log, texts, s, arrivals, es);
    OnceUnlessSecond(l, s, Receive(l.p, s, es).1, texts, arrivals);
  }
}
