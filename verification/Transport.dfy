/** The in-memory transport: a queue, a worker thread and any number of threads that deliver into it, step by step
    between the points where its mutex is taken and released. */
module Transport {
  import opened Bytes

  /** Where the worker is. It holds the mutex in AtLoop, Testing and Draining. */
  datatype Worker =
    | Absent                     // not started, or stopped and joined
    | Entering                   // created, waiting for the mutex
    | AtLoop                     // about to evaluate `while (running_)`
    | Testing                    // about to evaluate the predicate of `cond_.wait`
    | Blocked                    // inside `cond_.wait`, mutex released
    | Draining                   // about to evaluate `while (!queue_.empty())`
    | Calling(msg: ByteString)   // popped, mutex released, callback about to run
    | Returning                  // callback done, waiting for the mutex

  datatype Lock = Free | Worker | Thread(id: nat)

  /** `entered` tells whether this worker has been round its loop; `pushed` and `handed` are histories. */
  datatype State = State(
    queue: seq<ByteString>,
    running: bool,
    lock: Lock,
    worker: Worker,
    entered: bool,
    pushed: seq<ByteString>,
    handed: seq<ByteString>
  )

  const INITIAL := State([], false, Free, Absent, false, [], [])

  datatype Step =
    | Start
    | Stop
    | DeliverLock(thread: nat)
    | DeliverPush(thread: nat, msg: ByteString)
    | DeliverUnlock(thread: nat)
    | Enter
    | Loop
    | Test
    | Wake
    | Drain
    | Return
    | Relock

  predicate Enabled(s: State, step: Step) {
    match step
    case Start => s.running || s.worker.Absent?
    case Stop => true
    case DeliverLock(_) => s.lock.Free?
    case DeliverPush(t, _) => s.lock == Thread(t)
    case DeliverUnlock(t) => s.lock == Thread(t)
    case Enter => s.worker.Entering? && s.lock.Free?
    case Loop => s.worker.AtLoop?
    case Test => s.worker.Testing?
    case Wake => s.worker.Blocked? && s.lock.Free?
    case Drain => s.worker.Draining?
    case Return => s.worker.Calling?
    case Relock => s.worker.Returning? && s.lock.Free?
  }

  function Do(s: State, step: Step): State
    requires Enabled(s, step)
  {
    match step
    case Start => if s.running then s else s.(running := true, worker := Entering, entered := false)
    case Stop => s.(running := false)
    case DeliverLock(t) => s.(lock := Thread(t))
    case DeliverPush(_, msg) => s.(queue := s.queue + [msg], pushed := s.pushed + [msg])
    case DeliverUnlock(_) => s.(lock := Free)
    case Enter => s.(lock := Lock.Worker, worker := AtLoop)
    case Loop => if s.running then s.(worker := Testing, entered := true) else s.(lock := Free, worker := Absent)
    case Test => if s.queue != [] || !s.running then s.(worker := Draining) else s.(lock := Free, worker := Blocked)
    case Wake => s.(lock := Lock.Worker, worker := Testing)
    case Drain =>
      if s.queue == [] then s.(worker := AtLoop)
      else s.(lock := Free, worker := Calling(s.queue[0]), queue := s.queue[1..])
    case Return => s.(worker := Returning, handed := s.handed + [s.worker.msg])
    case Relock => s.(lock := Lock.Worker, worker := Draining)
  }

  function InFlight(s: State): seq<ByteString> {
    if s.worker.Calling? then [s.worker.msg] else []
  }

  /** What has been pushed is what was handed up, then what is in flight, then what is queued. */
  ghost predicate Conserved(s: State) {
    s.handed + InFlight(s) + s.queue == s.pushed
  }

  ghost predicate Inv(s: State) {
    && Conserved(s)
    && (s.lock == Lock.Worker <==> s.worker.AtLoop? || s.worker.Testing? || s.worker.Draining?)
    && (s.worker.Entering? ==> !s.entered)
    && (s.worker.AtLoop? && s.entered ==> s.queue == [])
    && (s.running ==> !s.worker.Absent?)
  }

  ghost predicate IsRun(states: seq<State>, steps: seq<Step>) {
    && |states| == |steps| + 1 && states[0] == INITIAL
    && forall k :: 0 <= k < |steps| ==> Enabled(states[k], steps[k]) && states[k + 1] == Do(states[k], steps[k])
  }

  lemma StepConserves(s: State, step: Step)
    requires Conserved(s) && Enabled(s, step)
    ensures Conserved(Do(s, step))
  {
    var s' := Do(s, step);
    match step
    case DeliverPush(_, msg) => assert s.handed + InFlight(s) + (s.queue + [msg]) == s.pushed + [msg];
    case Drain => if s.queue != [] {
      assert s.queue == [s.queue[0]] + s.queue[1..];
      assert s'.handed + InFlight(s') + s'.queue == s.handed + InFlight(s) + s.queue;
    }
    case Return => assert s'.handed + InFlight(s') + s'.queue == s.handed + InFlight(s) + s.queue;
    case _ => assert InFlight(s') == InFlight(s);
  }

  lemma StepKeeps(s: State, step: Step)
    requires Inv(s) && Enabled(s, step)
    ensures Inv(Do(s, step))
  {
    hide Conserved;
    StepConserves(s, step);
  }

  /** In every interleaving: what the callback was given, then the message in flight, then the queue, is what was
      pushed, in the order it was pushed; and until the transport is stopped there is a worker. */
  lemma {:induction false} NothingLostOrReordered(states: seq<State>, steps: seq<Step>, k: nat)
    requires IsRun(states, steps) && k < |states|
    ensures Inv(states[k])
    ensures states[k].handed + InFlight(states[k]) + states[k].queue == states[k].pushed
    ensures states[k].running ==> !states[k].worker.Absent?
  {
    if k > 0 {
      NothingLostOrReordered(states, steps, k - 1);
      StepKeeps(states[k - 1], steps[k - 1]);
    }
  }

  /** A worker that has been round its loop leaves it only at a moment when the queue is empty. */
  lemma ExitsOnlyWhenEmpty(states: seq<State>, steps: seq<Step>, k: nat)
    requires IsRun(states, steps) && k < |steps|
    requires !states[k].worker.Absent? && states[k + 1].worker.Absent? && states[k].entered
    ensures states[k].queue == states[k + 1].queue == [] && states[k + 1].handed == states[k + 1].pushed
  {
    NothingLostOrReordered(states, steps, k);
    NothingLostOrReordered(states, steps, k + 1);
  }

  /** The proviso is needed: stopped before its first look at `running_`, the worker leaves messages behind. */
  lemma EarlyStopLeavesMessages(msg: ByteString) returns (states: seq<State>, steps: seq<Step>)
    ensures IsRun(states, steps)
    ensures states[|steps|].worker.Absent? && states[|steps|].queue == [msg] && states[|steps|].handed == []
  {
    steps := [Start, DeliverLock(0), DeliverPush(0, msg), DeliverUnlock(0), Stop, Enter, Loop];
    var s1 := Do(INITIAL, Start);
    var s2 := Do(s1, DeliverLock(0));
    var s3 := Do(s2, DeliverPush(0, msg));
    var s4 := Do(s3, DeliverUnlock(0));
    var s5 := Do(s4, Stop);
    var s6 := Do(s5, Enter);
    states := [INITIAL, s1, s2, s3, s4, s5, s6, Do(s6, Loop)];
  }

  /** The worker's own steps. */
  predicate IsOwn(step: Step) {
    step in {Enter, Loop, Test, Wake, Drain, Return, Relock}
  }

  /** The state after some steps, if each of them is enabled when its turn comes. */
  function After(s: State, steps: seq<Step>): Option<State>
    decreases steps
  {
    if steps == [] then Some(s)
    else if Enabled(s, steps[0]) then After(Do(s, steps[0]), steps[1..]) else None
  }

  /** A worker that has been round its loop, or has not been stopped, can hand up everything by itself whenever no
      thread is inside `deliver`: no state of the lock, the flag and the condition keeps it from the queue. */
  lemma {:induction false} WorkerCanFinish(s: State) returns (steps: seq<Step>)
    requires Inv(s) && !s.worker.Absent? && (s.entered || s.running) && !s.lock.Thread?
    ensures forall step :: step in steps ==> IsOwn(step)
    ensures After(s, steps).Some?
    ensures var s' := After(s, steps).value; s'.queue == [] && s'.handed == s.pushed == s'.pushed
    decreases |s.queue|, Distance(s.worker)
  {
    hide Conserved, After;
    if s.queue == [] && !s.worker.Calling? {
      NothingToDo(s);
      return [];
    }
    var step := NextOwn(s.worker);
    StepKeeps(s, step);
    var rest := WorkerCanFinish(Do(s, step));
    FirstOf(s, step, rest);
    steps := [step] + rest;
  }

  function NextOwn(w: Worker): Step {
    match w
    case Absent | Entering => Enter
    case AtLoop => Loop
    case Testing => Test
    case Blocked => Wake
    case Draining => Drain
    case Calling(_) => Return
    case Returning => Relock
  }

  function Distance(w: Worker): nat {
    match w
    case Draining => 0
    case Testing | Returning => 1
    case Entering => 3
    case _ => 2
  }

  /** A stopped worker can leave by itself, wherever it stands, so that `stop` can join it; if it has been round its
      loop, then not before it has handed up everything. */
  lemma {:induction false} StoppedWorkerCanLeave(s: State) returns (steps: seq<Step>)
    requires Inv(s) && !s.worker.Absent? && !s.running && !s.lock.Thread?
    ensures forall step :: step in steps ==> IsOwn(step)
    ensures After(s, steps).Some?
    ensures var s' := After(s, steps).value;
            s'.worker.Absent? && s'.lock.Free? && (s.entered ==> s'.queue == [] && s'.handed == s.pushed)
    decreases |s.queue|, Leaving(s.worker)
  {
    hide Conserved, After;
    var step := NextOwn(s.worker);
    StepKeeps(s, step);
    if s.worker.AtLoop? {
      NothingToDo(Do(s, step));
      FirstOf(s, step, []);
      return [step] + [];
    }
    var rest := StoppedWorkerCanLeave(Do(s, step));
    FirstOf(s, step, rest);
    steps := [step] + rest;
  }

  function Leaving(w: Worker): nat {
    match w
    case Absent | AtLoop => 0
    case Entering | Draining => 1
    case Testing | Returning => 2
    case Blocked | Calling(_) => 3
  }

  lemma NothingToDo(s: State)
    requires Conserved(s) && !s.worker.Calling?
    ensures After(s, []) == Some(s) && (s.queue == [] ==> s.handed == s.pushed)
  {
  }

  lemma FirstOf(s: State, step: Step, rest: seq<Step>)
    requires Enabled(s, step)
    ensures After(s, [step] + rest) == After(Do(s, step), rest)
  {
    assert ([step] + rest)[1..] == rest;
  }
}
