/** The round-robin scheduler on values: a ring of pool slots, the state of each, and the current one. */
module TaskSpec {

  const POOL_SIZE := 16

  datatype TaskState = RUNNING | BLOCKED | ZOMBIE

  /** `ring` lists the used pool slots in the order of the next pointers, starting with the kernel task. */
  datatype Scheduler = Scheduler(ring: seq<nat>, states: seq<TaskState>, current: nat, stacksUsed: nat) {
    /** Every used slot is in the ring once, the kernel task first, and the current task is one of them. */
    ghost predicate Valid() {
      && 1 <= |ring| <= POOL_SIZE && |states| == POOL_SIZE
      && ring[0] == 0
      && (forall k :: 0 <= k < |ring| ==> ring[k] < |ring|)
      && (forall j, k :: 0 <= j < k < |ring| ==> ring[j] != ring[k])
      && current in ring
      && |ring| - 1 <= stacksUsed <= POOL_SIZE
    }

    /** The tasks after the current one, in the order in which the next pointers visit them. */
    function Others(): (r: seq<nat>)
      requires current in ring
      ensures |r| == |ring| - 1
      ensures forall j :: 0 <= j < |r| ==> r[j] == ring[Wrap(Position(ring, current) + 1 + j, |ring|)]
    {
      var p := Position(ring, current);
      ring[p + 1..] + ring[..p]
    }
  }

  function Wrap(i: nat, n: nat): nat {
    if i < n then i else if i < 2 * n then i - n else 0
  }

  function Position(s: seq<nat>, x: nat): (p: nat)
    requires x in s
    ensures p < |s| && s[p] == x
  {
    if s[0] == x then 0 else 1 + Position(s[1..], x)
  }

  const START := Scheduler([0], [RUNNING, RUNNING, RUNNING, RUNNING, RUNNING, RUNNING, RUNNING, RUNNING,
                                 RUNNING, RUNNING, RUNNING, RUNNING, RUNNING, RUNNING, RUNNING, RUNNING], 0, 0)

  /** The first running task of `order`, or `none`. */
  function FirstRunning(order: seq<nat>, states: seq<TaskState>, none: nat): nat
    requires forall j :: 0 <= j < |order| ==> order[j] < |states|
  {
    if order == [] then none
    else if states[order[0]] == RUNNING then order[0]
    else FirstRunning(order[1..], states, none)
  }

  datatype Op = Create | Schedule | BlockCurrent | ExitCurrent | Kill(task: nat) | Unblock(task: nat)

  /** The ring after create_task spliced pool slot `t` behind the head of the list. */
  function Spliced(ring: seq<nat>, t: nat): seq<nat>
    requires ring != []
  {
    [ring[0], t] + ring[1..]
  }

  /** create_task takes a stack first and keeps it even when no pool slot is left. */
  function AfterCreate(s: Scheduler): Scheduler
    requires s.Valid()
  {
    if s.stacksUsed >= POOL_SIZE then s
    else if |s.ring| >= POOL_SIZE then s.(stacksUsed := s.stacksUsed + 1)
    else s.(ring := Spliced(s.ring, |s.ring|), states := s.states[|s.ring| := RUNNING], stacksUsed := s.stacksUsed + 1)
  }

  function AfterSchedule(s: Scheduler): (next: Scheduler)
    requires s.Valid()
    ensures next.ring == s.ring && next.states == s.states
  {
    s.(current := FirstRunning(s.Others(), s.states, s.current))
  }

  function WithState(s: Scheduler, t: nat, state: TaskState): Scheduler
    requires t < |s.states|
  {
    s.(states := s.states[t := state])
  }

  /** The operation is one a caller can make: it names a task of the ring, if it names one. */
  predicate Callable(s: Scheduler, op: Op) {
    op.Kill? || op.Unblock? ==> op.task in s.ring
  }

  function Apply(s: Scheduler, op: Op): Scheduler
    requires s.Valid() && Callable(s, op)
  {
    match op
    case Create => AfterCreate(s)
    case Schedule => AfterSchedule(s)
    case BlockCurrent => AfterSchedule(WithState(s, s.current, BLOCKED))
    case ExitCurrent => AfterSchedule(WithState(s, s.current, ZOMBIE))
    case Kill(t) => WithState(s, t, ZOMBIE)
    case Unblock(t) => WithState(s, t, RUNNING)
  }

  // ----- shape

  lemma PositionIs(s: seq<nat>, p: nat)
    requires p < |s| && forall j, k :: 0 <= j < k < |s| ==> s[j] != s[k]
    ensures Position(s, s[p]) == p
  {
  }

  lemma {:induction false} FirstRunningIs(order: seq<nat>, states: seq<TaskState>, none: nat, k: nat)
    requires forall j :: 0 <= j < |order| ==> order[j] < |states|
    requires k <= |order| && forall j :: 0 <= j < k ==> states[order[j]] != RUNNING
    requires k < |order| ==> states[order[k]] == RUNNING
    ensures FirstRunning(order, states, none) == if k == |order| then none else order[k]
    decreases |order|
  {
    if k > 0 {
      FirstRunningIs(order[1..], states, none, k - 1);
    }
  }

  /** The index in `order` of its first running task, or its length. */
  function RunningIndex(order: seq<nat>, states: seq<TaskState>): (k: nat)
    requires forall j :: 0 <= j < |order| ==> order[j] < |states|
    ensures k <= |order|
    ensures forall j :: 0 <= j < k ==> states[order[j]] != RUNNING
    ensures k < |order| ==> states[order[k]] == RUNNING
  {
    if order == [] || states[order[0]] == RUNNING then 0 else 1 + RunningIndex(order[1..], states)
  }

  lemma RunningIndexAtMost(order: seq<nat>, states: seq<TaskState>, d: nat)
    requires forall j :: 0 <= j < |order| ==> order[j] < |states|
    requires d < |order| && states[order[d]] == RUNNING
    ensures RunningIndex(order, states) <= d
  {
    assert d >= RunningIndex(order, states) || states[order[d]] != RUNNING;
  }

  lemma SplicedValid(ring: seq<nat>)
    requires ring != [] && ring[0] == 0 && forall k :: 0 <= k < |ring| ==> ring[k] < |ring|
    requires forall j, k :: 0 <= j < k < |ring| ==> ring[j] != ring[k]
    ensures var r := Spliced(ring, |ring|);
            && |r| == |ring| + 1 && r[0] == 0
            && (forall k :: 0 <= k < |r| ==> r[k] < |r|)
            && (forall j, k :: 0 <= j < k < |r| ==> r[j] != r[k])
            && (forall t :: t in ring ==> t in r)
  {
    var r := Spliced(ring, |ring|);
    assert forall k :: 2 <= k < |r| ==> r[k] == ring[k - 1];
    forall t | t in ring
      ensures t in r
    {
      var k := Position(ring, t);
      assert r[if k == 0 then 0 else k + 1] == t;
    }
  }

  lemma CreateKeepsValid(s: Scheduler)
    requires s.Valid()
    ensures AfterCreate(s).Valid()
    ensures forall t :: t in s.ring ==> t in AfterCreate(s).ring
  {
    SplicedValid(s.ring);
  }

  lemma ScheduleKeepsValid(s: Scheduler)
    requires s.Valid()
    ensures AfterSchedule(s).Valid()
  {
    ChoiceInRing(s);
  }

  /** Every operation keeps the used slots on one ring, each once. */
  lemma ApplyKeepsValid(s: Scheduler, op: Op)
    requires s.Valid() && Callable(s, op)
    ensures Apply(s, op).Valid()
    ensures forall t :: t in s.ring ==> t in Apply(s, op).ring
  {
    hide AfterSchedule, AfterCreate;
    match op
    case Create => CreateKeepsValid(s);
    case Schedule => ScheduleKeepsValid(s);
    case BlockCurrent => ScheduleKeepsValid(WithState(s, s.current, BLOCKED));
    case ExitCurrent => ScheduleKeepsValid(WithState(s, s.current, ZOMBIE));
    case Kill(t) =>
    case Unblock(t) =>
  }

  /** schedule picks the first running task after the current one, and stays exactly when no other task is running. */
  lemma ChoiceInRing(s: Scheduler)
    requires s.Valid()
    ensures var order, next := s.Others(), AfterSchedule(s).current;
            var k := RunningIndex(order, s.states);
            && next in s.ring
            && next == (if k == |order| then s.current else order[k])
            && (next == s.current <==> forall t :: t in s.ring && t != s.current ==> s.states[t] != RUNNING)
  {
    var order := s.Others();
    var k := RunningIndex(order, s.states);
    FirstRunningIs(order, s.states, s.current, k);
    OthersAreTheRest(s);
    if k < |order| {
      assert order[k] in order;
    }
    forall t | t in s.ring && t != s.current && k == |order|
      ensures s.states[t] != RUNNING
    {
      assert t in order;
      var j := Position(order, t);
    }
  }

  lemma OthersAreTheRest(s: Scheduler)
    requires s.Valid()
    ensures forall t :: t in s.Others() <==> t in s.ring && t != s.current
    ensures |s.Others()| == |s.ring| - 1
  {
    var p := Position(s.ring, s.current);
    forall t
      ensures t in s.Others() <==> t in s.ring && t != s.current
    {
      if t in s.ring {
        var k := Position(s.ring, t);
        if k > p {
          assert s.Others()[k - p - 1] == t;
        } else if k < p {
          assert s.Others()[|s.ring| - p - 1 + k] == t;
        }
      }
    }
  }

  lemma OthersBounds(s: Scheduler)
    requires s.Valid()
    ensures s.current in s.ring && s.current < POOL_SIZE == |s.states|
    ensures forall j :: 0 <= j < |s.Others()| ==> s.Others()[j] < POOL_SIZE && s.Others()[j] != s.current
  {
    OthersAreTheRest(s);
    assert forall j :: 0 <= j < |s.Others()| ==> s.Others()[j] in s.Others();
  }

  // ----- bounded waiting

  /** How many steps of the ring lead from place `p` to place `q`. */
  function Steps(p: nat, q: nat, n: nat): int {
    if p < q then q - p else q - p + n
  }

  function Distance(s: Scheduler, t: nat): int
    requires s.current in s.ring && t in s.ring
  {
    Steps(Position(s.ring, s.current), Position(s.ring, t), |s.ring|)
  }

  /** The steps that lead from the current task to `t`, plus the pool slots still free. */
  function Measure(s: Scheduler, t: nat): int
    requires s.current in s.ring && t in s.ring
  {
    Distance(s, t) + (POOL_SIZE - |s.ring|)
  }

  lemma MeasureBound(s: Scheduler, t: nat)
    requires s.Valid() && t in s.ring && t != s.current
    ensures 1 <= Distance(s, t) < |s.ring| && 1 <= Measure(s, t) <= POOL_SIZE - 1
    ensures s.Others()[Distance(s, t) - 1] == t
  {
  }

  predicate CallsSchedule(op: Op) {
    op.Schedule? || op.BlockCurrent? || op.ExitCurrent?
  }

  lemma StepsAfterMove(p: nat, q: nat, n: nat, k: nat)
    requires p < n && q < n && p != q && k < Steps(p, q, n)
    ensures var r := Wrap(p + 1 + k, n);
            r < n && (r == q <==> k + 1 == Steps(p, q, n)) && (r != q ==> Steps(r, q, n) == Steps(p, q, n) - k - 1)
  {
  }

  lemma StepsAfterSplice(p: nat, q: nat, n: nat)
    requires p < n && q < n && p != q
    ensures Steps(if p == 0 then 0 else p + 1, if q == 0 then 0 else q + 1, n + 1) <= Steps(p, q, n) + 1
  {
  }

  /** The scan of schedule does not get past a running task. */
  lemma ChoiceNotBeyond(s: Scheduler, t: nat) returns (k: nat)
    requires s.Valid() && t in s.ring && t != s.current && s.states[t] == RUNNING
    ensures k < Distance(s, t) && Wrap(Position(s.ring, s.current) + 1 + k, |s.ring|) < |s.ring|
    ensures AfterSchedule(s).current == s.ring[Wrap(Position(s.ring, s.current) + 1 + k, |s.ring|)]
  {
    hide Scheduler.Valid, AfterSchedule, Distance, Measure, Scheduler.Others, RunningIndex, Position;
    OthersBounds(s);
    ChoiceInRing(s);
    MeasureBound(s, t);
    k := RunningIndex(s.Others(), s.states);
    RunningIndexAtMost(s.Others(), s.states, Distance(s, t) - 1);
  }

  /** A call of schedule brings a waiting running task at least one step nearer. */
  lemma ScheduleNears(s: Scheduler, t: nat)
    requires s.Valid() && t in s.ring && t != s.current && s.states[t] == RUNNING
    ensures AfterSchedule(s).Valid()
    ensures AfterSchedule(s).current != t ==> Measure(AfterSchedule(s), t) < Measure(s, t)
  {
    hide AfterSchedule, Steps, Wrap;
    ScheduleKeepsValid(s);
    var k := ChoiceNotBeyond(s, t);
    var p, q, n := Position(s.ring, s.current), Position(s.ring, t), |s.ring|;
    StepsAfterMove(p, q, n, k);
    PositionIs(s.ring, Wrap(p + 1 + k, n));
  }

  /** Where the tasks of the ring are after a splice. */
  lemma SplicedPosition(ring: seq<nat>, x: nat)
    requires ring != [] && x in ring && |ring| !in ring
    requires forall j, k :: 0 <= j < k < |ring| ==> ring[j] != ring[k]
    ensures x in Spliced(ring, |ring|)
    ensures Position(Spliced(ring, |ring|), x) == if Position(ring, x) == 0 then 0 else Position(ring, x) + 1
  {
    var r := Spliced(ring, |ring|);
    var p := Position(ring, x);
    assert forall k :: 2 <= k < |r| ==> r[k] == ring[k - 1];
    assert r[if p == 0 then 0 else p + 1] == x;
    PositionIs(r, if p == 0 then 0 else p + 1);
  }

  lemma StepsInSpliced(ring: seq<nat>, c: nat, t: nat)
    requires ring != [] && c in ring && t in ring && c != t && |ring| !in ring
    requires forall j, k :: 0 <= j < k < |ring| ==> ring[j] != ring[k]
    ensures var r := Spliced(ring, |ring|);
            && c in r && t in r && |r| == |ring| + 1
            && Steps(Position(r, c), Position(r, t), |r|) <= Steps(Position(ring, c), Position(ring, t), |ring|) + 1
  {
    SplicedPosition(ring, c);
    SplicedPosition(ring, t);
    hide Steps, Position, Spliced;
    StepsAfterSplice(Position(ring, c), Position(ring, t), |ring|);
  }

  /** A creation moves a waiting task at most one step away, and takes one of the free slots for it. */
  lemma CreateMeasure(s: Scheduler, t: nat)
    requires s.Valid() && t in s.ring && t != s.current
    ensures AfterCreate(s).Valid() && t in AfterCreate(s).ring
    ensures Measure(AfterCreate(s), t) <= Measure(s, t)
  {
    hide Steps, Spliced, Position;
    CreateKeepsValid(s);
    StepsInSpliced(s.ring, s.current, t);
  }

  lemma StateMeasure(s: Scheduler, x: nat, state: TaskState, t: nat)
    requires s.Valid() && x < |s.states| && t in s.ring && t != s.current
    ensures WithState(s, x, state).Valid() && Measure(WithState(s, x, state), t) == Measure(s, t)
  {
  }

  /**
   One operation that spares `t`: the task stays running and the measure does not grow; it shrinks if the
   operation schedules.
   */
  lemma ApplyMeasure(s: Scheduler, op: Op, t: nat)
    requires s.Valid() && t in s.ring && t != s.current && s.states[t] == RUNNING && Callable(s, op) && op != Kill(t)
    ensures Apply(s, op).Valid() && t in Apply(s, op).ring && Apply(s, op).states[t] == RUNNING
    ensures Apply(s, op).current != t ==>
              Measure(Apply(s, op), t) <= Measure(s, t) - (if CallsSchedule(op) then 1 else 0)
  {
    hide AfterSchedule, Measure;
    ApplyKeepsValid(s, op);
    match op
    case Create =>
      CreateMeasure(s, t);
    case Schedule =>
      ScheduleNears(s, t);
    case BlockCurrent =>
      StateMeasure(s, s.current, BLOCKED, t);
      ScheduleNears(WithState(s, s.current, BLOCKED), t);
    case ExitCurrent =>
      StateMeasure(s, s.current, ZOMBIE, t);
      ScheduleNears(WithState(s, s.current, ZOMBIE), t);
    case Kill(x) =>
      StateMeasure(s, x, ZOMBIE, t);
    case Unblock(x) =>
      StateMeasure(s, x, RUNNING, t);
  }

  /** Every operation of the run is one its caller can make. */
  ghost predicate AllCallable(s: Scheduler, ops: seq<Op>)
    requires s.Valid()
    decreases |ops|
  {
    ops == [] ||
    (Callable(s, ops[0]) && (ApplyKeepsValid(s, ops[0]); AllCallable(Apply(s, ops[0]), ops[1..])))
  }

  function RunOps(s: Scheduler, ops: seq<Op>): (t: Scheduler)
    requires s.Valid() && AllCallable(s, ops)
    ensures t.Valid()
    decreases |ops|
  {
    if ops == [] then s
    else
      ApplyKeepsValid(s, ops[0]);
      RunOps(Apply(s, ops[0]), ops[1..])
  }

  function ScheduleCalls(ops: seq<Op>): nat {
    if ops == [] then 0 else (if CallsSchedule(ops[0]) then 1 else 0) + ScheduleCalls(ops[1..])
  }

  lemma {:induction false} PrefixCallable(s: Scheduler, ops: seq<Op>, k: nat)
    requires s.Valid() && AllCallable(s, ops) && k <= |ops|
    ensures AllCallable(s, ops[..k])
    decreases k
  {
    if k > 0 {
      ApplyKeepsValid(s, ops[0]);
      PrefixCallable(Apply(s, ops[0]), ops[1..], k - 1);
      assert ops[..k][1..] == ops[1..][..k - 1];
    }
  }

  /** The state after the first `k` operations of a run. */
  ghost function After(s: Scheduler, ops: seq<Op>, k: nat): (t: Scheduler)
    requires s.Valid() && AllCallable(s, ops) && k <= |ops|
    ensures t.Valid()
  {
    PrefixCallable(s, ops, k);
    RunOps(s, ops[..k])
  }

  lemma AfterLater(s: Scheduler, ops: seq<Op>, k: nat)
    requires s.Valid() && AllCallable(s, ops) && 0 < k <= |ops|
    ensures Apply(s, ops[0]).Valid() && After(s, ops, k) == After(Apply(s, ops[0]), ops[1..], k - 1)
  {
    ApplyKeepsValid(s, ops[0]);
    assert ops[..k][1..] == ops[1..][..k - 1];
  }

  /** The run makes `t` current at some point, the start included. */
  ghost predicate BecomesCurrent(s: Scheduler, ops: seq<Op>, t: nat)
    requires s.Valid() && AllCallable(s, ops)
  {
    exists k :: 0 <= k <= |ops| && After(s, ops, k).current == t
  }

  lemma {:induction false} MeasureRunsOut(s: Scheduler, ops: seq<Op>, t: nat)
    requires s.Valid() && AllCallable(s, ops) && Kill(t) !in ops && t in s.ring && s.states[t] == RUNNING
    requires t != s.current ==> ScheduleCalls(ops) >= Measure(s, t)
    ensures BecomesCurrent(s, ops, t)
    decreases |ops|
  {
    hide Measure, Apply, After;
    if t == s.current {
      AfterNothing(s, ops);
    } else {
      MeasureBound(s, t);
      assert ops != [];
      ApplyMeasure(s, ops[0], t);
      var next := Apply(s, ops[0]);
      MeasureRunsOut(next, ops[1..], t);
      var k :| 0 <= k <= |ops[1..]| && After(next, ops[1..], k).current == t;
      AfterLater(s, ops, k + 1);
    }
  }

  lemma AfterNothing(s: Scheduler, ops: seq<Op>)
    requires s.Valid() && AllCallable(s, ops)
    ensures After(s, ops, 0) == s
  {
  }

  /**
   Bounded waiting: under any interleaving of creations, blocking, unblocking, kills and exits of other
   tasks, a running task that nobody kills becomes current within 15 calls of schedule.
   */
  lemma BoundedWaiting(s: Scheduler, ops: seq<Op>, t: nat)
    requires s.Valid() && AllCallable(s, ops) && Kill(t) !in ops && t in s.ring && s.states[t] == RUNNING
    requires ScheduleCalls(ops) >= 15
    ensures BecomesCurrent(s, ops, t)
  {
    if t != s.current {
      MeasureBound(s, t);
    }
    MeasureRunsOut(s, ops, t);
  }

  // ----- stopped tasks

  /**
   What one operation does, slot by slot: block_current and exit_current stop the current task, kill_task and
   unblock set the state of the task named, create_task starts the next slot while a slot and a stack are left,
   and schedule changes no state; the turn moves only where schedule is called.
   */
  lemma OneStep(s: Scheduler, op: Op, t: nat)
    requires s.Valid() && Callable(s, op) && t < 16
    ensures var n := Apply(s, op);
            && |n.states| == 16
            && n.states[t] == (if op == BlockCurrent && t == s.current then BLOCKED
                               else if op == ExitCurrent && t == s.current then ZOMBIE
                               else if op == Kill(t) then ZOMBIE
                               else if op == Unblock(t) then RUNNING
                               else if op == Create && s.stacksUsed < 16 && t == |s.ring| then RUNNING
                               else s.states[t])
            && |n.ring| == (if op == Create && s.stacksUsed < 16 && |s.ring| < 16 then |s.ring| + 1 else |s.ring|)
            && n.stacksUsed == (if op == Create && s.stacksUsed < 16 then s.stacksUsed + 1 else s.stacksUsed)
            && (!CallsSchedule(op) ==> n.current == s.current)
  {
  }

  /** Some task other than the current one is running. */
  predicate AnotherRuns(s: Scheduler) {
    exists u :: u in s.ring && u != s.current && u < |s.states| && s.states[u] == RUNNING
  }

  /** The task that gets the turn from a call of schedule is running, or it had the turn already. */
  lemma TurnToRunning(s: Scheduler, op: Op)
    requires s.Valid() && Callable(s, op)
    ensures var n := Apply(s, op);
            && n.current < |n.states| && (n.current == s.current || n.states[n.current] == RUNNING)
            && (CallsSchedule(op) ==> (n.current == s.current <==> !AnotherRuns(s)))
  {
    hide AfterSchedule, AfterCreate, Scheduler.Others, AnotherRuns;
    ApplyKeepsValid(s, op);
    InPool(Apply(s, op), Apply(s, op).current);
    match op
    case Create => CreateKeepsCurrent(s);
    case Schedule => NextIsRunning(s);
    case BlockCurrent => BlockedValid(s, BLOCKED);
    case ExitCurrent => BlockedValid(s, ZOMBIE);
    case Kill(t) =>
    case Unblock(t) =>
  }

  lemma CreateKeepsCurrent(s: Scheduler)
    requires s.Valid()
    ensures AfterCreate(s).current == s.current
  {
  }

  lemma BlockedValid(s: Scheduler, state: TaskState)
    requires s.Valid()
    ensures s.current < |s.states| && WithState(s, s.current, state).Valid()
    ensures var w := WithState(s, s.current, state);
            var n := AfterSchedule(w).current;
            && n < |w.states| && (n == s.current || w.states[n] == RUNNING)
            && (n == s.current <==> !AnotherRuns(s))
  {
    hide AfterSchedule;
    NextIsRunning(WithState(s, s.current, state));
  }

  lemma NextIsRunning(s: Scheduler)
    requires s.Valid()
    ensures var n := AfterSchedule(s).current;
            && n < |s.states| && (n == s.current || s.states[n] == RUNNING)
            && (n == s.current <==> !AnotherRuns(s))
  {
    hide AfterSchedule, Scheduler.Others;
    ChoiceInRing(s);
    ScheduleKeepsValid(s);
  }

  /**
   A stopped task stays stopped: until somebody calls unblock for it, its state does not become RUNNING, and once
   it is not current it never is again.
   */
  lemma {:induction false} StoppedStays(s: Scheduler, ops: seq<Op>, t: nat, j: nat, k: nat)
    requires s.Valid() && AllCallable(s, ops) && t in s.ring && s.states[t] != RUNNING && Unblock(t) !in ops
    requires j <= k <= |ops|
    ensures var n := After(s, ops, k);
            && t in n.ring && n.states[t] != RUNNING
            && (After(s, ops, j).current != t ==> n.current != t)
    decreases k
  {
    hide Apply, After, Scheduler.Valid;
    AfterNothing(s, ops);
    if k > 0 {
      var next := Apply(s, ops[0]);
      ApplyKeepsValid(s, ops[0]);
      InPool(s, t);
      OneStep(s, ops[0], t);
      TurnToRunning(s, ops[0]);
      AfterLater(s, ops, k);
      if j > 0 {
        AfterLater(s, ops, j);
        StoppedStays(next, ops[1..], t, j - 1, k - 1);
      } else {
        AfterNothing(next, ops[1..]);
        StoppedStays(next, ops[1..], t, 0, k - 1);
      }
    }
  }

  lemma InPool(s: Scheduler, t: nat)
    requires s.Valid() && t in s.ring
    ensures t < |s.ring| <= 16 == |s.states|
  {
    var k := Position(s.ring, t);
  }

  /**
   block_current, exit_current and kill_task stop a task: it keeps the turn only while no other task is running,
   and once another has it the task never gets it back, in any run without an unblock for it.
   */
  lemma StopsForGood(s: Scheduler, op: Op, ops: seq<Op>, t: nat, j: nat, k: nat)
    requires s.Valid() && Callable(s, op) && Apply(s, op).Valid() && AllCallable(Apply(s, op), ops)
    requires ((op == BlockCurrent || op == ExitCurrent) && t == s.current) || op == Kill(t)
    requires Unblock(t) !in ops && j <= k <= |ops|
    ensures var n := Apply(s, op);
            && n.states[t] == (if op == BlockCurrent then BLOCKED else ZOMBIE)
            && After(n, ops, k).states[t] != RUNNING
            && (After(n, ops, j).current != t ==> After(n, ops, k).current != t)
            && (op != Kill(t) && AnotherRuns(s) ==> After(n, ops, k).current != t)
  {
    hide Apply, After;
    InPool(s, t);
    OneStep(s, op, t);
    TurnToRunning(s, op);
    ApplyKeepsValid(s, op);
    AfterNothing(Apply(s, op), ops);
    StoppedStays(Apply(s, op), ops, t, j, k);
    StoppedStays(Apply(s, op), ops, t, 0, k);
  }

  /** unblock brings it back: after that it becomes current within 15 calls of schedule, unless somebody kills it. */
  lemma UnblockedReturns(s: Scheduler, ops: seq<Op>, t: nat)
    requires s.Valid() && t in s.ring && Apply(s, Unblock(t)).Valid() && AllCallable(Apply(s, Unblock(t)), ops)
    requires Kill(t) !in ops && ScheduleCalls(ops) >= 15
    ensures BecomesCurrent(Apply(s, Unblock(t)), ops, t)
  {
    hide After;
    InPool(s, t);
    BoundedWaiting(Apply(s, Unblock(t)), ops, t);
  }

  /** A new task comes next after the kernel task. */
  lemma NewestNext(s: Scheduler)
    requires s.Valid() && |s.ring| < 16 && s.stacksUsed < 16 && s.current == 0
    ensures var n := Apply(s, Create);
            n.Valid() && AfterSchedule(n).current == |s.ring|
  {
    ApplyKeepsValid(s, Create);
    var n := Apply(s, Create);
    NextInRing(n, 1);
  }

  /** The state after `k` calls of schedule and nothing else. */
  function Scheduled(s: Scheduler, k: nat): Scheduler
    requires s.Valid()
    ensures Scheduled(s, k).Valid() && Scheduled(s, k).ring == s.ring && Scheduled(s, k).states == s.states
  {
    if k == 0 then s
    else
      ApplyKeepsValid(Scheduled(s, k - 1), Schedule);
      AfterSchedule(Scheduled(s, k - 1))
  }

  lemma NextInRing(s: Scheduler, k: nat)
    requires s.Valid() && 0 < k < |s.ring| && s.current == s.ring[k - 1] && s.states[s.ring[k]] == RUNNING
    ensures AfterSchedule(s).current == s.ring[k]
  {
    PositionIs(s.ring, k - 1);
    FirstRunningIs(s.Others(), s.states, s.current, 0);
  }

  /** With all tasks running, the turn goes round slot by slot, and no slot gets it earlier. */
  lemma {:induction false} RoundRobin(s: Scheduler, k: nat)
    requires s.Valid() && s.current == s.ring[0] && k < |s.ring|
    requires forall t :: t in s.ring ==> s.states[t] == RUNNING
    ensures Scheduled(s, k).current == s.ring[k]
    ensures forall j :: 0 <= j < k ==> Scheduled(s, j).current != s.ring[k]
    decreases k
  {
    hide AfterSchedule;
    if k > 0 {
      RoundRobin(s, k - 1);
      var before := Scheduled(s, k - 1);
      assert s.ring[k] in s.ring;
      NextInRing(before, k);
      forall j | 0 <= j < k
        ensures Scheduled(s, j).current != s.ring[k]
      {
        RoundRobin(s, j);
      }
    }
  }

  /** The state after `k` creations from the start. */
  function Created(k: nat): (s: Scheduler)
    ensures s.Valid()
  {
    if k == 0 then START
    else
      ApplyKeepsValid(Created(k - 1), Create);
      Apply(Created(k - 1), Create)
  }

  /** A creation, while a slot and a stack are free, adds a running task and leaves the turn where it is. */
  lemma CreateRuns(s: Scheduler)
    requires s.Valid() && |s.ring| < POOL_SIZE && s.stacksUsed < POOL_SIZE
    ensures var t := Apply(s, Create);
            && |t.ring| == |s.ring| + 1 && t.stacksUsed == s.stacksUsed + 1 && t.current == s.current
            && t.states == s.states[|s.ring| := RUNNING]
  {
  }

  lemma {:induction false} CreatedRuns(k: nat)
    requires k < POOL_SIZE
    ensures var s := Created(k);
            && |s.ring| == k + 1 && s.stacksUsed == k && s.current == 0
            && forall t :: 0 <= t < POOL_SIZE ==> s.states[t] == RUNNING
    decreases k
  {
    hide Apply;
    if k > 0 {
      CreatedRuns(k - 1);
      CreateRuns(Created(k - 1));
    }
  }

  /**
   The bound of 15 calls is reached: after 15 creations the last task of the ring is running and waits for
   exactly 15.
   */
  lemma WorstCase()
    ensures var s := Created(POOL_SIZE - 1);
            && |s.ring| == POOL_SIZE
            && (var last := s.ring[POOL_SIZE - 1];
                && s.states[last] == RUNNING
                && (forall j :: 0 <= j < POOL_SIZE - 1 ==> Scheduled(s, j).current != last)
                && Scheduled(s, POOL_SIZE - 1).current == last)
  {
    hide Created;
    CreatedRuns(POOL_SIZE - 1);
    var s := Created(POOL_SIZE - 1);
    assert s.ring[POOL_SIZE - 1] in s.ring;
    RoundRobin(s, POOL_SIZE - 1);
  }
}
