/** The scheduler's heap: a fixed pool of tasks, linked into a circle, and their stacks. */
module Tasks {
  import opened Words
  import opened TaskSpec

  const STACK_WORDS := 512
  const STACK_BYTES := 4096

  class Task {
    var pid: nat
    var stackTop: Option<nat>
    var stackBase: Option<nat>
    var stackSize: nat
    var state: TaskState
    var next: Task?

    /** Static storage is zeroed, and the zero of the state is TASK_RUNNING. */
    constructor ()
      ensures state == RUNNING && next == null
    {
      pid, stackTop, stackBase, stackSize, state, next := 0, None, None, 0, RUNNING, null;
    }
  }

  /** The words that create_task leaves below the top of a stack: 15 zero registers, then rip, cs, rflags, rsp, ss. */
  function Frame(entry: nat, top: nat): (f: seq<nat>)
    ensures |f| == 20
  {
    seq(15, _ => 0) + [entry, 0x08, 0x202, top, 0x10]
  }

  ghost predicate AllDistinct(tasks: seq<Task>) {
    forall i, j :: 0 <= i < j < |tasks| ==> tasks[i] != tasks[j]
  }

  /** The static pool. */
  method NewPool() returns (tasks: seq<Task>)
    ensures |tasks| == POOL_SIZE && fresh(tasks) && AllDistinct(tasks)
    ensures forall i :: 0 <= i < |tasks| ==> tasks[i].state == RUNNING
  {
    tasks := [];
    while |tasks| < POOL_SIZE
      invariant |tasks| <= POOL_SIZE && fresh(tasks) && AllDistinct(tasks)
      invariant forall i :: 0 <= i < |tasks| ==> tasks[i].state == RUNNING
      decreases POOL_SIZE - |tasks|
    {
      var t := new Task();
      tasks := tasks + [t];
    }
  }

  class Tasking {
    var currentTask: Task
    var taskList: Task
    var nextPid: nat
    const pool: seq<Task>
    var poolIdx: nat
    const stacks: array<nat>
    const stacksAddress: nat
    var stackIdx: nat
    /** The scheduler on values that the heap represents. */
    ghost var model: Scheduler

    ghost predicate Links(ring: seq<nat>)
      reads pool`next
      requires |pool| == POOL_SIZE && ring != [] && forall k :: 0 <= k < |ring| ==> ring[k] < POOL_SIZE
    {
      forall k :: 0 <= k < |ring| ==> pool[ring[k]].next == pool[ring[Wrap(k + 1, |ring|)]]
    }

    /** The first `used` slots: pids 1, 2, ... in order of creation, and the stacks in the same order. */
    ghost predicate Owned(used: nat)
      reads pool`pid, pool`stackBase, pool`stackSize
      requires |pool| == POOL_SIZE && used <= POOL_SIZE
    {
      && (forall i :: 0 <= i < used ==> pool[i].pid == i + 1)
      && (forall i :: 1 <= i < used ==>
            pool[i].stackBase == Some(STACK_WORDS * (i - 1)) && pool[i].stackSize == STACK_BYTES)
    }

    /**
     The used slots of the pool form one circle in the order of `model.ring`, with pids 1, 2, ... in order of
     creation, and the i-th created task owns the i-th stack.
     */
    ghost predicate Valid()
      reads this, pool
    {
      && |pool| == POOL_SIZE && AllDistinct(pool)
      && stacks.Length == POOL_SIZE * STACK_WORDS
      && model.Valid() && poolIdx == |model.ring| && stackIdx == model.stacksUsed
      && (poolIdx < POOL_SIZE ==> stackIdx == poolIdx - 1)
      && currentTask == pool[model.current] && taskList == pool[0]
      && (forall i :: 0 <= i < POOL_SIZE ==> pool[i].state == model.states[i])
      && Links(model.ring)
      && nextPid == poolIdx + 1 && Owned(poolIdx)
    }

    /** The static pool and init(). */
    constructor (address: nat)
      ensures Valid() && model == START && stacksAddress == address && fresh(pool) && fresh(stacks)
    {
      var tasks := NewPool();
      pool := tasks;
      stacks := new nat[POOL_SIZE * STACK_WORDS];
      stacksAddress := address;
      stackIdx := 0;
      var kernelTask := tasks[0];
      poolIdx := 1;
      kernelTask.pid := 1;
      nextPid := 2;
      kernelTask.stackTop, kernelTask.stackBase, kernelTask.stackSize := None, None, 0;
      kernelTask.state := RUNNING;
      kernelTask.next := kernelTask;
      currentTask := kernelTask;
      taskList := kernelTask;
      model := START;
      new;
      assert START.Valid() by {
        assert 0 in START.ring;
      }
    }

    method Push(sp: nat, word: nat) returns (next: nat)
      requires 0 < sp <= stacks.Length
      modifies stacks
      ensures next == sp - 1 && stacks[..] == old(stacks[..])[next := word]
    {
      next := sp - 1;
      stacks[next] := word;
    }

    /** The fifteen zero registers. */
    method PushRegisters(sp: nat) returns (next: nat)
      requires 15 <= sp <= stacks.Length
      modifies stacks
      ensures next == sp - 15 && stacks[next..sp] == seq(15, _ => 0)
      ensures stacks[..next] == old(stacks[..next]) && stacks[sp..] == old(stacks[sp..])
    {
      next := Push(sp, 0);
      next := Push(next, 0);
      next := Push(next, 0);
      next := Push(next, 0);
      next := Push(next, 0);
      next := Push(next, 0);
      next := Push(next, 0);
      next := Push(next, 0);
      next := Push(next, 0);
      next := Push(next, 0);
      next := Push(next, 0);
      next := Push(next, 0);
      next := Push(next, 0);
      next := Push(next, 0);
      next := Push(next, 0);
    }

    /** The twenty words at the top of the stack that starts at `base`, from the highest address down. */
    ghost predicate Framed(base: nat, entry: nat)
      reads stacks
    {
      && base + 512 <= stacks.Length
      && stacks[base + 511] == 0x10 && stacks[base + 510] == stacksAddress + 8 * base + 4096
      && stacks[base + 509] == 0x202 && stacks[base + 508] == 0x08 && stacks[base + 507] == entry
      && forall w :: base + 492 <= w < base + 507 ==> stacks[w] == 0
    }

    lemma FrameWords(base: nat, entry: nat)
      requires base + STACK_WORDS <= stacks.Length
      requires stacks[base + STACK_WORDS - 20..base + STACK_WORDS] ==
                 Frame(entry, stacksAddress + 8 * (base + STACK_WORDS))
      ensures Framed(base, entry)
    {
      var f := stacks[base + STACK_WORDS - 20..base + STACK_WORDS];
      assert forall k :: 0 <= k < 20 ==> stacks[base + 492 + k] == f[k];
      forall w | base + 492 <= w < base + 507
        ensures stacks[w] == 0
      {
        assert stacks[w] == f[w - base - 492];
      }
      assert stacks[base + 511] == f[19] && stacks[base + 510] == f[18] && stacks[base + 509] == f[17];
      assert stacks[base + 508] == f[16] && stacks[base + 507] == f[15];
    }

    /** The initial frame of a task on a fresh stack. */
    method BuildFrame(base: nat, entry: nat) returns (sp: nat)
      requires base + STACK_WORDS <= stacks.Length
      modifies stacks
      ensures sp == base + STACK_WORDS - 20
      ensures stacks[sp..base + STACK_WORDS] == Frame(entry, stacksAddress + 8 * (base + STACK_WORDS))
      ensures stacks[..sp] == old(stacks[..sp]) && stacks[base + STACK_WORDS..] == old(stacks[base + STACK_WORDS..])
      ensures Framed(base, entry)
    {
      var top := base + STACK_WORDS;
      sp := Push(top, 0x10);
      sp := Push(sp, stacksAddress + 8 * top);
      sp := Push(sp, 0x202);
      sp := Push(sp, 0x08);
      sp := Push(sp, entry);
      assert stacks[sp..top] == [entry, 0x08, 0x202, stacksAddress + 8 * top, 0x10];
      assert stacks[top..] == old(stacks[top..]);
      ghost var words := stacks[sp..];
      ghost var mid := sp;
      sp := PushRegisters(sp);
      assert stacks[mid..top] == words[..5] && stacks[top..] == words[5..];
      assert stacks[sp..top] == stacks[sp..mid] + stacks[mid..top];
      FrameWords(base, entry);
    }

    /** Links a task behind the head of the list. */
    method Splice(task: Task, ghost ring: seq<nat>)
      requires |pool| == POOL_SIZE && AllDistinct(pool)
      requires 1 <= |ring| < POOL_SIZE && ring[0] == 0 && task == pool[|ring|] && taskList == pool[0]
      requires forall k :: 0 <= k < |ring| ==> ring[k] < |ring|
      requires forall j, k :: 0 <= j < k < |ring| ==> ring[j] != ring[k]
      requires Links(ring)
      modifies task`next, taskList`next
      ensures forall k :: 0 <= k < |Spliced(ring, |ring|)| ==> Spliced(ring, |ring|)[k] < POOL_SIZE
      ensures Links(Spliced(ring, |ring|))
    {
      ghost var r := Spliced(ring, |ring|);
      assert forall k :: 2 <= k < |r| ==> r[k] == ring[k - 1] != 0;
      task.next := taskList.next;
      taskList.next := task;
      forall k | 0 <= k < |r|
        ensures pool[r[k]].next == pool[r[Wrap(k + 1, |r|)]]
      {
        if k >= 2 {
          assert pool[ring[k - 1]].next == old(pool[ring[k - 1]].next) == pool[ring[Wrap(k, |ring|)]];
        } else if k == 1 {
          assert task.next == old(pool[ring[0]].next) == pool[ring[Wrap(1, |ring|)]];
        }
      }
    }

    method CreateTask(entry: nat) returns (task: Task?)
      requires Valid()
      modifies this, pool, stacks
      ensures Valid() && model == Apply(old(model), Create)
      ensures task == if old(stackIdx) < POOL_SIZE && old(poolIdx) < POOL_SIZE then pool[old(poolIdx)] else null
      ensures task != null ==>
                var base := STACK_WORDS * old(stackIdx);
                && task.pid == old(nextPid) && task.stackTop == Some(base + STACK_WORDS - 20)
                && base == 512 * old(stackIdx) && Framed(base, entry)
      ensures var base := STACK_WORDS * old(stackIdx);
              forall w :: 0 <= w < stacks.Length && !(base <= w < base + STACK_WORDS) ==> stacks[w] == old(stacks[w])
    {
      hide Frame, Scheduler.Valid, Links, Owned, AllDistinct, Framed;
      if stackIdx >= POOL_SIZE {
        return null;
      }
      var base := STACK_WORDS * stackIdx;
      var sp := BuildFrame(base, entry);
      assert forall w :: 0 <= w < sp ==> stacks[w] == stacks[..sp][w] == old(stacks[..sp])[w];
      assert forall w :: base + STACK_WORDS <= w < stacks.Length ==>
               stacks[w] == stacks[base + STACK_WORDS..][w - base - STACK_WORDS] ==
                   old(stacks[base + STACK_WORDS..])[w - base - STACK_WORDS];
      if poolIdx >= POOL_SIZE {
        CreateKeepsValid(model);
        stackIdx := stackIdx + 1;
        model := AfterCreate(model);
        return null;
      }
      task := AddTask(sp, base);
    }

    /** The fields of a new task. */
    method FillSlot(task: Task, sp: nat, base: nat)
      requires |pool| == POOL_SIZE && AllDistinct(pool)
      requires 1 <= poolIdx < POOL_SIZE && task == pool[poolIdx] && nextPid == poolIdx + 1
      requires base == STACK_WORDS * (poolIdx - 1)
      requires Owned(poolIdx)
      modifies task`pid, task`stackTop, task`stackBase, task`stackSize, task`state
      ensures Owned(poolIdx + 1) && task.pid == nextPid && task.stackTop == Some(sp)
      ensures forall i :: 0 <= i < POOL_SIZE ==> pool[i].state == if i == poolIdx then RUNNING else old(pool[i].state)
    {
      task.pid := nextPid;
      task.stackTop := Some(sp);
      task.stackBase := Some(base);
      task.stackSize := STACK_BYTES;
      task.state := RUNNING;
      forall i | 0 <= i < POOL_SIZE && i != poolIdx
        ensures pool[i] != task
      {
        assert i < poolIdx || poolIdx < i;
      }
    }

    lemma OwnedLess(used: nat)
      requires |pool| == POOL_SIZE && used < POOL_SIZE && Owned(used + 1)
      ensures Owned(used)
    {
    }

    lemma RoomInRing(m: Scheduler)
      requires m.Valid() && |m.ring| < POOL_SIZE && m.stacksUsed < POOL_SIZE
      ensures m.ring[0] == 0 && m.current < POOL_SIZE && |m.states| == POOL_SIZE && |m.ring| >= 1
      ensures forall k :: 0 <= k < |m.ring| ==> m.ring[k] < |m.ring|
      ensures forall j, k :: 0 <= j < k < |m.ring| ==> m.ring[j] != m.ring[k]
      ensures var n := m.(ring := Spliced(m.ring, |m.ring|), stacksUsed := m.stacksUsed + 1);
              n.Valid() && |n.ring| == |m.ring| + 1
      ensures m.(states := m.states[|m.ring| := RUNNING]).Valid()
      ensures AfterCreate(m) == m.(ring := Spliced(m.ring, |m.ring|), states := m.states[|m.ring| := RUNNING],
                                   stacksUsed := m.stacksUsed + 1)
    {
      CreateKeepsValid(m);
    }

    /** Its place in the circle, and the counters. */
    method Join(task: Task)
      requires Valid() && poolIdx < POOL_SIZE && task == pool[poolIdx] && Owned(poolIdx + 1)
      modifies this`stackIdx, this`poolIdx, this`nextPid, this`model, task`next, taskList`next
      ensures Valid()
      ensures model == old(model).(ring := Spliced(old(model).ring, old(poolIdx)), stacksUsed := old(stackIdx) + 1)
    {
      hide Scheduler.Valid, AfterCreate, Links, Owned, Spliced, Wrap, AllDistinct;
      RoomInRing(model);
      Splice(task, model.ring);
      stackIdx := stackIdx + 1;
      poolIdx := poolIdx + 1;
      nextPid := nextPid + 1;
      model := model.(ring := Spliced(model.ring, |model.ring|), stacksUsed := model.stacksUsed + 1);
    }

    /** The part of create_task that follows the stack: a pool slot, its fields, its place in the circle. */
    method AddTask(sp: nat, base: nat) returns (task: Task)
      requires Valid() && poolIdx < POOL_SIZE && base == STACK_WORDS * stackIdx
      modifies this, pool
      ensures Valid() && model == AfterCreate(old(model))
      ensures task == pool[old(poolIdx)] && task.pid == old(nextPid) && task.stackTop == Some(sp)
    {
      hide Scheduler.Valid, AfterCreate, Links, Owned, Spliced, Wrap, AllDistinct;
      RoomInRing(model);
      task := pool[poolIdx];
      FillSlot(task, sp, base);
      OwnedLess(poolIdx);
      model := model.(states := model.states[poolIdx := RUNNING]);
      Join(task);
    }

    /** schedule(), up to the context switch: only the choice of the next task is modelled. */
    method Schedule()
      requires Valid()
      modifies this`currentTask, this`model
      ensures Valid() && model == Apply(old(model), TaskSpec.Schedule)
    {
      hide Scheduler.Valid, Scheduler.Others, Position, FirstRunning, Wrap, Links, Owned;
      CurrentInRing(model);
      ghost var order := model.Others();
      ghost var k := 0;
      ScheduleKeepsValid(model);
      OthersBounds(model);
      CircleStart(model, pool);
      var next := currentTask.next;
      while next.state != RUNNING
        invariant next != null && k <= |order| && Valid() && model == old(model)
        invariant next == if k < |order| then pool[order[k]] else currentTask
        invariant k == |order| ==> order == []
        invariant forall j :: 0 <= j < k ==> model.states[order[j]] != RUNNING
        decreases |order| - k
      {
        CircleStep(model, pool, k);
        next := next.next;
        if next == currentTask {
          FirstRunningIs(order, model.states, model.current, |order|);
          return;
        }
        k := k + 1;
      }
      FirstRunningIs(order, model.states, model.current, k);
      if next == currentTask {
        return;
      }
      currentTask := next;
      model := AfterSchedule(model);
    }

    /** The task after the current one. */
    lemma CircleStart(m: Scheduler, tasks: seq<Task>)
      requires Valid() && m == model && tasks == pool
      ensures currentTask.next == if m.Others() == [] then currentTask else tasks[m.Others()[0]]
    {
      var p := Position(m.ring, m.current);
    }

    /** The task after the k-th of the others: the next of them, or the current one again. */
    lemma CircleStep(m: Scheduler, tasks: seq<Task>, k: nat)
      requires Valid() && m == model && tasks == pool && k <= |m.Others()|
      ensures (if k < |m.Others()| then tasks[m.Others()[k]] else currentTask).next ==
                if k + 1 < |m.Others()| then tasks[m.Others()[k + 1]]
                else if k < |m.Others()| || m.Others() == [] then currentTask
                else tasks[m.Others()[0]]
    {
      var p := Position(m.ring, m.current);
    }

    /** Assigns the state of a task in the ring. */
    method SetState(task: Task, state: TaskState, ghost slot: nat)
      requires Valid() && slot in model.ring && task == pool[slot]
      modifies this`model, task`state
      ensures Valid() && model == WithState(old(model), slot, state) && task.state == state
    {
      hide Position, Wrap, Scheduler.Valid;
      SetStateValid(model, slot, state);
      forall i | 0 <= i < POOL_SIZE && i != slot
        ensures pool[i] != task
      {
        assert i < slot || slot < i;
      }
      task.state := state;
      model := WithState(model, slot, state);
    }

    method BlockCurrent()
      requires Valid()
      modifies this`currentTask, this`model, pool
      ensures Valid() && model == Apply(old(model), TaskSpec.BlockCurrent)
      ensures old(currentTask).state == BLOCKED
      ensures forall i :: 0 <= i < 16 && pool[i] != old(currentTask) ==> pool[i].state == old(pool[i].state)
    {
      hide Scheduler.Valid, Links, Owned, AfterSchedule, AllDistinct;
      CurrentInRing(model);
      SetState(currentTask, BLOCKED, model.current);
      Schedule();
    }

    method ExitCurrent()
      requires Valid()
      modifies this`currentTask, this`model, pool
      ensures Valid() && model == Apply(old(model), TaskSpec.ExitCurrent)
      ensures old(currentTask).state == ZOMBIE
      ensures forall i :: 0 <= i < 16 && pool[i] != old(currentTask) ==> pool[i].state == old(pool[i].state)
    {
      hide Scheduler.Valid, Links, Owned, AfterSchedule, AllDistinct;
      CurrentInRing(model);
      SetState(currentTask, ZOMBIE, model.current);
      Schedule();
    }

    lemma CurrentInRing(m: Scheduler)
      requires m.Valid()
      ensures m.current in m.ring && m.current < POOL_SIZE == |m.states|
    {
    }

    lemma SetStateValid(m: Scheduler, slot: nat, state: TaskState)
      requires m.Valid() && slot in m.ring
      ensures slot < |m.states| && WithState(m, slot, state).Valid()
    {
    }

    method Unblock(task: Task, ghost slot: nat)
      requires Valid() && slot in model.ring && task == pool[slot]
      modifies this`model, task
      ensures Valid() && model == Apply(old(model), TaskSpec.Unblock(slot)) && task.state == RUNNING
      ensures forall i :: 0 <= i < 16 && pool[i] != task ==> pool[i].state == old(pool[i].state)
    {
      hide Links, Owned, AllDistinct;
      SetState(task, RUNNING, slot);
    }

    method KillTask(task: Task?, ghost slot: nat)
      requires Valid() && (task != null ==> slot in model.ring && task == pool[slot])
      modifies this`model, task
      ensures Valid() && model == if task == null then old(model) else Apply(old(model), Kill(slot))
      ensures task != null ==> task.state == ZOMBIE
      ensures forall i :: 0 <= i < 16 && pool[i] != task ==> pool[i].state == old(pool[i].state)
    {
      hide Links, Owned, AllDistinct;
      if task != null {
        SetState(task, ZOMBIE, slot);
      }
    }
  }
}
