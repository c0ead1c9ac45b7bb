/** Whole runs of the scheduler: safety at every point, and how long a task can
    be kept waiting (kernel/sched/task.c). */
module TaskRuns {
  import opened HeapList
  import opened TaskInvariant
  import opened TaskModel

  lemma StepShaped(s: Kernel, op: Op)
    requires Shaped(s)
    ensures Shaped(Step(s, op))
  {
  }

  function Run(s: Kernel, ops: seq<Op>): (r: Kernel)
    requires Shaped(s)
    ensures Shaped(r)
    decreases |ops|
  {
    if ops == [] then s
    else
      StepShaped(s, ops[0]);
      Run(Step(s, ops[0]), ops[1..])
  }

  predicate AllowedRun(s: Kernel, ops: seq<Op>)
    requires Shaped(s)
    decreases |ops|
  {
    ops != [] ==>
      (StepShaped(s, ops[0]); Allowed(s, ops[0]) && AllowedRun(Step(s, ops[0]), ops[1..]))
  }

  /** Every call of the run meets what the table needs; idle may fork. */
  predicate KeptRun(s: Kernel, ops: seq<Op>)
    requires Shaped(s)
    decreases |ops|
  {
    ops != [] ==>
      (StepShaped(s, ops[0]); Keeps(s, ops[0]) && KeptRun(Step(s, ops[0]), ops[1..]))
  }

  lemma {:induction false} AllowedIsKept(s: Kernel, ops: seq<Op>)
    requires Shaped(s) && AllowedRun(s, ops)
    ensures KeptRun(s, ops)
    decreases |ops|
  {
    hide Step, Keeps;
    if ops != [] {
      StepShaped(s, ops[0]);
      AllowedIsKept(Step(s, ops[0]), ops[1..]);
    }
  }

  /** The invariant holds after every such run, and only while each call keeps it. */
  lemma {:induction false} RunKeeps(s: Kernel, r: Range, ops: seq<Op>)
    requires Inv(s, r) && KeptRun(s, ops)
    ensures Inv(Run(s, ops), r)
    decreases |ops|
  {
    if ops != [] {
      StepKeepsExactly(s, r, ops[0]);
      RunKeeps(Step(s, ops[0]), r, ops[1..]);
    }
  }

  /** From start-up on, whatever is called: slot 0 runs or waits, only the
      current slot runs, the count is right, and the stacks of the other tasks
      are as many allocated blocks as there are tasks besides idle. */
  lemma RunFromBoot(heap: seq<Block>, r: Range, ops: seq<Op>)
    requires HeapOk(heap, r) && KeptRun(Initial(heap), ops)
    ensures var s := Run(Initial(heap), ops);
      && Inv(s, r)
      && |Stacks(s.table)| == s.count - 1
      && (forall k | k in Stacks(s.table) :: HasStack(s.heap, k))
      && (r.lo % 8 == 0 && r.hi % 8 == 0 ==> forall k | k in Stacks(s.table) :: k % 8 == 0)
  {
    InitialInv(heap, r);
    RunKeeps(Initial(heap), r, ops);
    StackCount(Run(Initial(heap), ops), r);
  }

  /** Reaping gives a task's stack back exactly once: it was allocated, and is
      not afterwards. */
  lemma ReapReleases(s: Kernel, r: Range, i: nat)
    requires PreInv(s, r) && 0 < i < MAX_TASK_COUNT && s.table[i].state == ZOMBIE
    ensures HasStack(s.heap, s.table[i].kstack) && !HasStack(ReapSlot(s, i).heap, s.table[i].kstack)
    ensures ReapSlot(s, i).table[i] == NO_TASK
  {
    assert HasStack(s.heap, s.table[i].kstack);
    FreeKeeps(s.heap, r.lo, r.hi, s.table[i].kstack - HEADER);
  }

  // Waiting.

  /** The step includes a scheduling pass. */
  predicate IsPass(s: Kernel, op: Op)
    requires Shaped(s)
  {
    match op
    case TickOp => true
    case MsleepOp(ms) => ms > 0
    case ExitOp(_) => s.cur != 0
    case KillOp(pid) => 0 < pid < MAX_TASK_COUNT && s.table[pid].state != EMPTY && pid == s.cur
    case _ => false
  }

  function Passes(s: Kernel, ops: seq<Op>): nat
    requires Shaped(s)
    decreases |ops|
  {
    if ops == [] then 0
    else
      StepShaped(s, ops[0]);
      (if IsPass(s, ops[0]) then 1 else 0) + Passes(Step(s, ops[0]), ops[1..])
  }

  /** Task `t` is current now or at some later point of the run. */
  ghost predicate Reaches(s: Kernel, ops: seq<Op>, t: nat)
    requires Shaped(s)
    decreases |ops|
  {
    s.cur == t || (ops != [] && (StepShaped(s, ops[0]); Reaches(Step(s, ops[0]), ops[1..], t)))
  }

  /** An ordinary task that waits or sleeps. */
  predicate Pending(s: Kernel, t: nat) {
    && Shaped(s) && 0 < t < MAX_TASK_COUNT && t != s.cur
    && s.table[t].priority == 1
    && (s.table[t].state == WAITING || s.table[t].state == SLEEPING)
  }

  function AtLeastOne(m: nat): nat {
    if m == 0 then 1 else m
  }

  /** How many more passes `t` can be kept from running. */
  function Bound(s: Kernel, t: nat): (b: nat)
    requires Shaped(s) && t < MAX_TASK_COUNT
    ensures b >= 1
  {
    if s.table[t].state == WAITING then Distance(s.cur, t) else AtLeastOne(s.table[t].msleep) + 127
  }

  lemma DistanceSplits(cur: nat, idx: nat, t: nat)
    requires cur < MAX_TASK_COUNT && idx < MAX_TASK_COUNT && t < MAX_TASK_COUNT && idx != t
    requires Distance(cur, idx) <= Distance(cur, t)
    ensures Distance(cur, idx) + Distance(idx, t) == Distance(cur, t)
  {
  }

  /** Dispatching runs a waiting task or brings it strictly closer. */
  lemma WaitingProgress(u: Kernel, r: Range, t: nat)
    requires PreInv(u, r) && Pending(u, t) && u.table[t].state == WAITING
    ensures var v := Dispatch(u);
      v.cur == t || (Pending(v, t) && v.table[t].state == WAITING && Bound(v, t) < Distance(u.cur, t))
  {
    hide StacksSafe, StacksOk, HeapOk, Occupied;
    PickMeans(u.table, u.cur);
    var idx := Pick(u.table, u.cur).value;
    assert Distance(u.cur, idx) <= Distance(u.cur, t) < Distance(u.cur, u.cur);
    if idx != t {
      DistanceSplits(u.cur, idx, t);
    }
  }

  /** Dispatching leaves a sleeper alone. */
  lemma SleeperKept(u: Kernel, r: Range, t: nat)
    requires PreInv(u, r) && t < MAX_TASK_COUNT && u.table[t].state == SLEEPING
    ensures Shaped(Dispatch(u)) && Dispatch(u).cur != t && Dispatch(u).table[t] == u.table[t]
  {
    hide StacksSafe, StacksOk, HeapOk, Occupied;
    PickMeans(u.table, u.cur);
    NoFallback(u, r);
  }

  /** One pass either runs a pending task or brings it strictly closer. */
  lemma PassProgress(s: Kernel, r: Range, t: nat)
    requires PreInv(s, r) && Pending(s, t)
    ensures var s' := Schedule(s); s'.cur == t || (Pending(s', t) && Bound(s', t) < Bound(s, t))
  {
    hide PreInv, Pick, SwitchTo, Dispatch, Reap;
    var u := Reap(s, MAX_TASK_COUNT);
    ReapKeeps(s, r, MAX_TASK_COUNT);
    ReapedTable(s, MAX_TASK_COUNT);
    assert u.table[t] == ReapedTask(t, s.table[t]);
    if u.table[t].state == WAITING {
      WaitingProgress(u, r, t);
    } else {
      SleeperKept(u, r, t);
    }
  }

  lemma StepProgress(s: Kernel, r: Range, op: Op, t: nat)
    requires Inv(s, r) && Keeps(s, op) && Pending(s, t) && op != KillOp(t)
    ensures Shaped(Step(s, op))
    ensures var s' := Step(s, op);
      s'.cur == t || (Pending(s', t) && Bound(s', t) + (if IsPass(s, op) then 1 else 0) <= Bound(s, t))
  {
    hide PreInv, Schedule, Alloc, AllocBlock, Round;
    StepShaped(s, op);
    match op
    case TickOp => PassProgress(s, r, t);
    case MsleepOp(ms) =>
      if ms > 0 {
        SleepProgress(s, r, ms, t);
      }
    case ExitOp(code) =>
      if s.cur != 0 {
        ExitProgress(s, r, code, t);
      }
    case KillOp(pid) =>
      if pid == s.cur && s.cur != 0 {
        ExitProgress(s, r, -1, t);
      }
    case CreateOp(name, ppid) => PlaceElsewhere(s, t);
    case ForkOp => PlaceElsewhere(s, t);
    case _ =>
  }

  lemma PlaceElsewhere(s: Kernel, t: nat)
    requires Pending(s, t)
    ensures FirstEmpty(s.table, 0) != t
  {
  }

  lemma ExitProgress(s: Kernel, r: Range, code: int, t: nat)
    requires Inv(s, r) && Pending(s, t) && s.cur != 0
    ensures var s' := Exit(s, code); s'.cur == t || (Pending(s', t) && Bound(s', t) < Bound(s, t))
  {
    var z := s.table[s.cur].(state := ZOMBIE, exitCode := code);
    SetCurrentKeeps(s, r, z);
    PassProgress(SetCurrent(s, z), r, t);
  }

  lemma SleepProgress(s: Kernel, r: Range, ms: nat, t: nat)
    requires Inv(s, r) && Pending(s, t) && ms > 0 && (s.cur != 0 || ms < 20)
    ensures var s' := Msleep(s, ms); s'.cur == t || (Pending(s', t) && Bound(s', t) < Bound(s, t))
  {
    var z := s.table[s.cur].(msleep := ms / 10, state := SLEEPING);
    if s.cur != 0 {
      SetCurrentKeeps(s, r, z);
      PassProgress(SetCurrent(s, z), r, t);
    } else {
      var w := s.table[0].(msleep := 0, state := WAITING);
      SetCurrentKeeps(s, r, w);
      ReapSame(SetCurrent(s, z), SetCurrent(s, w), MAX_TASK_COUNT);
      PassProgress(SetCurrent(s, w), r, t);
    }
  }

  /** In every run that keeps the table and does not kill it, a pending task becomes current
      as soon as the run has as many passes as its bound. */
  lemma {:induction false} PendingRuns(s: Kernel, r: Range, ops: seq<Op>, t: nat)
    requires Inv(s, r) && KeptRun(s, ops) && KillOp(t) !in ops
    requires s.cur == t || (Pending(s, t) && Passes(s, ops) >= Bound(s, t))
    ensures Reaches(s, ops, t)
    decreases |ops|
  {
    if s.cur != t {
      if ops == [] {
        assert false;
      } else {
        var s' := Step(s, ops[0]);
        StepKeepsExactly(s, r, ops[0]);
        StepProgress(s, r, ops[0], t);
        PendingRuns(s', r, ops[1..], t);
      }
    }
  }

  // From start-up on.

  /** Every task but idle has priority 1. */
  predicate Ordinary(table: seq<Task>) {
    forall i: nat | 1 <= i < |table| :: table[i].state != EMPTY ==> table[i].priority == 1
  }

  lemma SchedulePriorities(s: Kernel)
    requires Shaped(s) && Ordinary(s.table)
    requires forall i: nat | i < MAX_TASK_COUNT :: s.table[i].priority >= 0
    ensures Ordinary(Schedule(s).table)
  {
    hide Reap, Pick;
    var u := Reap(s, MAX_TASK_COUNT);
    ReapedTable(s, MAX_TASK_COUNT);
    assert forall i: nat | 1 <= i < MAX_TASK_COUNT :: u.table[i] == ReapedTask(i, s.table[i]);
    PickMeans(u.table, u.cur);
  }

  /** Nothing but a fork by idle makes another task of priority 0. */
  lemma StepPriorities(s: Kernel, r: Range, op: Op)
    requires Inv(s, r) && Ordinary(s.table) && (op.ForkOp? ==> s.cur != 0)
    ensures Shaped(Step(s, op)) && Ordinary(Step(s, op).table)
  {
    hide Schedule, Alloc, AllocBlock, Round, StacksSafe, StacksOk, HeapOk, Occupied, Free;
    StepShaped(s, op);
    match op
    case TickOp => SchedulePriorities(s);
    case MsleepOp(ms) => SchedulePriorities(SetCurrent(s, s.table[s.cur].(msleep := ms / 10, state := SLEEPING)));
    case ExitOp(code) =>
      if s.cur != 0 {
        SchedulePriorities(SetCurrent(s, s.table[s.cur].(state := ZOMBIE, exitCode := code)));
      }
    case KillOp(pid) =>
      if 0 < pid < MAX_TASK_COUNT && pid == s.cur {
        SchedulePriorities(SetCurrent(s, s.table[s.cur].(state := ZOMBIE, exitCode := -1)));
      }
    case _ =>
  }

  /** In runs without a fork by idle every task but idle keeps priority 1. */
  lemma {:induction false} RunPriorities(s: Kernel, r: Range, ops: seq<Op>)
    requires Inv(s, r) && Ordinary(s.table) && AllowedRun(s, ops)
    ensures Inv(Run(s, ops), r) && Ordinary(Run(s, ops).table)
    decreases |ops|
  {
    hide Keeps, Ordinary, StacksOk, HeapOk, Occupied;
    if ops != [] {
      StepKeepsExactly(s, r, ops[0]);
      if ops[0].ForkOp? && s.cur == 0 {
        FullForks(s);
      } else {
        StepPriorities(s, r, ops[0]);
      }
      RunPriorities(Step(s, ops[0]), r, ops[1..]);
    }
  }

  /** With no slot left a fork changes nothing. */
  lemma FullForks(s: Kernel)
    requires Shaped(s) && FirstEmpty(s.table, 0) == MAX_TASK_COUNT
    ensures Step(s, ForkOp) == s
  {
  }

  lemma AllowedPriorities(heap: seq<Block>, r: Range, ops: seq<Op>)
    requires HeapOk(heap, r) && AllowedRun(Initial(heap), ops)
    ensures Inv(Run(Initial(heap), ops), r) && Ordinary(Run(Initial(heap), ops).table)
  {
    hide Inv, AllowedRun;
    InitialInv(heap, r);
    assert forall i: nat | i < MAX_TASK_COUNT :: Initial(heap).table[i] == FirstTask(i);
    RunPriorities(Initial(heap), r, ops);
  }

  /** `t` is a task of priority 1 after the run, or the run has no fork by idle. */
  predicate OrdinaryAfter(s: Kernel, before: seq<Op>, t: nat)
    requires Shaped(s)
  {
    AllowedRun(s, before) || (t < MAX_TASK_COUNT && Run(s, before).table[t].priority == 1)
  }

  lemma OrdinaryThen(heap: seq<Block>, r: Range, before: seq<Op>, t: nat)
    requires HeapOk(heap, r) && KeptRun(Initial(heap), before) && OrdinaryAfter(Initial(heap), before, t)
    ensures var s := Run(Initial(heap), before);
      Inv(s, r) && (0 < t < MAX_TASK_COUNT && s.table[t].state != EMPTY ==> s.table[t].priority == 1)
  {
    hide Inv, AllowedRun, KeptRun, Run, Initial;
    InitialInv(heap, r);
    RunKeeps(Initial(heap), r, before);
    if AllowedRun(Initial(heap), before) {
      AllowedPriorities(heap, r, before);
    }
  }

  /** No starvation: after any run from start-up, a task of priority 1 that waits or
      sleeps becomes current as soon as the run goes on for as many passes as its
      bound, unless it is killed. If idle never forked, that is every task. */
  lemma NoStarvation(heap: seq<Block>, r: Range, before: seq<Op>, ops: seq<Op>, t: nat)
    requires HeapOk(heap, r) && KeptRun(Initial(heap), before) && OrdinaryAfter(Initial(heap), before, t)
    requires KeptRun(Run(Initial(heap), before), ops) && KillOp(t) !in ops && 0 < t < MAX_TASK_COUNT
    requires var s := Run(Initial(heap), before);
      && (s.table[t].state == WAITING || s.table[t].state == SLEEPING)
      && Passes(s, ops) >= Bound(s, t)
    ensures Reaches(Run(Initial(heap), before), ops, t)
  {
    hide Inv, AllowedRun, KeptRun, OrdinaryAfter, Run, Passes;
    var s := Run(Initial(heap), before);
    OrdinaryThen(heap, r, before, t);
    if s.cur != t {
      PendingRuns(s, r, ops, t);
    }
  }

  /** A waiting task becomes current within 127 passes. */
  lemma WaitingTaskRuns(heap: seq<Block>, r: Range, before: seq<Op>, ops: seq<Op>, t: nat)
    requires HeapOk(heap, r) && KeptRun(Initial(heap), before) && OrdinaryAfter(Initial(heap), before, t)
    requires KeptRun(Run(Initial(heap), before), ops) && KillOp(t) !in ops && 0 < t < MAX_TASK_COUNT
    requires Run(Initial(heap), before).table[t].state == WAITING
    requires Passes(Run(Initial(heap), before), ops) >= 127
    ensures Reaches(Run(Initial(heap), before), ops, t)
  {
    hide Inv, AllowedRun, KeptRun, OrdinaryAfter, Run, Passes;
    var s := Run(Initial(heap), before);
    if s.cur != t {
      assert Bound(s, t) <= 127;
      NoStarvation(heap, r, before, ops, t);
    }
  }

  /** A task that goes to sleep for `ms` milliseconds becomes current again
      within max(1, ms / 10) + 127 passes, the one of the call included. */
  lemma SleepingTaskRuns(heap: seq<Block>, r: Range, before: seq<Op>, ms: nat, ops: seq<Op>)
    requires HeapOk(heap, r) && KeptRun(Initial(heap), before)
    requires OrdinaryAfter(Initial(heap), before, Run(Initial(heap), before).cur)
    requires Run(Initial(heap), before).cur != 0 && ms > 0 && KillOp(Run(Initial(heap), before).cur) !in ops
    requires var s := Run(Initial(heap), before);
      && Shaped(Step(s, MsleepOp(ms))) && KeptRun(Step(s, MsleepOp(ms)), ops)
      && 1 + Passes(Step(s, MsleepOp(ms)), ops) >= AtLeastOne(ms / 10) + 127
    ensures var s := Run(Initial(heap), before); Reaches(Step(s, MsleepOp(ms)), ops, s.cur)
  {
    hide AllowedRun, KeptRun, OrdinaryAfter, Run, Passes, Schedule;
    var s := Run(Initial(heap), before);
    OrdinaryThen(heap, r, before, s.cur);
    MsleepKeeps(s, r, ms);
    AsleepAfter(s, r, ms);
    PendingRuns(Step(s, MsleepOp(ms)), r, ops, s.cur);
  }

  lemma AsleepAfter(s: Kernel, r: Range, ms: nat)
    requires Inv(s, r) && s.cur != 0 && ms > 0 && s.table[s.cur].priority == 1
    ensures var s' := Msleep(s, ms);
      s'.cur == s.cur || (Pending(s', s.cur) && Bound(s', s.cur) + 1 <= AtLeastOne(ms / 10) + 127)
  {
    var z := s.table[s.cur].(msleep := ms / 10, state := SLEEPING);
    var p := SetCurrent(s, z);
    SetCurrentKeeps(s, r, z);
    hide PreInv, Reap, Dispatch;
    var u := Reap(p, MAX_TASK_COUNT);
    ReapKeeps(p, r, MAX_TASK_COUNT);
    ReapedTable(p, MAX_TASK_COUNT);
    assert u.table[s.cur] == ReapedTask(s.cur, z);
    if u.table[s.cur].state == WAITING {
      DispatchedFrom(u, r);
    } else {
      SleeperKept(u, r, s.cur);
    }
  }

  /** A waiting current task stays current or waits for its next turn. */
  lemma DispatchedFrom(u: Kernel, r: Range)
    requires PreInv(u, r) && u.cur != 0 && u.table[u.cur].state == WAITING && u.table[u.cur].priority == 1
    ensures var v := Dispatch(u);
      v.cur == u.cur || (Pending(v, u.cur) && v.table[u.cur].state == WAITING && Bound(v, u.cur) <= 127)
  {
    hide StacksSafe, StacksOk, HeapOk, Occupied;
    PickMeans(u.table, u.cur);
  }
}
