/** How long a sleep lasts (kernel/IRQ/timer.c:11-21 and kernel/sched/task.c:148-154):
    neither less nor more passes than asked for. */
module TaskSleep {
  import opened HeapList
  import opened TaskInvariant
  import opened TaskModel
  import opened TaskRuns

  /** One pass takes one off a sleeper's count, and wakes it when nothing is left. */
  lemma PassSleeps(s: Kernel, r: Range, t: nat)
    requires PreInv(s, r) && t < MAX_TASK_COUNT && s.table[t].state == SLEEPING
    ensures var s' := Schedule(s);
      if s.table[t].msleep > 1
      then s'.table[t] == s.table[t].(msleep := s.table[t].msleep - 1) && s'.cur != t
      else s'.table[t].state == WAITING || s'.table[t].state == RUNNING
  {
    hide StacksOk, HeapOk, Occupied, Reap, Dispatch;
    var u := Reap(s, MAX_TASK_COUNT);
    ReapKeeps(s, r, MAX_TASK_COUNT);
    ReapedTable(s, MAX_TASK_COUNT);
    assert u.table[t] == ReapedTask(t, s.table[t]);
    if s.table[t].msleep > 1 {
      SleeperKept(u, r, t);
    } else {
      WakerDispatched(u, t);
    }
  }

  /** Dispatching leaves a waiting task waiting or runs it. */
  lemma WakerDispatched(u: Kernel, t: nat)
    requires Shaped(u) && t < MAX_TASK_COUNT && u.table[t].state == WAITING
    ensures Dispatch(u).table[t].state == WAITING || Dispatch(u).table[t].state == RUNNING
  {
    hide Pick;
  }

  /** What any call makes of a sleeper that it does not kill. */
  lemma StepSleeps(s: Kernel, r: Range, op: Op, t: nat)
    requires Inv(s, r) && Keeps(s, op) && op != KillOp(t)
    requires t < MAX_TASK_COUNT && s.table[t].state == SLEEPING
    ensures Shaped(Step(s, op))
    ensures var s' := Step(s, op);
      if !IsPass(s, op) then s'.table[t] == s.table[t]
      else if s.table[t].msleep > 1 then s'.table[t] == s.table[t].(msleep := s.table[t].msleep - 1)
      else s'.table[t].state == WAITING || s'.table[t].state == RUNNING
  {
    hide StacksOk, HeapOk, Occupied, Schedule, Alloc, AllocBlock, Round;
    StepShaped(s, op);
    SleeperElsewhere(s, r, t);
    match op
    case TickOp => PassSleeps(s, r, t);
    case MsleepOp(ms) =>
      if ms > 0 {
        NapBeside(s, r, ms, t);
      }
    case ExitOp(code) =>
      if s.cur != 0 {
        ExitBeside(s, r, code, t);
      }
    case KillOp(pid) =>
      if pid == s.cur && s.cur != 0 {
        ExitBeside(s, r, -1, t);
      }
    case _ =>
  }

  /** A sleeper is neither current nor in an empty slot. */
  lemma SleeperElsewhere(s: Kernel, r: Range, t: nat)
    requires Inv(s, r) && t < MAX_TASK_COUNT && s.table[t].state == SLEEPING
    ensures t != s.cur && t != 0 && FirstEmpty(s.table, 0) != t
  {
  }

  lemma ExitBeside(s: Kernel, r: Range, code: int, t: nat)
    requires Inv(s, r) && s.cur != 0 && t < MAX_TASK_COUNT && t != s.cur && s.table[t].state == SLEEPING
    ensures var s' := Exit(s, code);
      if s.table[t].msleep > 1 then s'.table[t] == s.table[t].(msleep := s.table[t].msleep - 1)
      else s'.table[t].state == WAITING || s'.table[t].state == RUNNING
  {
    hide Schedule;
    var z := s.table[s.cur].(state := ZOMBIE, exitCode := code);
    SetCurrentKeeps(s, r, z);
    PassSleeps(SetCurrent(s, z), r, t);
  }

  lemma NapBeside(s: Kernel, r: Range, ms: nat, t: nat)
    requires Inv(s, r) && ms > 0 && (s.cur != 0 || ms < 20)
    requires t < MAX_TASK_COUNT && t != s.cur && s.table[t].state == SLEEPING
    ensures var s' := Msleep(s, ms);
      if s.table[t].msleep > 1 then s'.table[t] == s.table[t].(msleep := s.table[t].msleep - 1)
      else s'.table[t].state == WAITING || s'.table[t].state == RUNNING
  {
    var z := s.table[s.cur].(msleep := ms / 10, state := SLEEPING);
    if s.cur != 0 {
      SetCurrentKeeps(s, r, z);
      PassSleeps(SetCurrent(s, z), r, t);
    } else {
      var w := s.table[0].(msleep := 0, state := WAITING);
      SetCurrentKeeps(s, r, w);
      ReapSame(SetCurrent(s, z), SetCurrent(s, w), MAX_TASK_COUNT);
      PassSleeps(SetCurrent(s, w), r, t);
    }
  }

  /** Without a pass a task that is awake stays as it is. */
  lemma AwakeStays(s: Kernel, op: Op, t: nat)
    requires Shaped(s) && t < MAX_TASK_COUNT && !IsPass(s, op) && op != KillOp(t)
    requires s.table[t].state == WAITING || s.table[t].state == RUNNING
    ensures Shaped(Step(s, op)) && Step(s, op).table[t] == s.table[t]
  {
    hide Schedule, Alloc, AllocBlock, Round;
  }

  lemma {:induction false} AwakeRun(s: Kernel, ops: seq<Op>, t: nat)
    requires Shaped(s) && t < MAX_TASK_COUNT && Passes(s, ops) == 0 && KillOp(t) !in ops
    requires s.table[t].state == WAITING || s.table[t].state == RUNNING
    ensures Run(s, ops).table[t] == s.table[t]
    decreases |ops|
  {
    hide Step, IsPass;
    if ops != [] {
      StepShaped(s, ops[0]);
      AwakeStays(s, ops[0], t);
      AwakeRun(Step(s, ops[0]), ops[1..], t);
    }
  }

  /** A sleeper sleeps through as many passes as it has left, at least one, and wakes
      with the last of them. */
  lemma {:induction false} SleeperRun(s: Kernel, r: Range, ops: seq<Op>, t: nat)
    requires Inv(s, r) && KeptRun(s, ops) && KillOp(t) !in ops
    requires t < MAX_TASK_COUNT && s.table[t].state == SLEEPING
    ensures var u, left := Run(s, ops), AtLeastOne(s.table[t].msleep);
      && (Passes(s, ops) < left ==> u.table[t].state == SLEEPING && u.cur != t)
      && (Passes(s, ops) == left ==> u.table[t].state == WAITING || u.table[t].state == RUNNING)
    decreases |ops|
  {
    hide Step, IsPass, Keeps, StacksOk, HeapOk, Occupied;
    SleeperElsewhere(s, r, t);
    if ops != [] {
      StepShaped(s, ops[0]);
      StepKeepsExactly(s, r, ops[0]);
      StepSleeps(s, r, ops[0], t);
      var s' := Step(s, ops[0]);
      if s'.table[t].state == SLEEPING {
        SleeperRun(s', r, ops[1..], t);
      } else if Passes(s', ops[1..]) == 0 {
        AwakeRun(s', ops[1..], t);
      }
    }
  }

  /** A sleep of `ms` milliseconds lasts exactly max(1, ms / 10) passes, that of the
      call included: before them the task sleeps and is not current, after them it is
      awake. */
  lemma SleepLength(s: Kernel, r: Range, ms: nat, ops: seq<Op>)
    requires Inv(s, r) && s.cur != 0 && ms > 0 && KillOp(s.cur) !in ops
    requires Shaped(Step(s, MsleepOp(ms))) && KeptRun(Step(s, MsleepOp(ms)), ops)
    ensures var s' := Step(s, MsleepOp(ms));
      var u, length := Run(s', ops), if ms < 20 then 1 else ms / 10;
      && (1 + Passes(s', ops) < length ==> u.table[s.cur].state == SLEEPING && u.cur != s.cur)
      && (1 + Passes(s', ops) == length ==> u.table[s.cur].state == WAITING || u.table[s.cur].state == RUNNING)
  {
    hide Schedule, Passes, KeptRun, Run;
    var z := s.table[s.cur].(msleep := ms / 10, state := SLEEPING);
    SetCurrentKeeps(s, r, z);
    PassSleeps(SetCurrent(s, z), r, s.cur);
    MsleepKeeps(s, r, ms);
    var s' := Step(s, MsleepOp(ms));
    if s'.table[s.cur].state == SLEEPING {
      SleeperRun(s', r, ops, s.cur);
    } else if Passes(s', ops) == 0 {
      AwakeRun(s', ops, s.cur);
    }
  }
}
