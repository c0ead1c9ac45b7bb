/** What a kill does (kernel/sched/task.c:226-248): the task is a zombie at once, never
    runs again, and the next pass takes its slot and its stack. */
module TaskKill {
  import opened HeapList
  import opened TaskInvariant
  import opened TaskModel
  import opened TaskRuns

  /** The three codes, and what changes with each. */
  lemma KillReturns(s: Kernel, pid: int)
    requires Shaped(s)
    ensures var r := Kill(s, pid);
      && (r.1 == -EACCES <==> pid <= 0 || pid >= MAX_TASK_COUNT)
      && (r.1 == -ESRCH <==> 0 < pid < MAX_TASK_COUNT && s.table[pid].state == EMPTY)
      && (r.1 == 0 <==> 0 < pid < MAX_TASK_COUNT && s.table[pid].state != EMPTY)
      && (r.1 != 0 ==> r.0 == s)
      && (r.1 == 0 && pid != s.cur ==> Zombified(s, r.0, pid))
  {
    hide Schedule;
  }

  /** Slot `t` has become a zombie, and nothing else has changed. */
  ghost predicate Zombified(s: Kernel, u: Kernel, t: nat)
    requires Shaped(s)
  {
    && t < MAX_TASK_COUNT && Shaped(u)
    && u.cur == s.cur && u.count == s.count && u.heap == s.heap
    && (forall i: nat | i < MAX_TASK_COUNT && i != t :: u.table[i] == s.table[i])
    && u.table[t].state == ZOMBIE && u.table[t].kstack == s.table[t].kstack && u.table[t].exitCode == -1
  }

  /** The zombies among the first `n` slots. */
  ghost function Zombies(table: seq<Task>, n: nat): set<nat>
    requires n <= |table|
  {
    set i: nat | 1 <= i < n && table[i].state == ZOMBIE
  }

  lemma ZombiesStep(table: seq<Task>, n: nat)
    requires n < |table|
    ensures Zombies(table, n + 1)
            == if n >= 1 && table[n].state == ZOMBIE then Zombies(table, n) + {n} else Zombies(table, n)
  {
  }

  /** Reaping counts each zombie out once. */
  lemma {:induction false} ReapCount(s: Kernel, n: nat)
    requires Shaped(s) && n <= MAX_TASK_COUNT
    ensures Reap(s, n).count == s.count - |Zombies(s.table, n)|
  {
    if n == 0 {
      assert Zombies(s.table, 0) == {};
    } else {
      ReapCount(s, n - 1);
      ReapedTable(s, n - 1);
      ZombiesStep(s.table, n - 1);
    }
  }

  /** A stack is gone after the reaping exactly if a zombie had it. */
  lemma {:induction false} ReapStacks(s: Kernel, r: Range, n: nat, k: nat)
    requires PreInv(s, r) && n <= MAX_TASK_COUNT
    ensures HasStack(Reap(s, n).heap, k)
            <==> HasStack(s.heap, k) && forall i | i in Zombies(s.table, n) :: s.table[i].kstack != k
    decreases n
  {
    hide HasStack, ReapSlot, StacksOk, HeapOk, Occupied;
    if n == 0 {
      assert Zombies(s.table, 0) == {};
    } else {
      ReapStacks(s, r, n - 1, k);
      ReapedTable(s, n - 1);
      ReapKeeps(s, r, n - 1);
      ZombiesStep(s.table, n - 1);
      SlotStack(Reap(s, n - 1), r, n - 1, k);
    }
  }

  lemma SlotStack(s: Kernel, r: Range, i: nat, k: nat)
    requires PreInv(s, r) && i < MAX_TASK_COUNT
    ensures HasStack(ReapSlot(s, i).heap, k)
            <==> HasStack(s.heap, k) && !(i > 0 && s.table[i].state == ZOMBIE && s.table[i].kstack == k)
  {
    var t := s.table[i];
    if i > 0 && t.state == ZOMBIE {
      assert HasStack(s.heap, t.kstack);
      StackReleased(s.heap, r, t.kstack, k);
    }
  }

  lemma StackReleased(heap: seq<Block>, r: Range, gone: nat, k: nat)
    requires HeapOk(heap, r) && HasStack(heap, gone)
    ensures HasStack(Release(heap, gone), k) <==> HasStack(heap, k) && k != gone
  {
    FreeKeeps(heap, r.lo, r.hi, gone - HEADER);
    if HasStack(heap, k) && k != gone {
      var b :| b in Live(heap) && b.addr + HEADER == k && b.size >= STACK_SIZE;
      assert b in Live(Free(heap, gone - HEADER));
    }
  }

  /** A pass takes a zombie's slot and its stack, and counts out every zombie. */
  lemma PassReaps(s: Kernel, r: Range, t: nat)
    requires PreInv(s, r) && 0 < t < MAX_TASK_COUNT && s.table[t].state == ZOMBIE
    ensures var s' := Schedule(s);
      && s'.table[t] == NO_TASK && s'.cur != t && s'.count == s.count - |Zombies(s.table, MAX_TASK_COUNT)|
      && !HasStack(s'.heap, s.table[t].kstack)
  {
    hide HasStack, StacksOk, HeapOk, Occupied, Reap, Pick;
    var u := Reap(s, MAX_TASK_COUNT);
    ReapKeeps(s, r, MAX_TASK_COUNT);
    ReapedTable(s, MAX_TASK_COUNT);
    assert u.table[t] == NO_TASK;
    ReapCount(s, MAX_TASK_COUNT);
    ReapStacks(s, r, MAX_TASK_COUNT, s.table[t].kstack);
    assert t in Zombies(s.table, MAX_TASK_COUNT);
    NoFallback(u, r);
    PickMeans(u.table, u.cur);
  }

  /** Any step that includes a pass does so. */
  lemma StepReaps(s: Kernel, r: Range, op: Op, t: nat)
    requires Inv(s, r) && Keeps(s, op) && IsPass(s, op)
    requires 0 < t < MAX_TASK_COUNT && s.table[t].state == ZOMBIE
    ensures Shaped(Step(s, op))
    ensures var s' := Step(s, op);
      s'.table[t] == NO_TASK && s'.cur != t && !HasStack(s'.heap, s.table[t].kstack)
  {
    hide HasStack, StacksOk, HeapOk, Occupied, Schedule;
    StepShaped(s, op);
    match op
    case TickOp => PassReaps(s, r, t);
    case MsleepOp(ms) =>
      var z := s.table[s.cur].(msleep := ms / 10, state := SLEEPING);
      if s.cur != 0 {
        SetCurrentKeeps(s, r, z);
        PassReaps(SetCurrent(s, z), r, t);
      } else {
        var w := s.table[0].(msleep := 0, state := WAITING);
        SetCurrentKeeps(s, r, w);
        ReapSame(SetCurrent(s, z), SetCurrent(s, w), MAX_TASK_COUNT);
        SamePass(SetCurrent(s, z), SetCurrent(s, w));
        PassReaps(SetCurrent(s, w), r, t);
      }
    case ExitOp(code) => ExitReaps(s, r, code, t);
    case KillOp(_) => ExitReaps(s, r, -1, t);
  }

  lemma SamePass(s: Kernel, t: Kernel)
    requires Shaped(s) && Shaped(t) && Reap(s, MAX_TASK_COUNT) == Reap(t, MAX_TASK_COUNT)
    ensures Schedule(s) == Schedule(t)
  {
    hide Reap, Dispatch;
  }

  lemma ExitReaps(s: Kernel, r: Range, code: int, t: nat)
    requires Inv(s, r) && s.cur != 0 && 0 < t < MAX_TASK_COUNT && (s.table[t].state == ZOMBIE || t == s.cur)
    ensures var s' := Exit(s, code);
      s'.table[t] == NO_TASK && s'.cur != t && !HasStack(s'.heap, s.table[t].kstack)
  {
    hide HasStack, StacksOk, HeapOk, Occupied, Schedule;
    var z := s.table[s.cur].(state := ZOMBIE, exitCode := code);
    SetCurrentKeeps(s, r, z);
    PassReaps(SetCurrent(s, z), r, t);
  }

  /** Without a pass a zombie stays one, and the current task stays current. */
  lemma ZombieStays(s: Kernel, op: Op, t: nat)
    requires Shaped(s) && t < MAX_TASK_COUNT && !IsPass(s, op) && s.table[t].state == ZOMBIE
    ensures Shaped(Step(s, op)) && Step(s, op).cur == s.cur
    ensures var u := Step(s, op).table[t]; u.state == ZOMBIE && u.kstack == s.table[t].kstack
  {
    hide Schedule, Alloc, AllocBlock, Round;
  }

  lemma {:induction false} ZombieRun(s: Kernel, ops: seq<Op>, t: nat)
    requires Shaped(s) && t < MAX_TASK_COUNT && Passes(s, ops) == 0 && s.table[t].state == ZOMBIE
    ensures var u := Run(s, ops);
      u.cur == s.cur && u.table[t].state == ZOMBIE && u.table[t].kstack == s.table[t].kstack
    decreases |ops|
  {
    hide Step, IsPass;
    if ops != [] {
      StepShaped(s, ops[0]);
      ZombieStays(s, ops[0], t);
      ZombieRun(Step(s, ops[0]), ops[1..], t);
    }
  }

  /** A task that another one kills never runs again: it is a zombie until the next
      pass, whatever else is called, and that pass empties its slot and releases its stack. */
  lemma KilledDies(s: Kernel, r: Range, pid: nat, ops: seq<Op>, op: Op)
    requires Inv(s, r) && 0 < pid < MAX_TASK_COUNT && s.table[pid].state != EMPTY && pid != s.cur
    requires Shaped(Kill(s, pid).0) && KeptRun(Kill(s, pid).0, ops) && Passes(Kill(s, pid).0, ops) == 0
    requires Keeps(Run(Kill(s, pid).0, ops), op) && IsPass(Run(Kill(s, pid).0, ops), op)
    ensures HasStack(s.heap, s.table[pid].kstack)
    ensures var v := Run(Kill(s, pid).0, ops); v.table[pid].state == ZOMBIE && v.cur == s.cur
    ensures Shaped(Step(Run(Kill(s, pid).0, ops), op))
    ensures var w := Step(Run(Kill(s, pid).0, ops), op);
      w.table[pid] == NO_TASK && w.cur != pid && !HasStack(w.heap, s.table[pid].kstack)
  {
    KillKeeps(s, r, pid);
    KillReturns(s, pid);
    hide Kill, Step, IsPass, Keeps, KeptRun, Passes, Run, HasStack, HeapOk, Occupied;
    var u := Kill(s, pid).0;
    ZombieRun(u, ops, pid);
    RunKeeps(u, r, ops);
    StepReaps(Run(u, ops), r, op, pid);
  }

  /** A task that kills itself is gone when the call has switched away. */
  lemma KillsItself(s: Kernel, r: Range)
    requires Inv(s, r) && s.cur != 0
    ensures var u, k := Kill(s, s.cur).0, s.table[s.cur].kstack;
      && Inv(u, r) && u.table[s.cur] == NO_TASK && u.cur != s.cur
      && HasStack(s.heap, k) && !HasStack(u.heap, k)
  {
    hide HasStack, HeapOk, Occupied, Schedule;
    KillKeeps(s, r, s.cur);
    ExitReaps(s, r, -1, s.cur);
  }
}
