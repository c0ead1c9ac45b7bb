/** What task records say (kernel/sched/task.c): the numbers and names that create and
    fork record, that they stay, and which task a pass leaves current. */
module TaskRecords {
  import opened HeapList
  import opened TaskInvariant
  import opened TaskModel
  import opened TaskRuns

  /** `copy` is `name`, or its first 31 characters if it is longer. */
  predicate NameCopied(name: string, copy: string) {
    && |copy| <= 31 && (|name| <= 31 ==> |copy| == |name|) && (|name| > 31 ==> |copy| == 31)
    && forall i: nat | i < |copy| && i < |name| :: copy[i] == name[i]
  }

  /** Every slot is occupied. */
  predicate NoSlot(table: seq<Task>) {
    forall i: nat | i < |table| :: table[i].state != EMPTY
  }

  lemma {:induction false} FirstEmptyMeans(table: seq<Task>, i: nat)
    requires i <= |table|
    ensures forall j: nat | i <= j < FirstEmpty(table, i) :: table[j].state != EMPTY
    decreases |table| - i
  {
    if i < |table| && table[i].state != EMPTY {
      FirstEmptyMeans(table, i + 1);
    }
  }

  /** Slot `id`, the lowest empty one, holds the new task, and no other has changed. */
  ghost predicate NewTask(s: Kernel, u: Kernel, id: int, ppid: int, name: string, priority: int)
    requires Shaped(s)
  {
    && 0 <= id < MAX_TASK_COUNT && Shaped(u) && u.cur == s.cur
    && s.table[id].state == EMPTY && (forall j: nat | j < id :: s.table[j].state != EMPTY)
    && (forall j: nat | j < MAX_TASK_COUNT && j != id :: u.table[j] == s.table[j])
    && var t := u.table[id];
    && t.pid == id && t.ppid == ppid && t.state == WAITING && t.priority == priority && NameCopied(name, t.name)
  }

  /** What create returns and records: -1 when there is no slot, -12 when there is no
      stack, and then the slot stays taken; else the number of the new task. */
  lemma CreateReturns(s: Kernel, name: string, ppid: int)
    requires Shaped(s)
    ensures var r, b := Create(s, name, ppid), AllocBlock(s.heap, Round(STACK_SIZE));
      && (r.1 == -1 <==> s.count >= MAX_TASK_COUNT || NoSlot(s.table)) && (r.1 == -1 ==> r.0 == s)
      && (r.1 == -12 <==> r.1 != -1 && b.None?)
      && (r.1 == -12 ==> r.0.count == s.count && r.0.heap == s.heap
                         && exists id :: NewTask(s, r.0, id, ppid, name, 1) && r.0.table[id].kstack == 0)
      && (r.1 != -1 && r.1 != -12 ==>
            && NewTask(s, r.0, r.1, ppid, name, 1) && r.0.count == s.count + 1
            && b.Some? && r.0.table[r.1].kstack == b.value.addr + HEADER)
  {
    hide FirstEmpty, Alloc, AllocBlock, Round;
    var id := FirstEmpty(s.table, 0);
    FirstEmptyMeans(s.table, 0);
    if s.count < MAX_TASK_COUNT && id < MAX_TASK_COUNT {
      assert NewTask(s, Create(s, name, ppid).0, id, ppid, name, 1);
    }
  }

  /** The same for fork: the child's parent, name and priority are those of the current
      task. The count is not looked at. */
  lemma ForkReturns(s: Kernel)
    requires Shaped(s)
    ensures var r, b, parent := Fork(s), AllocBlock(s.heap, Round(STACK_SIZE)), s.table[s.cur];
      && (r.1 == -1 <==> NoSlot(s.table)) && (r.1 == -1 ==> r.0 == s)
      && (r.1 == -12 <==> r.1 != -1 && b.None?)
      && (r.1 == -12 ==> r.0.count == s.count && r.0.heap == s.heap
                         && exists id :: NewTask(s, r.0, id, parent.pid, parent.name, parent.priority)
                                         && r.0.table[id].kstack == 0)
      && (r.1 != -1 && r.1 != -12 ==>
            && NewTask(s, r.0, r.1, parent.pid, parent.name, parent.priority) && r.0.count == s.count + 1
            && b.Some? && r.0.table[r.1].kstack == b.value.addr + HEADER)
  {
    hide FirstEmpty, Alloc, AllocBlock, Round;
    var id, parent := FirstEmpty(s.table, 0), s.table[s.cur];
    FirstEmptyMeans(s.table, 0);
    if id < MAX_TASK_COUNT {
      assert NewTask(s, Fork(s).0, id, parent.pid, parent.name, parent.priority);
    }
  }

  // A pass.

  /** The same task: only its state and what it still has to sleep may differ. */
  predicate SameTask(a: Task, b: Task) {
    && a.pid == b.pid && a.ppid == b.ppid && a.name == b.name && a.priority == b.priority
    && a.exitCode == b.exitCode && a.kstack == b.kstack
  }

  /** A pass empties the slots of zombies and changes no other task but its state. */
  lemma PassTasks(s: Kernel, i: nat)
    requires Shaped(s) && i < MAX_TASK_COUNT
    ensures SameTask(Schedule(s).table[i], if i > 0 && s.table[i].state == ZOMBIE then NO_TASK else s.table[i])
  {
    hide Reap, Pick;
    ReapedTable(s, MAX_TASK_COUNT);
    assert Reap(s, MAX_TASK_COUNT).table[i] == ReapedTask(i, s.table[i]);
  }

  /** After reaping slot `t` is ready: it waited, or slept its last pass. */
  predicate ReadyAfter(t: Task) {
    t.state == WAITING || (t.state == SLEEPING && t.msleep <= 1)
  }

  /** What a pass leaves current: of the tasks that are ready the one of the highest
      priority, the nearest one around the table, and it runs; the task it was taken from
      waits. The current task stays only if it is that one itself, or if none is ready. */
  lemma PassPicks(s: Kernel, r: Range)
    requires PreInv(s, r)
    ensures var s' := Schedule(s);
      && (forall t: nat | t < MAX_TASK_COUNT && ReadyAfter(s.table[t]) ::
            && ReadyAfter(s.table[s'.cur]) && s.table[t].priority <= s.table[s'.cur].priority
            && (s.table[t].priority == s.table[s'.cur].priority ==> Distance(s.cur, s'.cur) <= Distance(s.cur, t)))
      && (s'.cur != s.cur ==>
            && s'.table[s'.cur].state == RUNNING
            && (s.table[s.cur].state == RUNNING ==> s'.table[s.cur].state == WAITING))
      && ((forall t: nat | t < MAX_TASK_COUNT :: !ReadyAfter(s.table[t])) ==> s'.cur == s.cur)
  {
    hide Reap, Dispatch, Distance, StacksOk, HeapOk, Occupied;
    var u := Reap(s, MAX_TASK_COUNT);
    ReapKeeps(s, r, MAX_TASK_COUNT);
    ReapedTable(s, MAX_TASK_COUNT);
    assert forall t: nat | t < MAX_TASK_COUNT :: u.table[t] == ReapedTask(t, s.table[t]);
    assert forall t: nat | t < MAX_TASK_COUNT :: u.table[t].state == WAITING <==> ReadyAfter(s.table[t]);
    assert forall t: nat | t < MAX_TASK_COUNT && ReadyAfter(s.table[t]) :: u.table[t].priority == s.table[t].priority;
    DispatchPicks(u, r);
  }

  lemma DispatchPicks(u: Kernel, r: Range)
    requires PreInv(u, r)
    ensures var v := Dispatch(u);
      && Shaped(v)
      && (forall t: nat | t < MAX_TASK_COUNT && u.table[t].state == WAITING ::
            && u.table[v.cur].state == WAITING && u.table[t].priority <= u.table[v.cur].priority
            && (u.table[t].priority == u.table[v.cur].priority ==> Distance(u.cur, v.cur) <= Distance(u.cur, t)))
      && (v.cur != u.cur ==>
            && v.table[v.cur].state == RUNNING
            && (u.table[u.cur].state == RUNNING ==> v.table[u.cur].state == WAITING))
      && ((forall t: nat | t < MAX_TASK_COUNT :: u.table[t].state != WAITING) ==> v.cur == u.cur)
  {
    hide Pick, Distance, StacksOk, HeapOk, Occupied;
    PickMeans(u.table, u.cur);
    NoFallback(u, r);
  }

  /** When no task is ready, a task that still runs goes on. From one that went to sleep or
      died the pass switches to idle whatever its state, even before the end of its sleep. */
  lemma IdleWoken(s: Kernel)
    requires Shaped(s) && forall t: nat | t < MAX_TASK_COUNT :: s.table[t].priority >= 0 && !ReadyAfter(s.table[t])
    ensures var s', runs := Schedule(s), s.table[s.cur].state == RUNNING;
      && s'.cur == (if runs then s.cur else 0)
      && (!runs && s.cur != 0 ==> s'.table[0].state == RUNNING)
  {
    hide Reap, Pick;
    var u := Reap(s, MAX_TASK_COUNT);
    ReapedTable(s, MAX_TASK_COUNT);
    assert forall t: nat | t < MAX_TASK_COUNT :: u.table[t] == ReapedTask(t, s.table[t]);
    PickMeans(u.table, u.cur);
  }

  /** The rest of the kernel gets a block of its own, or nothing changes. */
  lemma OthersAllocate(s: Kernel, r: Range, size: nat)
    requires Shaped(s) && HeapOk(s.heap, r)
    ensures var s' := Step(s, KmallocOp(size));
      && s' == s.(heap := s'.heap)
      && match AllocBlock(s.heap, Round(size))
         case None => s' == s
         case Some(b) => b !in Live(s.heap) && b.size >= Round(size) && Live(s'.heap) == Live(s.heap) + {b}
  {
    hide Alloc, AllocBlock, Round;
    AllocKeeps(s.heap, r.lo, r.hi, Round(size));
  }

  // Every call.

  /** In every occupied slot the pid is the slot's number and the name fits. */
  ghost predicate RecordsOk(table: seq<Task>) {
    forall i: nat | i < |table| && table[i].state != EMPTY :: table[i].pid == i && |table[i].name| < MAX_TASK_NAME
  }

  lemma PassRecords(s: Kernel)
    requires Shaped(s) && RecordsOk(s.table) && s.table[0].state != EMPTY
    ensures RecordsOk(Schedule(s).table)
  {
    hide Reap, Dispatch, RecordsOk;
    var u := Reap(s, MAX_TASK_COUNT);
    ReapedTable(s, MAX_TASK_COUNT);
    assert forall i: nat | i < MAX_TASK_COUNT :: u.table[i] == ReapedTask(i, s.table[i]);
    ReapedRecords(s.table, u.table);
    DispatchRecords(u);
  }

  lemma ReapedRecords(table: seq<Task>, after: seq<Task>)
    requires RecordsOk(table) && |after| == |table|
    requires forall i: nat | i < |table| :: after[i] == ReapedTask(i, table[i])
    ensures RecordsOk(after)
  {
  }

  lemma DispatchRecords(u: Kernel)
    requires Shaped(u) && RecordsOk(u.table) && u.table[0].state != EMPTY
    ensures RecordsOk(Dispatch(u).table)
  {
    hide Pick;
    if Pick(u.table, u.cur).Some? {
      var next := Pick(u.table, u.cur).value;
      if u.table[next].state != WAITING {
        SleeperNotPicked(u.table, u.cur, next);
      }
    }
  }

  lemma StepRecords(s: Kernel, r: Range, op: Op)
    requires Inv(s, r) && RecordsOk(s.table)
    ensures Shaped(Step(s, op)) && RecordsOk(Step(s, op).table)
  {
    hide Schedule, Alloc, AllocBlock, Round, Free, StacksOk, HeapOk, Occupied;
    StepShaped(s, op);
    match op
    case TickOp => PassRecords(s);
    case MsleepOp(ms) => PassRecords(SetCurrent(s, s.table[s.cur].(msleep := ms / 10, state := SLEEPING)));
    case ExitOp(code) => PassRecords(SetCurrent(s, s.table[s.cur].(state := ZOMBIE, exitCode := code)));
    case KillOp(pid) => PassRecords(SetCurrent(s, s.table[s.cur].(state := ZOMBIE, exitCode := -1)));
    case _ =>
  }

  lemma {:induction false} RunRecords(s: Kernel, r: Range, ops: seq<Op>)
    requires Inv(s, r) && RecordsOk(s.table) && KeptRun(s, ops)
    ensures RecordsOk(Run(s, ops).table)
    decreases |ops|
  {
    hide Keeps, RecordsOk, StacksOk, HeapOk, Occupied;
    if ops != [] {
      StepKeepsExactly(s, r, ops[0]);
      StepRecords(s, r, ops[0]);
      RunRecords(Step(s, ops[0]), r, ops[1..]);
    }
  }

  /** After any run from start-up a task's pid is its slot, and so a fork records the
      current slot as the parent. */
  lemma PidsFromBoot(heap: seq<Block>, r: Range, ops: seq<Op>)
    requires HeapOk(heap, r) && KeptRun(Initial(heap), ops)
    ensures var s := Run(Initial(heap), ops);
      && RecordsOk(s.table) && s.table[s.cur].pid == s.cur
      && (Fork(s).1 >= 0 ==> NewTask(s, Fork(s).0, Fork(s).1, s.cur, s.table[s.cur].name, s.table[s.cur].priority))
  {
    hide StacksOk, HeapOk, Occupied, Run, KeptRun, Fork, NewTask;
    InitialInv(heap, r);
    assert forall i: nat | i < MAX_TASK_COUNT :: Initial(heap).table[i] == FirstTask(i);
    RunRecords(Initial(heap), r, ops);
    RunKeeps(Initial(heap), r, ops);
    ForkReturns(Run(Initial(heap), ops));
  }
}
