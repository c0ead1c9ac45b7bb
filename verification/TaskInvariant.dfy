/** What every scheduler call keeps (kernel/sched/task.c). */
module TaskInvariant {
  import opened HeapLaws
  import opened HeapList
  import opened Machine
  import opened TaskModel

  /** The range of addresses of the heap. */
  datatype Range = Range(lo: nat, hi: nat)

  ghost predicate HeapOk(heap: seq<Block>, r: Range) {
    Tiles(heap, r.lo, r.hi) && Merged(heap) && AlignedIn(heap, r.lo, r.hi)
  }

  lemma HeapAlloc(heap: seq<Block>, r: Range, n: nat)
    requires HeapOk(heap, r) && n % 8 == 0
    ensures HeapOk(Alloc(heap, n), r)
  {
    AllocKeeps(heap, r.lo, r.hi, n);
    AllocMerged(heap, n);
    if Aligned(heap) {
      AllocAligned(heap, n);
    }
  }

  lemma HeapFree(heap: seq<Block>, r: Range, addr: nat)
    requires HeapOk(heap, r)
    ensures HeapOk(Free(heap, addr), r)
  {
    FreeKeeps(heap, r.lo, r.hi, addr);
    if Aligned(heap) {
      FreeAligned(heap, addr);
    }
  }

  /** `k` is the payload of an allocated block that is large enough for a stack. */
  ghost predicate HasStack(heap: seq<Block>, k: nat) {
    exists b :: b in Live(heap) && b.addr + HEADER == k && b.size >= STACK_SIZE
  }

  /** Every stack pointer in a slot above 0 is an allocated stack of its own. */
  ghost predicate StacksSafe(table: seq<Task>, heap: seq<Block>) {
    && (forall i: nat | 1 <= i < |table| && table[i].kstack != 0 :: HasStack(heap, table[i].kstack))
    && (forall i: nat, j: nat | 1 <= i < j < |table| && table[i].kstack != 0 :: table[i].kstack != table[j].kstack)
  }

  /** What a pass relies on to reap: it survives every call whatsoever. */
  ghost predicate MemoryOk(s: Kernel, r: Range) {
    Shaped(s) && StacksSafe(s.table, s.heap) && HeapOk(s.heap, r)
  }

  /** Each occupied slot above 0 owns an allocated stack of its own. */
  ghost predicate StacksOk(table: seq<Task>, heap: seq<Block>) {
    && StacksSafe(table, heap)
    && forall i: nat | 1 <= i < |table| && table[i].state != EMPTY :: table[i].kstack != 0
  }

  /** The slots that are not empty. */
  ghost function Occupied(table: seq<Task>): set<nat> {
    set i: nat | i < |table| && table[i].state != EMPTY
  }

  ghost predicate SlotsOk(s: Kernel) {
    && Shaped(s)
    && (s.table[0].state == RUNNING || s.table[0].state == WAITING) 
    && s.table[0].priority == 0 && s.table[0].kstack == 0
    && (forall i: nat | i < MAX_TASK_COUNT :: s.table[i].state == RUNNING ==> i == s.cur)
    && (forall i: nat | i < MAX_TASK_COUNT :: 0 <= s.table[i].priority <= 1)
  }

  /** The current task is runnable. */
  ghost predicate CurrentOk(s: Kernel) {
    s.cur < |s.table| && (s.table[s.cur].state == RUNNING || s.table[s.cur].state == WAITING)
  }

  /** What holds at every point where a pass can begin. */
  ghost predicate PreInv(s: Kernel, r: Range) {
    && SlotsOk(s)
    && s.count == |Occupied(s.table)|
    && StacksOk(s.table, s.heap)
    && HeapOk(s.heap, r)
  }

  /** What holds between any two calls. */
  ghost predicate Inv(s: Kernel, r: Range) {
    PreInv(s, r) && CurrentOk(s)
  }

  lemma InvMemory(s: Kernel, r: Range)
    requires PreInv(s, r)
    ensures MemoryOk(s, r)
  {
  }

  lemma InitialInv(heap: seq<Block>, r: Range)
    requires HeapOk(heap, r)
    ensures Inv(Initial(heap), r)
  {
    var s := Initial(heap);
    assert s.table[0] == FirstTask(0);
    assert forall i: nat | i < MAX_TASK_COUNT :: s.table[i] == FirstTask(i);
    assert Occupied(s.table) == {0};
  }

  // Reaping.

  lemma FreeOther(heap: seq<Block>, r: Range, k: nat, other: nat)
    requires HeapOk(heap, r) && HasStack(heap, k) && HasStack(heap, other) && k != other
    ensures HasStack(Release(heap, k), other)
  {
    var b :| b in Live(heap) && b.addr + HEADER == other && b.size >= STACK_SIZE;
    FreeKeeps(heap, r.lo, r.hi, k - HEADER);
    assert b in Live(Free(heap, k - HEADER));
  }

  lemma ReapMemory(s: Kernel, r: Range, i: nat)
    requires MemoryOk(s, r) && i < MAX_TASK_COUNT
    ensures MemoryOk(ReapSlot(s, i), r)
  {
    var t := ReapSlot(s, i);
    var k := s.table[i].kstack;
    if i > 0 && s.table[i].state == ZOMBIE && k != 0 {
      assert HasStack(s.heap, k);
      HeapFree(s.heap, r, k - HEADER);
      forall j: nat | 1 <= j < |t.table| && t.table[j].kstack != 0
        ensures HasStack(t.heap, t.table[j].kstack)
      {
        assert s.table[i].kstack != s.table[j].kstack;
        FreeOther(s.heap, r, k, s.table[j].kstack);
      }
    }
  }

  /** Changes that give no slot another stack. */
  lemma SameStacks(s: Kernel, t: Kernel, r: Range)
    requires MemoryOk(s, r) && Shaped(t) && t.heap == s.heap
    requires forall i: nat | 1 <= i < MAX_TASK_COUNT :: t.table[i].kstack == s.table[i].kstack || t.table[i].kstack == 0
    ensures MemoryOk(t, r)
  {
  }

  lemma {:induction false} ReapAllMemory(s: Kernel, r: Range, n: nat)
    requires MemoryOk(s, r) && n <= MAX_TASK_COUNT
    ensures MemoryOk(Reap(s, n), r)
  {
    if n > 0 {
      ReapAllMemory(s, r, n - 1);
      ReapMemory(Reap(s, n - 1), r, n - 1);
    }
  }

  lemma ScheduleMemory(s: Kernel, r: Range)
    requires MemoryOk(s, r)
    ensures MemoryOk(Schedule(s), r)
  {
    ReapAllMemory(s, r, MAX_TASK_COUNT);
    SameStacks(Reap(s, MAX_TASK_COUNT), Schedule(s), r);
  }

  lemma ReapZombie(s: Kernel, r: Range, i: nat)
    requires PreInv(s, r) && 0 < i < MAX_TASK_COUNT && s.table[i].state == ZOMBIE
    ensures PreInv(ReapSlot(s, i), r)
  {
    ReapMemory(s, r, i);
    assert Occupied(ReapSlot(s, i).table) == Occupied(s.table) - {i};
  }

  lemma ReapSlotKeeps(s: Kernel, r: Range, i: nat)
    requires PreInv(s, r) && i < MAX_TASK_COUNT
    ensures PreInv(ReapSlot(s, i), r)
  {
    if i > 0 && s.table[i].state == ZOMBIE {
      ReapZombie(s, r, i);
    } else {
      assert Occupied(ReapSlot(s, i).table) == Occupied(s.table);
    }
  }

  lemma {:induction false} ReapKeeps(s: Kernel, r: Range, n: nat)
    requires PreInv(s, r) && n <= MAX_TASK_COUNT
    ensures PreInv(Reap(s, n), r)
  {
    if n > 0 {
      ReapKeeps(s, r, n - 1);
      ReapSlotKeeps(Reap(s, n - 1), r, n - 1);
    }
  }

  /** Reaping treats each slot by itself. */
  lemma {:induction false} ReapedTable(s: Kernel, n: nat)
    requires Shaped(s) && n <= MAX_TASK_COUNT
    ensures forall j: nat | j < MAX_TASK_COUNT ::
              Reap(s, n).table[j] == if j < n then ReapedTask(j, s.table[j]) else s.table[j]
  {
    if n > 0 {
      ReapedTable(s, n - 1);
    }
  }

  // Choosing the next task.

  lemma {:induction false} MaxPriorityMeans(table: seq<Task>, n: nat)
    requires n <= |table|
    ensures var m := MaxPriority(table, n);
      && m >= -1
      && (forall i: nat | i < n && table[i].state == WAITING :: table[i].priority <= m)
      && (m >= 0 ==> exists i: nat :: i < n && table[i].state == WAITING && table[i].priority == m)
  {
    if n > 0 {
      MaxPriorityMeans(table, n - 1);
      var m := MaxPriority(table, n - 1);
      if m >= 0 {
        var i: nat :| i < n - 1 && table[i].state == WAITING && table[i].priority == m;
        assert i < n && table[i].state == WAITING;
      }
    }
  }

  /** How many steps around the table from `cur` the slot `t` lies: 1..128. */
  function Distance(cur: nat, t: nat): (d: nat)
    requires cur < MAX_TASK_COUNT && t < MAX_TASK_COUNT
    ensures 1 <= d <= MAX_TASK_COUNT && Around(cur, d) == t
  {
    if t > cur then t - cur else MAX_TASK_COUNT + t - cur
  }

  /** What scanning from step `i` on around the table returns. */
  ghost predicate ScanResult(table: seq<Task>, cur: nat, priority: int, i: nat, r: Option<nat>)
    requires |table| == MAX_TASK_COUNT
  {
    match r
    case None => forall d: nat | i <= d <= MAX_TASK_COUNT :: !Ready(table, Around(cur, d), priority)
    case Some(idx) => exists d: nat :: FirstReady(table, cur, priority, i, d, idx)
  }

  lemma {:induction false} ScanMeans(table: seq<Task>, cur: nat, priority: int, i: nat)
    requires |table| == MAX_TASK_COUNT && 1 <= i
    ensures ScanResult(table, cur, priority, i, ScanFrom(table, cur, priority, i))
    decreases MAX_TASK_COUNT + 1 - i
  {
    if i <= MAX_TASK_COUNT {
      if Ready(table, Around(cur, i), priority) {
        assert FirstReady(table, cur, priority, i, i, Around(cur, i));
      } else {
        ScanMeans(table, cur, priority, i + 1);
        ScanSkip(table, cur, priority, i, ScanFrom(table, cur, priority, i + 1));
      }
    }
  }

  lemma ScanSkip(table: seq<Task>, cur: nat, priority: int, i: nat, r: Option<nat>)
    requires |table| == MAX_TASK_COUNT && !Ready(table, Around(cur, i), priority)
    requires ScanResult(table, cur, priority, i + 1, r)
    ensures ScanResult(table, cur, priority, i, r)
  {
    if r.Some? {
      var d: nat :| FirstReady(table, cur, priority, i + 1, d, r.value);
      forall c: nat | i <= c < d
        ensures !Ready(table, Around(cur, c), priority)
      {
        if c > i {
          assert i + 1 <= c;
        }
      }
      assert FirstReady(table, cur, priority, i, d, r.value);
    } else {
      forall d: nat | i <= d <= MAX_TASK_COUNT
        ensures !Ready(table, Around(cur, d), priority)
      {
        if d > i {
          assert i + 1 <= d;
        }
      }
    }
  }

  /** `idx` is the first ready slot from step `i` on, reached at step `d`. */
  ghost predicate FirstReady(table: seq<Task>, cur: nat, priority: int, i: nat, d: nat, idx: nat)
    requires |table| == MAX_TASK_COUNT
  {
    && i <= d <= MAX_TASK_COUNT && idx == Around(cur, d)
    && Ready(table, idx, priority)
    && forall c: nat | i <= c < d :: !Ready(table, Around(cur, c), priority)
  }

  lemma DistanceUnique(cur: nat, d: nat)
    requires cur < MAX_TASK_COUNT && 1 <= d <= MAX_TASK_COUNT
    ensures Distance(cur, Around(cur, d)) == d
  {
  }

  /** A pass picks a waiting task of the highest priority, the nearest one
      around the table; it picks none exactly if no task waits. */
  lemma PickMeans(table: seq<Task>, cur: nat)
    requires |table| == MAX_TASK_COUNT && cur < MAX_TASK_COUNT
    requires forall i: nat | i < |table| :: table[i].priority >= 0
    ensures match Pick(table, cur)
            case None => forall i: nat | i < |table| :: table[i].state != WAITING
            case Some(idx) =>
              && table[idx].state == WAITING
              && forall t: nat | t < |table| && table[t].state == WAITING ::
                   && table[t].priority <= table[idx].priority
                   && (table[t].priority == table[idx].priority ==> Distance(cur, idx) <= Distance(cur, t))
  {
    hide MaxPriority, ScanFrom, Distance, Around;
    var m := MaxPriority(table, MAX_TASK_COUNT);
    MaxPriorityMeans(table, MAX_TASK_COUNT);
    if m >= 0 {
      ScanMeans(table, cur, m, 1);
      var i: nat :| i < |table| && table[i].state == WAITING && table[i].priority == m;
      assert Ready(table, Around(cur, Distance(cur, i)), m);
      var idx := Pick(table, cur).value;
      var d: nat :| FirstReady(table, cur, m, 1, d, idx);
      DistanceUnique(cur, d);
      forall t: nat | t < |table| && table[t].state == WAITING && table[t].priority == m
        ensures Distance(cur, idx) <= Distance(cur, t)
      {
        assert Ready(table, Around(cur, Distance(cur, t)), m);
      }
    }
  }

  // A whole pass.

  /** With idle runnable there is always something to run: the fall back to
      slot 0 is never taken. */
  lemma NoFallback(s: Kernel, r: Range)
    requires PreInv(s, r)
    ensures Pick(s.table, s.cur).None? ==> s.cur == 0 && s.table[0].state == RUNNING
  {
    PickMeans(s.table, s.cur);
  }

  /** A switch changes states alone. */
  lemma SwitchFields(s: Kernel, next: nat)
    requires Shaped(s) && next < MAX_TASK_COUNT && s.table[next].state == WAITING
    requires forall i: nat | i < MAX_TASK_COUNT :: s.table[i].state == RUNNING ==> i == s.cur
    ensures var v := SwitchTo(s, next);
      && Shaped(v) && v.cur == next && v.count == s.count && v.heap == s.heap
      && forall i: nat | i < MAX_TASK_COUNT ::
           && v.table[i].kstack == s.table[i].kstack && v.table[i].priority == s.table[i].priority
           && (v.table[i].state == EMPTY <==> s.table[i].state == EMPTY)
           && (v.table[i].state == RUNNING ==> i == next)
           && (s.table[i].state == WAITING || s.table[i].state == RUNNING
               ==> v.table[i].state == WAITING || v.table[i].state == RUNNING)
  {
  }

  lemma SwitchKeeps(s: Kernel, r: Range, next: nat)
    requires PreInv(s, r) && next < MAX_TASK_COUNT && s.table[next].state == WAITING
    ensures Inv(SwitchTo(s, next), r)
  {
    SwitchFields(s, next);
    hide HasStack, HeapOk, SwitchTo;
    assert Occupied(SwitchTo(s, next).table) == Occupied(s.table);
  }

  lemma ScheduleKeeps(s: Kernel, r: Range)
    requires PreInv(s, r)
    ensures Inv(Schedule(s), r)
  {
    ReapKeeps(s, r, MAX_TASK_COUNT);
    var t := Reap(s, MAX_TASK_COUNT);
    NoFallback(t, r);
    PickMeans(t.table, t.cur);
    if Pick(t.table, t.cur).Some? {
      SwitchKeeps(t, r, Pick(t.table, t.cur).value);
    }
  }

  lemma SetCurrentKeeps(s: Kernel, r: Range, t: Task)
    requires PreInv(s, r) && CurrentOk(s)
    requires t.state != EMPTY && t.kstack == s.table[s.cur].kstack && t.priority == s.table[s.cur].priority
    requires t.state == RUNNING || t.state == WAITING || s.cur != 0
    ensures PreInv(SetCurrent(s, t), r)
  {
    assert Occupied(SetCurrent(s, t).table) == Occupied(s.table);
  }

  /** What a pass makes of the current slot when its task has ended. */
  lemma ZombieSwitched(t: Kernel, r: Range)
    requires PreInv(t, r) && t.cur != 0 && t.table[t.cur].state == ZOMBIE
    ensures Schedule(t).cur != t.cur && Schedule(t).table[t.cur] == NO_TASK
  {
    hide StacksOk, HeapOk, Occupied, Reap, Pick;
    var u := Reap(t, MAX_TASK_COUNT);
    ReapKeeps(t, r, MAX_TASK_COUNT);
    ReapedTable(t, MAX_TASK_COUNT);
    assert u.table[t.cur] == NO_TASK;
    NoFallback(u, r);
    PickMeans(u.table, u.cur);
  }

  /** An exiting task is always switched away from. */
  lemma ExitSwitches(s: Kernel, r: Range, code: int)
    requires Inv(s, r) && s.cur != 0
    ensures Inv(Exit(s, code), r)
    ensures Exit(s, code).cur != s.cur && Exit(s, code).table[s.cur] == NO_TASK
  {
    var z := s.table[s.cur].(state := ZOMBIE, exitCode := code);
    SetCurrentKeeps(s, r, z);
    hide StacksOk, HeapOk, Occupied, Schedule;
    ScheduleKeeps(SetCurrent(s, z), r);
    ZombieSwitched(SetCurrent(s, z), r);
  }

  // New tasks.

  /** A new task gets a block that no other task has; if there is none, its
      slot has no stack. */
  lemma PlaceMemory(s: Kernel, r: Range, id: nat, t: Task)
    requires MemoryOk(s, r) && id < MAX_TASK_COUNT
    ensures MemoryOk(Place(s, id, t).0, r)
    ensures AllocBlock(s.heap, Round(STACK_SIZE)).Some? ==> Place(s, id, t).0.table[id].kstack != 0
  {
    var u := Place(s, id, t).0;
    AllocKeeps(s.heap, r.lo, r.hi, Round(STACK_SIZE));
    RoundAligned(STACK_SIZE);
    HeapAlloc(s.heap, r, Round(STACK_SIZE));
    if AllocBlock(s.heap, Round(STACK_SIZE)).Some? {
      assert HasStack(u.heap, u.table[id].kstack);
      forall i: nat | 1 <= i < MAX_TASK_COUNT && s.table[i].kstack != 0
        ensures HasStack(u.heap, s.table[i].kstack) && s.table[i].kstack != u.table[id].kstack
      {
        assert HasStack(s.heap, s.table[i].kstack);
        var c :| c in Live(s.heap) && c.addr + HEADER == s.table[i].kstack && c.size >= STACK_SIZE;
        assert c in Live(u.heap);
      }
    }
  }

  lemma PlaceKeeps(s: Kernel, r: Range, id: nat, t: Task)
    requires Inv(s, r) && id < MAX_TASK_COUNT && s.table[id].state == EMPTY
    requires t.state == WAITING && 0 <= t.priority <= 1
    requires AllocBlock(s.heap, Round(STACK_SIZE)).Some?
    ensures Inv(Place(s, id, t).0, r)
  {
    PlaceMemory(s, r, id, t);
    var u := Place(s, id, t).0;
    assert Occupied(u.table) == Occupied(s.table) + {id};
  }

  /** Without a stack the slot stays occupied but uncounted, and nothing the
      invariant promises about it holds. */
  lemma PlaceFails(s: Kernel, r: Range, id: nat, t: Task)
    requires Inv(s, r) && id < MAX_TASK_COUNT && s.table[id].state == EMPTY && t.state == WAITING
    requires AllocBlock(s.heap, Round(STACK_SIZE)).None?
    ensures !Inv(Place(s, id, t).0, r)
  {
    var u := Place(s, id, t).0;
    assert Occupied(u.table) == Occupied(s.table) + {id};
  }

  // Every operation.

  /** A stack can be allocated, or the call does not try. */
  predicate StackAvailable(s: Kernel)
    requires Shaped(s)
  {
    FirstEmpty(s.table, 0) == MAX_TASK_COUNT || AllocBlock(s.heap, Round(STACK_SIZE)).Some?
  }

  /** What the table needs of a call: a stack for a new task, an idle task that
      does not sleep for 20 ms or more, and no freeing of another task's stack. */
  predicate Keeps(s: Kernel, op: Op)
    requires Shaped(s)
  {
    match op
    case CreateOp(_, _) => s.count >= MAX_TASK_COUNT || StackAvailable(s)
    case ForkOp => StackAvailable(s)
    case MsleepOp(ms) => s.cur != 0 || ms < 20
    case KfreeOp(ptr) => ptr == 0 || forall i: nat | 1 <= i < MAX_TASK_COUNT :: s.table[i].kstack != ptr
    case _ => true
  }

  /** Idle forks: the slot, the count and the stack pointer go as for any fork, but
      the words that start the child are written outside its stack, because idle has
      no stack of its own to measure from (`TaskStack.IdlePushesStray`). */
  predicate StrayFork(s: Kernel, op: Op)
    requires Shaped(s)
  {
    op.ForkOp? && s.cur == 0 && FirstEmpty(s.table, 0) < MAX_TASK_COUNT
  }

  /** What a caller has to see to. */
  predicate Allowed(s: Kernel, op: Op)
    requires Shaped(s)
  {
    Keeps(s, op) && !StrayFork(s, op)
  }

  lemma KfreeKeeps(s: Kernel, r: Range, ptr: nat)
    requires Inv(s, r) && Keeps(s, KfreeOp(ptr))
    ensures Inv(Step(s, KfreeOp(ptr)), r)
  {
    if ptr >= HEADER {
      FreeKeeps(s.heap, r.lo, r.hi, ptr - HEADER);
      HeapFree(s.heap, r, ptr - HEADER);
      forall i: nat | 1 <= i < MAX_TASK_COUNT && s.table[i].kstack != 0
        ensures HasStack(Release(s.heap, ptr), s.table[i].kstack)
      {
        assert HasStack(s.heap, s.table[i].kstack);
        var b :| b in Live(s.heap) && b.addr + HEADER == s.table[i].kstack && b.size >= STACK_SIZE;
        assert b in Live(Free(s.heap, ptr - HEADER));
      }
    }
  }

  lemma KfreeBreaks(s: Kernel, r: Range, ptr: nat)
    requires Inv(s, r) && !Keeps(s, KfreeOp(ptr))
    ensures !Inv(Step(s, KfreeOp(ptr)), r)
  {
    var i: nat :| 1 <= i < MAX_TASK_COUNT && s.table[i].kstack == ptr;
    assert HasStack(s.heap, ptr);
    FreeKeeps(s.heap, r.lo, r.hi, ptr - HEADER);
    assert !HasStack(Free(s.heap, ptr - HEADER), ptr);
  }

  lemma KmallocKeeps(s: Kernel, r: Range, n: nat)
    requires Inv(s, r) && n % 8 == 0
    ensures Inv(s.(heap := Alloc(s.heap, n)), r)
  {
    AllocKeeps(s.heap, r.lo, r.hi, n);
    HeapAlloc(s.heap, r, n);
    forall i: nat | 1 <= i < MAX_TASK_COUNT && s.table[i].kstack != 0
      ensures HasStack(Alloc(s.heap, n), s.table[i].kstack)
    {
      assert HasStack(s.heap, s.table[i].kstack);
      var b :| b in Live(s.heap) && b.addr + HEADER == s.table[i].kstack && b.size >= STACK_SIZE;
      assert b in Live(Alloc(s.heap, n));
    }
  }

  lemma MsleepKeeps(s: Kernel, r: Range, ms: nat)
    requires Inv(s, r) && s.cur != 0
    ensures Inv(Msleep(s, ms), r)
  {
    if ms > 0 {
      var t := s.table[s.cur].(msleep := ms / 10, state := SLEEPING);
      SetCurrentKeeps(s, r, t);
      ScheduleKeeps(SetCurrent(s, t), r);
    }
  }

  /** Idle asleep for one tick at most is waiting again within its own pass:
      the pass goes as if it had been marked waiting. */
  lemma IdleNaps(s: Kernel, r: Range, ms: nat)
    requires Inv(s, r) && s.cur == 0 && 0 < ms < 20
    ensures Inv(Msleep(s, ms), r)
  {
    var t := SetCurrent(s, s.table[0].(msleep := ms / 10, state := SLEEPING));
    var w := SetCurrent(s, s.table[0].(msleep := 0, state := WAITING));
    SetCurrentKeeps(s, r, s.table[0].(msleep := 0, state := WAITING));
    ReapSame(t, w, MAX_TASK_COUNT);
    ScheduleKeeps(w, r);
  }

  lemma {:induction false} ReapSame(t: Kernel, w: Kernel, n: nat)
    requires Shaped(t) && t.table[0].state == SLEEPING && t.table[0].msleep <= 1
    requires w == t.(table := t.table[0 := t.table[0].(msleep := 0, state := WAITING)])
    requires 1 <= n <= MAX_TASK_COUNT
    ensures Reap(t, n) == Reap(w, n)
  {
    if n == 1 {
      assert Reap(t, 0) == t && Reap(w, 0) == w;
      assert Reap(t, 1) == ReapSlot(t, 0) && Reap(w, 1) == ReapSlot(w, 0);
    } else {
      ReapSame(t, w, n - 1);
    }
  }

  /** Idle asleep for longer stays asleep after the pass. */
  lemma IdleSleeps(s: Kernel, r: Range, ms: nat)
    requires Inv(s, r) && s.cur == 0 && ms >= 20
    ensures Shaped(Msleep(s, ms)) && Msleep(s, ms).table[0].state == SLEEPING
    ensures !Inv(Msleep(s, ms), r)
  {
    var t := SetCurrent(s, s.table[0].(msleep := ms / 10, state := SLEEPING));
    var u := Reap(t, MAX_TASK_COUNT);
    ReapedTable(t, MAX_TASK_COUNT);
    assert u.table[0].state == SLEEPING;
    assert Pick(u.table, u.cur) != Some(0) by {
      SleeperNotPicked(u.table, u.cur, 0);
    }
  }

  lemma SleeperNotPicked(table: seq<Task>, cur: nat, i: nat)
    requires |table| == MAX_TASK_COUNT && cur < MAX_TASK_COUNT && i < MAX_TASK_COUNT && table[i].state != WAITING
    ensures Pick(table, cur) != Some(i)
  {
    ScanMeans(table, cur, MaxPriority(table, MAX_TASK_COUNT), 1);
  }

  lemma KillKeeps(s: Kernel, r: Range, pid: int)
    requires Inv(s, r)
    ensures Inv(Kill(s, pid).0, r)
  {
    if 0 < pid < MAX_TASK_COUNT && s.table[pid].state != EMPTY {
      if pid == s.cur {
        ExitSwitches(s, r, -1);
      } else {
        assert Occupied(Kill(s, pid).0.table) == Occupied(s.table);
      }
    }
  }

  /** Any call keeps the invariant exactly if it meets what the table needs. */
  lemma StepKeepsExactly(s: Kernel, r: Range, op: Op)
    requires Inv(s, r)
    ensures Inv(Step(s, op), r) <==> Keeps(s, op)
  {
    match op
    case CreateOp(name, ppid) =>
      var id := FirstEmpty(s.table, 0);
      if s.count < MAX_TASK_COUNT && id < MAX_TASK_COUNT {
        var t := s.table[id].(pid := id, ppid := ppid, state := WAITING, priority := 1,
                              name := Prefix(name, MAX_TASK_NAME - 1));
        if AllocBlock(s.heap, Round(STACK_SIZE)).Some? {
          PlaceKeeps(s, r, id, t);
        } else {
          PlaceFails(s, r, id, t);
        }
      }
    case ForkOp =>
      var id, parent := FirstEmpty(s.table, 0), s.table[s.cur];
      if id < MAX_TASK_COUNT {
        var t := s.table[id].(pid := id, ppid := parent.pid, state := WAITING, priority := parent.priority,
                              name := Prefix(parent.name, MAX_TASK_NAME - 1));
        if AllocBlock(s.heap, Round(STACK_SIZE)).Some? {
          PlaceKeeps(s, r, id, t);
        } else {
          PlaceFails(s, r, id, t);
        }
      }
    case TickOp => ScheduleKeeps(s, r);
    case MsleepOp(ms) =>
      if s.cur != 0 {
        MsleepKeeps(s, r, ms);
      } else if ms >= 20 {
        IdleSleeps(s, r, ms);
      } else if ms > 0 {
        IdleNaps(s, r, ms);
      }
    case ExitOp(code) =>
      if s.cur != 0 {
        ExitSwitches(s, r, code);
      }
    case KillOp(pid) => KillKeeps(s, r, pid);
    case KmallocOp(size) =>
      RoundAligned(size);
      KmallocKeeps(s, r, Round(size));
    case KfreeOp(ptr) =>
      if Keeps(s, op) {
        KfreeKeeps(s, r, ptr);
      } else {
        KfreeBreaks(s, r, ptr);
      }
  }

  /** The stacks of all tasks but idle: one block each. */
  ghost function Stacks(table: seq<Task>): set<nat> {
    set i: nat | 1 <= i < |table| && table[i].state != EMPTY :: table[i].kstack
  }

  /** In an aligned heap stacks start on multiples of 8. */
  lemma StacksAligned(s: Kernel, r: Range)
    requires Inv(s, r)
    ensures r.lo % 8 == 0 && r.hi % 8 == 0 ==> forall k | k in Stacks(s.table) :: k % 8 == 0
  {
    if r.lo % 8 == 0 && r.hi % 8 == 0 {
      AlignedAddresses(s.heap, r.lo, r.hi);
      forall i: nat | 1 <= i < |s.table| && s.table[i].state != EMPTY
        ensures s.table[i].kstack % 8 == 0
      {
        var b :| b in Live(s.heap) && b.addr + HEADER == s.table[i].kstack;
        assert b in s.heap;
      }
    }
  }

  lemma StackCount(s: Kernel, r: Range)
    requires Inv(s, r)
    ensures |Stacks(s.table)| == s.count - 1
    ensures forall k | k in Stacks(s.table) :: HasStack(s.heap, k)
    ensures r.lo % 8 == 0 && r.hi % 8 == 0 ==> forall k | k in Stacks(s.table) :: k % 8 == 0
  {
    StacksAligned(s, r);
    ImageSize(s.table, Occupied(s.table) - {0});
    assert Stacks(s.table) == set i | i in Occupied(s.table) - {0} :: s.table[i].kstack;
    assert 0 in Occupied(s.table);
  }

  lemma {:induction false} ImageSize(table: seq<Task>, slots: set<nat>)
    requires forall i | i in slots :: i < |table|
    requires forall i, j | i in slots && j in slots && i != j :: table[i].kstack != table[j].kstack
    ensures |set i | i in slots :: table[i].kstack| == |slots|
  {
    var image := set i | i in slots :: table[i].kstack;
    if slots == {} {
      assert image == {};
    } else {
      var i :| i in slots;
      var rest := set j | j in slots - {i} :: table[j].kstack;
      ImageSize(table, slots - {i});
      assert image == rest + {table[i].kstack};
      assert table[i].kstack !in rest;
    }
  }
}
