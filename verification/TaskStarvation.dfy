/** Which tasks the bound on waiting covers: those of priority 1 and no others. A fork
    by idle (kernel/sched/task.c:96) makes a child of priority 0, and two tasks that
    never sleep keep such a child from running for ever. */
module TaskStarvation {
  import opened HeapList
  import opened TaskInvariant
  import opened TaskModel
  import opened TaskRuns

  /** An ordinary task that runs or is ready to. */
  predicate Busy(s: Kernel, a: nat)
    requires Shaped(s)
  {
    && a < MAX_TASK_COUNT && s.table[a].priority == 1
    && (s.table[a].state == WAITING || (s.table[a].state == RUNNING && s.cur == a))
  }

  /** `t` waits or sleeps with priority 0 beside two busy ordinary tasks. */
  predicate Starving(s: Kernel, t: nat, a: nat, b: nat) {
    && Shaped(s) && t < MAX_TASK_COUNT && t != s.cur && a != b
    && (s.table[t].state == WAITING || s.table[t].state == SLEEPING) && s.table[t].priority == 0
    && Busy(s, a) && Busy(s, b)
    && forall i: nat | i < MAX_TASK_COUNT :: s.table[i].priority >= 0
  }

  /** A pass runs one of the others. */
  lemma PassStarves(s: Kernel, t: nat, a: nat, b: nat)
    requires Starving(s, t, a, b)
    ensures Starving(Schedule(s), t, a, b)
  {
    hide Reap, Dispatch;
    var u := Reap(s, MAX_TASK_COUNT);
    ReapedTable(s, MAX_TASK_COUNT);
    assert forall i: nat | i < MAX_TASK_COUNT :: u.table[i] == ReapedTask(i, s.table[i]);
    assert u.table[a] == s.table[a] && u.table[b] == s.table[b] && u.table[t] == ReapedTask(t, s.table[t]);
    DispatchStarves(u, t, a, b);
  }

  lemma DispatchStarves(u: Kernel, t: nat, a: nat, b: nat)
    requires Starving(u, t, a, b)
    ensures Starving(Dispatch(u), t, a, b)
  {
    hide Pick, Distance;
    PickMeans(u.table, u.cur);
  }

  function Ticks(n: nat): (ops: seq<Op>)
    ensures |ops| == n && forall op | op in ops :: op == TickOp
  {
    if n == 0 then [] else [TickOp] + Ticks(n - 1)
  }

  /** What one more call at the front of a run adds. */
  lemma RunStep(s: Kernel, op: Op, ops: seq<Op>, t: nat)
    requires Shaped(s)
    ensures Shaped(Step(s, op))
    ensures AllowedRun(s, [op] + ops) <==> Allowed(s, op) && AllowedRun(Step(s, op), ops)
    ensures Passes(s, [op] + ops) == (if IsPass(s, op) then 1 else 0) + Passes(Step(s, op), ops)
    ensures Reaches(s, [op] + ops, t) <==> s.cur == t || Reaches(Step(s, op), ops, t)
  {
    hide Step, Allowed, IsPass;
    StepShaped(s, op);
    assert ([op] + ops)[1..] == ops;
  }

  /** However many ticks follow, `t` never becomes current. */
  lemma {:induction false} TicksStarve(s: Kernel, n: nat, t: nat, a: nat, b: nat)
    requires Starving(s, t, a, b)
    ensures AllowedRun(s, Ticks(n)) && Passes(s, Ticks(n)) == n && !Reaches(s, Ticks(n), t)
    decreases n
  {
    hide Schedule, Busy, AllowedRun, Passes, Reaches;
    if n == 0 {
      NoCalls(s, t);
    } else {
      PassStarves(s, t, a, b);
      RunStep(s, TickOp, Ticks(n - 1), t);
      TicksStarve(Step(s, TickOp), n - 1, t, a, b);
    }
  }

  lemma NoCalls(s: Kernel, t: nat)
    requires Shaped(s)
    ensures AllowedRun(s, []) && Passes(s, []) == 0 && (Reaches(s, [], t) <==> s.cur == t)
  {
  }

  lemma {:induction false} FullTable(table: seq<Task>, i: nat)
    requires i <= |table| && FirstEmpty(table, i) == |table|
    ensures forall j | i <= j < |table| :: table[j].state != EMPTY
    decreases |table| - i
  {
    if i < |table| {
      FullTable(table, i + 1);
    }
  }

  function UpTo(n: nat): (all: set<nat>)
    ensures |all| == n && forall i: nat :: i in all <==> i < n
  {
    if n == 0 then {} else UpTo(n - 1) + {n - 1}
  }

  lemma FullCount(table: seq<Task>)
    requires FirstEmpty(table, 0) == |table|
    ensures |Occupied(table)| == |table|
  {
    FullTable(table, 0);
    assert Occupied(table) == UpTo(|table|);
  }

  /** Fewer tasks than slots leave an empty slot. */
  lemma EmptySlot(s: Kernel, r: Range)
    requires Inv(s, r) && s.count < MAX_TASK_COUNT
    ensures FirstEmpty(s.table, 0) < MAX_TASK_COUNT
  {
    hide HeapOk, StacksOk, Occupied;
    if FirstEmpty(s.table, 0) == MAX_TASK_COUNT {
      FullCount(s.table);
    }
  }

  /** Room for `n` more stacks in the heap. */
  predicate StackRoom(heap: seq<Block>, n: nat)
    decreases n
  {
    n == 0 || (AllocBlock(heap, Round(STACK_SIZE)).Some? && StackRoom(Alloc(heap, Round(STACK_SIZE)), n - 1))
  }

  /** A new task, when there is a slot and a stack for it. */
  lemma Placed(s: Kernel, r: Range, op: Op, n: nat)
    requires Inv(s, r) && s.count < MAX_TASK_COUNT && (op.ForkOp? || op.CreateOp?)
    requires n > 0 && StackRoom(s.heap, n)
    ensures Keeps(s, op) && Inv(Step(s, op), r) && !IsPass(s, op)
    ensures FirstEmpty(s.table, 0) < MAX_TASK_COUNT && s.table[FirstEmpty(s.table, 0)].state == EMPTY
    ensures var s', id := Step(s, op), FirstEmpty(s.table, 0);
      && s'.cur == s.cur && s'.count == s.count + 1 && StackRoom(s'.heap, n - 1)
      && s'.table == s.table[id := s'.table[id]] && s'.table[id].state == WAITING
      && s'.table[id].priority == if op.ForkOp? then s.table[s.cur].priority else 1
  {
    EmptySlot(s, r);
    StepKeepsExactly(s, r, op);
    hide Inv, Alloc, AllocBlock, Round;
  }

  /** Two new tasks, and then nothing but ticks. */
  function BusyRun(one: string, two: string, n: nat): seq<Op> {
    [CreateOp(one, 0)] + ([CreateOp(two, 0)] + Ticks(n))
  }

  /** A waiting or sleeping task of priority 0 starves beside two new tasks: in an
      allowed run of any number of passes it does not become current. */
  lemma IdlePriorityStarves(s: Kernel, r: Range, t: nat, one: string, two: string, n: nat)
    requires Inv(s, r) && 0 < t < MAX_TASK_COUNT && t != s.cur && s.table[t].priority == 0
    requires s.table[t].state == WAITING || s.table[t].state == SLEEPING
    requires s.count + 2 <= MAX_TASK_COUNT && StackRoom(s.heap, 2)
    ensures AllowedRun(s, BusyRun(one, two, n)) && KillOp(t) !in BusyRun(one, two, n)
    ensures Passes(s, BusyRun(one, two, n)) == n && !Reaches(s, BusyRun(one, two, n), t)
  {
    hide Step, HeapOk, StacksOk, Occupied, StackRoom, AllowedRun, Passes, Reaches, FirstEmpty;
    Placed(s, r, CreateOp(one, 0), 2);
    var s1 := Step(s, CreateOp(one, 0));
    Placed(s1, r, CreateOp(two, 0), 1);
    var s2 := Step(s1, CreateOp(two, 0));
    PrioritiesOk(s2, r);
    TicksStarve(s2, n, t, FirstEmpty(s.table, 0), FirstEmpty(s1.table, 0));
    RunStep(s1, CreateOp(two, 0), Ticks(n), t);
    RunStep(s, CreateOp(one, 0), [CreateOp(two, 0)] + Ticks(n), t);
  }

  lemma PrioritiesOk(s: Kernel, r: Range)
    requires Inv(s, r)
    ensures Shaped(s) && forall i: nat | i < MAX_TASK_COUNT :: s.table[i].priority >= 0
  {
  }

  /** Waiting is bounded exactly for priority 1: with room for two more tasks, a task
      that waits or sleeps becomes current in every allowed run with as many passes as
      its bound that does not kill it, if and only if its priority is 1. */
  lemma BoundedExactly(s: Kernel, r: Range, t: nat)
    requires Inv(s, r) && 0 < t < MAX_TASK_COUNT && t != s.cur
    requires s.table[t].state == WAITING || s.table[t].state == SLEEPING
    requires s.count + 2 <= MAX_TASK_COUNT && StackRoom(s.heap, 2)
    ensures (forall ops | AllowedRun(s, ops) && KillOp(t) !in ops && Passes(s, ops) >= Bound(s, t)
               :: Reaches(s, ops, t))
            <==> s.table[t].priority == 1
  {
    hide HeapOk, StacksOk, Occupied, StackRoom, AllowedRun, KeptRun, Passes, Reaches, Bound, BusyRun;
    if s.table[t].priority == 1 {
      forall ops | AllowedRun(s, ops) && KillOp(t) !in ops && Passes(s, ops) >= Bound(s, t)
        ensures Reaches(s, ops, t)
      {
        AllowedIsKept(s, ops);
        PendingRuns(s, r, ops, t);
      }
    } else {
      PriorityZero(s, r, t);
      IdlePriorityStarves(s, r, t, "", "", Bound(s, t));
    }
  }

  lemma PriorityZero(s: Kernel, r: Range, t: nat)
    requires Inv(s, r) && t < MAX_TASK_COUNT && s.table[t].priority != 1
    ensures s.table[t].priority == 0
  {
  }

  /** The child of a fork by idle is such a task, wherever idle forks with room for
      three tasks: however many passes follow, it need never run. */
  lemma IdleForkStarves(s: Kernel, r: Range, one: string, two: string, n: nat)
    requires Inv(s, r) && s.cur == 0 && s.count + 3 <= MAX_TASK_COUNT && StackRoom(s.heap, 3)
    ensures Keeps(s, ForkOp) && Shaped(Step(s, ForkOp))
    ensures var u, t := Step(s, ForkOp), FirstEmpty(s.table, 0);
      && 0 < t < MAX_TASK_COUNT && u.table[t].state == WAITING && u.table[t].priority == 0
      && AllowedRun(u, BusyRun(one, two, n)) && KillOp(t) !in BusyRun(one, two, n)
      && Passes(u, BusyRun(one, two, n)) == n && !Reaches(u, BusyRun(one, two, n), t)
  {
    hide Step, StackRoom, AllowedRun, Passes, Reaches, BusyRun, HeapOk, StacksOk, FirstEmpty;
    Placed(s, r, ForkOp, 3);
    IdlePriorityStarves(Step(s, ForkOp), r, FirstEmpty(s.table, 0), one, two, n);
  }

  /** At start-up a heap of one free block of 16 KiB has that room. */
  lemma StartUpRoom(lo: nat, size: nat)
    requires size >= 0x4000
    ensures var s, r := Initial([Block(lo, size, true)]), Range(lo, lo + HEADER + size);
      Inv(s, r) && s.cur == 0 && s.count == 1 && StackRoom(s.heap, 3)
  {
    var h0 := [Block(lo, size, true)];
    var n := Round(STACK_SIZE);
    InitialInv(h0, Range(lo, lo + HEADER + size));
    assert n == 4096;
    var x, y := Block(lo, n, false), Block(lo + HEADER + n, size - n - HEADER, true);
    var z, w := Block(y.addr, n, false), Block(y.addr + HEADER + n, y.size - n - HEADER, true);
    assert Alloc(h0, n) == [x, y];
    assert [x, y][1..] == [y] && [y][1..] == [] && Alloc([y], n) == [z, w];
    assert Alloc([x, y], n) == [x, z, w];
    assert [x, z, w][1..] == [z, w] && [z, w][1..] == [w];
    assert AllocBlock([w], n).Some? && AllocBlock([z, w], n).Some?;
    RoomStep([x, z, w], 1);
    RoomStep([x, y], 2);
    RoomStep(h0, 3);
  }

  lemma RoomStep(heap: seq<Block>, n: nat)
    requires n > 0 && AllocBlock(heap, Round(STACK_SIZE)).Some?
    requires StackRoom(Alloc(heap, Round(STACK_SIZE)), n - 1)
    ensures StackRoom(heap, n)
  {
  }
}
