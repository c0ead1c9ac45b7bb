/** The scheduler (kernel/sched/task.c and kernel/IRQ/timer.c): the task table
    and its counters, updated in place, with kernel stacks from the heap.
    A context switch is a change of the current slot. */
module TaskTable {
  import opened Heap
  import opened HeapLinks
  import opened HeapList
  import opened TaskInvariant
  import opened TaskModel

  class Scheduler {
    const table: array<Task>
    var taskCount: int
    var currentPid: int
    var started: bool
    const heap: KernelHeap

    ghost predicate Valid()
      reads this, table, heap
    {
      && table.Length == MAX_TASK_COUNT
      && heap.Valid() && heap.start != 0
      && 0 <= currentPid < MAX_TASK_COUNT
      && MemoryOk(State(), HeapRange())
    }

    ghost function State(): Kernel
      requires 0 <= currentPid
      reads this, table, heap
    {
      Kernel(table[..], taskCount, currentPid, heap.blocks)
    }

    ghost function HeapRange(): Range
      reads heap
    {
      Range(heap.start, heap.end)
    }

    constructor (heap: KernelHeap)
      ensures this.heap == heap && fresh(table) && table.Length == MAX_TASK_COUNT
      ensures !started && currentPid == -1 && taskCount == 0
    {
      table := new Task[MAX_TASK_COUNT](_ => NO_TASK);
      taskCount := 0;
      currentPid := -1;
      started := false;
      this.heap := heap;
    }

    method Init()
      requires table.Length == MAX_TASK_COUNT && heap.Valid() && heap.start != 0
      modifies this, table
      ensures Valid() && started && State() == Initial(heap.blocks) && Inv(State(), HeapRange())
      ensures taskCount == 1 && currentPid == 0 && table[0] == Task(0, 0, "kernel_idle", RUNNING, 0, 0, 0, 0)
      ensures forall i | 1 <= i < MAX_TASK_COUNT :: table[i] == NO_TASK
    {
      hide Tiles, Merged, Links;
      for i := 0 to MAX_TASK_COUNT
        invariant forall j | 0 <= j < i :: table[j] == NO_TASK
      {
        table[i] := NO_TASK;
      }
      table[0] := table[0].(pid := 0, state := RUNNING, name := Prefix("kernel_idle", MAX_TASK_NAME),
                                priority := 0, kstack := 0);
      currentPid := 0;
      taskCount := 1;
      started := true;
      assert State() == Initial(heap.blocks);
      InitialInv(heap.blocks, HeapRange());
      InvMemory(State(), HeapRange());
    }

    method FindEmpty() returns (id: int)
      requires Valid()
      ensures id == if FirstEmpty(table[..], 0) == MAX_TASK_COUNT then -1 else FirstEmpty(table[..], 0)
    {
      id := -1;
      for i := 0 to MAX_TASK_COUNT
        invariant id == -1 && FirstEmpty(table[..], 0) == FirstEmpty(table[..], i)
      {
        if table[i].state == EMPTY {
          id := i;
          break;
        }
      }
    }

    method CreateTask(name: string, ppid: int) returns (r: int)
      requires Valid()
      modifies this`taskCount, table, heap
      ensures Valid() && heap.start == old(heap.start) && heap.end == old(heap.end)
      ensures (State(), r) == Create(old(State()), name, ppid)
    {
      hide Links, Alloc, AllocBlock, Round, Merged, Tiles, MemoryOk;
      if taskCount >= MAX_TASK_COUNT {
        return -1;
      }
      var id := FindEmpty();
      if id == -1 {
        return -1;
      }
      ghost var s := State();
      table[id] := table[id].(pid := id, ppid := ppid);
      table[id] := table[id].(state := WAITING, priority := 1, name := Prefix(name, MAX_TASK_NAME - 1));
      PlaceOver(s, id, table[id]);
      SameStacks(s, State(), HeapRange());
      assert State() == s.(table := s.table[id := table[id]]);
      r := AttachStack(id);
    }

    /** Allocate the stack of the new task in slot `id` and count the task. */
    method AttachStack(id: nat) returns (r: int)
      requires Valid() && id < MAX_TASK_COUNT
      modifies this`taskCount, table, heap
      ensures Valid() && heap.start == old(heap.start) && heap.end == old(heap.end)
      ensures (State(), r) == Place(old(State()), id, old(table[id]))
    {
      hide Links, Alloc, AllocBlock, Round, Merged, Tiles, MemoryOk;
      ghost var s := State();
      PlaceMemory(s, HeapRange(), id, table[id]);
      AllocKeeps(heap.blocks, heap.start, heap.end, Round(STACK_SIZE));
      var stack := heap.Kmalloc(STACK_SIZE);
      table[id] := table[id].(kstack := stack);
      assert table[..] == s.table[id := s.table[id].(kstack := stack)];
      if stack == 0 {
        return -ENOMEM;
      }
      taskCount := taskCount + 1;
      return id;
    }

    method TaskFork() returns (r: int)
      requires Valid()
      modifies this`taskCount, table, heap
      ensures Valid() && heap.start == old(heap.start) && heap.end == old(heap.end)
      ensures (State(), r) == Fork(old(State()))
    {
      hide Links, Alloc, AllocBlock, Round, Merged, Tiles, MemoryOk;
      var id := FindEmpty();
      if id == -1 {
        return -1;
      }
      var parent := table[currentPid];
      ghost var s := State();
      table[id] := table[id].(pid := id, ppid := parent.pid);
      table[id] := table[id].(state := WAITING, priority := parent.priority,
                              name := Prefix(parent.name, MAX_TASK_NAME - 1));
      PlaceOver(s, id, table[id]);
      SameStacks(s, State(), HeapRange());
      assert State() == s.(table := s.table[id := table[id]]);
      r := AttachStack(id);
    }

    /** The first loop of a pass: reap zombies, count down sleepers. */
    method ReapAll()
      requires Valid()
      modifies this`taskCount, table, heap
      ensures Valid() && heap.start == old(heap.start) && heap.end == old(heap.end)
      ensures State() == Reap(old(State()), MAX_TASK_COUNT)
    {
      hide Links, Merged, Tiles, MemoryOk, ReapedTask;
      ghost var s := State();
      for i := 0 to MAX_TASK_COUNT
        invariant Valid() && heap.start == old(heap.start) && heap.end == old(heap.end)
        invariant State() == Reap(s, i)
      {
        ReapOne(i);
      }
    }

    method ReapOne(i: nat)
      requires Valid() && i < MAX_TASK_COUNT
      modifies this`taskCount, table, heap
      ensures Valid() && heap.start == old(heap.start) && heap.end == old(heap.end)
      ensures State() == ReapSlot(old(State()), i)
    {
      hide Links, Merged, Tiles, Free, MemoryOk;
      ReapMemory(State(), HeapRange(), i);
      if i > 0 && table[i].state == ZOMBIE {
        if table[i].kstack != 0 {
          heap.Kfree(table[i].kstack);
        }
        table[i] := NO_TASK;
        table[i] := table[i].(state := EMPTY);
        taskCount := taskCount - 1;
        assert table[..] == old(table[..])[i := NO_TASK];
        return;
      }
      if table[i].state == SLEEPING {
        if table[i].msleep > 0 {
          table[i] := table[i].(msleep := table[i].msleep - 1);
        }
        if table[i].msleep == 0 {
          table[i] := table[i].(state := WAITING);
        }
      }
      assert table[..] == old(table[..])[i := ReapedTask(i, old(table[i]))];
    }

    /** Choose the next task: a waiting one of the highest priority, the nearest
        one around the table; -1 if none waits. */
    method PickNext() returns (next: int)
      requires Valid()
      ensures next == match Pick(table[..], currentPid) case None => -1 case Some(p) => p
    {
      hide Tiles, Merged, Links;
      next := -1;
      var maxPriority := -1;
      for i := 0 to MAX_TASK_COUNT
        invariant maxPriority == MaxPriority(table[..], i)
      {
        if table[i].state == WAITING {
          if table[i].priority > maxPriority {
            maxPriority := table[i].priority;
          }
        }
      }
      if maxPriority != -1 {
        for i := 1 to MAX_TASK_COUNT + 1
          invariant next == -1
          invariant ScanFrom(table[..], currentPid, maxPriority, 1) == ScanFrom(table[..], currentPid, maxPriority, i)
        {
          var idx := (currentPid + i) % MAX_TASK_COUNT;
          if table[idx].state == WAITING && table[idx].priority == maxPriority {
            next := idx;
            break;
          }
        }
      }
    }

    method Schedule()
      requires started ==> Valid()
      modifies this`taskCount, this`currentPid, table, heap
      ensures !started ==> unchanged(this) && unchanged(table) && unchanged(heap)
      ensures started ==> Valid() && heap.start == old(heap.start) && heap.end == old(heap.end)
      ensures started ==> old(currentPid) >= 0 && State() == TaskModel.Schedule(old(State()))
    {
      hide Tiles, Merged, Links, MemoryOk, Reap, Pick;
      if !started {
        return;
      }
      Pass();
    }

    /** A pass, once the scheduler has been started. */
    method Pass()
      requires Valid()
      modifies this`taskCount, this`currentPid, table, heap
      ensures Valid() && heap.start == old(heap.start) && heap.end == old(heap.end)
      ensures State() == TaskModel.Schedule(old(State()))
    {
      hide Tiles, Merged, Links, MemoryOk, Reap, Pick;
      ScheduleMemory(State(), HeapRange());
      ReapAll();
      var next := PickNext();
      if next == -1 {
        if table[currentPid].state == RUNNING {
          return;
        }
        next := 0;
      }
      if next == currentPid {
        return;
      }
      if table[currentPid].state == RUNNING {
        table[currentPid] := table[currentPid].(state := WAITING);
      }
      table[next] := table[next].(state := RUNNING);
      currentPid := next;
    }

    method Msleep(ms: nat)
      requires Valid() && started
      modifies this`taskCount, this`currentPid, table, heap
      ensures Valid() && heap.start == old(heap.start) && heap.end == old(heap.end)
      ensures State() == TaskModel.Msleep(old(State()), ms)
    {
      hide Tiles, Merged, Links, MemoryOk, TaskModel.Schedule;
      if ms == 0 {
        return;
      }
      ghost var s := State();
      ghost var t := s.table[s.cur].(msleep := ms / 10, state := SLEEPING);
      SameStacks(s, SetCurrent(s, t), HeapRange());
      table[currentPid] := table[currentPid].(msleep := ms / 10);
      table[currentPid] := table[currentPid].(state := SLEEPING);
      assert State() == SetCurrent(s, t);
      Schedule();
    }

    /** If the invariant holds, the endless loop after the pass is never entered:
        another slot is current. */
    method ExitTask(code: int) returns (r: int)
      requires Valid() && started
      modifies this`taskCount, this`currentPid, table, heap
      ensures Valid() && heap.start == old(heap.start) && heap.end == old(heap.end)
      ensures State() == Exit(old(State()), code)
      ensures old(currentPid) == 0 ==> r == -EACCES
      ensures old(currentPid) != 0 && old(Inv(State(), HeapRange())) ==> currentPid != old(currentPid)
    {
      hide Tiles, Merged, Links, MemoryOk, Inv, TaskModel.Schedule;
      if currentPid == 0 {
        return -EACCES;
      }
      ghost var s := State();
      ghost var t := s.table[s.cur].(state := ZOMBIE, exitCode := code);
      SameStacks(s, SetCurrent(s, t), HeapRange());
      if Inv(s, HeapRange()) {
        ExitSwitches(s, HeapRange(), code);
      }
      table[currentPid] := table[currentPid].(state := ZOMBIE);
      table[currentPid] := table[currentPid].(exitCode := code);
      assert State() == SetCurrent(s, t);
      Schedule();
      return 0;
    }

    method KillTask(pid: int) returns (r: int)
      requires Valid() && started
      modifies this`taskCount, this`currentPid, table, heap
      ensures Valid() && heap.start == old(heap.start) && heap.end == old(heap.end)
      ensures (State(), r) == Kill(old(State()), pid)
    {
      hide Tiles, Merged, Links, MemoryOk, Exit;
      if pid <= 0 || pid >= MAX_TASK_COUNT {
        return -EACCES;
      }
      if table[pid].state == EMPTY {
        return -ESRCH;
      }
      if pid == currentPid {
        r := ExitTask(-1);
        return 0;
      }
      ghost var s := State();
      SameStacks(s, Kill(s, pid).0, HeapRange());
      table[pid] := table[pid].(state := ZOMBIE);
      table[pid] := table[pid].(exitCode := -1);
      assert table[..] == s.table[pid := s.table[pid].(state := ZOMBIE, exitCode := -1)];
      return 0;
    }
  }

  /** Filling in a slot before the stack is attached makes no difference. */
  lemma PlaceOver(s: Kernel, id: nat, t: Task)
    requires Shaped(s) && id < MAX_TASK_COUNT
    ensures Place(s.(table := s.table[id := t]), id, t) == Place(s, id, t)
  {
    var k := match AllocBlock(s.heap, Round(STACK_SIZE)) case None => 0 case Some(b) => b.addr + HEADER;
    assert s.table[id := t][id := t.(kstack := k)] == s.table[id := t.(kstack := k)];
  }
}
