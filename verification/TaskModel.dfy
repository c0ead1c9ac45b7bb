/** The scheduler on values (kernel/sched/task.c and kernel/IRQ/timer.c): each
    kernel call is one step on the task table, the counters and the heap. */
module TaskModel {
  import opened HeapList
  import opened Machine

  const MAX_TASK_COUNT: nat := 128
  const MAX_TASK_NAME: nat := 32
  const STACK_SIZE: nat := 4096

  const ESRCH: int := 3
  const ENOMEM: int := 12
  const EACCES: int := 13

  datatype TaskState = EMPTY | RUNNING | WAITING | BLOCKED | SLEEPING | ZOMBIE

  datatype Task = Task(pid: int, ppid: int, name: string, state: TaskState, priority: int,
                       exitCode: int, kstack: nat, msleep: nat)

  /** A zeroed slot. */
  const NO_TASK: Task := Task(0, 0, "", EMPTY, 0, 0, 0, 0)

  /** The scheduler's globals, with the heap that holds the kernel stacks. */
  datatype Kernel = Kernel(table: seq<Task>, count: int, cur: nat, heap: seq<Block>)

  predicate Shaped(s: Kernel) {
    |s.table| == MAX_TASK_COUNT && s.cur < MAX_TASK_COUNT
  }

  /** The first empty slot at or after `i`, or MAX_TASK_COUNT. */
  function FirstEmpty(table: seq<Task>, i: nat): (id: nat)
    requires i <= |table|
    ensures i <= id <= |table|
    ensures id < |table| ==> table[id].state == EMPTY
    decreases |table| - i
  {
    if i == |table| || table[i].state == EMPTY then i else FirstEmpty(table, i + 1)
  }

  function Prefix(name: string, n: nat): string {
    if |name| <= n then name else name[..n]
  }

  /** A new task in slot `id`, with a stack from the heap. If the heap is full
      the slot stays behind, waiting, without a stack and uncounted. */
  function Place(s: Kernel, id: nat, t: Task): (Kernel, int)
    requires Shaped(s) && id < MAX_TASK_COUNT
  {
    match AllocBlock(s.heap, Round(STACK_SIZE))
    case None => (s.(table := s.table[id := t.(kstack := 0)]), -ENOMEM)
    case Some(b) =>
      (s.(table := s.table[id := t.(kstack := b.addr + HEADER)], count := s.count + 1,
          heap := Alloc(s.heap, Round(STACK_SIZE))), id)
  }

  function Create(s: Kernel, name: string, ppid: int): (Kernel, int)
    requires Shaped(s)
  {
    var id := FirstEmpty(s.table, 0);
    if s.count >= MAX_TASK_COUNT || id == MAX_TASK_COUNT then (s, -1)
    else Place(s, id, s.table[id].(pid := id, ppid := ppid, state := WAITING, priority := 1,
                                   name := Prefix(name, MAX_TASK_NAME - 1)))
  }

  function Fork(s: Kernel): (Kernel, int)
    requires Shaped(s)
  {
    var id, parent := FirstEmpty(s.table, 0), s.table[s.cur];
    if id == MAX_TASK_COUNT then (s, -1)
    else Place(s, id, s.table[id].(pid := id, ppid := parent.pid, state := WAITING, priority := parent.priority,
                                   name := Prefix(parent.name, MAX_TASK_NAME - 1)))
  }

  /** kfree: null, and anything too low to have a header in front, is ignored. */
  function Release(heap: seq<Block>, ptr: nat): seq<Block> {
    if ptr < HEADER then heap else Free(heap, ptr - HEADER)
  }

  // One scheduling pass.

  /** What the first loop of a pass makes of slot `i`. */
  function ReapedTask(i: nat, t: Task): Task {
    if i > 0 && t.state == ZOMBIE then NO_TASK
    else if t.state == SLEEPING then
      var m := if t.msleep > 0 then t.msleep - 1 else 0;
      t.(msleep := m, state := if m == 0 then WAITING else SLEEPING)
    else t
  }

  function ReapSlot(s: Kernel, i: nat): Kernel
    requires Shaped(s) && i < MAX_TASK_COUNT
  {
    var t := s.table[i];
    var r := s.(table := s.table[i := ReapedTask(i, t)]);
    if i > 0 && t.state == ZOMBIE
    then r.(count := s.count - 1, heap := Release(s.heap, t.kstack))
    else r
  }

  /** The first loop of a pass, over the first `n` slots. */
  function Reap(s: Kernel, n: nat): (r: Kernel)
    requires Shaped(s) && n <= MAX_TASK_COUNT
    ensures Shaped(r) && r.cur == s.cur
  {
    if n == 0 then s else ReapSlot(Reap(s, n - 1), n - 1)
  }

  /** The highest priority of a waiting task among the first `n` slots, or -1. */
  function MaxPriority(table: seq<Task>, n: nat): int
    requires n <= |table|
  {
    if n == 0 then -1
    else
      var m, t := MaxPriority(table, n - 1), table[n - 1];
      if t.state == WAITING && t.priority > m then t.priority else m
  }

  /** The slot reached after `i` steps around the table from `cur`. */
  function Around(cur: nat, i: nat): (idx: nat)
    ensures idx < MAX_TASK_COUNT
  {
    (cur + i) % MAX_TASK_COUNT
  }

  predicate Ready(table: seq<Task>, idx: nat, priority: int)
    requires idx < |table|
  {
    table[idx].state == WAITING && table[idx].priority == priority
  }

  /** The first ready slot from step `i` on around the table, if any. */
  function ScanFrom(table: seq<Task>, cur: nat, priority: int, i: nat): (r: Option<nat>)
    requires |table| == MAX_TASK_COUNT
    ensures r.Some? ==> r.value < MAX_TASK_COUNT
    decreases MAX_TASK_COUNT + 1 - i
  {
    if i > MAX_TASK_COUNT then None
    else if Ready(table, Around(cur, i), priority) then Some(Around(cur, i))
    else ScanFrom(table, cur, priority, i + 1)
  }

  function Pick(table: seq<Task>, cur: nat): (r: Option<nat>)
    requires |table| == MAX_TASK_COUNT
    ensures r.Some? ==> r.value < MAX_TASK_COUNT
  {
    var m := MaxPriority(table, MAX_TASK_COUNT);
    if m == -1 then None else ScanFrom(table, cur, m, 1)
  }

  function SwitchTo(s: Kernel, next: nat): Kernel
    requires Shaped(s) && next < MAX_TASK_COUNT
  {
    if next == s.cur then s
    else
      var prev := s.table[s.cur];
      var t := if prev.state == RUNNING then s.table[s.cur := prev.(state := WAITING)] else s.table;
      s.(table := t[next := t[next].(state := RUNNING)], cur := next)
  }

  /** The second half of a pass: choose the next task and switch to it. */
  function Dispatch(s: Kernel): Kernel
    requires Shaped(s)
  {
    match Pick(s.table, s.cur)
    case None => if s.table[s.cur].state == RUNNING then s else SwitchTo(s, 0)
    case Some(next) => SwitchTo(s, next)
  }

  function Schedule(s: Kernel): Kernel
    requires Shaped(s)
  {
    Dispatch(Reap(s, MAX_TASK_COUNT))
  }

  function SetCurrent(s: Kernel, t: Task): Kernel
    requires Shaped(s)
  {
    s.(table := s.table[s.cur := t])
  }

  function Msleep(s: Kernel, ms: nat): Kernel
    requires Shaped(s)
  {
    if ms == 0 then s
    else Schedule(SetCurrent(s, s.table[s.cur].(msleep := ms / 10, state := SLEEPING)))
  }

  /** The idle task cannot exit; any other task is marked and switched away from. */
  function Exit(s: Kernel, code: int): Kernel
    requires Shaped(s)
  {
    if s.cur == 0 then s
    else Schedule(SetCurrent(s, s.table[s.cur].(state := ZOMBIE, exitCode := code)))
  }

  function Kill(s: Kernel, pid: int): (Kernel, int)
    requires Shaped(s)
  {
    if pid <= 0 || pid >= MAX_TASK_COUNT then (s, -EACCES)
    else if s.table[pid].state == EMPTY then (s, -ESRCH)
    else if pid == s.cur then (Exit(s, -1), 0)
    else (s.(table := s.table[pid := s.table[pid].(state := ZOMBIE, exitCode := -1)]), 0)
  }

  function FirstTask(i: nat): Task {
    if i == 0 then NO_TASK.(state := RUNNING, name := "kernel_idle") else NO_TASK
  }

  /** The state that sched_init leaves. */
  function Initial(heap: seq<Block>): (s: Kernel)
    ensures Shaped(s) && forall i: nat | i < MAX_TASK_COUNT :: s.table[i] == FirstTask(i)
  {
    Kernel(seq(MAX_TASK_COUNT, (i: nat) => FirstTask(i)), 1, 0, heap)
  }

  // Runs.

  /** Everything that can happen to the scheduler and its heap: its own calls,
      timer ticks, and allocations by the rest of the kernel. */
  datatype Op =
    | CreateOp(name: string, ppid: int)
    | ForkOp
    | TickOp
    | MsleepOp(ms: nat)
    | ExitOp(code: int)
    | KillOp(pid: int)
    | KmallocOp(size: nat)
    | KfreeOp(ptr: nat)

  function Step(s: Kernel, op: Op): Kernel
    requires Shaped(s)
  {
    match op
    case CreateOp(name, ppid) => Create(s, name, ppid).0
    case ForkOp => Fork(s).0
    case TickOp => Schedule(s)
    case MsleepOp(ms) => Msleep(s, ms)
    case ExitOp(code) => Exit(s, code)
    case KillOp(pid) => Kill(s, pid).0
    case KmallocOp(size) => s.(heap := Alloc(s.heap, Round(size)))
    case KfreeOp(ptr) => s.(heap := Release(s.heap, ptr))
  }
}
