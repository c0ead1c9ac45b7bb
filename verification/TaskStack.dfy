/** Where a fork writes the seven words that start the child
    (kernel/sched/task.c:105-118): at the parent's stack pointer, moved by the distance
    of the two stacks, in 64-bit arithmetic. */
module TaskStack {
  import opened HeapList
  import opened Machine
  import opened TaskInvariant
  import opened TaskModel

  const PUSHES: nat := 7

  /** The address of push `k` for a parent with stack pointer `rsp`. */
  function PushAddr(rsp: nat, parent: nat, child: nat, k: nat): (a: nat)
    ensures a < TWO64
  {
    (rsp + child - parent - 8 * (k + 1)) % TWO64
  }

  /** The eight bytes at `a` lie in the stack at `stack`. */
  predicate WordIn(a: nat, stack: nat) {
    stack <= a && a + 8 <= stack + STACK_SIZE
  }

  /** How far above the start of the parent's stack the stack pointer is. */
  function Depth(rsp: nat, parent: nat): (d: nat)
    ensures d < TWO64
  {
    (rsp - parent) % TWO64
  }

  /** Adding a multiple of the modulus changes no remainder. */
  lemma ModShift(a: int, b: int, q: int)
    requires a == b + q * TWO64
    ensures a % TWO64 == b % TWO64
  {
  }

  lemma PushFromDepth(rsp: nat, parent: nat, child: nat, k: nat)
    ensures PushAddr(rsp, parent, child, k) == (child + Depth(rsp, parent) - 8 * (k + 1)) % TWO64
  {
    ModShift(rsp + child - parent - 8 * (k + 1), child + Depth(rsp, parent) - 8 * (k + 1), (rsp - parent) / TWO64);
  }

  /** Push `k` lands in the child's stack exactly if the parent's stack pointer is that
      far inside the parent's. */
  lemma PushExactly(rsp: nat, parent: nat, child: nat, k: nat)
    requires child + STACK_SIZE <= TWO64 && k < PUSHES
    ensures WordIn(PushAddr(rsp, parent, child, k), child)
            <==> 8 * (k + 1) <= Depth(rsp, parent) <= STACK_SIZE + 8 * k
  {
    PushFromDepth(rsp, parent, child, k);
    var a := child + Depth(rsp, parent) - 8 * (k + 1);
    if a < 0 {
      ModShift(a, a + TWO64, -1);
    } else if a >= TWO64 {
      ModShift(a, a - TWO64, 1);
    }
  }

  /** All the words are in the child's stack exactly if the parent's stack pointer is
      in the parent's, with room for them below it. */
  lemma PushesExactly(rsp: nat, parent: nat, child: nat)
    requires child + STACK_SIZE <= TWO64
    ensures (forall k: nat | k < PUSHES :: WordIn(PushAddr(rsp, parent, child, k), child))
            <==> 8 * PUSHES <= Depth(rsp, parent) <= STACK_SIZE
  {
    hide PushAddr, WordIn, Depth;
    forall k: nat | k < PUSHES
      ensures WordIn(PushAddr(rsp, parent, child, k), child)
              <==> 8 * (k + 1) <= Depth(rsp, parent) <= STACK_SIZE + 8 * k
    {
      PushExactly(rsp, parent, child, k);
    }
    assert WordIn(PushAddr(rsp, parent, child, 0), child) <==> 8 <= Depth(rsp, parent) <= STACK_SIZE;
    assert WordIn(PushAddr(rsp, parent, child, 6), child) <==> 56 <= Depth(rsp, parent) <= STACK_SIZE + 48;
  }

  /** Idle has no stack recorded, and the one it runs on lies above the first page: every
      word is then written outside the stack that was allocated for the child. */
  lemma IdlePushesStray(s: Kernel, r: Range, rsp: nat, k: nat)
    requires Inv(s, r) && s.cur == 0 && k < PUSHES
    requires STACK_SIZE + 8 * PUSHES <= rsp < TWO64 && r.hi <= TWO64
    requires AllocBlock(s.heap, Round(STACK_SIZE)).Some?
    ensures var child := AllocBlock(s.heap, Round(STACK_SIZE)).value.addr + HEADER;
      var a := PushAddr(rsp, s.table[0].kstack, child, k);
      a + 8 <= child || child + STACK_SIZE <= a
  {
    var child := AllocBlock(s.heap, Round(STACK_SIZE)).value.addr + HEADER;
    NewStackIn(s.heap, r);
    hide Alloc, AllocBlock, Round;
    var a := rsp + child - 8 * (k + 1);
    if a >= TWO64 {
      ModShift(a, a - TWO64, 1);
    }
  }

  lemma NewStackIn(heap: seq<Block>, r: Range)
    requires HeapOk(heap, r) && AllocBlock(heap, Round(STACK_SIZE)).Some?
    ensures var b := AllocBlock(heap, Round(STACK_SIZE)).value;
      && b in Live(Alloc(heap, Round(STACK_SIZE))) && b.size >= STACK_SIZE
      && r.lo <= b.addr && BlockEnd(b) <= r.hi && Tiles(Alloc(heap, Round(STACK_SIZE)), r.lo, r.hi)
  {
    var n := Round(STACK_SIZE);
    AllocKeeps(heap, r.lo, r.hi, n);
    TilesOrder(Alloc(heap, n), r.lo, r.hi);
  }

  /** A task with a stack of its own forks from inside it: each byte of each word falls
      into the payload of the child's block, and so into no other block and no header. */
  lemma ForkPushesInside(s: Kernel, r: Range, rsp: nat, k: nat, x: nat)
    requires Inv(s, r) && r.hi <= TWO64 && s.cur != 0 && FirstEmpty(s.table, 0) < MAX_TASK_COUNT
    requires AllocBlock(s.heap, Round(STACK_SIZE)).Some? && k < PUSHES
    requires s.table[s.cur].kstack + 8 * PUSHES <= rsp <= s.table[s.cur].kstack + STACK_SIZE
    ensures Shaped(Step(s, ForkOp))
    ensures var u := Step(s, ForkOp);
      var child := u.table[FirstEmpty(s.table, 0)].kstack;
      var a := PushAddr(rsp, s.table[s.cur].kstack, child, k);
      && HasStack(u.heap, child) && WordIn(a, child)
      && (a <= x < a + 8 ==> forall b | b in u.heap && b.addr <= x < BlockEnd(b) ::
            b in Live(u.heap) && b.addr + HEADER == child)
  {
    var b := AllocBlock(s.heap, Round(STACK_SIZE)).value;
    var child, parent := b.addr + HEADER, s.table[s.cur].kstack;
    NewStackIn(s.heap, r);
    assert Step(s, ForkOp).heap == Alloc(s.heap, Round(STACK_SIZE));
    assert Step(s, ForkOp).table[FirstEmpty(s.table, 0)].kstack == child;
    hide PushAddr, Step, Alloc, AllocBlock, Round, Inv, FirstEmpty;
    DepthInside(rsp, parent);
    PushExactly(rsp, parent, child, k);
    forall c | c in Alloc(s.heap, Round(STACK_SIZE)) && c.addr <= x < BlockEnd(c)
               && PushAddr(rsp, parent, child, k) <= x < PushAddr(rsp, parent, child, k) + 8
      ensures c == b
    {
      if c != b {
        PayloadsDisjoint(Alloc(s.heap, Round(STACK_SIZE)), r.lo, r.hi, b, c, x);
      }
    }
  }

  lemma DepthInside(rsp: nat, parent: nat)
    requires parent <= rsp <= parent + STACK_SIZE
    ensures Depth(rsp, parent) == rsp - parent
  {
  }
}
