/** Backing the heap with frames, on values: which frames the heap pages get
    (kernel/mem/heap.c, heap_init). */
module HeapPages {
  import opened Machine
  import opened Mapping
  import opened PageTables
  import opened Pmm

  /** The address of page `k` from `v0` on. */
  function PageAddr(v0: nat, k: nat): nat {
    v0 + PAGE_SIZE * k
  }

  /** The tables needed for `n` pages from `v0` on. */
  ghost function HeapPaths(v0: nat, n: nat): set<Path> {
    set k: nat, p | k < n && p in PathsTo(PageAddr(v0, k)) :: p
  }

  /** The frame that page `k` is mapped to, given that it is mapped. */
  function PageFrame(s: View, v0: nat, k: nat): nat {
    match Walk(s.ram, s.root, PageAddr(v0, k))
    case None => 0
    case Some(e) => e / PAGE_SIZE
  }

  /** The first `n` heap pages are mapped, each to a frame of its own: one that
      was free before, is used now, lies above the kernel, and holds no page
      table. */
  ghost predicate Exclusive(used0: set<nat>, s: View, kernelEnd: nat, v0: nat, n: nat) {
    && (forall k: nat | k < n :: PageBacked(used0, s, kernelEnd, v0, k))
    && (forall j: nat, k: nat | j < k < n :: PageFrame(s, v0, j) != PageFrame(s, v0, k))
  }

  ghost predicate PageBacked(used0: set<nat>, s: View, kernelEnd: nat, v0: nat, k: nat) {
    var f := PageFrame(s, v0, k);
    && Walk(s.ram, s.root, PageAddr(v0, k)).Some?
    && f in s.used && f !in used0 && f * PAGE_SIZE > kernelEnd && f !in s.tables.Values
  }

  /** Enough memory: frames for all pages and for all missing tables. */
  ghost predicate EnoughFor(s: View, kernelEnd: nat, v0: nat, n: nat) {
    |s.tables.Keys + HeapPaths(v0, n)| + n <= Supply(s, kernelEnd)
  }

  /** The page loop of heap_init after `k` pages. */
  ghost predicate PagesInv(s0: View, s: View, kernelEnd: nat, v0: nat, n: nat, k: nat) {
    && k <= n
    && s.tables.Keys <= s0.tables.Keys + HeapPaths(v0, n)
    && s0.used <= s.used
    && Supply(s, kernelEnd) + k == Supply(s0, kernelEnd)
    && Exclusive(s0.used, s, kernelEnd, v0, k)
    && OtherWalks(s0, s, v0, n) && (Writable(s0) ==> Writable(s))
  }

  /** Address `w` lies in none of the pages of the range. */
  ghost predicate Outside(v0: nat, n: nat, w: nat) {
    forall k: nat | k < n :: PageKey(PageAddr(v0, k)) != PageKey(w)
  }

  /** Nothing outside the range translates differently. */
  ghost predicate OtherWalks(s: View, t: View, v0: nat, n: nat) {
    forall w: nat | Outside(v0, n, w) :: Walk(t.ram, t.root, w) == Walk(s.ram, s.root, w)
  }

  lemma PagesStart(s: View, kernelEnd: nat, v0: nat, n: nat)
    ensures PagesInv(s, s, kernelEnd, v0, n, 0)
  {
  }

  /** With enough memory, the next page gets a frame. */
  lemma PageLeft(s0: View, s: View, kernelEnd: nat, v0: nat, n: nat, k: nat)
    requires PagesInv(s0, s, kernelEnd, v0, n, k) && k < n
    requires EnoughFor(s0, kernelEnd, v0, n)
    ensures FreeAbove(s.used, kernelEnd) != {}
  {
    Smaller(s.tables.Keys, s0.tables.Keys + HeapPaths(v0, n));
  }

  /** The state after the lowest free block `b` was handed out. */
  lemma PageTaken(s: View, kernelEnd: nat, b: nat)
    requires Consistent(s, kernelEnd) && LowestFree(s.used, b)
    ensures b * PAGE_SIZE > kernelEnd && b !in s.used && b !in s.tables.Values
    ensures Consistent(s.(used := s.used + {b}), kernelEnd)
    ensures Supply(s.(used := s.used + {b}), kernelEnd) == Supply(s, kernelEnd) - 1
  {
    assert b in AllBlocks();
    assert FreeAbove(s.used + {b}, kernelEnd) == FreeAbove(s.used, kernelEnd) - {b};
    assert b in FreeAbove(s.used, kernelEnd);
  }

  lemma PageCanMap(s0: View, s: View, kernelEnd: nat, v0: nat, n: nat, k: nat, b: nat)
    requires PagesInv(s0, s, kernelEnd, v0, n, k) && k < n
    requires EnoughFor(s0, kernelEnd, v0, n) || HeapPaths(v0, n) <= s0.tables.Keys <= s.tables.Keys
    requires Supply(s.(used := s.used + {b}), kernelEnd) == Supply(s, kernelEnd) - 1
    ensures CanMap(s.(used := s.used + {b}), kernelEnd, PageAddr(v0, k))
  {
    hide PathsTo, HeapPaths, Exclusive, OtherWalks, FreeAbove;
    var v := PageAddr(v0, k);
    PagePaths(v0, n, k);
    if EnoughFor(s0, kernelEnd, v0, n) {
      Smaller(s.tables.Keys + PathsTo(v), s0.tables.Keys + HeapPaths(v0, n));
    } else {
      assert s.tables.Keys + PathsTo(v) == s.tables.Keys;
      assert |s.tables.Keys| == |s.tables|;
    }
  }

  /** Pages of the heap are distinct in bits 12..47. */
  lemma PageKeysDiffer(v0: nat, n: nat, j: nat, k: nat)
    requires v0 % PAGE_SIZE == 0 && n <= PAGE_KEYS && j < n && k < n && j != k
    ensures PageKey(PageAddr(v0, j)) != PageKey(PageAddr(v0, k))
  {
    assert PageAddr(v0, j) / PAGE_SIZE == v0 / PAGE_SIZE + j;
    assert PageAddr(v0, k) / PAGE_SIZE == v0 / PAGE_SIZE + k;
    ModDiffers(v0 / PAGE_SIZE + j, v0 / PAGE_SIZE + k);
  }

  lemma ModDiffers(a: nat, b: nat)
    requires a != b && a < b + PAGE_KEYS && b < a + PAGE_KEYS
    ensures a % PAGE_KEYS != b % PAGE_KEYS
  {
    assert a == PAGE_KEYS * (a / PAGE_KEYS) + a % PAGE_KEYS;
    assert b == PAGE_KEYS * (b / PAGE_KEYS) + b % PAGE_KEYS;
  }

  /** An address of the range lies in one of its pages. */
  lemma InPage(v0: nat, a: nat)
    requires v0 % PAGE_SIZE == 0 && v0 <= a
    ensures PageKey(PageAddr(v0, (a - v0) / PAGE_SIZE)) == PageKey(a)
  {
    assert a / PAGE_SIZE == v0 / PAGE_SIZE + (a - v0) / PAGE_SIZE;
    assert PageAddr(v0, (a - v0) / PAGE_SIZE) / PAGE_SIZE == v0 / PAGE_SIZE + (a - v0) / PAGE_SIZE;
  }

  /** So it is mapped when the pages are. */
  lemma AddressBacked(used0: set<nat>, s: View, kernelEnd: nat, v0: nat, n: nat, a: nat)
    requires Exclusive(used0, s, kernelEnd, v0, n) && v0 % PAGE_SIZE == 0 && v0 <= a < v0 + PAGE_SIZE * n
    ensures Translate(s.ram, s.root, a).Some?
    ensures Translate(s.ram, s.root, a).value / PAGE_SIZE in s.used - used0
  {
    hide Walk;
    var k := (a - v0) / PAGE_SIZE;
    InPage(v0, a);
    assert PageBacked(used0, s, kernelEnd, v0, k);
    WalkByKey(s.ram, s.root, PageAddr(v0, k), a);
  }

  lemma OtherStep(s0: View, s: View, t: View, kernelEnd: nat, v0: nat, n: nat, k: nat, b: nat, e: nat)
    requires OtherWalks(s0, s, v0, n) && k < n
    requires Maps(s.(used := s.used + {b}), t, kernelEnd, PageAddr(v0, k), e)
    ensures OtherWalks(s0, t, v0, n)
  {
    hide Walk, PathsTo, Extends, PageKey;
  }

  lemma PagePaths(v0: nat, n: nat, k: nat)
    requires k < n
    ensures PathsTo(PageAddr(v0, k)) <= HeapPaths(v0, n)
  {
  }

  lemma PageStep(s0: View, s: View, t: View, kernelEnd: nat, v0: nat, n: nat, k: nat, b: nat, e: nat)
    requires Consistent(s, kernelEnd) && PagesInv(s0, s, kernelEnd, v0, n, k) && k < n
    requires v0 % PAGE_SIZE == 0 && n <= PAGE_KEYS
    requires LowestFree(s.used, b) && e / PAGE_SIZE == b && KernelEntry(e)
    requires Maps(s.(used := s.used + {b}), t, kernelEnd, PageAddr(v0, k), e)
    ensures PagesInv(s0, t, kernelEnd, v0, n, k + 1)
  {
    hide Walk, Exclusive, Consistent, PathsTo, HeapPaths, LowestFree, FreeAbove, Supply, OtherWalks, KernelEntry;
    if Writable(s0) {
      WritableStep(s.(used := s.used + {b}), t, kernelEnd, PageAddr(v0, k), e);
    }
    PageTaken(s, kernelEnd, b);
    PagePaths(v0, n, k);
    OtherStep(s0, s, t, kernelEnd, v0, n, k, b, e);
    PageStepFrames(s0, s, t, kernelEnd, v0, n, k, b, e);
  }

  lemma PageStepFrames(s0: View, s: View, t: View, kernelEnd: nat, v0: nat, n: nat, k: nat, b: nat, e: nat)
    requires k < n && v0 % PAGE_SIZE == 0 && n <= PAGE_KEYS && e / PAGE_SIZE == b
    requires Exclusive(s0.used, s, kernelEnd, v0, k) && s0.used <= s.used
    requires b !in s.used && b !in s.tables.Values && b * PAGE_SIZE > kernelEnd
    requires Maps(s.(used := s.used + {b}), t, kernelEnd, PageAddr(v0, k), e)
    ensures Exclusive(s0.used, t, kernelEnd, v0, k + 1)
  {
    hide Walk, PathsTo, Supply;
    forall j: nat | j < k
      ensures PageFrame(t, v0, j) == PageFrame(s, v0, j)
          && Walk(t.ram, t.root, PageAddr(v0, j)) == Walk(s.ram, s.root, PageAddr(v0, j))
    {
      PageKeysDiffer(v0, n, j, k);
    }
    assert PageFrame(t, v0, k) == b;
    forall f | f in s.used + {b} && f !in s.tables.Values
      ensures f !in t.tables.Values
    {
    }
    forall j: nat | j < k + 1
      ensures PageBacked(s0.used, t, kernelEnd, v0, j)
    {
      if j < k {
        assert PageBacked(s0.used, s, kernelEnd, v0, j);
      }
    }
    forall i: nat, j: nat | i < j < k + 1
      ensures PageFrame(t, v0, i) != PageFrame(t, v0, j)
    {
      assert PageBacked(s0.used, s, kernelEnd, v0, i);
    }
  }
}
