/** Bringing up memory (kernel/mem/heap.c, heap_init, and init/init.c): frames,
    then page tables, then the heap. */
module Boot {
  import opened BootInfo
  import opened Heap
  import opened HeapList
  import opened HeapPages
  import opened KernelMap
  import opened Machine
  import opened Mapping
  import opened Mbi
  import opened PageTables
  import opened Paging
  import opened Pmm

  const HEAP_START_ADDR: nat := 0xFFFF_FFFF_D000_0000
  const HEAP_SIZE: nat := 10 * 1024 * 1024

  function AlignDown(a: nat): nat { a - a % PAGE_SIZE }

  /** Number of pages heap_init maps for a range of addresses. */
  function HeapPageCount(startAddr: nat, endAddr: nat): nat
    requires startAddr <= endAddr
  {
    (AlignDown(endAddr + 0xFFF) - AlignDown(startAddr)) / PAGE_SIZE
  }

  /** That is one for each page that the range touches. */
  lemma PageCountMeans(startAddr: nat, endAddr: nat)
    requires startAddr < endAddr
    ensures HeapPageCount(startAddr, endAddr) == (endAddr - 1) / PAGE_SIZE - startAddr / PAGE_SIZE + 1
  {
    assert AlignDown(endAddr + 0xFFF) == PAGE_SIZE * ((endAddr - 1) / PAGE_SIZE + 1);
    assert AlignDown(startAddr) == PAGE_SIZE * (startAddr / PAGE_SIZE);
  }

  /** Back the range with frames and put one free block over it. Without
      enough memory it can return with the heap left unformatted. */
  method HeapInit(space: AddressSpace, heap: KernelHeap, startAddr: nat, endAddr: nat)
    requires space.Valid() && heap.Valid() && heap.start == 0
    requires 64 <= startAddr && startAddr + HEADER <= endAddr <= TWO64 - PAGE_SIZE
    requires HeapPageCount(startAddr, endAddr) <= PAGE_KEYS
    requires var v0, n := AlignDown(startAddr), HeapPageCount(startAddr, endAddr);
      EnoughFor(space.State(), space.kernelEnd, v0, n) || HeapPaths(v0, n) <= space.tables.Keys
    modifies heap, space`tables, space.ram, space.pmm, space.pmm.bitmap
    ensures space.Valid() && heap.Valid()
    ensures heap.start == startAddr || (heap.start == 0 && FreeAbove(space.pmm.used, space.kernelEnd) == {})
    ensures heap.start == startAddr ==>
      && heap.end == endAddr && heap.blocks == [Block(startAddr, endAddr - startAddr - HEADER, true)]
      && Exclusive(old(space.pmm.used), space.State(), space.kernelEnd,
                   AlignDown(startAddr), HeapPageCount(startAddr, endAddr))
      && OtherWalks(old(space.State()), space.State(), AlignDown(startAddr), HeapPageCount(startAddr, endAddr))
      && forall a: nat | startAddr <= a < endAddr :: Translate(space.ram[..], space.pml4, a).Some?
    ensures old(Writable(space.State())) ==> Writable(space.State())
    ensures old(EnoughFor(space.State(), space.kernelEnd, AlignDown(startAddr), HeapPageCount(startAddr, endAddr)))
      ==> heap.start == startAddr
  {
    hide Consistent, PagesInv, Exclusive, EnoughFor, HeapPaths, OtherWalks, Translate, Writable;
    ghost var s0 := space.State();
    var pageStart := AlignDown(startAddr);
    var pageEnd := AlignDown(endAddr + 0xFFF);
    ghost var n := HeapPageCount(startAddr, endAddr);
    ghost var k: nat := 0;
    PagesStart(s0, space.kernelEnd, pageStart, n);
    var v := pageStart;
    while v < pageEnd
      invariant v == PageAddr(pageStart, k) && pageEnd == pageStart + PAGE_SIZE * n
      invariant space.Valid() && PagesInv(s0, space.State(), space.kernelEnd, pageStart, n, k)
      invariant s0.tables.Keys <= space.tables.Keys
      invariant unchanged(heap)
      decreases pageEnd - v
    {
      var ok := MapHeapPage(space, v, s0, pageStart, n, k);
      if !ok {
        PagesWritable(s0, space.State(), space.kernelEnd, pageStart, n, k);
        return;
      }
      v := v + PAGE_SIZE;
      k := k + 1;
    }
    PagesEnd(s0, space.State(), space.kernelEnd, pageStart, n, k);
    forall a: nat | startAddr <= a < endAddr
      ensures Translate(space.ram[..], space.pml4, a).Some?
    {
      AddressBacked(s0.used, space.State(), space.kernelEnd, pageStart, n, a);
    }
    heap.Format(startAddr, endAddr);
  }

  /** One page of the loop: false if nothing was free. */
  method MapHeapPage(space: AddressSpace, v: nat, ghost s0: View, ghost v0: nat, ghost n: nat, ghost k: nat)
    returns (ok: bool)
    requires space.Valid() && PagesInv(s0, space.State(), space.kernelEnd, v0, n, k)
    requires k < n <= PAGE_KEYS && v == PageAddr(v0, k) && v0 % PAGE_SIZE == 0
    requires EnoughFor(s0, space.kernelEnd, v0, n) || HeapPaths(v0, n) <= s0.tables.Keys
    requires s0.tables.Keys <= space.tables.Keys
    modifies space`tables, space.ram, space.pmm, space.pmm.bitmap
    ensures space.Valid()
    ensures ok ==> PagesInv(s0, space.State(), space.kernelEnd, v0, n, k + 1) && s0.tables.Keys <= space.tables.Keys
    ensures !ok ==> FreeAbove(space.pmm.used, space.kernelEnd) == {} && space.State() == old(space.State())
    ensures EnoughFor(s0, space.kernelEnd, v0, n) ==> ok
  {
    hide Consistent, PagesInv, EnoughFor, HeapPaths, Maps, Represents, AllocStep, CanMap, LowestFree, FreeAbove, Supply,
      KernelEntry, PageEntry, Walk;
    ghost var s := space.State();
    if EnoughFor(s0, space.kernelEnd, v0, n) {
      PageLeft(s0, s, space.kernelEnd, v0, n, k);
    }
    var phys := space.pmm.AllocBlock();
    ghost var taken := space.State();
    FreshPage(s, space.kernelEnd, phys, space.pmm.used);
    assert taken == s.(used := space.pmm.used);
    if phys == 0 {
      return false;
    }
    ghost var b := phys / PAGE_SIZE;
    PageCanMap(s0, s, space.kernelEnd, v0, n, k, b);
    space.MapPage(v, phys, PRESENT + WRITE);
    WritableLeaf(phys, PRESENT + WRITE);
    PageStep(s0, s, space.State(), space.kernelEnd, v0, n, k, b, LeafEntry(phys, PRESENT + WRITE));
    MapsKeepsKeys(taken, space.State(), space.kernelEnd, v, LeafEntry(phys, PRESENT + WRITE));
    return true;
  }

  lemma MapsKeepsKeys(s: View, t: View, kernelEnd: nat, v: nat, e: nat)
    requires Maps(s, t, kernelEnd, v, e)
    ensures s.tables.Keys <= t.tables.Keys
  {
  }

  lemma PagesEnd(s0: View, s: View, kernelEnd: nat, v0: nat, n: nat, k: nat)
    requires PagesInv(s0, s, kernelEnd, v0, n, k) && k >= n
    ensures Exclusive(s0.used, s, kernelEnd, v0, n) && OtherWalks(s0, s, v0, n) && (Writable(s0) ==> Writable(s))
  {
    hide Writable;
  }

  lemma PagesWritable(s0: View, s: View, kernelEnd: nat, v0: nat, n: nat, k: nat)
    requires PagesInv(s0, s, kernelEnd, v0, n, k)
    ensures Writable(s0) ==> Writable(s)
  {
    hide Writable;
  }

  /** One allocation from a consistent state: 0 only if nothing above the
      kernel is free, else a frame the next page can use. */
  lemma FreshPage(s: View, kernelEnd: nat, phys: nat, after: set<nat>)
    requires Consistent(s, kernelEnd) && AllocStep(s.used, phys, after)
    ensures phys == 0 ==> FreeAbove(s.used, kernelEnd) == {} && s.(used := after) == s
    ensures phys != 0 ==>
      && LowestFree(s.used, phys / PAGE_SIZE) && after == s.used + {phys / PAGE_SIZE}
      && Consistent(s.(used := after), kernelEnd)
      && Supply(s.(used := after), kernelEnd) == Supply(s, kernelEnd) - 1
  {
    AllocUnambiguous(s.used, kernelEnd, phys, after);
    if phys != 0 {
      PageTaken(s, kernelEnd, phys / PAGE_SIZE);
    }
  }

  /** The memory part of start_kernel, in its order. */
  method StartMemory(parser: BootParser, space: AddressSpace, heap: KernelHeap, mem: Memory, mbi: nat, kernelStart: nat)
    requires space.pmm == parser.pmm && space.pmm.bitmap.Length == BITMAP_SIZE && space.ram.Length == MAX_BLOCKS
    requires heap.Valid() && heap.start == 0
    requires mbi < TWO32 && kernelStart < TWO64 && space.kernelEnd <= TWO64 - PAGE_SIZE
    requires WalkEnds(mem, mbi + 8, mbi + U32(mem, mbi)) && AllStop(Entries(mem, mbi + 8, mbi + U32(mem, mbi)))
    requires HasMemory(mem, mbi, space.kernelEnd, parser.fb)
    modifies parser, heap, space, space.ram, space.pmm, space.pmm.bitmap
    ensures space.Valid() && heap.Valid()
    ensures parser.fb == LastFramebuffer(mem, mbi + 8, mbi + U32(mem, mbi), old(parser.fb))
    ensures heap.blocks == [Block(0xFFFF_FFFF_D000_0000, 0xA0_0000 - 24, true)]
    ensures Exclusive({}, space.State(), space.kernelEnd, HEAP_START_ADDR, HEAP_SIZE / PAGE_SIZE)
    ensures forall a: nat | HEAP_START_ADDR <= a < HEAP_START_ADDR + HEAP_SIZE ::
      Translate(space.ram[..], space.pml4, a).Some?
    ensures Writable(space.State())
    ensures FbFits(parser.fb) ==>
      SpaceIs(space.State(), parser.fb) && FramebufferThere(space.State(), parser.fb)
  {
    hide Consistent, Represents, Exclusive, OtherWalks, Budget, FreeAbove, HeapPaths, EnoughFor, Freed, HasMemory,
      WalkEnds, AllStop, UsedAfterInit, Writable, SpaceIs, FramebufferThere, Translate, FbPages, Shows;
    parser.pmm.Init(mem, mbi, kernelStart, space.kernelEnd);
    parser.Parse(mem, mbi);
    ReservationsUndone(Entries(mem, mbi + 8, mbi + U32(mem, mbi)), mbi, kernelStart, space.kernelEnd);
    ghost var used0 := space.pmm.used;
    MemoryForTables(mem, mbi, space.kernelEnd, old(parser.fb), used0);
    space.Init(parser.fb);
    ghost var s := space.State();
    ghost var n := HEAP_SIZE / PAGE_SIZE;
    HeapFits(s, space.kernelEnd, parser.fb, used0);
    HeapInit(space, heap, HEAP_START_ADDR, HEAP_START_ADDR + HEAP_SIZE);
    ExclusiveForgets(s.used, space.State(), space.kernelEnd, HEAP_START_ADDR, n);
    if FbFits(parser.fb) {
      OutsideHeap(s, space.State(), parser.fb);
      FramebufferAfterStart(space.State(), parser.fb);
    }
  }

  lemma ExclusiveForgets(used0: set<nat>, s: View, kernelEnd: nat, v0: nat, n: nat)
    requires Exclusive(used0, s, kernelEnd, v0, n)
    ensures Exclusive({}, s, kernelEnd, v0, n)
  {
    hide Walk;
    forall k: nat | k < n
      ensures PageBacked({}, s, kernelEnd, v0, k)
    {
      assert PageBacked(used0, s, kernelEnd, v0, k);
    }
  }

  /** The frames that page tables and heap take: one for each table of either and
      one for each heap page. */
  ghost function FramesNeeded(fb: Framebuffer): nat {
    |Budget(fb) + HeapPaths(HEAP_START_ADDR, HEAP_SIZE / PAGE_SIZE)| + HEAP_SIZE / PAGE_SIZE
  }

  /** The available memory, as the second walk leaves it, has that many frames. */
  ghost predicate HasMemory(mem: Memory, mbi: nat, kernelEnd: nat, fb: Framebuffer)
    requires WalkEnds(mem, mbi + 8, mbi + U32(mem, mbi))
  {
    FramesNeeded(LastFramebuffer(mem, mbi + 8, mbi + U32(mem, mbi), fb))
    <= |FreeAbove(AllBlocks() - Freed(Entries(mem, mbi + 8, mbi + U32(mem, mbi)), TWO64), kernelEnd)|
  }

  lemma MemoryForTables(mem: Memory, mbi: nat, kernelEnd: nat, fb: Framebuffer, used: set<nat>)
    requires WalkEnds(mem, mbi + 8, mbi + U32(mem, mbi)) && HasMemory(mem, mbi, kernelEnd, fb)
    requires used == AllBlocks() - Freed(Entries(mem, mbi + 8, mbi + U32(mem, mbi)), TWO64)
    ensures FramesNeeded(LastFramebuffer(mem, mbi + 8, mbi + U32(mem, mbi), fb)) <= |FreeAbove(used, kernelEnd)|
    ensures |Budget(LastFramebuffer(mem, mbi + 8, mbi + U32(mem, mbi), fb))| <= |FreeAbove(used, kernelEnd)|
  {
    hide Budget, HeapPaths, FreeAbove;
    var b := Budget(LastFramebuffer(mem, mbi + 8, mbi + U32(mem, mbi), fb));
    Smaller(b, b + HeapPaths(HEAP_START_ADDR, HEAP_SIZE / PAGE_SIZE));
  }

  /** That is exactly what the heap's page loop asks for. */
  lemma HeapFits(s: View, kernelEnd: nat, fb: Framebuffer, used0: set<nat>)
    requires Built(s, kernelEnd, fb, used0)
    ensures EnoughFor(s, kernelEnd, HEAP_START_ADDR, HEAP_SIZE / PAGE_SIZE)
            <==> FramesNeeded(fb) <= |FreeAbove(used0, kernelEnd)|
  {
    hide Budget, FreeAbove, HeapPaths;
    assert |s.tables.Keys| == |s.tables|;
  }

  /** The heap lies under two upper tables and five lower ones. */
  lemma HeapIndices(k: nat)
    requires k < HEAP_SIZE / PAGE_SIZE
    ensures var v := PageAddr(HEAP_START_ADDR, k);
      L4(v) == 511 && L3(v) == 511 && 128 <= L2(v) < 133
  {
    var v := PageAddr(HEAP_START_ADDR, k);
    assert v / 0x20_0000 == 0x7FF_FFFF_FE80 + k / 512;
    assert v / 0x4000_0000 == 0x3_FFFF_FFFF;
    assert v / 0x80_0000_0000 == 0x1FF_FFFF;
  }

  lemma HeapTables()
    ensures |HeapPaths(HEAP_START_ADDR, HEAP_SIZE / PAGE_SIZE)| <= 7
  {
    hide L4, L3, L2, PageAddr;
    var top := Sub(Root, 511);
    var mid := Sub(top, 511);
    var all := {top, mid, Sub(mid, 128), Sub(mid, 129), Sub(mid, 130), Sub(mid, 131), Sub(mid, 132)};
    var n := HEAP_SIZE / PAGE_SIZE;
    forall p | p in HeapPaths(HEAP_START_ADDR, n)
      ensures p in all
    {
      var k: nat :| k < n && p in PathsTo(PageAddr(HEAP_START_ADDR, k));
      HeapIndices(k);
      PathThreeLevels(PageAddr(HEAP_START_ADDR, k));
    }
    Smaller(HeapPaths(HEAP_START_ADDR, n), all);
  }

  /** In numbers: 2836 frames, about 11 MiB, and six for each framebuffer page. */
  lemma FramesBound(fb: Framebuffer)
    ensures FramesNeeded(fb) <= 2836 + 6 * FbPages(fb)
  {
    hide Budget, HeapPaths, FbPages;
    BudgetSize(fb);
    HeapTables();
    UnionSize(Budget(fb), HeapPaths(HEAP_START_ADDR, HEAP_SIZE / PAGE_SIZE));
  }

  /** Outside the heap every address is mapped as the page-table construction maps it. */
  ghost predicate SpaceIs(s: View, fb: Framebuffer) {
    forall w: nat | Outside(HEAP_START_ADDR, HEAP_SIZE / PAGE_SIZE, w) :: Shows(s, fb, w)
  }

  lemma OutsideHeap(s: View, t: View, fb: Framebuffer)
    requires (forall w: nat :: Shows(s, fb, w)) && OtherWalks(s, t, HEAP_START_ADDR, HEAP_SIZE / PAGE_SIZE)
    ensures SpaceIs(t, fb)
  {
    hide Walk, Outside, LeafOf, PageOf, FbPages;
    forall w: nat | Outside(HEAP_START_ADDR, HEAP_SIZE / PAGE_SIZE, w)
      ensures Shows(t, fb, w)
    {
      assert Shows(s, fb, w);
    }
  }

  /** An address lies outside the heap exactly if its page number does. */
  lemma OutsideMeans(w: nat)
    ensures Outside(HEAP_START_ADDR, HEAP_SIZE / PAGE_SIZE, w)
            <==> !(0 <= PageKey(w) - (PAGE_KEYS - TOP_PAGES + 0x5_0000) < HEAP_SIZE / PAGE_SIZE)
  {
    forall k: nat | k < HEAP_SIZE / PAGE_SIZE
      ensures PageKey(PageAddr(HEAP_START_ADDR, k)) == PAGE_KEYS - TOP_PAGES + 0x5_0000 + k
    {
      DirectKey(0x5_0000 + k);
      assert PageAddr(HEAP_START_ADDR, k) == AddrIn(Direct, 0x5_0000 + k);
    }
    var q := PageKey(w) - (PAGE_KEYS - TOP_PAGES + 0x5_0000);
    if 0 <= q < HEAP_SIZE / PAGE_SIZE {
      assert PageKey(PageAddr(HEAP_START_ADDR, q)) == PageKey(w);
    }
  }

  /** The heap lies beyond the direct map. */
  lemma DirectOutsideHeap(s: View, fb: Framebuffer, p: nat)
    requires SpaceIs(s, fb) && p < 512 * 1024 * 1024
    ensures Translate(s.ram, s.root, KERNEL_OFFSET + p) == Some(p)
  {
    hide Translate, Shows, Outside;
    DirectAddress(p);
    OutsideMeans(KERNEL_OFFSET + p);
    DirectMapClosed(s, fb, p);
  }

  /** And beyond all addresses below 2^47, where the low map and the framebuffer are. */
  lemma LowOutsideHeap(s: View, fb: Framebuffer, a: nat)
    requires SpaceIs(s, fb) && a < 0x8000_0000_0000
    ensures Shows(s, fb, a)
    ensures a < 0x100_0000 ==> (Translate(s.ram, s.root, a) == Some(a) <==> !FbCovers(fb, a))
  {
    hide Translate, Shows, Outside, FbCovers;
    LowAddress(a);
    OutsideMeans(a);
    if a < 0x100_0000 {
      LowIdentity(s, fb, a);
    }
  }

  /** Its high addresses begin at physical address 0x50000000. */
  predicate UnderHeap(a: nat) {
    0x5000_0000 <= a < 0x5000_0000 + HEAP_SIZE
  }

  lemma HighOutsideHeap(a: nat)
    requires a < 0x8000_0000_0000
    ensures Outside(HEAP_START_ADDR, HEAP_SIZE / PAGE_SIZE, (KERNEL_OFFSET + a) % TWO64) <==> !UnderHeap(a)
  {
    hide Outside, PageKey;
    HighAddress(a);
    OutsideMeans((KERNEL_OFFSET + a) % TWO64);
    BelowPages(a, 0x5_0000);
    BelowPages(a, 0x5_0000 + HEAP_SIZE / PAGE_SIZE);
  }

  /** A framebuffer that starts on a page and takes at most 2 GiB is mapped whole: at its
      own address, and at KERNEL_OFFSET plus that except where the heap lies. */
  ghost predicate FramebufferThere(s: View, fb: Framebuffer) {
    fb.addr != 0 && fb.addr % PAGE_SIZE == 0 && fb.pitch * fb.height <= 0x8000_0000 ==>
      forall a: nat | fb.addr <= a < fb.addr + fb.pitch * fb.height :: ByteThere(s, a)
  }

  ghost predicate ByteThere(s: View, a: nat) {
    && Translate(s.ram, s.root, a) == Some(a)
    && (!UnderHeap(a) ==> Translate(s.ram, s.root, (KERNEL_OFFSET + a) % TWO64) == Some(a))
  }

  lemma FramebufferAfterStart(s: View, fb: Framebuffer)
    requires SpaceIs(s, fb) && FbFits(fb)
    ensures FramebufferThere(s, fb)
  {
    hide Translate, Shows, Outside, FbPages, UnderHeap, SpaceIs;
    if fb.addr != 0 && fb.addr % PAGE_SIZE == 0 && fb.pitch * fb.height <= 0x8000_0000 {
      forall a: nat | fb.addr <= a < fb.addr + fb.pitch * fb.height
        ensures ByteThere(s, a)
      {
        SizeBound(fb, a - fb.addr);
        LowOutsideHeap(s, fb, a);
        HighOutsideHeap(a);
        ShowsOutside(s, fb, (KERNEL_OFFSET + a) % TWO64);
        FramebufferWhole(s, fb, a - fb.addr);
      }
    }
  }

  lemma ShowsOutside(s: View, fb: Framebuffer, w: nat)
    requires SpaceIs(s, fb)
    ensures Outside(HEAP_START_ADDR, HEAP_SIZE / PAGE_SIZE, w) ==> Shows(s, fb, w)
  {
    hide Outside, Shows;
  }

  /** Where the heap lies, its frames have replaced the framebuffer's high addresses. */
  lemma HeapHidesFramebuffer(used0: set<nat>, s: View, kernelEnd: nat, a: nat)
    requires Exclusive(used0, s, kernelEnd, HEAP_START_ADDR, HEAP_SIZE / PAGE_SIZE)
    requires s.used <= AllBlocks() && UnderHeap(a)
    ensures Translate(s.ram, s.root, KERNEL_OFFSET + a) != Some(a)
  {
    hide Translate;
    AddressBacked(used0, s, kernelEnd, HEAP_START_ADDR, HEAP_SIZE / PAGE_SIZE, KERNEL_OFFSET + a);
  }
}
