/** The kernel address space (kernel/mem/paging.c): page tables built in
    physical memory with frames drawn from the frame allocator. */
module Paging {
  import opened BootInfo
  import opened KernelMap
  import opened Machine
  import opened Mapping
  import opened PageTables
  import opened Pmm

  class AddressSpace {
    const pmm: FrameAllocator
    const ram: array<Frame>
    const kernelEnd: nat
    /** The frame of the top-level table. */
    var pml4: nat
    ghost var tables: map<Path, nat>

    ghost function State(): View
      reads this, ram, pmm
    {
      View(ram[..], pml4, tables, pmm.used)
    }

    ghost predicate Ready()
      reads this, ram, pmm, pmm.bitmap
    {
      pmm.Valid() && ram.Length == MAX_BLOCKS
    }

    ghost predicate Valid()
      reads this, ram, pmm, pmm.bitmap
    {
      Ready() && Consistent(State(), kernelEnd)
    }

    constructor (pmm: FrameAllocator, ram: array<Frame>, kernelEnd: nat)
      ensures this.pmm == pmm && this.ram == ram && this.kernelEnd == kernelEnd
    {
      this.pmm := pmm;
      this.ram := ram;
      this.kernelEnd := kernelEnd;
      pml4 := 0;
      tables := map[];
    }

    method Zero(f: nat)
      requires f < ram.Length
      modifies ram
      ensures ram[..] == old(ram[..])[f := ZeroFrame()]
    {
      for j := 0 to 512
        invariant forall k | 0 <= k < j :: ram[f][k] == 0
        invariant ram[..] == old(ram[..])[f := ram[f]]
      {
        ram[f] := ram[f][j := 0];
      }
      assert ram[f] == ZeroFrame();
    }

    /** A fresh zeroed table in slot `idx` of the table in frame `current`. */
    method AddMissing(current: nat, idx: nat, ghost path: Path) returns (f: nat)
      requires Ready() && current < MAX_BLOCKS && FreeAbove(pmm.used, kernelEnd) != {}
      requires path in tables && tables[path] == current && current in pmm.used
      requires Depth(path) < 3 && idx < 512 && Sub(path, idx) !in tables
      modifies this`tables, ram, pmm, pmm.bitmap
      ensures Ready() && NewTable(old(State()), State(), kernelEnd, path, idx, f)
    {
      var newPhys := pmm.SafeAlloc(kernelEnd);
      f := newPhys / PAGE_SIZE;
      Zero(f);
      ram[current] := ram[current][idx := Link(f)];
      tables := tables[Sub(path, idx) := f];
    }

    /** One level down on the way to `virtual`, adding the table if it is missing. */
    method Descend(virtual: nat, i: nat, current: nat, ghost path: Path, ghost s0: View) returns (next: nat)
      requires Valid() && i < 3 && Descends(s0, State(), kernelEnd, virtual, i, path, current)
      requires Root in s0.tables && CanMap(s0, kernelEnd, virtual)
      modifies this`tables, ram, pmm, pmm.bitmap
      ensures Valid() && Descends(s0, State(), kernelEnd, virtual, i + 1, Sub(path, Index(virtual, i)), next)
    {
      hide Tree, Extends, SameWalks;
      ghost var s := State();
      var idx := Index(virtual, i);
      SlotMeans(s, kernelEnd, path, idx);
      if ram[current][idx] % 2 == 0 {
        FrameLeft(s0, s, kernelEnd, virtual, i, path, current);
        next := AddMissing(current, idx, path);
        DescendNew(s0, s, State(), kernelEnd, virtual, i, path, current, next);
      } else {
        DescendExisting(s0, s, kernelEnd, virtual, i, path, current);
        next := ram[current][idx] / PAGE_SIZE;
      }
    }

    method MapPage(virtual: nat, physical: nat, flags: nat)
      requires Valid() && flags < PAGE_SIZE
      requires CanMap(State(), kernelEnd, virtual)
      modifies this`tables, ram, pmm, pmm.bitmap
      ensures Valid() && Maps(old(State()), State(), kernelEnd, virtual, LeafEntry(physical, flags))
      ensures var e := Walk(ram[..], pml4, virtual); e.Some? && PageEntry(e.value, physical, flags)
    {
      hide Extends, SameWalks, Walk;
      ghost var s0 := State();
      ghost var path := Root;
      var current: nat := pml4;
      DescendsStart(s0, kernelEnd, virtual);
      for i := 0 to 3
        invariant Valid() && Descends(s0, State(), kernelEnd, virtual, i, path, current)
      {
        current := Descend(virtual, i, current, path, s0);
        path := Sub(path, Index(virtual, i));
      }
      ghost var s := State();
      ram[current] := ram[current][L1(virtual) := LeafEntry(physical, flags)];
      MapsPage(s0, s, State(), kernelEnd, virtual, path, current, LeafEntry(physical, flags));
      LeafBits(physical, flags);
    }

    /** One page of region `r`, with its tables drawn from the budget. */
    method MapNext(virtual: nat, physical: nat,
                   ghost r: Region, ghost k: nat, ghost n: nat, ghost s1: View, ghost budget: set<Path>)
      requires Valid() && Building(s1, State(), kernelEnd, budget)
      requires virtual == AddrIn(r, k) && k < n && PathsIn(r, n) <= budget
      modifies this`tables, ram, pmm, pmm.bitmap
      ensures Valid() && Building(s1, State(), kernelEnd, budget)
      ensures Maps(old(State()), State(), kernelEnd, AddrIn(r, k), LeafEntry(physical, WRITE))
    {
      hide Consistent, Building, Maps, CanMap;
      ghost var s := State();
      PathsInMonotone(r, k, n);
      BuildingCanMap(s1, s, kernelEnd, budget, virtual);
      MapPage(virtual, physical, WRITE);
      WritableLeaf(physical, WRITE);
      BuildingStep(s1, s, State(), kernelEnd, budget, virtual, LeafEntry(physical, WRITE));
    }

    method MapDirect(ghost s1: View, ghost budget: set<Path>)
      requires Valid() && Building(s1, State(), kernelEnd, budget)
      requires PathsIn(Direct, DIRECT_PAGES) <= budget && MapIs(State(), 0, 0, 0, 0)
      modifies this`tables, ram, pmm, pmm.bitmap
      ensures Valid() && Building(s1, State(), kernelEnd, budget)
      ensures DirectInv(State(), old(tables.Keys), DIRECT_PAGES)
    {
      hide Consistent, Building, DirectInv;
      ghost var keys := tables.Keys;
      var p: nat := 0;
      ghost var k: nat := 0;
      DirectInvStart(State());
      while p < 512 * 1024 * 1024
        invariant p == PAGE_SIZE * k && k <= DIRECT_PAGES
        invariant Valid() && Building(s1, State(), kernelEnd, budget)
        invariant DirectInv(State(), keys, k)
      {
        MapDirectPage(p, s1, budget, keys, k);
        p := p + PAGE_SIZE;
        k := k + 1;
      }
    }

    method MapDirectPage(p: nat, ghost s1: View, ghost budget: set<Path>, ghost keys: set<Path>, ghost k: nat)
      requires Valid() && Building(s1, State(), kernelEnd, budget)
      requires k < DIRECT_PAGES && p == PAGE_SIZE * k && PathsIn(Direct, DIRECT_PAGES) <= budget
      requires DirectInv(State(), keys, k)
      modifies this`tables, ram, pmm, pmm.bitmap
      ensures Valid() && Building(s1, State(), kernelEnd, budget)
      ensures DirectInv(State(), keys, k + 1)
    {
      hide Consistent, Building, DirectInv, Maps;
      ghost var s := State();
      MapNext(KERNEL_OFFSET + p, p, Direct, k, DIRECT_PAGES, s1, budget);
      DirectInvStep(s, State(), kernelEnd, keys, k);
    }

    method MapLow(ghost s1: View, ghost budget: set<Path>)
      requires Valid() && Building(s1, State(), kernelEnd, budget)
      requires PathsIn(Low, LOW_PAGES) <= budget
      requires MapIs(State(), DIRECT_PAGES, 0, 0, 0)
      modifies this`tables, ram, pmm, pmm.bitmap
      ensures Valid() && Building(s1, State(), kernelEnd, budget)
      ensures LowInv(State(), old(tables.Keys), LOW_PAGES)
    {
      hide Consistent, Building, LowInv;
      ghost var keys := tables.Keys;
      var i: nat := 0;
      ghost var k: nat := 0;
      LowInvStart(State());
      while i < 0x100_0000
        invariant i == PAGE_SIZE * k && k <= LOW_PAGES
        invariant Valid() && Building(s1, State(), kernelEnd, budget)
        invariant LowInv(State(), keys, k)
      {
        MapLowPage(i, s1, budget, keys, k);
        i := i + PAGE_SIZE;
        k := k + 1;
      }
    }

    method MapLowPage(i: nat, ghost s1: View, ghost budget: set<Path>, ghost keys: set<Path>, ghost k: nat)
      requires Valid() && Building(s1, State(), kernelEnd, budget)
      requires k < LOW_PAGES && i == PAGE_SIZE * k && PathsIn(Low, LOW_PAGES) <= budget
      requires LowInv(State(), keys, k)
      modifies this`tables, ram, pmm, pmm.bitmap
      ensures Valid() && Building(s1, State(), kernelEnd, budget)
      ensures LowInv(State(), keys, k + 1)
    {
      hide Consistent, Building, LowInv, Maps;
      ghost var s := State();
      MapNext(i, i, Low, k, LOW_PAGES, s1, budget);
      LowInvStep(s, State(), kernelEnd, keys, k);
    }

    method MapFramebuffer(fb: Framebuffer, ghost s1: View, ghost budget: set<Path>)
      requires Valid() && Building(s1, State(), kernelEnd, budget)
      requires fb.addr != 0
      requires PathsIn(Fb(fb.addr), FbPages(fb)) <= budget && PathsIn(FbHigh(fb.addr), FbPages(fb)) <= budget
      requires MapIs(State(), DIRECT_PAGES, LOW_PAGES, 0, 0)
      modifies this`tables, ram, pmm, pmm.bitmap
      ensures Valid() && Building(s1, State(), kernelEnd, budget)
      ensures FbInv(State(), fb, old(tables.Keys), FbPages(fb))
    {
      hide Consistent, Building, FbInv, MapIs;
      var fbSize := FbBytes(fb);
      if fbSize % PAGE_SIZE != 0 {
        fbSize := fbSize + (PAGE_SIZE - fbSize % PAGE_SIZE);
      }
      assert fbSize == PAGE_SIZE * FbPages(fb);
      ghost var keys := tables.Keys;
      var i: nat := 0;
      ghost var j: nat := 0;
      FbInvStart(State(), fb);
      while i < fbSize
        invariant i == PAGE_SIZE * j && j <= FbPages(fb)
        invariant Valid() && Building(s1, State(), kernelEnd, budget)
        invariant FbInv(State(), fb, keys, j)
      {
        MapFramebufferPage(fb, i, s1, budget, keys, j);
        i := i + PAGE_SIZE;
        j := j + 1;
      }
    }

    method MapFramebufferPage(fb: Framebuffer, i: nat, ghost s1: View, ghost budget: set<Path>,
                              ghost keys: set<Path>, ghost j: nat)
      requires Valid() && Building(s1, State(), kernelEnd, budget)
      requires j < FbPages(fb) && i == PAGE_SIZE * j
      requires PathsIn(Fb(fb.addr), FbPages(fb)) <= budget && PathsIn(FbHigh(fb.addr), FbPages(fb)) <= budget
      requires FbInv(State(), fb, keys, j)
      modifies this`tables, ram, pmm, pmm.bitmap
      ensures Valid() && Building(s1, State(), kernelEnd, budget)
      ensures FbInv(State(), fb, keys, j + 1)
    {
      hide Consistent, Building, FbInv, Maps;
      var phys := (fb.addr + i) % TWO64;
      FbAddresses(fb.addr, j);
      ghost var s := State();
      MapNext(phys, phys, Fb(fb.addr), j, FbPages(fb), s1, budget);
      ghost var t := State();
      MapNext((KERNEL_OFFSET + phys) % TWO64, phys, FbHigh(fb.addr), j, FbPages(fb), s1, budget);
      FbInvStep(s, t, State(), kernelEnd, fb, keys, j);
    }

    /** Build the address space. The frames it needs are exactly the tables in Budget(fb). */
    method Init(fb: Framebuffer)
      requires Ready()
      requires |Budget(fb)| <= |FreeAbove(pmm.used, kernelEnd)|
      modifies this, ram, pmm, pmm.bitmap
      ensures Valid() && Built(State(), kernelEnd, fb, old(pmm.used))
    {
      hide Consistent, Building, Supply, Budget, PathsIn, MapIs, FreeAbove;
      ghost var used0 := pmm.used;
      BudgetCovers(fb);
      BudgetHasRoot(fb, used0, kernelEnd);
      var physPml4 := pmm.SafeAlloc(kernelEnd);
      pml4 := physPml4 / PAGE_SIZE;
      Zero(pml4);
      tables := map[Root := pml4];
      ghost var s1, budget := State(), Budget(fb);
      RootOnly(s1, kernelEnd, used0, budget);
      MapDirect(s1, budget);
      MapLow(s1, budget);
      ghost var keys := tables.Keys;
      FbInvStart(State(), fb);
      if fb.addr != 0 {
        MapFramebuffer(fb, s1, budget);
      }
      BuiltEnd(s1, State(), kernelEnd, fb, keys, used0);
    }
  }
}
