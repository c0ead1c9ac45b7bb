/** The address space that paging_init builds, on values: the direct map, the
    low identity map and the framebuffer. */
module KernelMap {
  import opened Bits
  import opened BootInfo
  import opened Machine
  import opened Mapping
  import opened PageTables
  import opened Pmm

  const DIRECT_PAGES: nat := 0x2_0000
  const LOW_PAGES: nat := 0x1000
  /** Number of pages between KERNEL_OFFSET and the top of the address space. */
  const TOP_PAGES: nat := 0x8_0000

  /** The four series of addresses that are mapped. */
  datatype Region = Direct | Low | Fb(base: nat) | FbHigh(base: nat)

  function AddrIn(r: Region, k: nat): nat {
    match r
    case Direct => KERNEL_OFFSET + PAGE_SIZE * k
    case Low => PAGE_SIZE * k
    case Fb(base) => (base + PAGE_SIZE * k) % TWO64
    case FbHigh(base) => (KERNEL_OFFSET + base + PAGE_SIZE * k) % TWO64
  }

  /** The tables below the root needed for the first `n` addresses of a region. */
  ghost function PathsIn(r: Region, n: nat): set<Path> {
    set k: nat, p | k < n && p in PathsTo(AddrIn(r, k)) :: p
  }

  lemma PathsInStep(r: Region, k: nat)
    ensures PathsIn(r, k + 1) == PathsIn(r, k) + PathsTo(AddrIn(r, k))
  {
    forall p | p in PathsTo(AddrIn(r, k))
      ensures p in PathsIn(r, k + 1)
    {
    }
  }

  lemma NoPathsIn(r: Region)
    ensures PathsIn(r, 0) == {}
  {
  }

  lemma PathsInMonotone(r: Region, k: nat, n: nat)
    requires k < n
    ensures PathsTo(AddrIn(r, k)) <= PathsIn(r, n)
  {
  }

  /** Size of the framebuffer in bytes: a 32-bit product. */
  function FbBytes(fb: Framebuffer): nat {
    fb.pitch * fb.height % TWO32
  }

  /** Its size in pages, rounded up. */
  function FbPages(fb: Framebuffer): nat {
    if fb.addr == 0 then 0 else (FbBytes(fb) + PAGE_SIZE - 1) / PAGE_SIZE
  }

  /** Every table the finished address space consists of. */
  ghost function Budget(fb: Framebuffer): set<Path> {
    {Root} + PathsIn(Direct, DIRECT_PAGES) + PathsIn(Low, LOW_PAGES)
    + PathsIn(Fb(fb.addr), FbPages(fb)) + PathsIn(FbHigh(fb.addr), FbPages(fb))
  }

  /** The framebuffer lies below 2^47. */
  predicate FbFits(fb: Framebuffer) {
    fb.addr + PAGE_SIZE * FbPages(fb) <= 0x8000_0000_0000
  }

  // What is mapped.

  /** The page that page `key` of the address space is mapped to, when the first `d`
      pages of the direct map, the first `l` low pages, and framebuffer pages `first` up
      to `last` have been mapped. The second mapping of framebuffer page 2^19 + k wraps
      onto page k. */
  function PageOf(d: nat, l: nat, first: nat, last: nat, key: nat): Option<nat> {
    if key >= PAGE_KEYS - TOP_PAGES then
      var q := key - (PAGE_KEYS - TOP_PAGES);
      if q < d || first <= q < last then Some(q) else None
    else if first <= key + TOP_PAGES < last then Some(key + TOP_PAGES)
    else if key < l || first <= key < last then Some(key)
    else None
  }

  function LeafOf(page: Option<nat>): Option<nat> {
    match page
    case None => None
    case Some(q) => Some(LeafEntry(PAGE_SIZE * q, WRITE))
  }

  /** The whole address space is that. */
  ghost predicate MapIs(s: View, d: nat, l: nat, first: nat, last: nat) {
    forall w: nat :: Walk(s.ram, s.root, w) == LeafOf(PageOf(d, l, first, last, PageKey(w)))
  }

  lemma DirectKey(k: nat)
    requires k < TOP_PAGES
    ensures PageKey(AddrIn(Direct, k)) == PAGE_KEYS - TOP_PAGES + k
  {
    assert AddrIn(Direct, k) / PAGE_SIZE == 0x10_0000_0000_0000 - TOP_PAGES + k;
  }

  lemma LowKey(k: nat)
    requires k < LOW_PAGES
    ensures PageKey(AddrIn(Low, k)) == k
  {
  }

  lemma DirectStep(s: View, t: View, kernelEnd: nat, k: nat)
    requires k < DIRECT_PAGES && MapIs(s, k, 0, 0, 0)
    requires Maps(s, t, kernelEnd, AddrIn(Direct, k), LeafEntry(PAGE_SIZE * k, WRITE))
    ensures MapIs(t, k + 1, 0, 0, 0)
  {
    hide Walk, Extends, PathsTo, PageKey, LeafEntry;
    DirectKey(k);
  }

  lemma LowStep(s: View, t: View, kernelEnd: nat, k: nat)
    requires k < LOW_PAGES && MapIs(s, DIRECT_PAGES, k, 0, 0)
    requires Maps(s, t, kernelEnd, AddrIn(Low, k), LeafEntry(PAGE_SIZE * k, WRITE))
    ensures MapIs(t, DIRECT_PAGES, k + 1, 0, 0)
  {
    hide Walk, Extends, PathsTo, PageKey, LeafEntry;
    LowKey(k);
  }

  lemma FbKey(base: nat, j: nat)
    requires base + PAGE_SIZE * j < 0x8000_0000_0000
    ensures PageKey(AddrIn(Fb(base), j)) == base / PAGE_SIZE + j
    ensures LeafEntry(base + PAGE_SIZE * j, WRITE) == LeafEntry(PAGE_SIZE * (base / PAGE_SIZE + j), WRITE)
  {
  }

  lemma FbHighKey(base: nat, j: nat)
    requires base + PAGE_SIZE * j < 0x8000_0000_0000
    ensures PageKey(AddrIn(FbHigh(base), j)) == HighKey(base / PAGE_SIZE + j)
  {
    HighAddress(base + PAGE_SIZE * j);
    assert (base + PAGE_SIZE * j) / PAGE_SIZE == base / PAGE_SIZE + j;
  }

  /** The page at KERNEL_OFFSET plus that of page `q`. */
  function HighKey(q: nat): nat
    requires q < 0x8_0000_0000
  {
    if q < TOP_PAGES then PAGE_KEYS - TOP_PAGES + q else q - TOP_PAGES
  }

  lemma HighAddress(a: nat)
    requires a < 0x8000_0000_0000
    ensures PageKey((KERNEL_OFFSET + a) % TWO64) == HighKey(a / PAGE_SIZE)
    ensures (KERNEL_OFFSET + a) % TWO64 % PAGE_SIZE == a % PAGE_SIZE
  {
    var q := a / PAGE_SIZE;
    if q < TOP_PAGES {
      assert (KERNEL_OFFSET + a) % TWO64 == KERNEL_OFFSET + a;
      assert (KERNEL_OFFSET + a) / PAGE_SIZE == 0x10_0000_0000_0000 - TOP_PAGES + q;
    } else {
      assert (KERNEL_OFFSET + a) % TWO64 == a - TOP_PAGES * PAGE_SIZE;
      assert (a - TOP_PAGES * PAGE_SIZE) / PAGE_SIZE == q - TOP_PAGES;
    }
  }

  /** Both mappings of one more framebuffer page. */
  lemma PageOfBoth(first: nat, q: nat, key: nat)
    requires first <= q < 0x8_0000_0000 && key < PAGE_KEYS
    ensures PageOf(DIRECT_PAGES, LOW_PAGES, first, q + 1, key)
            == if key == q || key == HighKey(q) then Some(q) else PageOf(DIRECT_PAGES, LOW_PAGES, first, q, key)
  {
  }

  /** Framebuffer page `j`, mapped at its own address and again above KERNEL_OFFSET. */
  lemma FbStep(s: View, t: View, u: View, kernelEnd: nat, base: nat, first: nat, j: nat)
    requires base + PAGE_SIZE * j < 0x8000_0000_0000 && first == base / PAGE_SIZE
    requires MapIs(s, DIRECT_PAGES, LOW_PAGES, first, first + j)
    requires Maps(s, t, kernelEnd, AddrIn(Fb(base), j), LeafEntry(base + PAGE_SIZE * j, WRITE))
    requires Maps(t, u, kernelEnd, AddrIn(FbHigh(base), j), LeafEntry(base + PAGE_SIZE * j, WRITE))
    ensures MapIs(u, DIRECT_PAGES, LOW_PAGES, first, first + j + 1)
  {
    hide Walk, Extends, PathsTo, LeafEntry, PageOf, AddrIn, PageKey;
    var q := first + j;
    FbKey(base, j);
    FbHighKey(base, j);
    forall w: nat
      ensures Walk(u.ram, u.root, w) == LeafOf(PageOf(DIRECT_PAGES, LOW_PAGES, first, q + 1, PageKey(w)))
    {
      KeyBound(w);
      PageOfBoth(first, q, PageKey(w));
    }
  }

  lemma KeyBound(w: nat)
    ensures PageKey(w) < PAGE_KEYS
  {
  }

  // The invariant of the mapping loops: tables come out of the budget.

  ghost predicate Building(s1: View, s: View, kernelEnd: nat, budget: set<Path>) {
    && Extends(s1, s, kernelEnd) && Writable(s)
    && Root in s.tables && s.tables.Keys <= budget
    && |budget| <= Supply(s1, kernelEnd)
  }

  lemma BuildingCanMap(s1: View, s: View, kernelEnd: nat, budget: set<Path>, v: nat)
    requires Building(s1, s, kernelEnd, budget) && PathsTo(v) <= budget
    ensures CanMap(s, kernelEnd, v)
  {
    Smaller(s.tables.Keys + PathsTo(v), budget);
  }

  lemma BuildingStep(s1: View, s: View, t: View, kernelEnd: nat, budget: set<Path>, v: nat, e: nat)
    requires Building(s1, s, kernelEnd, budget) && PathsTo(v) <= budget
    requires Maps(s, t, kernelEnd, v, e) && KernelEntry(e)
    ensures Building(s1, t, kernelEnd, budget)
  {
    hide KernelEntry, Walk;
    ExtendsTransitive(s1, s, t, kernelEnd);
    WritableStep(s, t, kernelEnd, v, e);
  }

  // The three mapping loops, each with what it keeps.

  ghost predicate DirectInv(s: View, keys: set<Path>, k: nat) {
    s.tables.Keys == keys + PathsIn(Direct, k) && MapIs(s, k, 0, 0, 0)
  }

  lemma DirectInvStep(s: View, t: View, kernelEnd: nat, keys: set<Path>, k: nat)
    requires DirectInv(s, keys, k) && k < DIRECT_PAGES
    requires Maps(s, t, kernelEnd, AddrIn(Direct, k), LeafEntry(PAGE_SIZE * k, WRITE))
    ensures DirectInv(t, keys, k + 1)
  {
    DirectStep(s, t, kernelEnd, k);
    PathsInStep(Direct, k);
  }

  lemma DirectInvStart(s: View)
    requires MapIs(s, 0, 0, 0, 0)
    ensures DirectInv(s, s.tables.Keys, 0)
  {
    NoPathsIn(Direct);
  }

  lemma LowInvStart(s: View)
    requires MapIs(s, DIRECT_PAGES, 0, 0, 0)
    ensures LowInv(s, s.tables.Keys, 0)
  {
    NoPathsIn(Low);
  }

  ghost predicate LowInv(s: View, keys: set<Path>, k: nat) {
    s.tables.Keys == keys + PathsIn(Low, k) && MapIs(s, DIRECT_PAGES, k, 0, 0)
  }

  lemma LowInvStep(s: View, t: View, kernelEnd: nat, keys: set<Path>, k: nat)
    requires LowInv(s, keys, k) && k < LOW_PAGES
    requires Maps(s, t, kernelEnd, AddrIn(Low, k), LeafEntry(PAGE_SIZE * k, WRITE))
    ensures LowInv(t, keys, k + 1)
  {
    LowStep(s, t, kernelEnd, k);
    PathsInStep(Low, k);
  }

  ghost predicate FbInv(s: View, fb: Framebuffer, keys: set<Path>, j: nat) {
    && s.tables.Keys == keys + (PathsIn(Fb(fb.addr), j) + PathsIn(FbHigh(fb.addr), j))
    && (FbFits(fb) ==> MapIs(s, DIRECT_PAGES, LOW_PAGES, fb.addr / PAGE_SIZE, fb.addr / PAGE_SIZE + j))
  }

  /** Both mappings of framebuffer page `j`. */
  ghost predicate MapsBoth(s: View, t: View, u: View, kernelEnd: nat, fb: Framebuffer, j: nat) {
    && Maps(s, t, kernelEnd, AddrIn(Fb(fb.addr), j), LeafEntry((fb.addr + PAGE_SIZE * j) % TWO64, WRITE))
    && Maps(t, u, kernelEnd, AddrIn(FbHigh(fb.addr), j), LeafEntry((fb.addr + PAGE_SIZE * j) % TWO64, WRITE))
  }

  lemma FbKeysStep(s: View, t: View, u: View, kernelEnd: nat, fb: Framebuffer, keys: set<Path>, j: nat)
    requires FbInv(s, fb, keys, j) && MapsBoth(s, t, u, kernelEnd, fb, j)
    ensures u.tables.Keys == keys + (PathsIn(Fb(fb.addr), j + 1) + PathsIn(FbHigh(fb.addr), j + 1))
  {
    PathsInStep(Fb(fb.addr), j);
    PathsInStep(FbHigh(fb.addr), j);
  }

  lemma FbPageBound(fb: Framebuffer, j: nat)
    requires FbFits(fb) && j < FbPages(fb)
    ensures fb.addr + PAGE_SIZE * j < 0x8000_0000_0000
    ensures (fb.addr + PAGE_SIZE * j) % TWO64 == fb.addr + PAGE_SIZE * j
  {
  }

  lemma FbInvStep(s: View, t: View, u: View, kernelEnd: nat, fb: Framebuffer, keys: set<Path>, j: nat)
    requires j < FbPages(fb) && FbInv(s, fb, keys, j) && MapsBoth(s, t, u, kernelEnd, fb, j)
    ensures FbInv(u, fb, keys, j + 1)
  {
    hide Walk, Extends, PathsTo, PathsIn, MapIs;
    FbKeysStep(s, t, u, kernelEnd, fb, keys, j);
    if FbFits(fb) {
      FbPageBound(fb, j);
      FbStep(s, t, u, kernelEnd, fb.addr, fb.addr / PAGE_SIZE, j);
    }
  }

  lemma FbInvStart(s: View, fb: Framebuffer)
    requires MapIs(s, DIRECT_PAGES, LOW_PAGES, 0, 0)
    ensures FbInv(s, fb, s.tables.Keys, 0)
  {
    hide Walk;
    var first := fb.addr / PAGE_SIZE;
    NoPathsIn(Fb(fb.addr));
    NoPathsIn(FbHigh(fb.addr));
    assert forall k: nat ::
        PageOf(DIRECT_PAGES, LOW_PAGES, 0, 0, k) == PageOf(DIRECT_PAGES, LOW_PAGES, first, first, k);
  }

  lemma FbAddresses(base: nat, j: nat)
    ensures (base + PAGE_SIZE * j) % TWO64 == AddrIn(Fb(base), j)
    ensures (KERNEL_OFFSET + (base + PAGE_SIZE * j) % TWO64) % TWO64 == AddrIn(FbHigh(base), j)
  {
    WrapAdd(KERNEL_OFFSET, base + PAGE_SIZE * j);
  }

  /** Wrapping early or late gives the same address. */
  lemma WrapAdd(k: nat, a: nat)
    ensures (k + a % TWO64) % TWO64 == (k + a) % TWO64
  {
    WrapMultiple(k + a % TWO64, a / TWO64);
    assert a == a / TWO64 * TWO64 + a % TWO64;
  }

  lemma WrapMultiple(x: nat, q: nat)
    ensures (x + q * TWO64) % TWO64 == x % TWO64
  {
    var y := x + q * TWO64;
    assert y == (x / TWO64 + q) * TWO64 + x % TWO64;
  }

  // The finished address space.

  ghost predicate Built(s: View, kernelEnd: nat, fb: Framebuffer, used0: set<nat>) {
    && s.tables.Keys == Budget(fb)
    && |FreeAbove(s.used, kernelEnd)| == |FreeAbove(used0, kernelEnd)| - |Budget(fb)|
    && used0 <= s.used && Writable(s)
    && (FbFits(fb) ==> forall w: nat :: Shows(s, fb, w))
  }

  /** Address `w` is mapped as the finished address space maps it. */
  ghost predicate Shows(s: View, fb: Framebuffer, w: nat) {
    var first := fb.addr / PAGE_SIZE;
    Walk(s.ram, s.root, w) == LeafOf(PageOf(DIRECT_PAGES, LOW_PAGES, first, first + FbPages(fb), PageKey(w)))
  }

  lemma BudgetCovers(fb: Framebuffer)
    ensures Root in Budget(fb)
    ensures PathsIn(Direct, DIRECT_PAGES) <= Budget(fb) && PathsIn(Low, LOW_PAGES) <= Budget(fb)
    ensures PathsIn(Fb(fb.addr), FbPages(fb)) <= Budget(fb) && PathsIn(FbHigh(fb.addr), FbPages(fb)) <= Budget(fb)
  {
  }

  lemma BudgetHasRoot(fb: Framebuffer, used: set<nat>, kernelEnd: nat)
    requires |Budget(fb)| <= |FreeAbove(used, kernelEnd)|
    ensures FreeAbove(used, kernelEnd) != {}
  {
    assert Root in Budget(fb);
  }

  lemma NothingMapped(s: View)
    requires s.tables == map[Root := s.root] && s.root < |s.ram| && s.ram[s.root] == ZeroFrame()
    ensures MapIs(s, 0, 0, 0, 0) && Writable(s)
  {
    hide KernelEntry;
    forall w: nat
      ensures Walk(s.ram, s.root, w) == None
    {
      TableAtTree(s.ram, s.root, s.tables, PathTo(w, 3));
    }
  }

  /** The address space right after its root table was zeroed. */
  lemma RootOnly(s: View, kernelEnd: nat, used0: set<nat>, budget: set<Path>)
    requires used0 <= AllBlocks() && IsLowestAbove(used0, kernelEnd, s.root)
    requires s.used == used0 + Below(s.root + 1) && s.tables == map[Root := s.root]
    requires |s.ram| == MAX_BLOCKS && s.ram[s.root] == ZeroFrame()
    requires Root in budget && |budget| <= |FreeAbove(used0, kernelEnd)|
    ensures Consistent(s, kernelEnd) && Building(s, s, kernelEnd, budget)
    ensures s.tables.Keys == {Root} && used0 <= s.used && MapIs(s, 0, 0, 0, 0)
    ensures Supply(s, kernelEnd) == |FreeAbove(used0, kernelEnd)|
  {
    NothingMapped(s);
    FreeAfterSafeAlloc(used0, kernelEnd, s.root);
    assert |FreeAbove(s.used, kernelEnd)| == |FreeAbove(used0, kernelEnd)| - 1;
    assert s.tables[Root] == s.root;
  }

  lemma BuiltEnd(s1: View, s: View, kernelEnd: nat, fb: Framebuffer, keys: set<Path>, used0: set<nat>)
    requires Building(s1, s, kernelEnd, Budget(fb)) && FbInv(s, fb, keys, FbPages(fb))
    requires keys == {Root} + PathsIn(Direct, DIRECT_PAGES) + PathsIn(Low, LOW_PAGES)
    requires used0 <= s1.used && Supply(s1, kernelEnd) == |FreeAbove(used0, kernelEnd)|
    ensures Built(s, kernelEnd, fb, used0)
  {
    hide Budget, Building, FreeAbove, Supply, Shows, Writable, MapIs, FbPages, PathsIn;
    BuiltKeys(s, fb, keys);
    BuiltFrames(s1, s, kernelEnd, fb, used0);
    if FbFits(fb) {
      ShowsAll(s, fb);
    }
  }

  lemma BuiltKeys(s: View, fb: Framebuffer, keys: set<Path>)
    requires FbInv(s, fb, keys, FbPages(fb))
    requires keys == {Root} + PathsIn(Direct, DIRECT_PAGES) + PathsIn(Low, LOW_PAGES)
    ensures s.tables.Keys == Budget(fb)
  {
    hide PathsIn, MapIs, FbPages;
    BudgetUnion(fb);
  }

  lemma BuiltFrames(s1: View, s: View, kernelEnd: nat, fb: Framebuffer, used0: set<nat>)
    requires Building(s1, s, kernelEnd, Budget(fb)) && s.tables.Keys == Budget(fb)
    requires used0 <= s1.used && Supply(s1, kernelEnd) == |FreeAbove(used0, kernelEnd)|
    ensures |FreeAbove(s.used, kernelEnd)| == |FreeAbove(used0, kernelEnd)| - |Budget(fb)|
    ensures used0 <= s.used && Writable(s)
  {
    hide Budget, FreeAbove, Writable;
    assert |s.tables| == |s.tables.Keys|;
  }

  lemma BudgetUnion(fb: Framebuffer)
    ensures Budget(fb)
            == {Root} + PathsIn(Direct, DIRECT_PAGES) + PathsIn(Low, LOW_PAGES)
               + (PathsIn(Fb(fb.addr), FbPages(fb)) + PathsIn(FbHigh(fb.addr), FbPages(fb)))
  {
    hide PathsIn, FbPages;
  }

  lemma ShowsAll(s: View, fb: Framebuffer)
    requires MapIs(s, DIRECT_PAGES, LOW_PAGES, fb.addr / PAGE_SIZE, fb.addr / PAGE_SIZE + FbPages(fb))
    ensures forall w: nat :: Shows(s, fb, w)
  {
    hide Walk, LeafOf, PageOf;
  }

  // What that means for addresses.

  lemma TranslateByPage(ram: seq<Frame>, root: nat, w: nat, page: nat)
    requires Walk(ram, root, w) == Some(LeafEntry(PAGE_SIZE * page, WRITE))
    ensures Translate(ram, root, w) == Some(PAGE_SIZE * page + w % PAGE_SIZE)
  {
  }

  lemma DirectAddress(p: nat)
    requires p < 512 * 1024 * 1024
    ensures PageKey(KERNEL_OFFSET + p) == PAGE_KEYS - TOP_PAGES + p / PAGE_SIZE
    ensures PAGE_SIZE * (p / PAGE_SIZE) + (KERNEL_OFFSET + p) % PAGE_SIZE == p
  {
    assert (KERNEL_OFFSET + p) / PAGE_SIZE == 0x10_0000_0000_0000 - TOP_PAGES + p / PAGE_SIZE;
  }

  /** Every physical address below 512 MiB is reachable at its direct-map
      address, so every frame the allocator hands out stays reachable. */
  lemma DirectMapClosed(s: View, fb: Framebuffer, p: nat)
    requires Shows(s, fb, KERNEL_OFFSET + p) && p < 512 * 1024 * 1024
    ensures Translate(s.ram, s.root, KERNEL_OFFSET + p) == Some(p)
  {
    hide Walk, Translate;
    DirectAddress(p);
    TranslateByPage(s.ram, s.root, KERNEL_OFFSET + p, p / PAGE_SIZE);
  }

  /** The framebuffer has a mapped page that holds physical address 2^31 + a. */
  predicate FbCovers(fb: Framebuffer, a: nat) {
    fb.addr / PAGE_SIZE <= TOP_PAGES + a / PAGE_SIZE < fb.addr / PAGE_SIZE + FbPages(fb)
  }

  lemma LowAddress(a: nat)
    requires a < 0x8000_0000_0000
    ensures PageKey(a) == a / PAGE_SIZE < PAGE_KEYS - TOP_PAGES
    ensures PAGE_SIZE * (a / PAGE_SIZE) + a % PAGE_SIZE == a
    ensures PAGE_SIZE * (TOP_PAGES + a / PAGE_SIZE) + a % PAGE_SIZE == 0x8000_0000 + a
  {
  }

  /** The low 16 MiB are mapped to themselves except where the framebuffer
      covers the same offset above 2 GiB: there the second mapping wraps and
      replaces the identity. */
  lemma LowIdentity(s: View, fb: Framebuffer, a: nat)
    requires Shows(s, fb, a) && a < 0x100_0000
    ensures Translate(s.ram, s.root, a) == Some(a) <==> !FbCovers(fb, a)
    ensures FbCovers(fb, a) ==> Translate(s.ram, s.root, a) == Some(0x8000_0000 + a)
  {
    hide Walk, Translate, FbPages;
    LowAddress(a);
    TranslateByPage(s.ram, s.root, a, if FbCovers(fb, a) then TOP_PAGES + a / PAGE_SIZE else a / PAGE_SIZE);
  }

  /** The size of the framebuffer in bytes, a product in 32 bits, rounded up to whole pages. */
  function RoundedSize(fb: Framebuffer): nat {
    var size := fb.pitch * fb.height % 0x1_0000_0000;
    if size % PAGE_SIZE == 0 then size else size - size % PAGE_SIZE + PAGE_SIZE
  }

  lemma PagesOfSize(fb: Framebuffer)
    requires fb.addr != 0
    ensures PAGE_SIZE * FbPages(fb) == RoundedSize(fb)
  {
    RoundUp(fb.pitch * fb.height % TWO32);
  }

  lemma RoundUp(size: nat)
    ensures PAGE_SIZE * ((size + PAGE_SIZE - 1) / PAGE_SIZE)
            == if size % PAGE_SIZE == 0 then size else size - size % PAGE_SIZE + PAGE_SIZE
  {
  }

  /** Byte `b` of the framebuffer lies in page number (addr % 4096 + b) / 4096 of it. */
  lemma FbByte(base: nat, b: nat, n: nat)
    ensures (base + b) / PAGE_SIZE == base / PAGE_SIZE + (base % PAGE_SIZE + b) / PAGE_SIZE
    ensures (base + b) / PAGE_SIZE < base / PAGE_SIZE + n <==> base % PAGE_SIZE + b < PAGE_SIZE * n
    ensures (base + b) / PAGE_SIZE + TOP_PAGES < base / PAGE_SIZE + n
            <==> base % PAGE_SIZE + b + 0x8000_0000 < PAGE_SIZE * n
  {
    var q, r := base / PAGE_SIZE, base % PAGE_SIZE;
    assert base == PAGE_SIZE * q + r;
    assert base + b == PAGE_SIZE * q + (r + b);
  }

  /** An address that a page number is looked up for leads to `a` exactly if it is
      mapped to the page of `a`. */
  lemma LeadsTo(s: View, w: nat, target: Option<nat>, a: nat)
    requires Walk(s.ram, s.root, w) == LeafOf(target) && w % PAGE_SIZE == a % PAGE_SIZE
    ensures Translate(s.ram, s.root, w) == Some(a) <==> target == Some(a / PAGE_SIZE)
  {
    hide Walk;
  }

  lemma OwnTarget(first: nat, last: nat, page: nat)
    requires first <= page < PAGE_KEYS - TOP_PAGES
    ensures PageOf(DIRECT_PAGES, LOW_PAGES, first, last, page) == Some(page)
            <==> (page < last || page < LOW_PAGES) && last <= page + TOP_PAGES
  {
  }

  lemma HighTarget(first: nat, last: nat, page: nat)
    requires first <= page < 0x8_0000_0000
    ensures PageOf(DIRECT_PAGES, LOW_PAGES, first, last, HighKey(page)) == Some(page)
            <==> page < last || page < DIRECT_PAGES
  {
  }

  /** Physical byte `b` from the framebuffer's first on is mapped to itself exactly if it
      lies in one of the pages that the loop counts from the first byte on, or below 16 MiB,
      and is not so far from the end that a wrapped page 2 GiB on replaces it. */
  lemma FramebufferByte(s: View, fb: Framebuffer, b: nat)
    requires FbFits(fb) && fb.addr != 0 && fb.addr + b < 0x8000_0000_0000 && Shows(s, fb, fb.addr + b)
    ensures var o, size := fb.addr % PAGE_SIZE + b, RoundedSize(fb);
      Translate(s.ram, s.root, fb.addr + b) == Some(fb.addr + b)
      <==> (o < size || fb.addr + b < 0x100_0000) && o + 0x8000_0000 >= size
  {
    hide Walk, Translate, FbPages, RoundedSize, PageOf, LeafOf;
    var a, first, last := fb.addr + b, fb.addr / PAGE_SIZE, fb.addr / PAGE_SIZE + FbPages(fb);
    PagesOfSize(fb);
    FbByte(fb.addr, b, FbPages(fb));
    LowAddress(a);
    OwnTarget(first, last, a / PAGE_SIZE);
    LeadsTo(s, a, PageOf(DIRECT_PAGES, LOW_PAGES, first, last, a / PAGE_SIZE), a);
    BelowPages(a, LOW_PAGES);
  }

  lemma BelowPages(a: nat, n: nat)
    ensures a / PAGE_SIZE < n <==> a < PAGE_SIZE * n
  {
  }

  lemma SizeBound(fb: Framebuffer, b: nat)
    requires FbFits(fb) && fb.addr != 0 && b < fb.pitch * fb.height < TWO32
    ensures b < RoundedSize(fb) && fb.addr + b < 0x8000_0000_0000
  {
    PagesOfSize(fb);
  }

  /** At KERNEL_OFFSET plus its address it is mapped exactly if it lies in one of those
      pages, or below 512 MiB. */
  lemma FramebufferHighByte(s: View, fb: Framebuffer, b: nat)
    requires FbFits(fb) && fb.addr != 0 && fb.addr + b < 0x8000_0000_0000
    requires Shows(s, fb, (KERNEL_OFFSET + fb.addr + b) % TWO64)
    ensures Translate(s.ram, s.root, (KERNEL_OFFSET + fb.addr + b) % TWO64) == Some(fb.addr + b)
            <==> fb.addr % PAGE_SIZE + b < RoundedSize(fb) || fb.addr + b < 512 * 1024 * 1024
  {
    hide Walk, Translate, FbPages, RoundedSize, PageOf, LeafOf, HighKey, PageKey;
    var a, first, last := fb.addr + b, fb.addr / PAGE_SIZE, fb.addr / PAGE_SIZE + FbPages(fb);
    PagesOfSize(fb);
    FbByte(fb.addr, b, FbPages(fb));
    LowAddress(a);
    HighAddress(a);
    HighTarget(first, last, a / PAGE_SIZE);
    LeadsTo(s, (KERNEL_OFFSET + a) % TWO64, PageOf(DIRECT_PAGES, LOW_PAGES, first, last, HighKey(a / PAGE_SIZE)), a);
    BelowPages(a, DIRECT_PAGES);
  }

  /** A framebuffer that starts on a page and takes at most 2 GiB is mapped whole. */
  lemma FramebufferWhole(s: View, fb: Framebuffer, b: nat)
    requires FbFits(fb) && fb.addr != 0 && fb.addr % PAGE_SIZE == 0
    requires b < fb.pitch * fb.height <= 0x8000_0000
    ensures Shows(s, fb, fb.addr + b) ==> Translate(s.ram, s.root, fb.addr + b) == Some(fb.addr + b)
    ensures var w := (KERNEL_OFFSET + fb.addr + b) % TWO64;
      Shows(s, fb, w) ==> Translate(s.ram, s.root, w) == Some(fb.addr + b)
  {
    hide Translate, Shows, FbPages, RoundedSize;
    SizeBound(fb, b);
    RoundedBound(fb);
    if Shows(s, fb, fb.addr + b) {
      FramebufferByte(s, fb, b);
    }
    if Shows(s, fb, (KERNEL_OFFSET + fb.addr + b) % TWO64) {
      FramebufferHighByte(s, fb, b);
    }
  }

  /** Of one page of framebuffer that starts in the middle of a page the second half is not mapped. */
  lemma FramebufferCut(s: View, fb: Framebuffer, b: nat)
    requires fb == Framebuffer(0x4000_0800, 4096, 1024, 1, 32) && b < 4096 && Shows(s, fb, fb.addr + b)
    ensures b < fb.pitch * fb.height && (Translate(s.ram, s.root, fb.addr + b) == Some(fb.addr + b) <==> b < 0x800)
  {
    hide Translate, Shows;
    FramebufferByte(s, fb, b);
  }

  lemma RoundedBound(fb: Framebuffer)
    requires fb.pitch * fb.height <= 0x8000_0000
    ensures RoundedSize(fb) <= 0x8000_0000
  {
  }

  // How many frames the tables take.

  ghost function LeafTables(p: Path, n: nat): (t: set<Path>)
    ensures forall i: nat {:trigger Sub(p, i)} :: i < n ==> Sub(p, i) in t
    ensures |t| <= n
  {
    if n == 0 then {}
    else
      UnionSize(LeafTables(p, n - 1), {Sub(p, n - 1)});
      LeafTables(p, n - 1) + {Sub(p, n - 1)}
  }

  lemma UnionSize<T>(a: set<T>, b: set<T>)
    ensures |a + b| <= |a| + |b|
  {
    assert a + b == a + (b - a);
    Smaller(b - a, b);
  }

  /** A region inside one GiB takes one table, one below it, and its leaf tables. */
  lemma RegionSize(r: Region, n: nat, i4: nat, i3: nat, leaves: nat)
    requires forall k: nat | k < n ::
               L4(AddrIn(r, k)) == i4 && L3(AddrIn(r, k)) == i3 && L2(AddrIn(r, k)) < leaves
    ensures |PathsIn(r, n)| <= leaves + 2
  {
    hide L4, L3, L2, AddrIn;
    var top := Sub(Root, i4);
    var mid := Sub(top, i3);
    var all := {top, mid} + LeafTables(mid, leaves);
    forall p | p in PathsIn(r, n)
      ensures p in all
    {
      var k: nat :| k < n && p in PathsTo(AddrIn(r, k));
      PathThreeLevels(AddrIn(r, k));
      assert Sub(mid, L2(AddrIn(r, k))) in LeafTables(mid, leaves);
    }
    UnionSize({top, mid}, LeafTables(mid, leaves));
    Smaller(PathsIn(r, n), all);
  }

  lemma DirectIndices(k: nat)
    requires k < DIRECT_PAGES
    ensures L4(AddrIn(Direct, k)) == 511 && L3(AddrIn(Direct, k)) == 510 && L2(AddrIn(Direct, k)) == k / 512
  {
    var v := AddrIn(Direct, k);
    assert v / 0x20_0000 == 0x7FF_FFFF_FC00 + k / 512;
    assert v / 0x4000_0000 == 0x3_FFFF_FFFE;
    assert v / 0x80_0000_0000 == 0x1FF_FFFF;
  }

  lemma PathThreeLevels(v: nat)
    ensures PathsTo(v) == {Sub(Root, L4(v)), Sub(Sub(Root, L4(v)), L3(v)), Sub(Sub(Sub(Root, L4(v)), L3(v)), L2(v))}
  {
    PathThree(v);
    assert PathTo(v, 0) == Root;
    assert PathTo(v, 1) == Sub(PathTo(v, 0), L4(v));
    assert PathTo(v, 2) == Sub(PathTo(v, 1), L3(v));
  }

  lemma LowIndices(k: nat)
    requires k < LOW_PAGES
    ensures L4(AddrIn(Low, k)) == 0 && L3(AddrIn(Low, k)) == 0 && L2(AddrIn(Low, k)) < 8
  {
  }

  lemma PathsToSize(v: nat)
    ensures |PathsTo(v)| <= 3
  {
    UnionSize({PathTo(v, 1), PathTo(v, 2)}, {PathTo(v, 3)});
    UnionSize({PathTo(v, 1)}, {PathTo(v, 2)});
    assert PathsTo(v) == {PathTo(v, 1), PathTo(v, 2)} + {PathTo(v, 3)};
    assert {PathTo(v, 1), PathTo(v, 2)} == {PathTo(v, 1)} + {PathTo(v, 2)};
  }

  lemma {:induction false} PathsInSize(r: Region, n: nat)
    ensures |PathsIn(r, n)| <= 3 * n
  {
    hide PathsTo, PathsIn, AddrIn;
    if n == 0 {
      NoPathsIn(r);
    } else {
      PathsInSize(r, n - 1);
      PathsInStep(r, n - 1);
      PathsToSize(AddrIn(r, n - 1));
      UnionSize(PathsIn(r, n - 1), PathsTo(AddrIn(r, n - 1)));
    }
  }

  /** The whole address space never takes more than 269 tables and six for
      every page of the framebuffer. */
  lemma BudgetSize(fb: Framebuffer)
    ensures |Budget(fb)| <= 269 + 6 * FbPages(fb)
  {
    hide L4, L3, L2, AddrIn, PathsIn;
    var a, b := PathsIn(Direct, DIRECT_PAGES), PathsIn(Low, LOW_PAGES);
    var c, d := PathsIn(Fb(fb.addr), FbPages(fb)), PathsIn(FbHigh(fb.addr), FbPages(fb));
    forall k: nat | k < DIRECT_PAGES
      ensures L4(AddrIn(Direct, k)) == 511 && L3(AddrIn(Direct, k)) == 510 && L2(AddrIn(Direct, k)) < 256
    {
      DirectIndices(k);
    }
    RegionSize(Direct, DIRECT_PAGES, 511, 510, 256);
    forall k: nat | k < LOW_PAGES
      ensures L4(AddrIn(Low, k)) == 0 && L3(AddrIn(Low, k)) == 0 && L2(AddrIn(Low, k)) < 8
    {
      LowIndices(k);
    }
    RegionSize(Low, LOW_PAGES, 0, 0, 8);
    PathsInSize(Fb(fb.addr), FbPages(fb));
    PathsInSize(FbHigh(fb.addr), FbPages(fb));
    UnionSize({Root}, a);
    UnionSize({Root} + a, b);
    UnionSize({Root} + a + b, c);
    UnionSize({Root} + a + b + c, d);
  }
}
