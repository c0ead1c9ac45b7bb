/** What the mapping code keeps and does, on values: the page tables in memory
    together with the frames in use. */
module Mapping {
  import opened Bits
  import opened Machine
  import opened PageTables
  import opened Pmm

  const KERNEL_OFFSET: nat := 0xFFFF_FFFF_8000_0000

  /** What the mapping code works on: memory, the root frame, the tree of
      tables in memory, and the frames in use. */
  datatype View = View(ram: seq<Frame>, root: nat, tables: map<Path, nat>, used: set<nat>)

  /** The tables form a tree of frames that are in use and lie above the kernel. */
  ghost predicate Consistent(s: View, kernelEnd: nat) {
    && |s.ram| == MAX_BLOCKS && Tree(s.ram, s.root, s.tables)
    && s.used <= AllBlocks() && LowUsed(s.used, kernelEnd)
    && forall p :: p in s.tables ==> s.tables[p] in s.used && s.tables[p] * PAGE_SIZE > kernelEnd
  }

  /** Free frames plus table frames. */
  ghost function Supply(s: View, kernelEnd: nat): nat {
    |FreeAbove(s.used, kernelEnd)| + |s.tables|
  }

  /** Enough frames for the tables that `v` still lacks. */
  ghost predicate CanMap(s: View, kernelEnd: nat, v: nat) {
    |s.tables.Keys + PathsTo(v)| <= Supply(s, kernelEnd)
  }

  /** `t` has the tables of `s` and some new ones in frames that were free. */
  ghost predicate Extends(s: View, t: View, kernelEnd: nat) {
    && t.root == s.root
    && s.tables.Keys <= t.tables.Keys
    && (forall p :: p in s.tables ==> t.tables[p] == s.tables[p])
    && (forall p :: p in t.tables && p !in s.tables ==> t.tables[p] !in s.used)
    && t.used == s.used + t.tables.Values
    && Supply(t, kernelEnd) == Supply(s, kernelEnd)
  }

  ghost predicate SameWalks(s: View, t: View) {
    forall w: nat :: Walk(t.ram, t.root, w) == Walk(s.ram, s.root, w)
  }

  ghost function PathsUpTo(v: nat, d: nat): set<Path>
    requires d <= 3
  {
    set k: nat | k <= d && k <= 3 :: PathTo(v, k)
  }

  /** The descent of MapPage after `d` levels. */
  ghost predicate Descends(s0: View, s: View, kernelEnd: nat, v: nat, d: nat, p: Path, current: nat) {
    && d <= 3 && p == PathTo(v, d)
    && Extends(s0, s, kernelEnd) && SameWalks(s0, s)
    && s.tables.Keys == s0.tables.Keys + PathsUpTo(v, d)
    && p in s.tables && s.tables[p] == current
  }

  lemma DescendsStart(s: View, kernelEnd: nat, v: nat)
    requires Consistent(s, kernelEnd)
    ensures Descends(s, s, kernelEnd, v, 0, Root, s.root)
  {
    assert PathTo(v, 0) == Root;
    assert PathsUpTo(v, 0) == {Root};
    assert s.tables.Values <= s.used;
  }

  lemma PathsUpToStep(v: nat, d: nat)
    requires d < 3
    ensures PathsUpTo(v, d + 1) == PathsUpTo(v, d) + {Sub(PathTo(v, d), Index(v, d))}
  {
    assert PathTo(v, d + 1) == Sub(PathTo(v, d), Index(v, d));
  }

  lemma PathsUpToThree(v: nat)
    ensures PathsUpTo(v, 3) == {Root} + PathsTo(v)
  {
    assert PathTo(v, 0) == Root;
    forall p | p in PathsUpTo(v, 3)
      ensures p in {Root} + PathsTo(v)
    {
      var k: nat :| k <= 3 && p == PathTo(v, k);
      assert k == 0 || k == 1 || k == 2 || k == 3;
    }
  }

  /** A slot that is not present is one whose table does not exist. */
  lemma SlotMeans(s: View, kernelEnd: nat, p: Path, i: nat)
    requires Consistent(s, kernelEnd) && p in s.tables && Depth(p) < 3 && i < 512
    ensures s.ram[s.tables[p]][i] % 2 == 1 <==> Sub(p, i) in s.tables
    ensures Sub(p, i) in s.tables ==> s.ram[s.tables[p]][i] / PAGE_SIZE == s.tables[Sub(p, i)]
  {
    var e := s.ram[s.tables[p]][i];
    assert e == if Sub(p, i) in s.tables then Link(s.tables[Sub(p, i)]) else 0;
  }

  lemma DescendExisting(s0: View, s: View, kernelEnd: nat, v: nat, d: nat, p: Path, current: nat)
    requires Descends(s0, s, kernelEnd, v, d, p, current) && d < 3
    requires Sub(p, Index(v, d)) in s.tables
    ensures Descends(s0, s, kernelEnd, v, d + 1, Sub(p, Index(v, d)), s.tables[Sub(p, Index(v, d))])
  {
    PathsUpToStep(v, d);
  }

  lemma PathsUpToMore(v: nat, d: nat)
    requires d <= 3
    ensures PathsUpTo(v, d) <= PathsUpTo(v, 3)
  {
  }

  /** While a table is missing there is a frame for it. */
  lemma FrameLeft(s0: View, s: View, kernelEnd: nat, v: nat, d: nat, p: Path, current: nat)
    requires Descends(s0, s, kernelEnd, v, d, p, current) && d < 3
    requires CanMap(s0, kernelEnd, v) && Root in s0.tables
    requires Sub(p, Index(v, d)) !in s.tables
    ensures FreeAbove(s.used, kernelEnd) != {}
  {
    hide Tree, Walk, SameWalks, PathsTo, PathTo, FreeAbove, Index, PathsUpTo;
    var c := Sub(p, Index(v, d));
    PathsUpToStep(v, d);
    PathsUpToThree(v);
    PathsUpToMore(v, d + 1);
    assert s.tables.Keys + {c} <= s0.tables.Keys + PathsTo(v);
    Smaller(s.tables.Keys + {c}, s0.tables.Keys + PathsTo(v));
  }

  lemma {:induction false} Smaller<T>(a: set<T>, b: set<T>)
    requires a <= b
    ensures |a| <= |b|
  {
    if a != {} {
      var x :| x in a;
      Smaller(a - {x}, b - {x});
    }
  }

  /** The state after a fresh frame `f` has become the missing table. */
  ghost predicate NewTable(s: View, s': View, kernelEnd: nat, p: Path, i: nat, f: nat) {
    && p in s.tables && Depth(p) < 3 && i < 512 && Sub(p, i) !in s.tables
    && IsLowestAbove(s.used, kernelEnd, f)
    && s'.root == s.root
    && s'.used == s.used + Below(f + 1)
    && s'.tables == s.tables[Sub(p, i) := f]
    && |s.ram| == MAX_BLOCKS && s.tables[p] < MAX_BLOCKS
    && s'.ram == s.ram[f := ZeroFrame()][s.tables[p] := s.ram[s.tables[p]][i := Link(f)]]
  }

  lemma NewTableTree(s: View, s': View, kernelEnd: nat, p: Path, i: nat, f: nat)
    requires Consistent(s, kernelEnd) && NewTable(s, s', kernelEnd, p, i, f)
    ensures Tree(s'.ram, s'.root, s'.tables) && SameWalks(s, s')
  {
    assert f !in s.tables.Values;
    assert Hangs(s.ram, s.root, s.tables, p, i, f, s'.ram, s'.tables);
    AddTable(s.ram, s.root, s.tables, p, i, f, s'.ram, s'.tables);
  }

  lemma NewTableExtends(s: View, s': View, kernelEnd: nat, p: Path, i: nat, f: nat)
    requires Consistent(s, kernelEnd) && NewTable(s, s', kernelEnd, p, i, f)
    ensures Extends(s, s', kernelEnd)
    ensures f !in s.used && s'.used == s.used + {f}
  {
    FreeAfterSafeAlloc(s.used, kernelEnd, f);
    assert |s'.tables| == |s.tables| + 1 by {
      assert s'.tables.Keys == s.tables.Keys + {Sub(p, i)};
      assert |s'.tables.Keys| == |s.tables.Keys| + 1;
    }
    assert |FreeAbove(s'.used, kernelEnd)| == |FreeAbove(s.used, kernelEnd)| - 1;
    NewTableValues(s, s', kernelEnd, p, i, f);
  }

  lemma NewTableConsistent(s: View, s': View, kernelEnd: nat, p: Path, i: nat, f: nat)
    requires Consistent(s, kernelEnd) && NewTable(s, s', kernelEnd, p, i, f)
    ensures Consistent(s', kernelEnd)
  {
    NewTableTree(s, s', kernelEnd, p, i, f);
    FreeAfterSafeAlloc(s.used, kernelEnd, f);
  }

  lemma NewTableValues(s: View, s': View, kernelEnd: nat, p: Path, i: nat, f: nat)
    requires Consistent(s, kernelEnd) && NewTable(s, s', kernelEnd, p, i, f)
    requires s'.used == s.used + {f}
    ensures s'.used == s.used + s'.tables.Values
  {
    assert Sub(p, i) in s'.tables && s'.tables[Sub(p, i)] == f;
    assert f in s'.tables.Values;
    forall x | x in s'.tables.Values
      ensures x in s.used + {f}
    {
      var q :| q in s'.tables && s'.tables[q] == x;
    }
  }

  lemma DescendNew(s0: View, s: View, s': View, kernelEnd: nat, v: nat, d: nat, p: Path, current: nat, f: nat)
    requires Consistent(s, kernelEnd) && Descends(s0, s, kernelEnd, v, d, p, current) && d < 3
    requires NewTable(s, s', kernelEnd, p, Index(v, d), f)
    ensures Consistent(s', kernelEnd) && Descends(s0, s', kernelEnd, v, d + 1, Sub(p, Index(v, d)), f)
  {
    NewTableConsistent(s, s', kernelEnd, p, Index(v, d), f);
    NewTableTree(s, s', kernelEnd, p, Index(v, d), f);
    NewTableExtends(s, s', kernelEnd, p, Index(v, d), f);
    DescendsOver(s0, s, s', kernelEnd, v, d, p, current, f);
  }

  lemma DescendsOver(s0: View, s: View, s': View, kernelEnd: nat, v: nat, d: nat, p: Path, current: nat, f: nat)
    requires Descends(s0, s, kernelEnd, v, d, p, current) && d < 3
    requires Extends(s, s', kernelEnd) && SameWalks(s, s')
    requires s'.tables == s.tables[Sub(p, Index(v, d)) := f]
    ensures Descends(s0, s', kernelEnd, v, d + 1, Sub(p, Index(v, d)), f)
  {
    hide Walk, PathsUpTo, Supply;
    PathsUpToStep(v, d);
    ExtendsTransitive(s0, s, s', kernelEnd);
  }

  lemma ExtendsTransitive(s: View, t: View, u: View, kernelEnd: nat)
    requires Extends(s, t, kernelEnd) && Extends(t, u, kernelEnd)
    ensures Extends(s, u, kernelEnd)
  {
    assert t.tables.Values <= u.tables.Values by {
      forall x | x in t.tables.Values
        ensures x in u.tables.Values
      {
        var q :| q in t.tables && t.tables[q] == x;
        assert u.tables[q] == x;
      }
    }
  }

  /** The leaf entry that maps a page: flags other than the low twelve bits are not used. */
  function LeafEntry(physical: nat, flags: nat): (e: nat)
    requires flags < PAGE_SIZE
    ensures e % 2 == 1 && e / PAGE_SIZE == physical / PAGE_SIZE
  {
    physical - physical % PAGE_SIZE + (if flags % 2 == 0 then flags + PRESENT else flags)
  }

  /** `e` names the frame of `physical`, and its low twelve bits are the flags with
      the present bit. */
  ghost predicate PageEntry(e: nat, physical: nat, flags: nat) {
    && e / PAGE_SIZE == physical / PAGE_SIZE
    && forall k: nat | k < 12 :: Test(e, k) <==> k == 0 || Test(flags, k)
  }

  lemma LeafBits(physical: nat, flags: nat)
    requires flags < PAGE_SIZE
    ensures PageEntry(LeafEntry(physical, flags), physical, flags)
  {
    var q := physical / PAGE_SIZE;
    var f := if flags % 2 == 0 then flags + PRESENT else flags;
    Pow2Twelve();
    assert LeafEntry(physical, flags) == q * Pow2(12) + f;
    forall k: nat | k < 12
      ensures Test(LeafEntry(physical, flags), k) <==> k == 0 || Test(flags, k)
    {
      LowBits(q, f, 12, k);
      if k > 0 {
        assert f / 2 == flags / 2;
      }
    }
  }

  lemma Pow2Twelve()
    ensures Pow2(12) == PAGE_SIZE
  {
    Pow2Eight();
    assert Pow2(12) == 2 * Pow2(11) && Pow2(11) == 2 * Pow2(10) && Pow2(10) == 2 * Pow2(9) && Pow2(9) == 2 * Pow2(8);
  }

  /** Present and writable, and no other flag. */
  ghost predicate KernelEntry(e: nat) {
    forall k: nat | k < 12 :: Test(e, k) <==> k < 2
  }

  /** The entry that a walk of `v` reads in the table of level `d`; level 3 is the leaf. */
  function WalkEntry(s: View, v: nat, d: nat): Option<nat>
    requires d <= 3
  {
    EntryAt(s.ram, s.root, PathTo(v, d), if d == 3 then L1(v) else Index(v, d))
  }

  /** Every mapped page is writable as far as its leaf entry goes. */
  ghost predicate Writable(s: View) {
    forall w: nat :: var e := Walk(s.ram, s.root, w); e.Some? ==> KernelEntry(e.value)
  }

  lemma WritableStep(s: View, t: View, kernelEnd: nat, v: nat, e: nat)
    requires Writable(s) && Maps(s, t, kernelEnd, v, e) && KernelEntry(e)
    ensures Writable(t)
  {
    hide Walk, KernelEntry, Extends, PathsTo;
  }

  lemma WritableLeaf(physical: nat, flags: nat)
    requires flags == WRITE || flags == PRESENT + WRITE
    ensures KernelEntry(LeafEntry(physical, flags))
  {
    LeafBits(physical, flags);
    var e := LeafEntry(physical, flags);
    forall k: nat | k < 12
      ensures Test(e, k) <==> k < 2
    {
      assert Test(e, k) <==> k == 0 || Test(flags, k);
      BitsOfWrite(k);
    }
  }

  lemma BitsOfWrite(k: nat)
    ensures Test(WRITE, k) <==> k == 1
    ensures Test(PRESENT + WRITE, k) <==> k < 2
  {
    if k >= 1 {
      assert Test(2, k) == Test(1, k - 1) && Test(3, k) == Test(1, k - 1);
      if k >= 2 {
        assert Test(1, k - 1) == Test(0, k - 2);
        ZeroByte(k - 2);
      }
    }
  }

  lemma LinkBits(f: nat)
    ensures KernelEntry(Link(f))
  {
    Pow2Twelve();
    forall k: nat | k < 12
      ensures Test(Link(f), k) <==> k < 2
    {
      LowBits(f, PRESENT + WRITE, 12, k);
      BitsOfWrite(k);
    }
  }

  /** Then every entry that a walk of a mapped address reads is writable, in the upper
      tables as well. */
  lemma EveryLevelWritable(s: View, kernelEnd: nat, v: nat, d: nat)
    requires Consistent(s, kernelEnd) && Writable(s) && d <= 3 && Translate(s.ram, s.root, v).Some?
    ensures WalkEntry(s, v, d).Some? && KernelEntry(WalkEntry(s, v, d).value)
  {
    hide Test, KernelEntry;
    if d < 3 {
      TableAtTree(s.ram, s.root, s.tables, PathTo(v, 3));
      UpperTables(s, kernelEnd, v, d);
      TableAtTree(s.ram, s.root, s.tables, PathTo(v, d));
      SlotMeans(s, kernelEnd, PathTo(v, d), Index(v, d));
      var e := s.ram[s.tables[PathTo(v, d)]][Index(v, d)];
      assert e == Link(s.tables[Sub(PathTo(v, d), Index(v, d))]);
      LinkBits(s.tables[Sub(PathTo(v, d), Index(v, d))]);
    }
  }

  /** The tables above one that exists exist. */
  lemma {:induction false} UpperTables(s: View, kernelEnd: nat, v: nat, d: nat)
    requires Consistent(s, kernelEnd) && PathTo(v, 3) in s.tables && d < 3
    ensures PathTo(v, d) in s.tables && Sub(PathTo(v, d), Index(v, d)) in s.tables
    decreases 3 - d
  {
    assert PathTo(v, d + 1) == Sub(PathTo(v, d), Index(v, d));
    if d < 2 {
      UpperTables(s, kernelEnd, v, d + 1);
    }
  }

  /** Mapping a page is a point update of the translation, keyed by bits 12..47
      of the virtual address; the tables of `v` exist afterwards and any new one
      lives in a frame that was free. */
  ghost predicate Maps(s: View, t: View, kernelEnd: nat, v: nat, e: nat) {
    && Extends(s, t, kernelEnd)
    && t.tables.Keys == s.tables.Keys + PathsTo(v)
    && forall w: nat :: Walk(t.ram, t.root, w) == if PageKey(w) == PageKey(v) then Some(e) else Walk(s.ram, s.root, w)
  }

  lemma MapsPage(s0: View, s: View, t: View, kernelEnd: nat, v: nat, p: Path, current: nat, e: nat)
    requires Consistent(s, kernelEnd) && Descends(s0, s, kernelEnd, v, 3, p, current)
    requires Root in s0.tables && e % 2 == 1
    requires t == s.(ram := s.ram[current := s.ram[current][L1(v) := e]])
    ensures Consistent(t, kernelEnd) && Maps(s0, t, kernelEnd, v, e)
  {
    MapsLeaf(s, t, v, p, current, e);
    MapsFrom(s0, s, t, kernelEnd, v, p, current, e);
  }

  lemma MapsLeaf(s: View, t: View, v: nat, p: Path, current: nat, e: nat)
    requires Tree(s.ram, s.root, s.tables) && e % 2 == 1
    requires p == PathTo(v, 3) && p in s.tables && s.tables[p] == current
    requires t == s.(ram := s.ram[current := s.ram[current][L1(v) := e]])
    ensures Tree(t.ram, t.root, t.tables)
    ensures forall w: nat ::
      Walk(t.ram, t.root, w) == if PageKey(w) == PageKey(v) then Some(e) else Walk(s.ram, s.root, w)
  {
    SetLeaf(s.ram, s.root, s.tables, v, e, t.ram);
  }

  lemma MapsFrom(s0: View, s: View, t: View, kernelEnd: nat, v: nat, p: Path, current: nat, e: nat)
    requires Descends(s0, s, kernelEnd, v, 3, p, current) && Root in s0.tables
    requires t.root == s.root && t.tables == s.tables && t.used == s.used
    requires forall w: nat ::
      Walk(t.ram, t.root, w) == if PageKey(w) == PageKey(v) then Some(e) else Walk(s.ram, s.root, w)
    ensures Maps(s0, t, kernelEnd, v, e)
  {
    PathsUpToThree(v);
  }
}
