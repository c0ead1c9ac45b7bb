/** Four-level page tables as values: physical memory is a sequence of 4 KiB
    frames of 512 entries each, and the tables in it form a tree of paths
    (section 4.5 of the Intel SDM, Volume 3A). */
module PageTables {
  import opened Machine

  /** Distinct pages of the 48-bit virtual address space: bits 12..47. */
  const PAGE_KEYS: nat := 0x10_0000_0000
  const PRESENT: nat := 1
  const WRITE: nat := 2

  type Frame = s: seq<nat> | |s| == 512 witness seq(512, _ => 0)

  function ZeroFrame(): (f: Frame)
    ensures forall i | 0 <= i < 512 :: f[i] == 0
  {
    seq(512, _ => 0)
  }

  function L4(v: nat): nat { v / 0x80_0000_0000 % 512 }
  function L3(v: nat): nat { v / 0x4000_0000 % 512 }
  function L2(v: nat): nat { v / 0x20_0000 % 512 }
  function L1(v: nat): nat { v / 0x1000 % 512 }

  /** Bits 12..47 of a virtual address. */
  function PageKey(v: nat): nat { v / PAGE_SIZE % PAGE_KEYS }

  /** The four indices say exactly as much as bits 12..47. */
  lemma PageKeyIsIndices(v: nat)
    ensures PageKey(v) == ((L4(v) * 512 + L3(v)) * 512 + L2(v)) * 512 + L1(v)
  {
    var n := v / PAGE_SIZE;
    var a := n / 512;
    var b := a / 512;
    var c := b / 512;
    assert v / 0x20_0000 == a && v / 0x4000_0000 == b && v / 0x80_0000_0000 == c;
    Digits(n, a, b, c);
  }

  lemma Digits(n: nat, a: nat, b: nat, c: nat)
    requires a == n / 512 && b == a / 512 && c == b / 512
    ensures n % PAGE_KEYS == ((c % 512 * 512 + b % 512) * 512 + a % 512) * 512 + n % 512
  {
    var d0, d1, d2, d3 := n % 512, a % 512, b % 512, c % 512;
    assert n == 512 * a + d0 && a == 512 * b + d1 && b == 512 * c + d2 && c == 512 * (c / 512) + d3;
    ModUnique(n, c / 512, ((d3 * 512 + d2) * 512 + d1) * 512 + d0);
  }

  lemma ModUnique(n: nat, q: nat, r: nat)
    requires n == q * PAGE_KEYS + r && r < PAGE_KEYS
    ensures n % PAGE_KEYS == r
  {
  }

  lemma SameKey(v: nat, w: nat)
    ensures PageKey(v) == PageKey(w) <==> L4(v) == L4(w) && L3(v) == L3(w) && L2(v) == L2(w) && L1(v) == L1(w)
  {
    PageKeyIsIndices(v);
    PageKeyIsIndices(w);
  }

  // Tables are named by the indices that lead to them.

  datatype Path = Root | Sub(parent: Path, idx: nat)

  function Depth(p: Path): nat {
    match p
    case Root => 0
    case Sub(q, _) => Depth(q) + 1
  }

  predicate PathOk(p: Path) {
    match p
    case Root => true
    case Sub(q, i) => i < 512 && PathOk(q)
  }

  /** The index used to go from level `d` to the next table. */
  function Index(v: nat, d: nat): nat
    requires d < 3
  {
    if d == 0 then L4(v) else if d == 1 then L3(v) else L2(v)
  }

  /** The level-`d` table on the way to `v`. */
  function PathTo(v: nat, d: nat): (p: Path)
    requires d <= 3
    ensures PathOk(p) && Depth(p) == d
  {
    if d == 0 then Root else Sub(PathTo(v, d - 1), Index(v, d - 1))
  }

  /** The tables below the root that a walk of `v` goes through. */
  function PathsTo(v: nat): set<Path> {
    {PathTo(v, 1), PathTo(v, 2), PathTo(v, 3)}
  }

  lemma PathThree(v: nat)
    ensures PathTo(v, 3) == Sub(Sub(Sub(Root, L4(v)), L3(v)), L2(v))
  {
    assert PathTo(v, 0) == Root;
    assert PathTo(v, 1) == Sub(PathTo(v, 0), L4(v));
    assert PathTo(v, 2) == Sub(PathTo(v, 1), L3(v));
    assert PathTo(v, 3) == Sub(PathTo(v, 2), L2(v));
  }

  lemma SameKeyPath(v: nat, w: nat)
    ensures PageKey(v) == PageKey(w) <==> PathTo(v, 3) == PathTo(w, 3) && L1(v) == L1(w)
  {
    SameKey(v, w);
    PathThree(v);
    PathThree(w);
  }

  // The hardware walk.

  function Follow(ram: seq<Frame>, f: nat, i: nat): Option<nat>
    requires i < 512
  {
    if f < |ram| && ram[f][i] % 2 == 1 then Some(ram[f][i] / PAGE_SIZE) else None
  }

  /** The frame of the table at path `p`. */
  function TableAt(ram: seq<Frame>, root: nat, p: Path): Option<nat>
    requires PathOk(p)
  {
    match p
    case Root => Some(root)
    case Sub(q, i) =>
      match TableAt(ram, root, q)
      case None => None
      case Some(f) => Follow(ram, f, i)
  }

  /** The present entry `i` of the table at path `p`, if any. */
  function EntryAt(ram: seq<Frame>, root: nat, p: Path, i: nat): Option<nat>
    requires PathOk(p) && i < 512
  {
    match TableAt(ram, root, p)
    case None => None
    case Some(f) => if f < |ram| && ram[f][i] % 2 == 1 then Some(ram[f][i]) else None
  }

  /** The present leaf entry that a walk of `v` ends at, if any. */
  function Walk(ram: seq<Frame>, root: nat, v: nat): Option<nat> {
    EntryAt(ram, root, PathTo(v, 3), L1(v))
  }

  /** The physical address that `v` translates to. */
  function Translate(ram: seq<Frame>, root: nat, v: nat): Option<nat> {
    match Walk(ram, root, v)
    case None => None
    case Some(e) => Some(e / PAGE_SIZE * PAGE_SIZE + v % PAGE_SIZE)
  }

  lemma WalkByKey(ram: seq<Frame>, root: nat, v: nat, w: nat)
    requires PageKey(v) == PageKey(w)
    ensures Walk(ram, root, v) == Walk(ram, root, w)
  {
    SameKeyPath(v, w);
  }

  // The tables form a tree.

  /** `tables` names every table frame: no frame is reached by two paths, an
      entry of an upper table is present exactly if the table below it exists,
      and then points to it. */
  ghost predicate Tree(ram: seq<Frame>, root: nat, tables: map<Path, nat>) {
    && Root in tables && tables[Root] == root
    && (forall p :: p in tables ==> tables[p] < |ram|)
    && (forall p, q :: p in tables && q in tables && tables[p] == tables[q] ==> p == q)
    && (forall p, i: nat {:trigger Sub(p, i)} :: Sub(p, i) in tables ==> p in tables && Depth(p) < 3 && i < 512)
    && (forall p, i: nat {:trigger ram[tables[p]][i]} :: p in tables && Depth(p) < 3 && i < 512 ==>
          ram[tables[p]][i] == if Sub(p, i) in tables then Link(tables[Sub(p, i)]) else 0)
  }

  /** The entry that points to the table in frame `f`. */
  function Link(f: nat): (e: nat)
    ensures e % 2 == 1 && e / PAGE_SIZE == f
  {
    f * PAGE_SIZE + PRESENT + WRITE
  }

  lemma {:induction false} TableAtTree(ram: seq<Frame>, root: nat, tables: map<Path, nat>, p: Path)
    requires Tree(ram, root, tables) && PathOk(p) && Depth(p) <= 3
    ensures TableAt(ram, root, p) == if p in tables then Some(tables[p]) else None
  {
    match p
    case Root =>
    case Sub(q, i) =>
      TableAtTree(ram, root, tables, q);
      if q in tables {
        var e := ram[tables[q]][i];
        assert e == if p in tables then Link(tables[p]) else 0;
      }
  }

  /** A fresh zeroed frame `f` hung into the empty slot `i` of the upper table at `p`. */
  ghost predicate Hangs(ram: seq<Frame>, root: nat, tables: map<Path, nat>, p: Path, i: nat, f: nat,
                        ram': seq<Frame>, tables': map<Path, nat>) {
    && Tree(ram, root, tables)
    && p in tables && Depth(p) < 3 && i < 512 && Sub(p, i) !in tables
    && f < |ram| && f !in tables.Values
    && tables' == tables[Sub(p, i) := f]
    && ram' == ram[f := ZeroFrame()][tables[p] := ram[tables[p]][i := Link(f)]]
  }

  lemma HangRows(ram: seq<Frame>, root: nat, tables: map<Path, nat>, p: Path, i: nat, f: nat,
                 ram': seq<Frame>, tables': map<Path, nat>)
    requires Hangs(ram, root, tables, p, i, f, ram', tables')
    ensures forall q :: q in tables ==> tables[q] != f && tables'[q] == tables[q]
    ensures forall q :: q in tables && q != p ==> ram'[tables[q]] == ram[tables[q]]
    ensures ram'[f] == ZeroFrame()
    ensures ram'[tables[p]] == ram[tables[p]][i := Link(f)]
  {
    assert forall q :: q in tables ==> tables[q] != f;
    assert Sub(p, i) !in tables;
  }

  lemma HangTree(ram: seq<Frame>, root: nat, tables: map<Path, nat>, p: Path, i: nat, f: nat,
                 ram': seq<Frame>, tables': map<Path, nat>)
    requires Hangs(ram, root, tables, p, i, f, ram', tables')
    ensures Tree(ram', root, tables')
  {
    HangRows(ram, root, tables, p, i, f, ram', tables');
    var c := Sub(p, i);
    forall q, j: nat | q in tables' && Depth(q) < 3 && j < 512
      ensures ram'[tables'[q]][j] == if Sub(q, j) in tables' then Link(tables'[Sub(q, j)]) else 0
    {
      if q == c {
        assert Sub(c, j) !in tables;
      } else {
        assert ram[tables[q]][j] == if Sub(q, j) in tables then Link(tables[Sub(q, j)]) else 0;
      }
    }
  }

  lemma FrameBound(ram: seq<Frame>, root: nat, tables: map<Path, nat>, p: Path)
    requires Tree(ram, root, tables) && p in tables
    ensures tables[p] < |ram|
  {
  }

  lemma HangEntry(ram: seq<Frame>, root: nat, tables: map<Path, nat>, p: Path, i: nat, f: nat,
                  ram': seq<Frame>, tables': map<Path, nat>, q: Path, j: nat)
    requires Hangs(ram, root, tables, p, i, f, ram', tables')
    requires PathOk(q) && Depth(q) == 3 && j < 512
    ensures EntryAt(ram', root, q, j) == EntryAt(ram, root, q, j)
  {
    hide Tree, TableAt, Link;
    HangTree(ram, root, tables, p, i, f, ram', tables');
    HangRows(ram, root, tables, p, i, f, ram', tables');
    TableAtTree(ram, root, tables, q);
    TableAtTree(ram', root, tables', q);
    if q == Sub(p, i) {
      assert tables'[q] == f && ram'[f][j] == 0;
    } else if q in tables {
      FrameBound(ram, root, tables, q);
      assert q != p && ram'[tables[q]] == ram[tables[q]];
    }
  }

  /** Hanging in a new table keeps the tree and changes no translation. */
  lemma AddTable(ram: seq<Frame>, root: nat, tables: map<Path, nat>, p: Path, i: nat, f: nat,
                 ram': seq<Frame>, tables': map<Path, nat>)
    requires Hangs(ram, root, tables, p, i, f, ram', tables')
    ensures Tree(ram', root, tables')
    ensures forall v: nat :: Walk(ram', root, v) == Walk(ram, root, v)
  {
    HangTree(ram, root, tables, p, i, f, ram', tables');
    forall v: nat
      ensures Walk(ram', root, v) == Walk(ram, root, v)
    {
      HangEntry(ram, root, tables, p, i, f, ram', tables', PathTo(v, 3), L1(v));
    }
  }

  lemma SetLeafTree(ram: seq<Frame>, root: nat, tables: map<Path, nat>, p: Path, i: nat, e: nat, ram': seq<Frame>)
    requires Tree(ram, root, tables) && p in tables && Depth(p) == 3 && i < 512
    requires ram' == ram[tables[p] := ram[tables[p]][i := e]]
    ensures Tree(ram', root, tables)
    ensures forall q :: q in tables && q != p ==> ram'[tables[q]] == ram[tables[q]]
  {
    assert forall q :: q in tables && q != p ==> tables[q] != tables[p];
  }

  /** Writing a present leaf entry is a point update of the translation. */
  lemma SetLeaf(ram: seq<Frame>, root: nat, tables: map<Path, nat>, v: nat, e: nat, ram': seq<Frame>)
    requires Tree(ram, root, tables) && PathTo(v, 3) in tables && e % 2 == 1
    requires var f := tables[PathTo(v, 3)]; ram' == ram[f := ram[f][L1(v) := e]]
    ensures Tree(ram', root, tables)
    ensures forall w: nat :: Walk(ram', root, w) == if PageKey(w) == PageKey(v) then Some(e) else Walk(ram, root, w)
  {
    SetLeafTree(ram, root, tables, PathTo(v, 3), L1(v), e, ram');
    forall w: nat
      ensures Walk(ram', root, w) == if PageKey(w) == PageKey(v) then Some(e) else Walk(ram, root, w)
    {
      SameKeyPath(v, w);
      TableAtTree(ram, root, tables, PathTo(w, 3));
      TableAtTree(ram', root, tables, PathTo(w, 3));
    }
  }
}
