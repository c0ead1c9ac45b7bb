/** Inode numbers in use and their bits: when an inode that a directory names can
    be handed out again, and what creating does to other files when it cannot. */
module MinixMarks {
  import opened Bits
  import opened Directory
  import opened Inodes
  import opened MinixFiles
  import opened MinixInvariant
  import opened MinixKeeps
  import opened MinixModel
  import opened MinixMoves
  import opened MinixNames
  import opened MinixPaths
  import opened Sectors
  import opened Strings

  /** The bit that stands for inode `x`. Numbers above 4096 have none. */
  predicate Marked(m: Bytes, x: InodeNo)
    requires |m| == SECTOR_SIZE
  {
    x > ZONE_LIMIT || Bit(m, x - 1)
  }

  /** Some entry names inode `x`. */
  predicate Lists(es: seq<Entry>, x: InodeNo) {
    exists i | 0 <= i < |es| :: es[i].Used? && es[i].inode == x
  }

  /** Every inode that an entry of a live directory names is marked used. */
  ghost predicate MarksOk(d: Disk)
    requires Formed(d)
  {
    forall t: nat, x: InodeNo | t < SECTORS && DirAt(d, t) && Lists(DirOf(d[t]), x) :: Marked(d[INODE_BITMAP], x)
  }

  // What keeps the marks.

  /** No mark goes, and what live directories name was named before at the same
      place, or is marked. */
  ghost predicate MarksFollow(d: Disk, after: Disk)
    requires Formed(d) && Formed(after)
  {
    && (forall x: InodeNo :: Marked(d[INODE_BITMAP], x) ==> Marked(after[INODE_BITMAP], x))
    && forall t: nat, x: InodeNo | t < SECTORS && DirAt(after, t) && Lists(DirOf(after[t]), x) ::
         (DirAt(d, t) && Lists(DirOf(d[t]), x)) || Marked(after[INODE_BITMAP], x)
  }

  lemma MarksKept(d: Disk, after: Disk)
    requires Formed(d) && Formed(after) && MarksOk(d) && MarksFollow(d, after)
    ensures MarksOk(after)
  {
    hide Marked, Lists, DirAt;
    forall t: nat, x: InodeNo | t < SECTORS && DirAt(after, t) && Lists(DirOf(after[t]), x)
      ensures Marked(after[INODE_BITMAP], x)
    {
      if DirAt(d, t) && Lists(DirOf(d[t]), x) {
        assert Marked(d[INODE_BITMAP], x);
      }
    }
  }

  lemma SetMarks(m: Bytes, n: InodeNo)
    requires |m| == SECTOR_SIZE && n <= ZONE_LIMIT
    ensures Marked(SetBit(m, n - 1), n)
    ensures forall x: InodeNo :: Marked(SetBit(m, n - 1), x) <==> x == n || Marked(m, x)
  {
    hide Bit, SetBit;
    SetBitEffect(m, n - 1);
  }

  lemma ClearMarks(m: Bytes, n: InodeNo)
    requires |m| == SECTOR_SIZE && n < ZONE_LIMIT
    ensures forall x: InodeNo :: Marked(ClearBit(m, n), x) <==> x != n + 1 && Marked(m, x)
  {
    hide Bit, ClearBit;
    ClearBitEffect(m, n);
  }

  /** The inode that allocation takes is not marked, so no entry names it. */
  lemma FreeUnmarked(d: Disk)
    requires Formed(d)
    ensures FreeInode(d) != 0 ==> !Marked(d[INODE_BITMAP], FreeInode(d))
  {
    hide Bit, FirstClear;
  }

  lemma ListsUpdate(es: seq<Entry>, i: nat, e: Entry, x: InodeNo)
    requires i < |es|
    ensures Lists(es[i := e], x) ==> Lists(es, x) || (e.Used? && e.inode == x)
    ensures e.Used? ==> Lists(es[i := e], e.inode)
  {
    var after := es[i := e];
    if Lists(after, x) {
      var j :| 0 <= j < |after| && after[j].Used? && after[j].inode == x;
      assert j != i ==> es[j] == after[j];
    }
    assert after[i] == e;
  }

  /** A directory after renewing inode `n` was one before, unless it is `n`. */
  lemma DirsAfter(d: Disk, after: Disk, n: InodeNo, t: nat)
    requires Formed(d) && Formed(after) && Renewed(d, after, n) && DirAt(after, t)
    ensures DirAt(d, t) || (IsDir(after, n) && t == 2 * Zone(after, n, 0))
  {
    hide IsDir, Zone, Size;
    var m: InodeNo :| IsNode(m) && IsDir(after, m) && 2 * Zone(after, m, 0) == t;
    if m != n {
      assert m !in Lost(n);
    }
  }

  // Creating.

  /** Renewing an inode and adding an entry for it. */
  lemma AddedMarks(d: Disk, after: Disk, n: InodeNo, s: nat, i: nat, name: Bytes)
    requires Inv(d) && MarksOk(d) && Formed(after) && Renewed(d, after, n) && !IsDir(after, n)
    requires DataKept(d, after, {s}) && s < SECTORS && i < ENTRIES
    requires DirOf(after[s]) == DirOf(d[s])[i := Used(n, name)]
    requires n <= ZONE_LIMIT && after[INODE_BITMAP] == SetBit(d[INODE_BITMAP], n - 1)
    ensures MarksOk(after)
  {
    hide Inv, IsDir, Zone, Size, DirAt, Lists, Marked, Lost, Renewed, MarksOk;
    InvParts(d);
    SetMarks(d[INODE_BITMAP], n);
    forall t: nat, x: InodeNo | t < SECTORS && DirAt(after, t) && Lists(DirOf(after[t]), x)
      ensures (DirAt(d, t) && Lists(DirOf(d[t]), x)) || Marked(after[INODE_BITMAP], x)
    {
      DirsAfter(d, after, n, t);
      DirAtMeans(d, t);
      if t == s {
        ListsUpdate(DirOf(d[s]), i, Used(n, name), x);
      }
    }
    MarksKept(d, after);
  }

  /** Renewing an inode alone. */
  lemma RenewedMarks(d: Disk, after: Disk, n: InodeNo)
    requires Inv(d) && MarksOk(d) && Formed(after) && Renewed(d, after, n) && !IsDir(after, n)
    requires DataKept(d, after, {}) && n <= ZONE_LIMIT && after[INODE_BITMAP] == SetBit(d[INODE_BITMAP], n - 1)
    ensures MarksOk(after)
  {
    hide Inv, IsDir, Zone, Size, DirAt, Lists, Marked, Lost, Renewed, MarksOk;
    InvParts(d);
    SetMarks(d[INODE_BITMAP], n);
    forall t: nat, x: InodeNo | t < SECTORS && DirAt(after, t) && Lists(DirOf(after[t]), x)
      ensures DirAt(d, t) && Lists(DirOf(d[t]), x)
    {
      DirsAfter(d, after, n, t);
      DirAtMeans(d, t);
    }
    MarksKept(d, after);
  }

  /** The record of a new file on a disk where its inode is marked. */
  lemma NewFileRenews(d: Disk, n: InodeNo)
    requires Formed(d) && n <= ZONE_LIMIT
    ensures var g := NewFileInode(TakeInode(d, n), n);
      && Renewed(d, g, n) && !IsDir(g, n) && DataKept(d, g, {})
      && g[INODE_BITMAP] == SetBit(d[INODE_BITMAP], n - 1)
  {
    hide FreshRecord, SectorOf, SetBit, RecordIs, WithinWipe, Zone, Size, Mode, DirMode, Lost, Renewed;
    var e := TakeInode(d, n);
    var b := FreshRecord(e[SectorOf(n)], OffsetOf(n), FILE_MODE, 0, 1);
    FreshRecordEffect(e[SectorOf(n)], OffsetOf(n), FILE_MODE, 0, 1);
    RenewedBy(d, e, n, b);
    RecordViews(e, n, b, FILE_MODE, 0, 0);
    FileModes();
  }

  lemma CreateFileMarks(d: Disk, path: Bytes)
    requires Inv(d) && MarksOk(d) && PathOk(path)
    ensures MarksOk(CreateFile(d, path).0)
  {
    hide Inv, MarksOk, GoodDir, Lookup, PathName, PathDir, TakeInode, NewFileInode, AddEntry, Renewed, IsDir, DirAt;
    InvParts(d);
    var s, n, name := PathDir(d, path), FreeInode(d), PathName(path);
    if Find(d, path) == 0 && s != 0 && n != 0 {
      PathGood(d, path);
      DirAtMeans(d, s);
      SubName(path);
      NewFileRenews(d, n);
      var g := NewFileInode(TakeInode(d, n), n);
      AddEntryFails(g, s, n, name);
      if AddEntry(g, s, n, name).1 == ESUCCESS {
        AddEntryEffect(g, s, n, name);
        RenewedMore(d, g, AddEntry(g, s, n, name).0, n);
        FreeFound(g, s, n, name);
        AddedMarks(d, AddEntry(g, s, n, name).0, n, s, FindFree(DirOf(g[s])), name);
      } else {
        RenewedMarks(d, g, n);
      }
    }
  }

  lemma FreeFound(d: Disk, s: nat, n: InodeNo, name: Bytes)
    requires Formed(d) && s < SECTORS && AddEntry(d, s, n, name).1 == ESUCCESS
    ensures FindFree(DirOf(d[s])) < ENTRIES
  {
  }

  /** The record and the sector of a new directory. */
  lemma NewDirRenews(d: Disk, n: InodeNo, z: nat, c: Bytes)
    requires Formed(d) && n <= ZONE_LIMIT && ROOT_ZONE < z < ZONE_LIMIT && |c| == SECTOR_SIZE
    ensures var h := PutSector(NewDirInode(TakeZone(TakeInode(d, n), z), n, z), 2 * z, c);
      && Renewed(d, h, n) && IsDir(h, n) && Zone(h, n, 0) == z && DataKept(d, h, {2 * z}) && h[2 * z] == c
      && h[INODE_BITMAP] == SetBit(d[INODE_BITMAP], n - 1)
  {
    hide FreshRecord, SectorOf, SetBit, RecordIs, WithinWipe, Zone, Size, Mode, DirMode, Lost, Renewed, Put16;
    var e := TakeZone(TakeInode(d, n), z);
    var b := Put16(FreshRecord(e[SectorOf(n)], OffsetOf(n), DIR_MODE, 64, 2), OffsetOf(n) + 14, z);
    NewDirRecord(e[SectorOf(n)], OffsetOf(n), z);
    RenewedBy(d, e, n, b);
    RecordViews(e, n, b, DIR_MODE, 64, z);
    FileModes();
    RenewedMore(d, NewDirInode(e, n, z), PutSector(NewDirInode(e, n, z), 2 * z, c), n);
  }

  /** The new directory and its entry in the parent, if there was room for one. */
  lemma MadeMarks(d: Disk, after: Disk, n: InodeNo, z: nat, s: nat, i: nat, name: Bytes, c: Bytes)
    requires Inv(d) && MarksOk(d) && Formed(after) && Renewed(d, after, n) && Zone(after, n, 0) == z
    requires DirAt(d, s) && s < SECTORS && z < ZONE_LIMIT && i < ENTRIES && |c| == SECTOR_SIZE
    requires DataKept(d, after, {s, 2 * z}) && after[2 * z] == c && c == NewDir(n, U16(d[s], 0))
    requires DirOf(after[s]) == DirOf(d[s]) || DirOf(after[s]) == DirOf(d[s])[i := Used(n, name)]
    requires n <= ZONE_LIMIT && after[INODE_BITMAP] == SetBit(d[INODE_BITMAP], n - 1)
    ensures MarksOk(after)
  {
    hide Inv, IsDir, Zone, Size, DirAt, Lists, Marked, Lost, Renewed, MarksOk, NewDir, U16, GoodDir;
    InvParts(d);
    SetMarks(d[INODE_BITMAP], n);
    DirAtMeans(d, s);
    ParentMarked(d, s);
    ParentGood(d[s]);
    NewDirLists(n, U16(d[s], 0));
    forall t: nat, x: InodeNo | t < SECTORS && DirAt(after, t) && Lists(DirOf(after[t]), x)
      ensures (DirAt(d, t) && Lists(DirOf(d[t]), x)) || Marked(after[INODE_BITMAP], x)
    {
      DirsAfter(d, after, n, t);
      if t != 2 * z {
        DirAtMeans(d, t);
        if t == s {
          ListsUpdate(DirOf(d[s]), i, Used(n, name), x);
        }
      }
    }
    MarksKept(d, after);
  }

  /** The number that a new directory's ".." gets is 0 or marked. */
  lemma ParentMarked(d: Disk, s: nat)
    requires Formed(d) && MarksOk(d) && s < SECTORS && DirAt(d, s)
    ensures U16(d[s], 0) != 0 ==> Marked(d[INODE_BITMAP], U16(d[s], 0))
  {
    hide DirAt, Marked, U16, CStr;
    var es := DirOf(d[s]);
    assert es[0] == EntryAt(d[s], 0) && 32 * 0 == 0;
    if U16(d[s], 0) != 0 {
      assert es[0].Used? && es[0].inode == U16(d[s], 0);
      assert Lists(es, U16(d[s], 0));
    }
  }

  lemma NewDirLists(n: InodeNo, parent: nat)
    requires n <= LAST_INODE && parent <= LAST_INODE
    ensures forall x: InodeNo | Lists(DirOf(NewDir(n, parent)), x) :: x == n || x == parent
  {
    hide PutEntry, DirOf, U16, Padded, Distinct, EntryAt;
    NewDirEntries(n, parent);
    var z := DirOf(Zeros(SECTOR_SIZE));
    EmptyDir(Zeros(SECTOR_SIZE));
    assert forall i | 0 <= i < |z| :: z[i].Free?;
  }

  lemma CreateDirMarks(d: Disk, path: Bytes)
    requires Inv(d) && MarksOk(d) && PathOk(path)
    ensures MarksOk(CreateDir(d, path).0)
  {
    hide Inv, MarksOk, GoodDir, Lookup, PathName, PathDir, AddEntry, IsDir, DirAt, SetBit, Bit, FirstClear, ZoneBit,
      MakeDir;
    InvParts(d);
    var s, n, name := PathDir(d, path), FreeInode(d), PathName(path);
    if Find(d, path) == 0 && s != 0 && n != 0 {
      PathGood(d, path);
      DirAtMeans(d, s);
      SubName(path);
      AbsentName(d, path);
      var z := FirstClear(TakeInode(d, n)[ZONE_BITMAP], 0);
      if z == ZONE_LIMIT {
        TakenMarks(d, n);
      } else {
        FoundClear(d);
        ClearZone(d, z);
        MakeDirMarks(d, s, n, z, name);
      }
    }
  }

  lemma TakenMarks(d: Disk, n: InodeNo)
    requires Inv(d) && MarksOk(d) && n <= ZONE_LIMIT
    ensures MarksOk(TakeInode(d, n))
  {
    hide Inv, MarksOk, Marked, Lists, DirAt;
    InvParts(d);
    SetMarks(d[INODE_BITMAP], n);
    var after := TakeInode(d, n);
    forall t: nat, x: InodeNo | t < SECTORS && DirAt(after, t) && Lists(DirOf(after[t]), x)
      ensures DirAt(d, t) && Lists(DirOf(d[t]), x)
    {
      SameDirs(d, after, t);
      DirAtMeans(d, t);
    }
    MarksKept(d, after);
  }

  lemma SameDirs(d: Disk, after: Disk, t: nat)
    requires Formed(d) && Formed(after) && forall s | 10 <= s < ROOT_SECTOR :: after[s] == d[s]
    ensures DirAt(after, t) <==> DirAt(d, t)
  {
    hide IsDir, Zone;
    NodesSame(d, after);
  }

  lemma MakeDirMarks(d: Disk, s: nat, n: InodeNo, z: nat, name: Bytes)
    requires Inv(d) && MarksOk(d) && DirAt(d, s) && s < SECTORS && 0 < n <= ZONE_LIMIT
    requires |name| < NAME_FIELD && 0 !in name && Lookup(DirOf(d[s]), name) == 0
    requires ROOT_ZONE < z < ZONE_LIMIT && !ZoneBit(d, z)
    ensures MarksOk(MakeDir(TakeZone(TakeInode(d, n), z), s, n, z, name).0)
  {
    hide Inv, MarksOk, GoodDir, Lookup, AddEntry, IsDir, DirAt, SetBit, ZoneBit, NewDirInode, NewDir, U16, TakeInode,
      TakeZone,
      Renewed, Zone;
    InvParts(d);
    DirAtMeans(d, s);
    var t := TakeZone(TakeInode(d, n), z);
    RecordElsewhere(t, n, z, s);
    TakenElsewhere(d, n, z, s);
    var c := NewDir(n, U16(d[s], 0));
    NewDirRenews(d, n, z, c);
    var h := PutSector(NewDirInode(t, n, z), 2 * z, c);
    AddEntryFails(h, s, n, name);
    var after := AddEntry(h, s, n, name).0;
    if AddEntry(h, s, n, name).1 == ESUCCESS {
      AddEntryEffect(h, s, n, name);
      FreeFound(h, s, n, name);
      RenewedMore(d, h, after, n);
      MadeMarks(d, after, n, z, s, FindFree(DirOf(h[s])), name, c);
    } else {
      MadeMarks(d, after, n, z, s, 0, name, c);
    }
  }

  lemma TakenElsewhere(d: Disk, n: InodeNo, z: nat, s: nat)
    requires Formed(d) && n <= ZONE_LIMIT && z < ZONE_LIMIT && ROOT_SECTOR <= s < SECTORS
    ensures TakeZone(TakeInode(d, n), z)[s] == d[s]
  {
  }

  // Writing.

  /** Every inode that the directory in sector `b` names is marked. */
  ghost predicate AllMarked(d: Disk, b: Bytes)
    requires Formed(d) && |b| == SECTOR_SIZE
  {
    forall x: InodeNo | Lists(DirOf(b), x) :: Marked(d[INODE_BITMAP], x)
  }

  lemma WriteBits(d: Disk, n: InodeNo, input: Bytes, count: nat)
    requires Inv(d) && IsNode(n) && Min(count, SECTOR_SIZE) <= |input|
    requires WriteInode(d, n, input, count).1 >= 0
    ensures WriteInode(d, n, input, count).0[INODE_BITMAP] == d[INODE_BITMAP]
  {
    hide Inv, Zone, Block, Grown, Put16, FirstClear, SetBit, ZoneBit, Bit;
    InvParts(d);
    if Zone(d, n, 0) != 0 {
      OwnZone(d, n);
      ZoneIs(d, n, 0);
    } else {
      FoundClear(d);
      ClearZone(d, FirstClear(d[ZONE_BITMAP], 0));
      PutZoneEffect(d[SectorOf(n)], OffsetOf(n), FirstClear(d[ZONE_BITMAP], 0));
    }
  }

  /** Writing keeps the marks exactly if the target is no directory or the entries
      written name marked inodes. */
  lemma WriteInodeMarks(d: Disk, n: InodeNo, input: Bytes, count: nat)
    requires Inv(d) && MarksOk(d) && IsNode(n) && Min(count, SECTOR_SIZE) <= |input|
    requires WriteInode(d, n, input, count).1 >= 0
    ensures MarksOk(WriteInode(d, n, input, count).0) <==> (IsDir(d, n) ==> AllMarked(d, Block(input, count)))
  {
    hide Inv, MarksOk, WriteInode, Mode, Zone, Block, Lists, Marked, DirAt, Size, DirMode;
    InvParts(d);
    var after, b := WriteInode(d, n, input, count).0, Block(input, count);
    WriteInodeEffect(d, n, input, count);
    WriteBits(d, n, input, count);
    var z := Zone(after, n, 0);
    forall t: nat
      ensures DirAt(after, t) ==> DirAt(d, t)
      ensures DirAt(d, t) ==> DirAt(after, t)
    {
      WrittenDirs(d, after, n, t);
    }
    if IsDir(d, n) {
      DirHasZone(d, n);
      WrittenDir(d, n);
    }
    if IsDir(d, n) && MarksOk(after) {
      MarksMean(after, 2 * z);
    }
    if IsDir(d, n) ==> AllMarked(d, b) {
      forall t: nat, x: InodeNo | t < SECTORS && DirAt(after, t) && Lists(DirOf(after[t]), x)
        ensures (DirAt(d, t) && Lists(DirOf(d[t]), x)) || Marked(after[INODE_BITMAP], x)
      {
        DirAtMeans(d, t);
        if t == 2 * z {
          OnlyOwner(d, after, n);
        }
      }
      MarksKept(d, after);
    }
  }

  lemma MarksMean(d: Disk, t: nat)
    requires Formed(d) && MarksOk(d) && t < SECTORS && DirAt(d, t)
    ensures AllMarked(d, d[t])
  {
    hide DirAt, Lists, Marked;
  }

  lemma WrittenDir(d: Disk, n: InodeNo)
    requires Formed(d) && IsNode(n) && IsDir(d, n)
    ensures DirAt(d, 2 * Zone(d, n, 0))
  {
    hide IsDir, Zone;
  }

  /** The same inodes are directories, at the same sectors. */
  lemma WrittenDirs(d: Disk, after: Disk, n: InodeNo, t: nat)
    requires Inv(d) && Formed(after)
    requires forall m: InodeNo | IsNode(m) ::
      Mode(after, m) == Mode(d, m) && (m != n || Zone(d, n, 0) != 0 ==> Zone(after, m, 0) == Zone(d, m, 0))
    ensures DirAt(after, t) <==> DirAt(d, t)
  {
    hide Mode, Zone, GoodDir, Reserved, Named, Apart, Rooted;
    if DirAt(after, t) {
      var m: InodeNo :| IsNode(m) && IsDir(after, m) && 2 * Zone(after, m, 0) == t;
      assert IsDir(d, m) && Zone(d, m, 0) != 0;
    }
    if DirAt(d, t) {
      var m: InodeNo :| IsNode(m) && IsDir(d, m) && 2 * Zone(d, m, 0) == t;
      assert IsDir(after, m) && Zone(d, m, 0) != 0;
    }
  }

  /** A directory at the written sector can only be the target itself. */
  lemma OnlyOwner(d: Disk, after: Disk, n: InodeNo)
    requires Formed(d) && Formed(after) && DirAt(d, 2 * Zone(after, n, 0))
    requires !(exists m: InodeNo :: IsNode(m) && m != n && Zone(d, m, 0) == Zone(after, n, 0))
    ensures IsDir(d, n)
  {
    hide IsDir, Zone;
  }

  // Renaming.

  lemma MovedMarks(d: Disk, after: Disk, from: nat, i: nat, to: nat, j: nat, name: Bytes)
    requires Inv(d) && MarksOk(d) && Formed(after) && DirAt(d, from) && DirAt(d, to)
    requires from < SECTORS && to < SECTORS && i < ENTRIES && j < ENTRIES
    requires EntryMoved(d, after, from, i, to, j, name)
    ensures MarksOk(after)
  {
    hide Inv, MarksOk, Lists, Marked, DirAt;
    InvParts(d);
    DirAtMeans(d, from);
    DirAtMeans(d, to);
    var a := DirOf(d[from]);
    assert Lists(a, a[i].inode) by { ListsUpdate(a, i, a[i], a[i].inode); assert a[i := a[i]] == a; }
    MarksMean(d, from);
    MarksMean(d, to);
    forall t: nat, x: InodeNo | t < SECTORS && DirAt(after, t) && Lists(DirOf(after[t]), x)
      ensures (DirAt(d, t) && Lists(DirOf(d[t]), x)) || Marked(after[INODE_BITMAP], x)
    {
      SameDirs(d, after, t);
      ListsUpdate(a, i, Free, x);
      ListsUpdate(if to == from then a[i := Free] else DirOf(d[to]), j, Used(a[i].inode, name), x);
    }
    MarksKept(d, after);
  }

  lemma DroppedEntryMarks(d: Disk, after: Disk, s: nat, i: nat)
    requires Inv(d) && MarksOk(d) && Formed(after) && DirAt(d, s) && s < SECTORS && i < ENTRIES
    requires after == PutSector(d, s, after[s]) && DirOf(after[s]) == DirOf(d[s])[i := Free]
    ensures MarksOk(after)
  {
    hide Inv, MarksOk, Lists, Marked, DirAt;
    InvParts(d);
    DirAtMeans(d, s);
    forall t: nat, x: InodeNo | t < SECTORS && DirAt(after, t) && Lists(DirOf(after[t]), x)
      ensures DirAt(d, t) && Lists(DirOf(d[t]), x)
    {
      SameDirs(d, after, t);
      ListsUpdate(DirOf(d[s]), i, Free, x);
    }
    MarksKept(d, after);
  }

  lemma RenameFileMarks(d: Disk, oldPath: Bytes, newPath: Bytes)
    requires Inv(d) && MarksOk(d) && PathOk(oldPath) && PathOk(newPath)
    ensures MarksOk(RenameFile(d, oldPath, newPath).0)
  {
    hide Inv, MarksOk, PathDir, PathName, Lookup, Move, GoodDir, DirAt;
    InvParts(d);
    var r, from, to := RenameFile(d, oldPath, newPath), PathDir(d, oldPath), PathDir(d, newPath);
    RenameReturns(d, oldPath, newPath);
    PathGood(d, oldPath);
    PathGood(d, newPath);
    SubName(newPath);
    var i := if from == 0 then 0 else FindName(DirOf(d[from]), PathName(oldPath));
    if r.1 == ESUCCESS {
      var j := MoveEntries(d, from, i, to, PathName(newPath));
      MovedMarks(d, r.0, from, i, to, j, PathName(newPath));
    } else if r.1 == -ENOSPC {
      DroppedEntryMarks(d, r.0, from, i);
    }
  }

  // Deleting.

  /** A directory that the removal of inode `n` leaves alive names inode `x`. */
  ghost predicate NamedElsewhere(d: Disk, n: InodeNo, x: InodeNo)
    requires Formed(d)
  {
    exists m: InodeNo :: IsNode(m) && IsDir(d, m) && m !in Lost(n) && Lists(DirOf(d[2 * Zone(d, m, 0)]), x)
  }

  lemma SurvivingDir(d: Disk, after: Disk, n: InodeNo, m: InodeNo)
    requires Formed(d) && Formed(after) && Renewed(d, after, n) && !IsDir(after, n) && IsNode(m)
    ensures IsDir(after, m) <==> IsDir(d, m) && m !in Lost(n)
    ensures IsDir(after, m) ==> Zone(after, m, 0) == Zone(d, m, 0)
  {
    hide IsDir, Zone, Size;
    LostSelf(n);
  }

  /** Dropping an entry for `n` takes no other inode out of a directory. */
  lemma ListsOthers(es: seq<Entry>, i: nat, x: InodeNo)
    requires i < |es| && es[i].Used? && es[i].inode != x && Lists(es, x)
    ensures Lists(es[i := Free], x)
  {
    var j :| 0 <= j < |es| && es[j].Used? && es[j].inode == x;
    assert es[i := Free][j] == es[j];
  }

  /** The bit cleared with inode `n` is that of n + 1: the marks survive exactly if
      no directory that stays names that one. */
  lemma DroppedMarks(d: Disk, after: Disk, s: nat, i: nat, n: InodeNo)
    requires Inv(d) && MarksOk(d) && Formed(after) && IsNode(n)
    requires DirAt(d, s) && s < SECTORS && i < ENTRIES && DirOf(d[s])[i].Used? && DirOf(d[s])[i].inode == n
    requires Renewed(d, after, n) && !IsDir(after, n) && DataKept(d, after, {s})
    requires DirOf(after[s]) == DirOf(d[s])[i := Free]
    requires after[INODE_BITMAP] == if n < ZONE_LIMIT then ClearBit(d[INODE_BITMAP], n) else d[INODE_BITMAP]
    ensures MarksOk(after) <==> n >= ZONE_LIMIT || !NamedElsewhere(d, n, n + 1)
  {
    hide Inv, MarksOk, Lists, Marked, DirAt, Zone, IsDir, Size, Lost, Renewed, GoodDir;
    InvParts(d);
    if n < ZONE_LIMIT {
      ClearMarks(d[INODE_BITMAP], n);
    }
    if n < ZONE_LIMIT && NamedElsewhere(d, n, n + 1) {
      DroppedBreaks(d, after, s, i, n);
    } else {
      forall t: nat, x: InodeNo | t < SECTORS && DirAt(after, t) && Lists(DirOf(after[t]), x)
        ensures Marked(after[INODE_BITMAP], x)
      {
        DroppedStays(d, after, s, i, n, t, x);
      }
      MarksAre(after);
    }
  }

  lemma MarksAre(d: Disk)
    requires Formed(d)
    requires forall t: nat, x: InodeNo | t < SECTORS && DirAt(d, t)
        && Lists(DirOf(d[t]), x) :: Marked(d[INODE_BITMAP], x)
    ensures MarksOk(d)
  {
    hide DirAt, Lists, Marked;
  }

  lemma DroppedStays(d: Disk, after: Disk, s: nat, i: nat, n: InodeNo, t: nat, x: InodeNo)
    requires Inv(d) && MarksOk(d) && Formed(after) && IsNode(n)
    requires DirAt(d, s) && s < SECTORS && i < ENTRIES && DirOf(d[s])[i].Used? && DirOf(d[s])[i].inode == n
    requires Renewed(d, after, n) && !IsDir(after, n) && DataKept(d, after, {s})
    requires DirOf(after[s]) == DirOf(d[s])[i := Free]
    requires t < SECTORS && DirAt(after, t) && Lists(DirOf(after[t]), x)
    ensures Marked(d[INODE_BITMAP], x) && (x == n + 1 ==> NamedElsewhere(d, n, x))
  {
    hide Inv, MarksOk, Lists, Marked, Zone, IsDir, Size, Lost, Renewed, GoodDir;
    InvParts(d);
    DirAtMeans(d, s);
    var m: InodeNo :| IsNode(m) && IsDir(after, m) && 2 * Zone(after, m, 0) == t;
    SurvivingDir(d, after, n, m);
    assert DirAt(d, t);
    DirAtMeans(d, t);
    if t == s {
      ListsUpdate(DirOf(d[s]), i, Free, x);
    }
    MarksMean(d, t);
    assert Lists(DirOf(d[t]), x);
  }

  lemma DroppedBreaks(d: Disk, after: Disk, s: nat, i: nat, n: InodeNo)
    requires Inv(d) && Formed(after) && n < ZONE_LIMIT && NamedElsewhere(d, n, n + 1)
    requires DirAt(d, s) && s < SECTORS && i < ENTRIES && DirOf(d[s])[i].Used? && DirOf(d[s])[i].inode == n
    requires Renewed(d, after, n) && !IsDir(after, n) && DataKept(d, after, {s})
    requires DirOf(after[s]) == DirOf(d[s])[i := Free]
    requires !Marked(after[INODE_BITMAP], n + 1)
    ensures !MarksOk(after)
  {
    hide Inv, MarksOk, Lists, Marked, Zone, IsDir, Size, Lost, Renewed, GoodDir;
    InvParts(d);
    var m: InodeNo :| IsNode(m) && IsDir(d, m) && m !in Lost(n) && Lists(DirOf(d[2 * Zone(d, m, 0)]), n + 1);
    SurvivingDir(d, after, n, m);
    var t := 2 * Zone(d, m, 0);
    assert DirAt(d, t) && DirAt(after, t);
    DirAtMeans(d, t);
    if t == s {
      ListsOthers(DirOf(d[s]), i, n + 1);
    }
    assert Lists(DirOf(after[t]), n + 1);
    if MarksOk(after) {
      MarksMean(after, t);
    }
  }

  /** Delete keeps the marks exactly if it fails, or the deleted number has no bit,
      or no directory that stays names the next inode. */
  lemma DeleteFileMarks(d: Disk, path: Bytes)
    requires Inv(d) && MarksOk(d) && PathOk(path)
    ensures var n := Find(d, path);
      MarksOk(DeleteFile(d, path).0) <==>
        DeleteFile(d, path).1 != ESUCCESS || n >= ZONE_LIMIT || (n != 0 && !NamedElsewhere(d, n, n + 1))
  {
    hide Inv, DirAt, GoodDir, PathName, PathDir, ClearBit, FreeZones, PutEntry, Wiped, SectorOf, MarksOk, Renewed,
      IsDir,
      Zone, NamedElsewhere, Changed, Size;
    InvParts(d);
    var s, name := PathDir(d, path), PathName(path);
    if DeleteFile(d, path).1 == ESUCCESS {
      PathGood(d, path);
      DirAtMeans(d, s);
      var i := FindName(DirOf(d[s]), name);
      var n := DirOf(d[s])[i].inode;
      var freed := FreeZones(d, d[SectorOf(n)], OffsetOf(n), ZONES);
      FreeZonesEffect(d, d[SectorOf(n)], OffsetOf(n), ZONES);
      DropMarks(d, freed, s, i, n);
    }
  }

  lemma DropsEntry(d: Disk, freed: Disk, s: nat, i: nat, n: InodeNo)
    requires Inv(d) && Formed(freed) && freed == PutSector(d, ZONE_BITMAP, freed[ZONE_BITMAP])
    requires IsNode(n) && DirAt(d, s) && s < SECTORS && i < ENTRIES
    ensures DirOf(FreeEntry(ClearInodeBit(WipeInode(freed, n), n), s, i)[s]) == DirOf(d[s])[i := Free]
  {
    hide Inv, DirAt, GoodDir, Wiped, PutEntry, ClearBit;
    InvParts(d);
    DirAtMeans(d, s);
    var g := ClearInodeBit(WipeInode(freed, n), n);
    assert g[s] == d[s];
    PutEntryEffect(g[s], i, 0, []);
  }

  /** The same for rmdir. */
  lemma DeleteDirMarks(d: Disk, path: Bytes)
    requires Inv(d) && MarksOk(d) && PathOk(path)
    ensures var n := Find(d, path);
      MarksOk(DeleteDir(d, path).0) <==>
        DeleteDir(d, path).1 != ESUCCESS || n >= ZONE_LIMIT || (n != 0 && !NamedElsewhere(d, n, n + 1))
  {
    hide Inv, DirAt, GoodDir, PathName, PathDir, ClearBit, FreeZone, FreeEntry, Wiped, SectorOf, MarksOk, IsDir, Zone,
      NamedElsewhere, Size;
    InvParts(d);
    var s, n := PathDir(d, path), Find(d, path);
    if DeleteDir(d, path).1 == ESUCCESS {
      PathGood(d, path);
      DirAtMeans(d, s);
      var freed := FreeZone(d, Zone(d, n, 0));
      FreeZoneEffect(d, Zone(d, n, 0));
      var g := ClearInodeBit(WipeInode(freed, n), n);
      assert g[s] == d[s];
      var i := FindInode(DirOf(d[s]), n);
      FoundNumber(d, path);
      DropMarks(d, freed, s, i, n);
    }
  }

  /** The common end of both deletes. */
  lemma DropMarks(d: Disk, freed: Disk, s: nat, i: nat, n: InodeNo)
    requires Inv(d) && MarksOk(d) && Formed(freed) && freed == PutSector(d, ZONE_BITMAP, freed[ZONE_BITMAP])
    requires IsNode(n) && DirAt(d, s) && s < SECTORS && i < ENTRIES
    requires DirOf(d[s])[i].Used? && DirOf(d[s])[i].inode == n
    ensures MarksOk(FreeEntry(ClearInodeBit(WipeInode(freed, n), n), s, i))
            <==> n >= ZONE_LIMIT || !NamedElsewhere(d, n, n + 1)
  {
    hide Inv, DirAt, GoodDir, ClearBit, FreeEntry, WipeInode, ClearInodeBit, MarksOk, Renewed, IsDir, Zone,
      NamedElsewhere, Changed, Size;
    InvParts(d);
    DropsBy(d, freed, s, i, n);
    DropsEntry(d, freed, s, i, n);
    DroppedMarks(d, FreeEntry(ClearInodeBit(WipeInode(freed, n), n), s, i), s, i, n);
  }

  lemma FoundNumber(d: Disk, path: Bytes)
    requires Formed(d) && Find(d, path) != 0
    ensures FindInode(DirOf(d[PathDir(d, path)]), Find(d, path)) < ENTRIES
  {
    hide PathDir, PathName;
    var es := DirOf(d[PathDir(d, path)]);
    var i := FindName(es, PathName(path));
    assert es[i].Used? && es[i].inode == Find(d, path);
  }

  // Copying, and runs.

  lemma WriteFileMarks(d: Disk, path: Bytes, input: Bytes, count: nat)
    requires Inv(d) && MarksOk(d) && PathOk(path) && Min(count, SECTOR_SIZE) <= |input|
    ensures MarksOk(WriteFile(d, path, input, count).0) <==>
      WriteFile(d, path, input, count).1 < 0 || !IsDir(d, Find(d, path)) || AllMarked(d, Block(input, count))
  {
    hide Inv, MarksOk, Find, WriteInode, IsDir, AllMarked, Block;
    InvParts(d);
    WriteFinds(d, path, input, count);
    PathGood(d, path);
    if Find(d, path) != 0 {
      WriteReturns(d, Find(d, path), input, count);
      if WriteInode(d, Find(d, path), input, count).1 >= 0 {
        WriteInodeMarks(d, Find(d, path), input, count);
      }
    }
  }

  lemma CopyFileMarks(d: Disk, source: Bytes, dest: Bytes, buffer: Bytes)
    requires Inv(d) && MarksOk(d) && PathOk(source) && PathOk(dest) && |buffer| == SECTOR_SIZE
    ensures MarksOk(CopyFile(d, source, dest, buffer).0)
  {
    hide Inv, MarksOk, CreateFile, WriteFile, ReadInode, Size, Zone, Find, IsDir, AllMarked, Block;
    InvParts(d);
    var read, made := ReadFile(d, source, SECTOR_SIZE, buffer), CreateFile(d, dest);
    ReadReturns(d, source, SECTOR_SIZE, buffer);
    CreateFileMarks(d, dest);
    CreateFileKeeps(d, dest);
    if read.1 >= 0 && made.1 == ESUCCESS {
      MadeForCopy(d, dest);
      WriteFinds(made.0, dest, read.0, read.1);
      WriteFileMarks(made.0, dest, read.0, read.1);
    }
  }

  // What create does to other files.

  /** Whatever a walk passes is marked. */
  lemma {:induction false} VisitedMarked(d: Disk, parts: seq<Bytes>, s: nat, x: InodeNo)
    requires Inv(d) && MarksOk(d) && DirAt(d, s) && s < SECTORS && x in Visited(d, parts, s)
    ensures Marked(d[INODE_BITMAP], x)
    decreases |parts|
  {
    hide Zone, IsDir, Lookup, GoodDir, ZoneBit, Marked, Lists, MarksOk;
    var n := Lookup(DirOf(d[s]), parts[0]);
    DirAtMeans(d, s);
    LookupGood(DirOf(d[s]), parts[0]);
    if n == x {
      LookedUpMarked(d, s, parts[0]);
    } else {
      assert IsNode(n);
      VisitedMarked(d, parts[1..], 2 * Zone(d, n, 0), x);
    }
  }

  lemma LookedUpMarked(d: Disk, s: nat, name: Bytes)
    requires Formed(d) && MarksOk(d) && s < SECTORS && DirAt(d, s)
    ensures Lookup(DirOf(d[s]), name) != 0 ==> Marked(d[INODE_BITMAP], Lookup(DirOf(d[s]), name))
  {
    hide DirAt, Marked;
    var es := DirOf(d[s]);
    var i := FindName(es, name);
    if i < |es| {
      assert es[i].Used?;
      assert Lists(es, es[i].inode);
    }
  }

  /** With the marks right, no path passes or leads to the number that create or
      mkdir takes. */
  lemma FreshNumber(d: Disk, path: Bytes)
    requires Inv(d) && MarksOk(d) && FreeInode(d) != 0
    ensures FreeInode(d) !in PathVisits(d, path) && Find(d, path) != FreeInode(d)
  {
    hide Inv, MarksOk, DirAt, Marked, Visited, PathDir, FreeInode, Lookup;
    InvParts(d);
    var n := FreeInode(d);
    FreeUnmarked(d);
    RootAt(d);
    if n in PathVisits(d, path) {
      VisitedMarked(d, PathParts(path), ROOT_SECTOR, n);
    }
    PathGood(d, path);
    if PathDir(d, path) != 0 {
      LookedUpMarked(d, PathDir(d, path), PathName(path));
    }
  }

  /** The cleared neighbour: the path passes the directory whose number follows the
      new inode's in the same sector. */
  ghost predicate PassesNext(d: Disk, n: InodeNo, path: Bytes)
    requires Formed(d)
  {
    n % 16 != 0 && n + 1 in PathVisits(d, path)
  }

  lemma PassesLost(d: Disk, n: InodeNo, path: Bytes)
    requires Formed(d) && n !in PathVisits(d, path)
    ensures PathVisits(d, path) !! Lost(n) <==> !PassesNext(d, n, path)
  {
    hide PathVisits;
  }

  /** Reads of inode `m` stay when its record and its data sector do. */
  lemma ReadKept(d: Disk, after: Disk, n: InodeNo, s: nat, m: InodeNo, k: nat, output: Bytes)
    requires Inv(d) && Formed(after) && Renewed(d, after, n) && IsNode(m) && m != n
    requires 2 * Zone(d, m, 0) != s && DataKept(d, after, {s})
    requires k <= |output| && Min(k, Size(d, m)) <= SECTOR_SIZE
    ensures Size(after, m) == Size(d, m) && ReadInode(after, m, k, output) == ReadInode(d, m, k, output)
  {
    hide Zone, Size, IsDir, GoodDir, ZoneBit, Apart, Dirs, Reserved, Rooted;
    assert Zone(d, m, 0) == 0 || Zone(d, m, 0) >= ROOT_ZONE;
  }

  /** Read isolation for create, with the marks right: a path that does not pass
      the cleared neighbour leads where it did and, unless it leads to the very
      directory that gets the entry, reads as it did; one that does leads nowhere. */
  lemma CreateIsolated(d: Disk, path: Bytes, other: Bytes, k: nat, output: Bytes)
    requires Inv(d) && MarksOk(d) && PathOk(path) && CreateFile(d, path).1 == ESUCCESS
    requires !Names(d, other, PathDir(d, path), PathName(path))
    requires k <= |output| && CanRead(d, other, k)
    ensures var after, n, m := CreateFile(d, path).0, FreeInode(d), Find(d, other);
      && n != 0
      && Find(after, other) == (if PassesNext(d, n, other) then 0 else m)
      && (!PassesNext(d, n, other) && (m == 0 || 2 * Zone(d, m, 0) != PathDir(d, path)) ==>
            CanRead(after, other, k) && ReadFile(after, other, k, output) == ReadFile(d, other, k, output))
  {
    hide Inv, MarksOk, CreateFile, FreeInode, PathDir, PathName, Find, Zone, Size, IsDir, ReadInode, PassesNext, Names,
      Lost,
      Changed, Renewed, Lookup;
    InvParts(d);
    var after, n, m := CreateFile(d, path).0, FreeInode(d), Find(d, other);
    CreateFileMakes(d, path);
    CreateFileFinds(d, path, other);
    FreshNumber(d, other);
    PassesLost(d, n, other);
    PathGood(d, other);
    if m != 0 && 2 * Zone(d, m, 0) != PathDir(d, path) {
      ReadKept(d, after, n, PathDir(d, path), m, k, output);
    }
  }

  /** Read isolation for mkdir, for paths that do not ask for the new name. */
  lemma CreateDirIsolated(d: Disk, path: Bytes, other: Bytes, k: nat, output: Bytes)
    requires Inv(d) && MarksOk(d) && PathOk(path) && CreateDir(d, path).1 == ESUCCESS
    requires (PathDir(d, path), PathName(path)) !in PathAsks(d, other)
    requires k <= |output| && CanRead(d, other, k)
    ensures var after, n, m := CreateDir(d, path).0, FreeInode(d), Find(d, other);
      && n != 0
      && Find(after, other) == (if PassesNext(d, n, other) then 0 else m)
      && (!PassesNext(d, n, other) && (m == 0 || 2 * Zone(d, m, 0) != PathDir(d, path)) ==>
            CanRead(after, other, k) && ReadFile(after, other, k, output) == ReadFile(d, other, k, output))
  {
    hide Inv, MarksOk, CreateDir, FreeInode, PathDir, PathName, Find, Zone, Size, IsDir, ReadInode, PassesNext, Lost,
      Changed, Renewed, Lookup, ZoneBit;
    InvParts(d);
    var after, n, m := CreateDir(d, path).0, FreeInode(d), Find(d, other);
    CreateDirMakes(d, path);
    NotAsked(d, other, PathDir(d, path), PathName(path));
    CreateDirFinds(d, path, other);
    FreshNumber(d, other);
    PassesLost(d, n, other);
    PathGood(d, other);
    if m != 0 && 2 * Zone(d, m, 0) != PathDir(d, path) {
      OwnsOther(d, m, Zone(after, n, 0));
      ReadKeptBeside(d, after, n, PathDir(d, path), 2 * Zone(after, n, 0), m, k, output);
    }
  }

  lemma NotAsked(d: Disk, path: Bytes, s: nat, name: Bytes)
    requires Formed(d) && s != 0 && (s, name) !in PathAsks(d, path)
    ensures !Names(d, path, s, name) && (s, name) !in Asked(d, PathParts(path), ROOT_SECTOR)
  {
    hide Asked, PathDir;
  }

  /** No file has its data in a zone that is not marked. */
  lemma OwnsOther(d: Disk, m: InodeNo, z: nat)
    requires Inv(d) && IsNode(m) && 0 < z < ZONE_LIMIT && !ZoneBit(d, z)
    ensures Zone(d, m, 0) != z
  {
    hide Zone, ZoneBit, IsDir, GoodDir;
  }

  lemma ReadKeptBeside(d: Disk, after: Disk, n: InodeNo, s: nat, t: nat, m: InodeNo, k: nat, output: Bytes)
    requires Inv(d) && Formed(after) && Renewed(d, after, n) && IsNode(m) && m != n
    requires 2 * Zone(d, m, 0) != s && 2 * Zone(d, m, 0) != t && DataKept(d, after, {s, t})
    requires k <= |output| && Min(k, Size(d, m)) <= SECTOR_SIZE
    ensures Size(after, m) == Size(d, m) && ReadInode(after, m, k, output) == ReadInode(d, m, k, output)
  {
    hide Zone, Size, IsDir, GoodDir, ZoneBit, Apart, Dirs, Reserved, Rooted;
    assert Zone(d, m, 0) == 0 || Zone(d, m, 0) >= ROOT_ZONE;
  }
}
