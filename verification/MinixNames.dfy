/** Creating, deleting and renaming as seen through path lookups. */
module MinixNames {
  import opened Bits
  import opened Directory
  import opened Inodes
  import opened MinixFiles
  import opened MinixInvariant
  import opened MinixKeeps
  import opened MinixModel
  import opened MinixPaths
  import opened Sectors
  import opened Strings

  /** The inodes whose kind a cleared or renewed record `n` affects: itself, and
      the next one when that shares the sector. */
  function Lost(n: InodeNo): set<nat> {
    if n % 16 != 0 then {n, n + 1} else {n}
  }

  lemma LostSelf(n: InodeNo)
    ensures n in Lost(n)
  {
  }

  lemma VisitsPath(d: Disk, path: Bytes, n: nat)
    requires Formed(d) && n in Visited(d, PathParts(path), ROOT_SECTOR)
    ensures n in PathVisits(d, path)
  {
  }

  /** The record of `n` is renewed: the other records keep sizes and zones, and
      those outside Lost(n) their kind. */
  ghost predicate Renewed(d: Disk, after: Disk, n: InodeNo)
    requires Formed(d) && Formed(after)
  {
    && (forall m: InodeNo | IsNode(m) && m != n :: Zone(after, m, 0) == Zone(d, m, 0) && Size(after, m) == Size(d, m))
    && (forall m: InodeNo | IsNode(m) && m !in Lost(n) :: IsDir(after, m) == IsDir(d, m))
    && (forall m: InodeNo | m in Lost(n) && m != n :: !IsDir(after, m))
  }

  lemma RenewedBy(d: Disk, e: Disk, n: InodeNo, b: Bytes)
    requires Formed(d) && Formed(e) && (forall s | 10 <= s < ROOT_SECTOR :: e[s] == d[s])
    requires |b| == SECTOR_SIZE && WithinWipe(e[SectorOf(n)], b, OffsetOf(n))
    ensures Renewed(d, PutSector(e, SectorOf(n), b), n)
  {
    hide Zone, Mode, Size, WithinWipe, SectorOf, OffsetOf, DirMode;
    RecordsSame(d, e);
    WipeOthers(e, n, b);
    FileModes();
  }

  lemma RenewedMore(d: Disk, g: Disk, after: Disk, n: InodeNo)
    requires Formed(d) && Formed(g) && Formed(after) && Renewed(d, g, n) && IsNode(n) && n + 1 <= LAST_INODE
    requires forall s | 10 <= s < ROOT_SECTOR :: after[s] == g[s]
    ensures Renewed(d, after, n)
    ensures Zone(after, n, 0) == Zone(g, n, 0) && Size(after, n) == Size(g, n) && IsDir(after, n) == IsDir(g, n)
  {
    hide Zone, Size, IsDir;
    NodesSame(g, after);
  }

  /** The data sectors: only those in `except` change. */
  ghost predicate DataKept(d: Disk, after: Disk, except: set<nat>)
    requires Formed(d) && Formed(after)
  {
    forall t | ROOT_SECTOR <= t < SECTORS && t !in except :: after[t] == d[t]
  }

  /** Renewing a record and changing one name of one directory. */
  lemma ChangedBy(d: Disk, after: Disk, n: InodeNo, s: nat, name: Bytes, except: set<nat>)
    requires Inv(d) && Formed(after) && Renewed(d, after, n) && DataKept(d, after, except) && s < SECTORS
    requires forall t | t in except :: t == s || !DirAt(d, t)
    requires forall x: Bytes | x != name :: Lookup(DirOf(after[s]), x) == Lookup(DirOf(d[s]), x)
    ensures Changed(d, after, {(s, name)}, Lost(n))
  {
    hide Zone, Size, IsDir, Lookup, GoodDir, ZoneBit, Inv, DirAt, Lost;
    InvParts(d);
    LostSelf(n);
    forall t: nat, x: Bytes | t < SECTORS && DirAt(d, t) && (t, x) !in {(s, name)}
      ensures Lookup(DirOf(after[t]), x) == Lookup(DirOf(d[t]), x)
    {
      DirAtMeans(d, t);
    }
  }

  /** What an added entry changes. */
  lemma AddEntryEffect(d: Disk, s: nat, n: InodeNo, name: Bytes)
    requires Formed(d) && s < SECTORS && IsNode(n) && |name| < NAME_FIELD && 0 !in name
    requires GoodDir(DirOf(d[s])) && Lookup(DirOf(d[s]), name) == 0
    requires AddEntry(d, s, n, name).1 == ESUCCESS
    ensures var r := AddEntry(d, s, n, name).0;
      && r == PutSector(d, s, r[s])
      && DirOf(r[s]) == DirOf(d[s])[FindFree(DirOf(d[s])) := Used(n, name)]
      && Lookup(DirOf(r[s]), name) == n
      && (forall x: Bytes | x != name :: Lookup(DirOf(r[s]), x) == Lookup(DirOf(d[s]), x))
  {
    hide GoodDir, PutEntry, Lookup;
    var i := FindFree(DirOf(d[s]));
    PutEntryEffect(d[s], i, n, name);
    InsertEntry(DirOf(d[s]), i, n, name);
  }

  lemma AddEntryFails(d: Disk, s: nat, n: InodeNo, name: Bytes)
    requires Formed(d) && s < SECTORS
    ensures AddEntry(d, s, n, name).1 == ESUCCESS || AddEntry(d, s, n, name) == (d, -ENOSPC)
    ensures AddEntry(d, s, n, name).1 == ESUCCESS <==> exists i :: 0 <= i < ENTRIES && DirOf(d[s])[i].Free?
  {
  }

  // Creating a file.

  /** A successful create: a new empty file under the name, nothing else. */
  ghost predicate FileMade(d: Disk, after: Disk, s: nat, n: InodeNo, name: Bytes)
    requires Formed(d) && Formed(after) && s < SECTORS
  {
    && Changed(d, after, {(s, name)}, Lost(n)) && Renewed(d, after, n) && DataKept(d, after, {s})
    && Lookup(DirOf(after[s]), name) == n
    && !IsDir(after, n) && Size(after, n) == 0 && Zone(after, n, 0) == 0 && RecordOf(after, n) == FileRecord()
  }

  lemma CreateFileMakes(d: Disk, path: Bytes)
    requires Inv(d) && PathOk(path) && CreateFile(d, path).1 == ESUCCESS
    ensures var n := FreeInode(d);
      && n != 0 && Find(d, path) == 0 && PathDir(d, path) != 0
      && FileMade(d, CreateFile(d, path).0, PathDir(d, path), n, PathName(path))
  {
    hide Inv, DirAt, GoodDir, Lookup, FreshRecord, SectorOf, PathName, PathDir, SetBit, AddEntry, RecordIs, WithinWipe,
      Zone, Size, Mode, DirMode, Changed, Lost;
    InvParts(d);
    var s, n, name := PathDir(d, path), FreeInode(d), PathName(path);
    PathGood(d, path);
    DirAtMeans(d, s);
    SubName(path);
    var e := TakeInode(d, n);
    var b := FreshRecord(e[SectorOf(n)], OffsetOf(n), FILE_MODE, 0, 1);
    var g := NewFileInode(e, n);
    FreshRecordEffect(e[SectorOf(n)], OffsetOf(n), FILE_MODE, 0, 1);
    RenewedBy(d, e, n, b);
    RecordViews(e, n, b, FILE_MODE, 0, 0);
    FileModes();
    assert g[s] == d[s];
    AddEntryEffect(g, s, n, name);
    var after := CreateFile(d, path).0;
    RecordsSame(g, after);
    MadeBy(d, g, after, n, s, name);
    NewRecordBytes(e[SectorOf(n)], OffsetOf(n), 0);
    assert after[SectorOf(n)] == b;
  }

  /** The record first, then an entry. */
  lemma MadeBy(d: Disk, g: Disk, after: Disk, n: InodeNo, s: nat, name: Bytes)
    requires Inv(d) && Formed(g) && Formed(after) && IsNode(n) && n + 1 <= LAST_INODE && ROOT_SECTOR <= s < SECTORS
    requires Renewed(d, g, n) && (forall t | ROOT_SECTOR <= t < SECTORS :: g[t] == d[t])
    requires after == PutSector(g, s, after[s])
    requires forall x: Bytes | x != name :: Lookup(DirOf(after[s]), x) == Lookup(DirOf(d[s]), x)
    ensures Renewed(d, after, n) && DataKept(d, after, {s}) && Changed(d, after, {(s, name)}, Lost(n))
  {
    hide Zone, Size, IsDir, Lookup, GoodDir, Inv, DirAt;
    InvParts(d);
    RenewedMore(d, g, after, n);
    ChangedBy(d, after, n, s, name, {s});
  }

  /** When create succeeds, and what it leaves behind when it does not: a full
      directory costs the inode that was taken. */
  lemma CreateFileReturns(d: Disk, path: Bytes)
    requires Inv(d) && PathOk(path)
    ensures var r, s, n := CreateFile(d, path), PathDir(d, path), FreeInode(d);
      && (r.1 == ESUCCESS <==> Find(d, path) == 0 && s != 0 && n != 0 && !Full(DirOf(d[s])))
      && (r.1 == -EEXIST <==> Find(d, path) != 0)
      && (r.1 == -ENOENT <==> s == 0)
      && (r.1 == -ENOSPC <==> Find(d, path) == 0 && s != 0 && (n == 0 || Full(DirOf(d[s]))))
      && (r.1 != ESUCCESS ==> r.0 == if r.1 == -ENOSPC && n != 0 then NewFileInode(TakeInode(d, n), n) else d)
  {
    hide Inv, DirAt, GoodDir, Lookup, FreshRecord, PathDir, SetBit, PathName, PutEntry;
    InvParts(d);
    var s, n := PathDir(d, path), FreeInode(d);
    PathGood(d, path);
    if Find(d, path) == 0 && s != 0 && n != 0 {
      DirAtMeans(d, s);
      assert NewFileInode(TakeInode(d, n), n)[s] == d[s];
    }
  }

  /** The last component of `path` is the entry `name` of the directory at `s`. */
  predicate Names(d: Disk, path: Bytes, s: nat, name: Bytes)
    requires Formed(d)
  {
    PathDir(d, path) == s && PathName(path) == name
  }

  /** Where every path leads after a successful create: those that pass the new
      inode's number or the one after it are lost, those to the new name lead to
      the new inode, and all others stay. */
  lemma CreateFileFinds(d: Disk, path: Bytes, other: Bytes)
    requires Inv(d) && PathOk(path) && CreateFile(d, path).1 == ESUCCESS
    ensures var after, n := CreateFile(d, path).0, FreeInode(d);
      && n != 0
      && Find(after, other) ==
           if !(PathVisits(d, other) !! Lost(n)) then 0
           else if Names(d, other, PathDir(d, path), PathName(path)) then n
           else Find(d, other)
  {
    hide Inv, GoodDir, PathName, PathDir, CreateFile, Zone, Size, IsDir, Lost, PathVisits, Asked, Lookup;
    InvParts(d);
    var after, n, s, name := CreateFile(d, path).0, FreeInode(d), PathDir(d, path), PathName(path);
    CreateFileMakes(d, path);
    LostKinds(d, after, n);
    assert DeadEnd(after, s, name);
    PathDirWhenGone(d, after, {(s, name)}, Lost(n), other);
    PathGood(d, other);
    AskedInVain(d, other, s, name);
  }

  /** A path whose walk asks for a missing name leads nowhere. */
  lemma AskedInVain(d: Disk, path: Bytes, s: nat, name: Bytes)
    requires Inv(d) && s < SECTORS && Lookup(DirOf(d[s]), name) == 0
    ensures (s, name) in Asked(d, PathParts(path), ROOT_SECTOR) ==> PathDir(d, path) == 0
  {
    hide Inv, PathDir, Asked, Lookup;
    InvParts(d);
    if PathDir(d, path) != 0 {
      PathDirAsks(d, path, s, name);
    }
  }

  // Creating a directory.

  /** A successful mkdir: a directory of "." and ".." under the name. */
  ghost predicate DirMade(d: Disk, after: Disk, s: nat, n: InodeNo, name: Bytes)
    requires Formed(d) && Formed(after) && s < SECTORS
  {
    var z := Zone(after, n, 0);
    && Changed(d, after, {(s, name)}, Lost(n)) && Renewed(d, after, n) && DataKept(d, after, {s, 2 * z})
    && Lookup(DirOf(after[s]), name) == n
    && IsDir(after, n) && ROOT_ZONE < z < ZONE_LIMIT && !ZoneBit(d, z) && Size(after, n) == 64
    && Lookup(DirOf(after[2 * z]), DOT) == n
    && Lookup(DirOf(after[2 * z]), DOT_DOT) == U16(d[s], 0)
    && RecordOf(after, n) == DirRecord(z)
  }

  lemma MakeDirMakes(d: Disk, t: Disk, s: nat, n: InodeNo, z: nat, name: Bytes)
    requires Inv(d) && Formed(t) && IsNode(n) && n + 1 <= LAST_INODE && DirAt(d, s) && s < SECTORS
    requires |name| < NAME_FIELD && 0 !in name && Lookup(DirOf(d[s]), name) == 0
    requires ROOT_ZONE < z < ZONE_LIMIT && !ZoneBit(d, z)
    requires forall u | 10 <= u < SECTORS :: t[u] == d[u]
    requires MakeDir(t, s, n, z, name).1 == ESUCCESS
    ensures DirMade(d, MakeDir(t, s, n, z, name).0, s, n, name)
  {
    hide Inv, DirAt, GoodDir, Lookup, FreshRecord, SectorOf, Put16, U16, NewDir, Zone, ZoneBit, DirMode, Mode, Size,
      RecordIs, WithinWipe, AddEntry, Changed, Lost;
    InvParts(d);
    DirAtMeans(d, s);
    ClearZone(d, z);
    var b := Put16(FreshRecord(t[SectorOf(n)], OffsetOf(n), DIR_MODE, 64, 2), OffsetOf(n) + 14, z);
    NewDirRecord(t[SectorOf(n)], OffsetOf(n), z);
    RenewedBy(d, t, n, b);
    RecordViews(t, n, b, DIR_MODE, 64, z);
    FileModes();
    var g := NewDirInode(t, n, z);
    var c := NewDir(n, U16(g[s], 0));
    assert g[s] == d[s];
    ParentGood(d[s]);
    NewDirGood(n, U16(d[s], 0));
    var h := PutSector(g, 2 * z, c);
    assert h[s] == d[s];
    AddEntryEffect(h, s, n, name);
    var after := MakeDir(t, s, n, z, name).0;
    RenewedMore(d, g, after, n);
    assert after[2 * z] == c;
    NewRecordBytes(t[SectorOf(n)], OffsetOf(n), z);
    assert after[SectorOf(n)] == b;
    ChangedBy(d, after, n, s, name, {s, 2 * z});
  }

  lemma CreateDirMakes(d: Disk, path: Bytes)
    requires Inv(d) && PathOk(path) && CreateDir(d, path).1 == ESUCCESS
    ensures var n := FreeInode(d);
      && n != 0 && Find(d, path) == 0 && PathDir(d, path) != 0
      && DirMade(d, CreateDir(d, path).0, PathDir(d, path), n, PathName(path))
  {
    hide Inv, DirAt, GoodDir, Lookup, PathName, PathDir, SetBit, MakeDir, DirMade, FirstClear, Bit;
    InvParts(d);
    var s, n := PathDir(d, path), FreeInode(d);
    PathGood(d, path);
    SubName(path);
    var z := FirstClear(TakeInode(d, n)[ZONE_BITMAP], 0);
    assert !ZoneBit(d, z);
    ClearZone(d, z);
    MakeDirMakes(d, TakeZone(TakeInode(d, n), z), s, n, z, PathName(path));
  }

  /** Where paths lead after a successful mkdir: the path itself to the new inode
      exactly if it does not pass the one after it, and others as after a create.
      Left open are paths that already passed the number the new directory gets,
      and paths through the new name, which enter the new directory. */
  lemma CreateDirFinds(d: Disk, path: Bytes, other: Bytes)
    requires Inv(d) && PathOk(path) && CreateDir(d, path).1 == ESUCCESS
    ensures var after, n, s, name := CreateDir(d, path).0, FreeInode(d), PathDir(d, path), PathName(path);
      && n != 0
      && (n !in PathVisits(d, path) ==> Find(after, path) == if PathVisits(d, path) !! Lost(n) then n else 0)
      && (n !in PathVisits(d, other) && (s, name) !in Asked(d, PathParts(other), ROOT_SECTOR) ==>
            Find(after, other) ==
              if !(PathVisits(d, other) !! Lost(n)) then 0
              else if Names(d, other, s, name) then n
              else Find(d, other))
  {
    hide Inv, GoodDir, PathName, PathDir, CreateDir, Zone, Size, IsDir, PathVisits, Asked, Lookup, DirMade;
    InvParts(d);
    var n, s, name := FreeInode(d), PathDir(d, path), PathName(path);
    CreateDirMakes(d, path);
    AbsentName(d, path);
    PathDirAsks(d, path, s, name);
    if n !in PathVisits(d, path) {
      DirMadeFinds(d, CreateDir(d, path).0, s, n, name, path);
    }
    if n !in PathVisits(d, other) && (s, name) !in Asked(d, PathParts(other), ROOT_SECTOR) {
      DirMadeFinds(d, CreateDir(d, path).0, s, n, name, other);
    }
  }

  lemma AbsentName(d: Disk, path: Bytes)
    requires Formed(d) && Find(d, path) == 0 && PathDir(d, path) != 0
    ensures Lookup(DirOf(d[PathDir(d, path)]), PathName(path)) == 0
  {
  }

  lemma DirMadeFinds(d: Disk, after: Disk, s: nat, n: InodeNo, name: Bytes, path: Bytes)
    requires Inv(d) && Formed(after) && 0 < s < SECTORS && IsNode(n) && n + 1 <= LAST_INODE
    requires DirMade(d, after, s, n, name)
    requires n !in PathVisits(d, path) && (s, name) !in Asked(d, PathParts(path), ROOT_SECTOR)
    ensures Find(after, path) ==
      if !(PathVisits(d, path) !! Lost(n)) then 0
      else if Names(d, path, s, name) then n
      else Find(d, path)
  {
    hide Inv, GoodDir, PathName, PathDir, Zone, Size, IsDir, PathVisits, Asked, Lookup, Renewed, DataKept;
    InvParts(d);
    PathGood(d, path);
    if PathVisits(d, path) !! Lost(n) {
      WalkKeptTo(d, after, {(s, name)}, Lost(n), path);
    } else {
      NextLost(d, after, n);
      PathDirPast(d, after, {(s, name)}, Lost(n), {n + 1}, path);
    }
  }

  /** The inode after a renewed one is no directory. */
  lemma NextLost(d: Disk, after: Disk, n: InodeNo)
    requires Formed(d) && Formed(after) && Renewed(d, after, n) && n + 1 < 0x10000
    ensures n + 1 in Lost(n) ==> !IsDir(after, n + 1)
  {
    hide IsDir, Zone, Size;
  }

  /** A path past an inode that is no directory any more, and past nothing else
      that has changed, leads nowhere. */
  lemma PathDirPast(d: Disk, after: Disk, touched: set<(nat, Bytes)>, lost: set<nat>, gone: set<nat>, path: Bytes)
    requires Inv(d) && Formed(after) && Changed(d, after, touched, lost)
    requires Asked(d, PathParts(path), ROOT_SECTOR) !! touched
    requires PathVisits(d, path) * lost <= gone && !(PathVisits(d, path) !! lost)
    requires forall m: InodeNo | m in gone && m in lost :: !IsDir(after, m)
    ensures PathDir(after, path) == 0
  {
    hide Zone, IsDir, Lookup, GoodDir, ZoneBit, DirAt, Walk, Asked, Visited;
    RootAt(d);
    WalkPast(d, after, touched, lost, gone, PathParts(path), ROOT_SECTOR);
  }

  /** When mkdir succeeds: it needs a zone as well. */
  lemma CreateDirReturns(d: Disk, path: Bytes)
    requires Inv(d) && PathOk(path)
    ensures var r, s, n := CreateDir(d, path), PathDir(d, path), FreeInode(d);
      && (r.1 == ESUCCESS <==> Find(d, path) == 0 && s != 0 && n != 0 && ZoneFree(d) && !Full(DirOf(d[s])))
      && (r.1 == -EEXIST <==> Find(d, path) != 0)
      && (r.1 == -ENOENT <==> s == 0)
      && (r.1 == -ENOSPC <==> Find(d, path) == 0 && s != 0 && (n == 0 || !ZoneFree(d) || Full(DirOf(d[s]))))
  {
    hide Inv, DirAt, GoodDir, Lookup, PathDir, SetBit, PathName, FirstClear, ZoneBit, MakeDir, ZoneFree, Full;
    InvParts(d);
    var s, n := PathDir(d, path), FreeInode(d);
    PathGood(d, path);
    ZoneFound(d);
    if Find(d, path) == 0 && s != 0 && n != 0 {
      DirAtMeans(d, s);
      var d1 := TakeInode(d, n);
      var z := FirstClear(d1[ZONE_BITMAP], 0);
      if z != ZONE_LIMIT {
        FoundClear(d);
        assert s != 2 * z;
        MakeDirReturns(TakeZone(d1, z), s, n, z, PathName(path));
        assert TakeZone(d1, z)[s] == d[s];
      }
    }
  }

  /** The last step of mkdir fails exactly if the parent directory is full. */
  lemma MakeDirReturns(d: Disk, s: nat, n: InodeNo, z: nat, name: Bytes)
    requires Formed(d) && ROOT_SECTOR <= s < SECTORS && IsNode(n) && z < ZONE_LIMIT && s != 2 * z
    ensures MakeDir(d, s, n, z, name).1 == if Full(DirOf(d[s])) then -ENOSPC else ESUCCESS
  {
    hide NewDirInode, NewDir, U16, PutEntry;
    RecordElsewhere(d, n, z, s);
  }

  lemma RecordElsewhere(d: Disk, n: InodeNo, z: nat, s: nat)
    requires Formed(d) && IsNode(n) && z < ZONE_LIMIT && ROOT_SECTOR <= s < SECTORS
    ensures NewDirInode(d, n, z)[s] == d[s]
  {
    hide FreshRecord, Put16;
  }

  lemma WalkKeptTo(d: Disk, after: Disk, touched: set<(nat, Bytes)>, lost: set<nat>, path: Bytes)
    requires Inv(d) && Formed(after) && Changed(d, after, touched, lost)
    requires PathVisits(d, path) !! lost && Asked(d, PathParts(path), ROOT_SECTOR) !! touched
    ensures PathDir(after, path) == PathDir(d, path)
  {
    hide Zone, IsDir, Lookup, GoodDir, ZoneBit, DirAt, Walk, Asked, Visited;
    RootAt(d);
    WalkKept(d, after, touched, lost, PathParts(path), ROOT_SECTOR);
  }

  // Deleting.

  /** A deleted inode: its record cleared, one name gone, nothing else. */
  ghost predicate Dropped(d: Disk, after: Disk, s: nat, n: InodeNo, name: Bytes)
    requires Formed(d) && Formed(after) && s < SECTORS
  {
    && Changed(d, after, {(s, name)}, Lost(n)) && Renewed(d, after, n) && DataKept(d, after, {s})
    && Lookup(DirOf(after[s]), name) == 0
    && !IsDir(after, n) && Size(after, n) == 0 && forall k: nat | k < ZONES :: Zone(after, n, k) == 0
  }

  /** The common end of both deletes: the record cleared, one bit of the inode
      bitmap cleared, and entry `i` freed. */
  lemma DropsBy(d: Disk, freed: Disk, s: nat, i: nat, n: InodeNo)
    requires Inv(d) && Formed(freed) && freed == PutSector(d, ZONE_BITMAP, freed[ZONE_BITMAP])
    requires IsNode(n) && DirAt(d, s) && s < SECTORS && i < ENTRIES && DirOf(d[s])[i].Used?
    ensures var after := FreeEntry(ClearInodeBit(WipeInode(freed, n), n), s, i);
      && Dropped(d, after, s, n, DirOf(d[s])[i].name)
      && after[ZONE_BITMAP] == freed[ZONE_BITMAP]
      && after[INODE_BITMAP] == (if n < ZONE_LIMIT then ClearBit(d[INODE_BITMAP], n) else d[INODE_BITMAP])
  {
    hide Inv, DirAt, GoodDir, Lookup, Wiped, SectorOf, RecordIs, WithinWipe, Zone, Size, Mode, DirMode, Changed, Lost,
      PutEntry, Renewed;
    InvParts(d);
    DirAtMeans(d, s);
    var b := Wiped(freed[SectorOf(n)], OffsetOf(n));
    WipedEffect(freed[SectorOf(n)], OffsetOf(n));
    RenewedBy(d, freed, n, b);
    RecordViews(freed, n, b, 0, 0, 0);
    FileModes();
    var g := ClearInodeBit(WipeInode(freed, n), n);
    var after := FreeEntry(g, s, i);
    assert g[s] == d[s];
    PutEntryEffect(g[s], i, 0, []);
    RemoveEntry(DirOf(d[s]), i);
    RecordsSame(WipeInode(freed, n), after);
    assert Renewed(d, after, n) by { RenewedAgain(d, WipeInode(freed, n), after, n); }
    ChangedBy(d, after, n, s, DirOf(d[s])[i].name, {s});
  }

  lemma RenewedAgain(d: Disk, g: Disk, after: Disk, n: InodeNo)
    requires Formed(d) && Formed(g) && Formed(after) && Renewed(d, g, n) && IsNode(n)
    requires forall s | 10 <= s < ROOT_SECTOR :: after[s] == g[s]
    ensures Renewed(d, after, n)
  {
    hide Zone, Size, IsDir;
    NodesSame(g, after);
    assert forall m | m in Lost(n) :: m <= LAST_INODE;
  }

  lemma FieldNamesMeans(d: Disk, n: InodeNo)
    requires Formed(d)
    ensures forall y: nat ::
      FieldNames(d[SectorOf(n)], OffsetOf(n), ZONES, y) <==> exists k: nat :: k < ZONES && Zone(d, n, k) == y
  {
    hide ZoneAt;
    forall y: nat
      ensures FieldNames(d[SectorOf(n)], OffsetOf(n), ZONES, y) <==> exists k: nat :: k < ZONES && Zone(d, n, k) == y
    {
      if k: nat :| k < ZONES && Zone(d, n, k) == y {
        assert ZoneAt(d[SectorOf(n)], OffsetOf(n), k) == y;
      }
      if FieldNames(d[SectorOf(n)], OffsetOf(n), ZONES, y) {
        var k: nat :| k < ZONES && ZoneAt(d[SectorOf(n)], OffsetOf(n), k) == y;
        assert Zone(d, n, k) == y;
      }
    }
  }

  lemma FreedBits(d: Disk, n: InodeNo)
    requires Formed(d)
    ensures var freed := FreeZones(d, d[SectorOf(n)], OffsetOf(n), ZONES);
      forall y: nat | y < ZONE_LIMIT ::
        ZoneBit(freed, y) == (ZoneBit(d, y) && (y == 0 || !exists k: nat :: k < ZONES && Zone(d, n, k) == y))
  {
    hide ZoneBit, Zone, FieldNames, FreeZones, SectorOf, OffsetOf;
    FreeZonesEffect(d, d[SectorOf(n)], OffsetOf(n), ZONES);
    FieldNamesMeans(d, n);
  }

  lemma SameBits(d: Disk, after: Disk)
    requires Formed(d) && Formed(after) && after[ZONE_BITMAP] == d[ZONE_BITMAP]
    ensures forall y: nat | y < ZONE_LIMIT :: ZoneBit(after, y) == ZoneBit(d, y)
  {
  }

  /** A successful delete frees exactly the zones of the file, and clears the
      bitmap bit with the inode's number; the bit that stands for the inode is the
      one below. */
  lemma DeleteFileDrops(d: Disk, path: Bytes)
    requires Inv(d) && PathOk(path) && DeleteFile(d, path).1 == ESUCCESS
    ensures var after, s, n := DeleteFile(d, path).0, PathDir(d, path), Find(d, path);
      && n != 0 && Dropped(d, after, s, n, PathName(path))
      && (forall y: nat | y < ZONE_LIMIT ::
            ZoneBit(after, y) == (ZoneBit(d, y) && (y == 0 || !exists k: nat :: k < ZONES && Zone(d, n, k) == y)))
      && (forall j: nat | j < ZONE_LIMIT :: Bit(after[INODE_BITMAP], j) == (j != n && Bit(d[INODE_BITMAP], j)))
  {
    hide Inv, DirAt, GoodDir, PathName, PathDir, ZoneAt, ClearBit, Bit, FreeZones, Dropped, PutEntry, Wiped, SectorOf,
      FieldNames, Zone, OffsetOf, ZoneBit;
    InvParts(d);
    var s, name := PathDir(d, path), PathName(path);
    PathGood(d, path);
    DirAtMeans(d, s);
    var i := FindName(DirOf(d[s]), name);
    var n := DirOf(d[s])[i].inode;
    var freed := FreeZones(d, d[SectorOf(n)], OffsetOf(n), ZONES);
    FreedBits(d, n);
    FreeZonesEffect(d, d[SectorOf(n)], OffsetOf(n), ZONES);
    DropsBy(d, freed, s, i, n);
    SameBits(freed, DeleteFile(d, path).0);
    if n < ZONE_LIMIT {
      ClearBitEffect(d[INODE_BITMAP], n);
    }
  }

  /** Each code of delete by its condition; a failing delete changes nothing. */
  lemma DeleteFileReturns(d: Disk, path: Bytes)
    requires Formed(d)
    ensures var r, dots := DeleteFile(d, path), PathName(path) == DOT || PathName(path) == DOT_DOT;
      && (r.1 == ESUCCESS <==> Find(d, path) != 0 && !dots)
      && (r.1 == -EACCES <==> PathDir(d, path) != 0 && dots)
      && (r.1 == -ENOENT <==> PathDir(d, path) == 0 || (Find(d, path) == 0 && !dots))
      && (r.1 != ESUCCESS ==> r.0 == d)
  {
    hide PathDir, PathName, DropFile;
  }

  /** Where every path leads after a successful delete: those that ask for the
      deleted name, or pass the deleted inode or the next one, are lost, and all
      others stay. */
  lemma DeleteFileFinds(d: Disk, path: Bytes, other: Bytes)
    requires Inv(d) && PathOk(path) && DeleteFile(d, path).1 == ESUCCESS
    ensures var after, s, n := DeleteFile(d, path).0, PathDir(d, path), Find(d, path);
      && n != 0 && Find(after, path) == 0
      && Find(after, other) ==
           if (s, PathName(path)) in PathAsks(d, other) || !(PathVisits(d, other) !! Lost(n)) then 0
           else Find(d, other)
  {
    hide Inv, GoodDir, PathName, DeleteFile, Zone, Size, IsDir, Lost, PathVisits, ZoneBit, Bit, Dropped, Asked,
      PathAsks, Lookup;
    InvParts(d);
    DeleteFileDrops(d, path);
    DroppedFinds(d, DeleteFile(d, path).0, PathDir(d, path), Find(d, path), PathName(path), path);
    DroppedFinds(d, DeleteFile(d, path).0, PathDir(d, path), Find(d, path), PathName(path), other);
    LastAsked(d, path);
  }

  lemma LastAsked(d: Disk, path: Bytes)
    requires Formed(d)
    ensures Find(d, path) != 0 ==> (PathDir(d, path), PathName(path)) in PathAsks(d, path)
  {
  }

  /** The paths that a dropped name and inode take along. */
  lemma DroppedFinds(d: Disk, after: Disk, s: nat, n: InodeNo, name: Bytes, path: Bytes)
    requires Inv(d) && Formed(after) && s < SECTORS && Dropped(d, after, s, n, name)
    ensures Find(after, path) ==
      if (s, name) in PathAsks(d, path) || !(PathVisits(d, path) !! Lost(n)) then 0 else Find(d, path)
  {
    hide Inv, GoodDir, PathName, PathDir, Zone, Size, IsDir, Lost, PathVisits, Asked, Lookup;
    InvParts(d);
    LostKinds(d, after, n);
    assert DeadEnd(after, s, name);
    PathDirWhenGone(d, after, {(s, name)}, Lost(n), path);
    PathGood(d, path);
  }

  lemma LostKinds(d: Disk, after: Disk, n: InodeNo)
    requires Formed(d) && Formed(after) && Renewed(d, after, n) && !IsDir(after, n)
    ensures forall m: InodeNo | m in Lost(n) :: !IsDir(after, m)
  {
    hide IsDir, Zone, Size;
  }

  /** A successful rmdir frees the first zone alone, and drops the first entry
      with the inode's number. */
  lemma DeleteDirDrops(d: Disk, path: Bytes)
    requires Inv(d) && PathOk(path) && DeleteDir(d, path).1 == ESUCCESS
    ensures var after, s, n := DeleteDir(d, path).0, PathDir(d, path), Find(d, path);
      && n != 0 && s != 0 && FindInode(DirOf(d[s]), n) < ENTRIES
      && Dropped(d, after, s, n, DirOf(d[s])[FindInode(DirOf(d[s]), n)].name)
      && (forall y: nat | y < ZONE_LIMIT :: ZoneBit(after, y) == (ZoneBit(d, y) && y != Zone(d, n, 0)))
      && (forall j: nat | j < ZONE_LIMIT :: Bit(after[INODE_BITMAP], j) == (j != n && Bit(d[INODE_BITMAP], j)))
  {
    hide Inv, DirAt, GoodDir, PathName, PathDir, Zone, ClearBit, Bit, FreeZone, Dropped, PutEntry, Wiped, SectorOf,
      IsDir, Size, ZoneBit;
    InvParts(d);
    var s, n := PathDir(d, path), Find(d, path);
    PathGood(d, path);
    DirAtMeans(d, s);
    var freed := FreeZone(d, Zone(d, n, 0));
    FreeZoneEffect(d, Zone(d, n, 0));
    DirHasZone(d, n);
    assert ClearInodeBit(WipeInode(freed, n), n)[s] == d[s];
    DropsBy(d, freed, s, FindInode(DirOf(d[s]), n), n);
    SameBits(freed, DeleteDir(d, path).0);
    if n < ZONE_LIMIT {
      ClearBitEffect(d[INODE_BITMAP], n);
    }
  }

  /** Each code of rmdir by its condition; a failing rmdir changes nothing. */
  lemma DeleteDirReturns(d: Disk, path: Bytes)
    requires Formed(d)
    ensures var r, n := DeleteDir(d, path), Find(d, path);
      var dots := PathName(path) == DOT || PathName(path) == DOT_DOT;
      && (r.1 == ESUCCESS <==> n != 0 && !dots && IsDir(d, n) && Size(d, n) <= 64)
      && (r.1 == -EPERM <==> PathDir(d, path) != 0 && (dots || (n != 0 && IsDir(d, n) && Size(d, n) > 64)))
      && (r.1 == -ENOTDIR <==> n != 0 && !dots && !IsDir(d, n))
      && (r.1 == -ENOENT <==> PathDir(d, path) == 0 || (n == 0 && !dots))
      && (r.1 != ESUCCESS ==> r.0 == d)
  {
    hide PathDir, PathName, DropDir, IsDir, Size;
  }

  /** Where every path leads after a successful rmdir. The path itself is lost
      unless an earlier entry of its directory has the same inode number, which is
      then dropped instead, and the walk to it passes neither the removed inode nor
      the next one. */
  lemma DeleteDirFinds(d: Disk, path: Bytes, other: Bytes)
    requires Inv(d) && PathOk(path) && DeleteDir(d, path).1 == ESUCCESS
    ensures var after, s, n := DeleteDir(d, path).0, PathDir(d, path), Find(d, path);
      && n != 0 && s != 0 && FindInode(DirOf(d[s]), n) < ENTRIES
      && var gone := DirOf(d[s])[FindInode(DirOf(d[s]), n)].name;
      && (Find(after, other) ==
            if (s, gone) in PathAsks(d, other) || !(PathVisits(d, other) !! Lost(n)) then 0 else Find(d, other))
      && (Find(after, path) == 0 <==>
            || FindInode(DirOf(d[s]), n) == FindName(DirOf(d[s]), PathName(path))
            || !(PathVisits(d, path) !! Lost(n)))
  {
    hide Inv, GoodDir, PathName, PathDir, DeleteDir, Zone, Size, IsDir, PathVisits, Asked, ZoneBit, Bit, DirAt,
      Dropped, Lookup, Lost;
    InvParts(d);
    var after, s, n, name := DeleteDir(d, path).0, PathDir(d, path), Find(d, path), PathName(path);
    DeleteDirDrops(d, path);
    PathGood(d, path);
    DirAtMeans(d, s);
    var es := DirOf(d[s]);
    var i := FindInode(es, n);
    DroppedFinds(d, after, s, n, es[i].name, other);
    DroppedFinds(d, after, s, n, es[i].name, path);
    SameEntry(es, i, name);
    if (s, es[i].name) in Asked(d, PathParts(path), ROOT_SECTOR) {
      AskedVisited(d, PathParts(path), ROOT_SECTOR, s, es[i].name);
      VisitsPath(d, path, n);
      LostSelf(n);
    }
  }

  lemma SameEntry(es: seq<Entry>, i: nat, name: Bytes)
    requires GoodDir(es) && i < |es| && es[i].Used?
    ensures Lookup(es, es[i].name) == es[i].inode
    ensures i == FindName(es, name) <==> es[i].name == name
  {
    LookupIs(es, i);
  }
}
