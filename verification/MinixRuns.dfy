/** All runs of the file operations, and what holds on names directly in the
    root directory. */
module MinixRuns {
  import opened Bits
  import opened Directory
  import opened Inodes
  import opened MinixFiles
  import opened MinixInvariant
  import opened MinixKeeps
  import opened MinixModel
  import opened MinixMoves
  import opened MinixNames
  import opened MinixPaths
  import opened Sectors
  import opened Strings

  // Runs.

  datatype Call =
    | Create(path: Bytes)
    | Write(path: Bytes, input: Bytes, count: nat)
    | Mkdir(path: Bytes)
    | Delete(path: Bytes)
    | Rmdir(path: Bytes)
    | Rename(path: Bytes, newPath: Bytes)
    | Copy(path: Bytes, newPath: Bytes, buffer: Bytes)

  /** What the code demands of its callers. */
  predicate CallOk(c: Call) {
    && PathOk(c.path)
    && (c.Write? ==> Min(c.count, SECTOR_SIZE) <= |c.input|)
    && (c.Rename? || c.Copy? ==> PathOk(c.newPath))
    && (c.Copy? ==> |c.buffer| == SECTOR_SIZE)
  }

  function After(d: Disk, c: Call): (after: Disk)
    requires Formed(d) && CallOk(c)
    ensures Formed(after)
  {
    match c
    case Create(path) => CreateFile(d, path).0
    case Write(path, input, count) => WriteFile(d, path, input, count).0
    case Mkdir(path) => CreateDir(d, path).0
    case Delete(path) => DeleteFile(d, path).0
    case Rmdir(path) => DeleteDir(d, path).0
    case Rename(path, newPath) => RenameFile(d, path, newPath).0
    case Copy(path, newPath, buffer) => CopyFile(d, path, newPath, buffer).0
  }

  /** The call does not remove the root's own inode under another name, and does
      not write anything but directory entries into a directory. */
  predicate Allowed(d: Disk, c: Call)
    requires Formed(d) && CallOk(c)
  {
    match c
    case Delete(path) => Find(d, path) != ROOT_INODE || PathName(path) == DOT || PathName(path) == DOT_DOT
    case Rmdir(path) =>
      || Find(d, path) != ROOT_INODE || PathName(path) == DOT || PathName(path) == DOT_DOT
      || Size(d, ROOT_INODE) > 64
    case Write(path, input, count) =>
      Find(d, path) == 0 || !IsDir(d, Find(d, path)) || GoodDir(DirOf(Block(input, count)))
    case _ => true
  }

  /** One call keeps the invariant exactly if it is allowed. */
  lemma CallKeepsExactly(d: Disk, c: Call)
    requires Inv(d) && CallOk(c)
    ensures Inv(After(d, c)) <==> Allowed(d, c)
  {
    hide Inv, CreateFile, WriteFile, CreateDir, DeleteFile, DeleteDir, RenameFile, CopyFile, GoodDir, Find;
    InvParts(d);
    match c
    case Create(path) => CreateFileKeeps(d, path);
    case Write(path, input, count) => WriteFileKeeps(d, path, input, count);
    case Mkdir(path) => CreateDirKeeps(d, path);
    case Delete(path) => DeleteFileKeeps(d, path);
    case Rmdir(path) => DeleteDirKeeps(d, path);
    case Rename(path, newPath) => RenameFileKeeps(d, path, newPath);
    case Copy(path, newPath, buffer) => CopyFileKeeps(d, path, newPath, buffer);
  }

  function Run(d: Disk, calls: seq<Call>): (after: Disk)
    requires Formed(d) && forall c | c in calls :: CallOk(c)
    ensures Formed(after)
    decreases |calls|
  {
    if calls == [] then d else Run(After(d, calls[0]), calls[1..])
  }

  predicate AllAllowed(d: Disk, calls: seq<Call>)
    requires Formed(d) && forall c | c in calls :: CallOk(c)
    decreases |calls|
  {
    calls == [] || (Allowed(d, calls[0]) && AllAllowed(After(d, calls[0]), calls[1..]))
  }

  lemma {:induction false} RunKeeps(d: Disk, calls: seq<Call>)
    requires Inv(d) && (forall c | c in calls :: CallOk(c)) && AllAllowed(d, calls)
    ensures Inv(Run(d, calls))
    decreases |calls|
  {
    hide Inv, After, Allowed, CallOk;
    InvParts(d);
    if calls != [] {
      CallKeepsExactly(d, calls[0]);
      RunKeeps(After(d, calls[0]), calls[1..]);
    }
  }

  /** Whatever the run, a zone belongs to one field of one inode, is marked used,
      and is no metadata; the marks of the metadata stay. */
  lemma RunExclusive(d: Disk, calls: seq<Call>, n: InodeNo, k: nat, m: InodeNo, j: nat)
    requires Inv(d) && (forall c | c in calls :: CallOk(c)) && AllAllowed(d, calls)
    requires IsNode(n) && IsNode(m) && k < ZONES && j < ZONES
    ensures var after := Run(d, calls);
      && (Zone(after, n, k) != 0 ==> ROOT_ZONE <= Zone(after, n, k) < ZONE_LIMIT && ZoneBit(after, Zone(after, n, k)))
      && (Zone(after, n, k) != 0 && Zone(after, n, k) == Zone(after, m, j) ==> n == m && k == j)
      && forall z: nat | z < ROOT_ZONE :: ZoneBit(after, z)
  {
    hide Zone, ZoneBit, IsDir, GoodDir, Run, CallOk, AllAllowed;
    RunKeeps(d, calls);
  }

  /** Whatever the run, a path leads to an inode of the table, and the names in
      the directory it is looked up in are pairwise different. */
  lemma RunDirectories(d: Disk, calls: seq<Call>, path: Bytes)
    requires Inv(d) && (forall c | c in calls :: CallOk(c)) && AllAllowed(d, calls)
    ensures var after := Run(d, calls);
      && Find(after, path) <= LAST_INODE
      && (PathDir(after, path) != 0 ==> Distinct(DirOf(after[PathDir(after, path)])))
  {
    hide Inv, Run, CallOk, AllAllowed, DirAt, PathDir, Distinct;
    InvParts(d);
    RunKeeps(d, calls);
    var after := Run(d, calls);
    PathGood(after, path);
    if PathDir(after, path) != 0 {
      DirAtMeans(after, PathDir(after, path));
    }
  }

  // Names directly in the root directory.

  /** Created, a name at the root is found; other names there stay. */
  lemma CreateAtRoot(d: Disk, path: Bytes, other: Bytes)
    requires Inv(d) && PathOk(path) && PathOk(other) && PathParts(path) == PathParts(other) == []
    requires CreateFile(d, path).1 == ESUCCESS
    ensures var after := CreateFile(d, path).0;
      && Find(after, path) == FreeInode(d) != 0
      && (PathName(other) != PathName(path) ==> Find(after, other) == Find(d, other))
  {
    hide Inv, CreateFile, Find, PathDir, PathVisits, PathAsks, FreeInode;
    InvParts(d);
    CreateFileFinds(d, path, path);
    CreateFileFinds(d, path, other);
    RootLevel(d, path);
    RootLevel(d, other);
  }

  /** The same for a directory. */
  lemma CreateDirAtRoot(d: Disk, path: Bytes, other: Bytes)
    requires Inv(d) && PathOk(path) && PathOk(other) && PathParts(path) == PathParts(other) == []
    requires CreateDir(d, path).1 == ESUCCESS
    ensures var after := CreateDir(d, path).0;
      && Find(after, path) == FreeInode(d) != 0
      && (PathName(other) != PathName(path) ==> Find(after, other) == Find(d, other))
  {
    hide Inv, CreateDir, Find, PathDir, PathVisits, PathAsks, FreeInode;
    InvParts(d);
    CreateDirFinds(d, path, other);
    RootLevel(d, path);
    RootLevel(d, other);
  }

  /** Deleted, a name at the root is gone; other names there stay. */
  lemma DeleteAtRoot(d: Disk, path: Bytes, other: Bytes)
    requires Inv(d) && PathOk(path) && PathOk(other) && PathParts(path) == PathParts(other) == []
    requires DeleteFile(d, path).1 == ESUCCESS
    ensures var after := DeleteFile(d, path).0;
      && Find(after, path) == 0
      && (PathName(other) != PathName(path) ==> Find(after, other) == Find(d, other))
  {
    hide Inv, DeleteFile, Find, PathDir, PathVisits, PathAsks;
    InvParts(d);
    DeleteFileFinds(d, path, other);
    RootLevel(d, path);
    RootLevel(d, other);
  }

  /** Renamed at the root, the inode moves to the new name; other names stay. */
  lemma RenameAtRoot(d: Disk, oldPath: Bytes, newPath: Bytes, other: Bytes)
    requires Inv(d) && PathOk(oldPath) && PathOk(newPath) && PathOk(other)
    requires PathParts(oldPath) == PathParts(newPath) == PathParts(other) == []
    requires Find(d, oldPath) != 0 && Find(d, newPath) == 0
    ensures var r := RenameFile(d, oldPath, newPath);
      && r.1 == ESUCCESS && Find(r.0, oldPath) == 0 && Find(r.0, newPath) == Find(d, oldPath)
      && (PathName(other) != PathName(oldPath) && PathName(other) != PathName(newPath) ==>
            Find(r.0, other) == Find(d, other))
      && InodesIn(DirOf(r.0[ROOT_SECTOR])) == InodesIn(DirOf(d[ROOT_SECTOR]))
  {
    hide Inv, RenameFile, Find, PathDir, PathAsks, InodesIn, Full;
    InvParts(d);
    RootLevel(d, oldPath);
    RootLevel(d, newPath);
    RootLevel(d, other);
    RenameReturns(d, oldPath, newPath);
    RenameFinds(d, oldPath, newPath, other);
    RenameMoves(d, oldPath, newPath);
  }

  lemma ZeroBlock(count: nat)
    ensures forall k | 0 <= k < SECTOR_SIZE :: Block(Zeros(SECTOR_SIZE), count)[k] == 0
  {
  }

  lemma FindIs(d: Disk, path: Bytes)
    requires Formed(d)
    ensures Find(d, path)
            == if PathDir(d, path) == 0 then 0 else Lookup(DirOf(d[PathDir(d, path)]), PathName(path))
  {
  }

  /** WriteFile does not check the kind of its target: zeros written to a path
      that leads to the root's own inode, such as "/.", empty the root. */
  lemma WriteEmptiesRoot(d: Disk, path: Bytes, count: nat, other: Bytes)
    requires Inv(d) && PathOk(path) && Find(d, path) == ROOT_INODE && PathParts(other) == []
    ensures var r := WriteFile(d, path, Zeros(SECTOR_SIZE), count);
      r.1 == Min(count, SECTOR_SIZE) && Find(r.0, other) == 0
  {
    hide Inv, Find, PathDir, WriteInode, Zone, DirOf, Block, IsDir;
    InvParts(d);
    assert IsNode(ROOT_INODE);
    var r := WriteInode(d, ROOT_INODE, Zeros(SECTOR_SIZE), count);
    WriteReturns(d, ROOT_INODE, Zeros(SECTOR_SIZE), count);
    WriteInodeEffect(d, ROOT_INODE, Zeros(SECTOR_SIZE), count);
    var b := Block(Zeros(SECTOR_SIZE), count);
    ZeroBlock(count);
    EmptyDir(b);
    assert r.0[ROOT_SECTOR] == b;
    RootLevel(r.0, other);
    LookupNone(DirOf(b), PathName(other));
    FindIs(r.0, other);
  }

  // File sizes.

  /** No size is raised above one sector, and none is given to a file without a zone. */
  ghost predicate SizesBound(d: Disk, after: Disk)
    requires Formed(d) && Formed(after)
  {
    forall n: InodeNo | IsNode(n) ::
      && (Size(after, n) <= SECTOR_SIZE || Size(after, n) == Size(d, n))
      && (Size(after, n) == 0 || Zone(after, n, 0) != 0
          || (Size(after, n) == Size(d, n) && Zone(after, n, 0) == Zone(d, n, 0)))
  }

  lemma SizesSame(d: Disk, after: Disk)
    requires Formed(d) && Formed(after) && forall s | 10 <= s < ROOT_SECTOR :: after[s] == d[s]
    ensures SizesBound(d, after)
  {
    hide Size, Zone;
    RecordsSame(d, after);
  }

  lemma SizesRenewed(d: Disk, n: InodeNo, b: Bytes, mode: nat, size: nat, zone: nat)
    requires Formed(d) && |b| == SECTOR_SIZE && WithinWipe(d[SectorOf(n)], b, OffsetOf(n))
    requires RecordIs(b, OffsetOf(n), mode, size, zone) && size <= SECTOR_SIZE && (size == 0 || zone != 0)
    ensures SizesBound(d, PutSector(d, SectorOf(n), b))
  {
    hide Size, WithinWipe, Zone, Mode, SectorOf, OffsetOf;
    WipeOthers(d, n, b);
    RecordViews(d, n, b, mode, size, zone);
  }

  lemma SizesMore(d: Disk, e: Disk, after: Disk)
    requires Formed(d) && Formed(e) && Formed(after) && SizesBound(d, e)
    requires SizesBound(e, after) || forall s | 10 <= s < ROOT_SECTOR :: after[s] == e[s]
    ensures SizesBound(d, after)
  {
    hide Size, Zone;
    if forall s | 10 <= s < ROOT_SECTOR :: after[s] == e[s] {
      RecordsSame(e, after);
    }
  }

  lemma CreateSizes(d: Disk, path: Bytes)
    requires Inv(d) && PathOk(path)
    ensures SizesBound(d, CreateFile(d, path).0)
  {
    hide Inv, FreshRecord, PathDir, DirAt, RecordIs, WithinWipe, SizesBound, FreeInode, GoodDir, DirOf, SectorOf;
    InvParts(d);
    SizesSame(d, d);
    var s, n := PathDir(d, path), FreeInode(d);
    if Find(d, path) == 0 && s != 0 && n != 0 {
      PathGood(d, path);
      DirAtMeans(d, s);
      var e := TakeInode(d, n);
      SizesSame(d, e);
      FreshRecordEffect(e[SectorOf(n)], OffsetOf(n), FILE_MODE, 0, 1);
      SizesRenewed(e, n, FreshRecord(e[SectorOf(n)], OffsetOf(n), FILE_MODE, 0, 1), FILE_MODE, 0, 0);
      SizesMore(d, e, NewFileInode(e, n));
      SizesMore(d, NewFileInode(e, n), CreateFile(d, path).0);
    }
  }

  lemma MkdirSizes(d: Disk, path: Bytes)
    requires Inv(d) && PathOk(path)
    ensures SizesBound(d, CreateDir(d, path).0)
  {
    hide Inv, FreshRecord, Put16, PathDir, DirAt, RecordIs, WithinWipe, SizesBound, FreeInode, GoodDir, DirOf, SectorOf,
      FirstClear, NewDir, Bit;
    InvParts(d);
    SizesSame(d, d);
    var s, n := PathDir(d, path), FreeInode(d);
    if Find(d, path) == 0 && s != 0 && n != 0 {
      PathGood(d, path);
      DirAtMeans(d, s);
      var t := TakeInode(d, n);
      SizesSame(d, t);
      var z := FirstClear(t[ZONE_BITMAP], 0);
      if z != ZONE_LIMIT {
        assert !ZoneBit(d, z);
        ClearZone(d, z);
        var e := TakeZone(t, z);
        SizesMore(d, t, e);
        NewDirRecord(e[SectorOf(n)], OffsetOf(n), z);
        SizesRenewed(e, n, Put16(FreshRecord(e[SectorOf(n)], OffsetOf(n), DIR_MODE, 64, 2), OffsetOf(n) + 14, z),
            DIR_MODE, 64, z);
        SizesMore(d, e, NewDirInode(e, n, z));
        SizesMore(d, NewDirInode(e, n, z), CreateDir(d, path).0);
      }
    }
  }

  lemma WriteSizes(d: Disk, path: Bytes, input: Bytes, count: nat)
    requires Inv(d) && PathOk(path) && Min(count, SECTOR_SIZE) <= |input|
    ensures SizesBound(d, WriteFile(d, path, input, count).0)
  {
    hide Inv, Find, Size, Zone, Block, Mode, WriteInode;
    InvParts(d);
    var n := Find(d, path);
    PathGood(d, path);
    if n != 0 {
      WriteReturns(d, n, input, count);
      if WriteInode(d, n, input, count).1 >= 0 {
        WriteInodeEffect(d, n, input, count);
        var after := WriteInode(d, n, input, count).0;
        forall m: InodeNo | IsNode(m)
          ensures Size(after, m) <= SECTOR_SIZE || Size(after, m) == Size(d, m)
          ensures Zone(after, m, 0) != 0 || (Size(after, m) == Size(d, m) && Zone(after, m, 0) == Zone(d, m, 0))
        {
          assert m != n ==> SameFile(d, after, m);
        }
      }
    }
  }

  lemma DropSizes(d: Disk, freed: Disk, s: nat, n: InodeNo)
    requires Inv(d) && Formed(freed) && freed == PutSector(d, ZONE_BITMAP, freed[ZONE_BITMAP])
    ensures SizesBound(d, ClearInodeBit(WipeInode(freed, n), n))
  {
    hide Wiped, SectorOf, RecordIs, WithinWipe, SizesBound;
    WipedEffect(freed[SectorOf(n)], OffsetOf(n));
    SizesSame(d, freed);
    SizesRenewed(freed, n, Wiped(freed[SectorOf(n)], OffsetOf(n)), 0, 0, 0);
    SizesMore(d, freed, WipeInode(freed, n));
    SizesMore(d, WipeInode(freed, n), ClearInodeBit(WipeInode(freed, n), n));
  }

  lemma DeleteSizes(d: Disk, path: Bytes)
    requires Inv(d) && PathOk(path)
    ensures SizesBound(d, DeleteFile(d, path).0)
  {
    hide Inv, PathDir, DirAt, SizesBound, GoodDir, FreeZones, WipeInode, ClearInodeBit, PutEntry, SectorOf;
    InvParts(d);
    SizesSame(d, d);
    var s, n := PathDir(d, path), Find(d, path);
    PathGood(d, path);
    if DeleteFile(d, path).1 == ESUCCESS {
      DirAtMeans(d, s);
      var f := FreeZones(d, d[SectorOf(n)], OffsetOf(n), ZONES);
      FreeZonesEffect(d, d[SectorOf(n)], OffsetOf(n), ZONES);
      DropSizes(d, f, s, n);
      var g := ClearInodeBit(WipeInode(f, n), n);
      var i := FindName(DirOf(d[s]), PathName(path));
      assert DeleteFile(d, path).0 == FreeEntry(g, s, i);
      SizesMore(d, g, FreeEntry(g, s, i));
    }
  }

  lemma RmdirSizes(d: Disk, path: Bytes)
    requires Inv(d) && PathOk(path)
    ensures SizesBound(d, DeleteDir(d, path).0)
  {
    hide Inv, PathDir, DirAt, SizesBound, GoodDir, FreeZone, WipeInode, ClearInodeBit, PutEntry, SectorOf, IsDir, Size;
    InvParts(d);
    SizesSame(d, d);
    var s, n := PathDir(d, path), Find(d, path);
    PathGood(d, path);
    if DeleteDir(d, path).1 == ESUCCESS {
      DirAtMeans(d, s);
      var f := FreeZone(d, Zone(d, n, 0));
      FreeZoneEffect(d, Zone(d, n, 0));
      DropSizes(d, f, s, n);
      SizesMore(d, ClearInodeBit(WipeInode(f, n), n), DropDir(d, s, n));
    }
  }

  lemma RenameSizes(d: Disk, oldPath: Bytes, newPath: Bytes)
    requires Inv(d) && PathOk(oldPath) && PathOk(newPath)
    ensures SizesBound(d, RenameFile(d, oldPath, newPath).0)
  {
    hide Inv, PathDir, DirAt, SizesBound, GoodDir, PutEntry;
    InvParts(d);
    PathGood(d, oldPath);
    PathGood(d, newPath);
    if PathDir(d, oldPath) != 0 && PathDir(d, newPath) != 0 {
      DirAtMeans(d, PathDir(d, oldPath));
      DirAtMeans(d, PathDir(d, newPath));
    }
    SizesSame(d, RenameFile(d, oldPath, newPath).0);
  }

  lemma CallSizes(d: Disk, c: Call)
    requires Inv(d) && CallOk(c)
    ensures SizesBound(d, After(d, c))
  {
    hide Inv, CreateFile, WriteFile, CreateDir, DeleteFile, DeleteDir, RenameFile, ReadFile, SizesBound;
    InvParts(d);
    match c
    case Create(path) => CreateSizes(d, path);
    case Write(path, input, count) => WriteSizes(d, path, input, count);
    case Mkdir(path) => MkdirSizes(d, path);
    case Delete(path) => DeleteSizes(d, path);
    case Rmdir(path) => RmdirSizes(d, path);
    case Rename(path, newPath) => RenameSizes(d, path, newPath);
    case Copy(path, newPath, buffer) =>
      SizesSame(d, d);
      var read, made := ReadFile(d, path, SECTOR_SIZE, buffer), CreateFile(d, newPath);
      ReadReturns(d, path, SECTOR_SIZE, buffer);
      CreateSizes(d, newPath);
      CreateFileKeeps(d, newPath);
      if read.1 >= 0 {
        WriteSizes(made.0, newPath, read.0, read.1);
        SizesMore(d, made.0, WriteFile(made.0, newPath, read.0, read.1).0);
      }
  }

  /** On a disk whose files fit one sector, reading stays inside the sector
      buffer after any run. */
  lemma {:induction false} RunReads(d: Disk, calls: seq<Call>, path: Bytes, count: nat)
    requires Inv(d) && (forall c | c in calls :: CallOk(c)) && AllAllowed(d, calls)
    requires forall n: InodeNo | IsNode(n) :: Size(d, n) <= SECTOR_SIZE
    ensures CanRead(Run(d, calls), path, count)
    decreases |calls|
  {
    hide Inv, After, Allowed, CallOk, Size, Find;
    InvParts(d);
    if calls == [] {
      PathGood(d, path);
    } else {
      CallKeepsExactly(d, calls[0]);
      CallSizes(d, calls[0]);
      RunReads(After(d, calls[0]), calls[1..], path, count);
    }
  }

  /** Every file with a size has a zone. */
  ghost predicate Backed(d: Disk)
    requires Formed(d)
  {
    forall n: InodeNo | IsNode(n) && Size(d, n) != 0 :: Zone(d, n, 0) != 0
  }

  lemma {:induction false} RunBacked(d: Disk, calls: seq<Call>)
    requires Inv(d) && (forall c | c in calls :: CallOk(c)) && AllAllowed(d, calls) && Backed(d)
    ensures Inv(Run(d, calls)) && Backed(Run(d, calls))
    decreases |calls|
  {
    hide Inv, After, Allowed, CallOk, Size, Zone;
    InvParts(d);
    if calls != [] {
      CallKeepsExactly(d, calls[0]);
      CallSizes(d, calls[0]);
      RunBacked(After(d, calls[0]), calls[1..]);
    }
  }

  /** After any run from a disk like that, a successful copy reads as its source. */
  lemma RunCopies(d: Disk, calls: seq<Call>, source: Bytes, dest: Bytes, buffer: Bytes, k: nat, output: Bytes)
    requires Inv(d) && (forall c | c in calls :: CallOk(c)) && AllAllowed(d, calls) && Backed(d)
    requires PathOk(source) && PathOk(dest) && |buffer| == SECTOR_SIZE && k <= SECTOR_SIZE && k <= |output|
    requires CopyFile(Run(d, calls), source, dest, buffer).1 == ESUCCESS
    ensures var e := Run(d, calls); SameRead(CopyFile(e, source, dest, buffer).0, dest, e, source, k, output)
  {
    hide Inv, Run, AllAllowed, CallOk, CopyFile, SameRead, Size, Zone, Find;
    InvParts(d);
    RunBacked(d, calls);
    var e := Run(d, calls);
    PathGood(e, source);
    CopyReads(e, source, dest, buffer, k, output);
  }
}
