/** What a call on one path leaves alone on another: where the other path leads and what
    a read of it returns, for every call and then for whole runs. */
module MinixIsolation {
  import opened Bits
  import opened Directory
  import opened Inodes
  import opened MinixFiles
  import opened MinixInvariant
  import opened MinixKeeps
  import opened MinixMarks
  import opened MinixModel
  import opened MinixMoves
  import opened MinixNames
  import opened MinixPaths
  import opened MinixRuns
  import opened Sectors
  import opened Strings

  /** All that a read of inode `m` depends on. */
  ghost predicate FileKept(d: Disk, after: Disk, m: InodeNo)
    requires Formed(d) && Formed(after)
  {
    && Size(after, m) == Size(d, m) && Zone(after, m, 0) == Zone(d, m, 0) && IsDir(after, m) == IsDir(d, m)
    && (Zone(d, m, 0) != 0 ==> after[2 * Zone(d, m, 0)] == d[2 * Zone(d, m, 0)])
  }

  /** The path leads to a file, and still does to the same one with the same contents. */
  ghost predicate Stays(d: Disk, after: Disk, path: Bytes)
    requires Formed(d) && Formed(after)
  {
    IsFile(d, path) && Find(after, path) == Find(d, path) && FileKept(d, after, Find(d, path))
  }

  predicate IsFile(d: Disk, path: Bytes)
    requires Formed(d)
  {
    Find(d, path) != 0 && !IsDir(d, Find(d, path))
  }

  lemma StaysSame(d: Disk, path: Bytes)
    requires Formed(d) && IsFile(d, path)
    ensures Stays(d, d, path)
  {
  }

  lemma StaysMore(d: Disk, e: Disk, after: Disk, path: Bytes)
    requires Formed(d) && Formed(e) && Formed(after) && Stays(d, e, path) && Stays(e, after, path)
    ensures Stays(d, after, path)
  {
    hide Find, Size, Zone, IsDir;
  }

  /** Then reads return the same. */
  lemma StaysReads(d: Disk, after: Disk, path: Bytes, k: nat, output: Bytes)
    requires Formed(d) && Formed(after) && Stays(d, after, path) && k <= |output|
    ensures CanRead(after, path, k) <==> CanRead(d, path, k)
    ensures CanRead(d, path, k) ==> ReadFile(after, path, k, output) == ReadFile(d, path, k, output)
  {
    hide Find, Size, Zone, IsDir;
  }

  // What paths to files do not ask for.

  lemma AbsentNotAsked(d: Disk, path: Bytes, s: nat, name: Bytes)
    requires Inv(d) && Find(d, path) != 0 && s < SECTORS && Lookup(DirOf(d[s]), name) == 0
    ensures PathAsks(d, path) !! {(s, name)}
  {
    hide Inv, PathDir, Asked, Lookup, PathName;
    InvParts(d);
    PathDirAsks(d, path, s, name);
  }

  /** A name for an inode that the path neither passes nor leads to. */
  lemma OthersNotAsked(d: Disk, path: Bytes, s: nat, name: Bytes, n: nat)
    requires Inv(d) && s < SECTORS && Lookup(DirOf(d[s]), name) == n
    requires n !in PathVisits(d, path) && Find(d, path) != n
    ensures PathAsks(d, path) !! {(s, name)}
  {
    hide Inv, PathDir, Asked, Lookup, PathName, Visited;
    InvParts(d);
    if (s, name) in Asked(d, PathParts(path), ROOT_SECTOR) {
      AskedVisited(d, PathParts(path), ROOT_SECTOR, s, name);
    }
  }

  /** The call renews inode `n`: the path neither leads to it nor passes it or the next. */
  ghost predicate Avoids(d: Disk, path: Bytes, n: InodeNo)
    requires Formed(d)
  {
    Find(d, path) != n && PathVisits(d, path) !! Lost(n)
  }

  /** With the marks right, what create and mkdir make is avoided by every path that
      does not pass the directory with the next number in the same sector. */
  lemma NewAvoided(d: Disk, path: Bytes)
    requires Inv(d) && MarksOk(d) && FreeInode(d) != 0
    ensures Avoids(d, path, FreeInode(d)) <==> !PassesNext(d, FreeInode(d), path)
  {
    hide Inv, MarksOk, FreeInode, PathVisits, Find, Lost;
    InvParts(d);
    FreshNumber(d, path);
    PassesLost(d, FreeInode(d), path);
  }

  // Renewed records.

  /** A sector that no file has its data in. */
  ghost predicate NotFileSector(d: Disk, t: nat)
    requires Formed(d)
  {
    forall m: InodeNo | IsNode(m) && !IsDir(d, m) && Zone(d, m, 0) != 0 :: 2 * Zone(d, m, 0) != t
  }

  lemma DirSector(d: Disk, s: nat)
    requires Inv(d) && DirAt(d, s)
    ensures NotFileSector(d, s)
  {
    hide Zone, IsDir, ZoneBit, GoodDir, Reserved, Named, Rooted, Dirs;
    DirAtMeans(d, s);
    var n: InodeNo :| IsNode(n) && IsDir(d, n) && 2 * Zone(d, n, 0) == s;
  }

  lemma ClearSector(d: Disk, z: nat)
    requires Inv(d) && z < ZONE_LIMIT && !ZoneBit(d, z)
    ensures NotFileSector(d, 2 * z)
  {
    hide Zone, IsDir, ZoneBit, GoodDir;
  }

  lemma FileBeside(d: Disk, after: Disk, n: InodeNo, except: set<nat>, m: InodeNo)
    requires Inv(d) && Formed(after) && Renewed(d, after, n) && DataKept(d, after, except)
    requires IsNode(m) && m != n && !IsDir(d, m) && forall t | t in except :: NotFileSector(d, t)
    ensures FileKept(d, after, m)
  {
    hide Size, IsDir, Zone, ZoneBit, GoodDir, Lost;
    assert m in Lost(n) || m !in Lost(n);
  }

  /** Renewing an inode that the path avoids, with entries that it does not ask for. */
  lemma RenewedStays(d: Disk, after: Disk, touched: set<(nat, Bytes)>, n: InodeNo, except: set<nat>, path: Bytes)
    requires Inv(d) && Formed(after) && Changed(d, after, touched, Lost(n)) && Renewed(d, after, n)
    requires DataKept(d, after, except) && forall t | t in except :: NotFileSector(d, t)
    requires IsFile(d, path) && Avoids(d, path, n) && PathAsks(d, path) !! touched
    ensures Stays(d, after, path)
  {
    hide Inv, Find, IsDir, PathAsks, PathVisits, Changed, Renewed, DataKept, NotFileSector, Lost, FileKept;
    InvParts(d);
    PathGood(d, path);
    FindKept(d, after, touched, Lost(n), path);
    FileBeside(d, after, n, except, Find(d, path));
  }

  /** A renewed record alone, or with a sector that was no directory's. */
  lemma RenewedChanges(d: Disk, after: Disk, n: InodeNo, except: set<nat>)
    requires Inv(d) && Formed(after) && Renewed(d, after, n) && DataKept(d, after, except)
    requires forall t | t in except :: !DirAt(d, t)
    ensures Changed(d, after, {}, Lost(n))
  {
    hide Zone, Size, IsDir, Lookup, GoodDir, ZoneBit, Inv, DirAt, Lost;
    InvParts(d);
    LostSelf(n);
    forall t: nat, x: Bytes | t < SECTORS && DirAt(d, t)
      ensures Lookup(DirOf(after[t]), x) == Lookup(DirOf(d[t]), x)
    {
      DirAtMeans(d, t);
    }
  }

  /** Neither records nor data change. */
  lemma BitsStay(d: Disk, after: Disk, path: Bytes)
    requires Inv(d) && Formed(after) && IsFile(d, path) && forall s | 10 <= s < SECTORS :: after[s] == d[s]
    ensures Stays(d, after, path)
  {
    hide Inv, Find, IsDir, Zone, Size, GoodDir, DirAt, Lookup;
    InvParts(d);
    NodesSame(d, after);
    forall t: nat, x: Bytes | t < SECTORS && DirAt(d, t)
      ensures Lookup(DirOf(after[t]), x) == Lookup(DirOf(d[t]), x)
    {
      DirAtMeans(d, t);
    }
    FindKept(d, after, {}, {}, path);
    PathGood(d, path);
    FileZone(d, Find(d, path));
  }

  lemma FileZone(d: Disk, m: InodeNo)
    requires Inv(d) && IsNode(m)
    ensures Zone(d, m, 0) == 0 || ROOT_ZONE <= Zone(d, m, 0)
  {
    hide Zone, IsDir, ZoneBit, GoodDir;
  }

  // Each call.

  lemma CreateStays(d: Disk, path: Bytes, other: Bytes)
    requires Inv(d) && PathOk(path) && IsFile(d, other)
    requires CreateFile(d, path).0 == d || (FreeInode(d) != 0 && Avoids(d, other, FreeInode(d)))
    ensures Stays(d, CreateFile(d, path).0, other)
  {
    hide Inv, CreateFile, IsDir, PathDir, PathName, PathAsks, PathVisits, Changed, Renewed, DataKept, NotFileSector,
      Lost, Size, Zone, FreeInode, Lookup, Avoids, TakeInode, NewFileInode, IsFile, Stays, Full;
    InvParts(d);
    CreateFileReturns(d, path);
    var r, n, s := CreateFile(d, path), FreeInode(d), PathDir(d, path);
    if r.0 == d {
      StaysSame(d, other);
    } else if r.1 == ESUCCESS {
      CreateFileMakes(d, path);
      AbsentName(d, path);
      PathGood(d, path);
      DirSector(d, s);
      FileFound(d, other);
      AbsentNotAsked(d, other, s, PathName(path));
      RenewedStays(d, r.0, {(s, PathName(path))}, n, {s}, other);
    } else {
      NewFileRenews(d, n);
      RenewedChanges(d, r.0, n, {});
      RenewedStays(d, r.0, {}, n, {}, other);
    }
  }

  lemma FileFound(d: Disk, path: Bytes)
    requires Formed(d) && IsFile(d, path)
    ensures Find(d, path) != 0
  {
  }

  lemma MkdirStays(d: Disk, path: Bytes, other: Bytes)
    requires Inv(d) && PathOk(path) && IsFile(d, other)
    requires CreateDir(d, path).0 == d || (FreeInode(d) != 0 && Avoids(d, other, FreeInode(d)))
    ensures Stays(d, CreateDir(d, path).0, other)
  {
    hide Inv, IsDir, PathDir, PathName, PathAsks, PathVisits, Changed, Renewed, DataKept, NotFileSector, Lost, Size,
      Zone, Lookup, Avoids, TakeInode, MakeDir, IsFile, Stays, Full, FirstClear, ZoneBit, ZoneFree;
    InvParts(d);
    var r, n, s := CreateDir(d, path), FreeInode(d), PathDir(d, path);
    if r.0 == d {
      StaysSame(d, other);
    } else if r.1 == ESUCCESS {
      CreateDirMakes(d, path);
      AbsentName(d, path);
      PathGood(d, path);
      DirSector(d, s);
      ClearSector(d, Zone(r.0, n, 0));
      FileFound(d, other);
      AbsentNotAsked(d, other, s, PathName(path));
      RenewedStays(d, r.0, {(s, PathName(path))}, n, {s, 2 * Zone(r.0, n, 0)}, other);
    } else {
      var z := FirstClear(TakeInode(d, n)[ZONE_BITMAP], 0);
      TakenBits(d, n);
      FoundClear(d);
      if z == ZONE_LIMIT {
        BitsStay(d, r.0, other);
      } else {
        PathGood(d, path);
        MakesOrphan(d, s, n, z, PathName(path));
        OrphanStays(d, r.0, n, other);
      }
    }
  }

  lemma TakenBits(d: Disk, n: InodeNo)
    requires Formed(d) && n <= ZONE_LIMIT
    ensures TakeInode(d, n)[ZONE_BITMAP] == d[ZONE_BITMAP]
    ensures forall s | 10 <= s < SECTORS :: TakeInode(d, n)[s] == d[s]
  {
  }

  /** A new directory in a zone that was free, with no entry for it: no lookup in any
      directory has changed. */
  ghost predicate Orphan(d: Disk, after: Disk, n: InodeNo)
    requires Formed(d) && Formed(after)
  {
    var z := Zone(after, n, 0);
    && Renewed(d, after, n) && DataKept(d, after, {2 * z}) && Changed(d, after, {}, Lost(n))
    && IsDir(after, n) && ROOT_ZONE < z < ZONE_LIMIT && !ZoneBit(d, z)
    && n <= ZONE_LIMIT && after[INODE_BITMAP] == SetBit(d[INODE_BITMAP], n - 1)
  }

  /** mkdir in a full directory makes one. */
  lemma MakesOrphan(d: Disk, s: nat, n: InodeNo, z: nat, name: Bytes)
    requires Inv(d) && DirAt(d, s) && s < SECTORS && n <= ZONE_LIMIT && z < ZONE_LIMIT && !ZoneBit(d, z)
    requires MakeDir(TakeZone(TakeInode(d, n), z), s, n, z, name).1 != ESUCCESS
    ensures Orphan(d, MakeDir(TakeZone(TakeInode(d, n), z), s, n, z, name).0, n)
  {
    hide Inv, IsDir, Changed, Renewed, DataKept, Lost, Size, Zone, Lookup, TakeInode, TakeZone, NewDirInode, NewDir,
      U16, AddEntry, ZoneBit, DirAt, GoodDir, SetBit;
    InvParts(d);
    var t := TakeZone(TakeInode(d, n), z);
    var c := NewDir(n, U16(NewDirInode(t, n, z)[s], 0));
    var h := PutSector(NewDirInode(t, n, z), 2 * z, c);
    AddEntryFails(h, s, n, name);
    ClearZone(d, z);
    NewDirRenews(d, n, z, c);
    RenewedChanges(d, h, n, {2 * z});
  }

  lemma OrphanStays(d: Disk, after: Disk, n: InodeNo, other: Bytes)
    requires Inv(d) && Formed(after) && Orphan(d, after, n) && IsFile(d, other) && Avoids(d, other, n)
    ensures Stays(d, after, other)
  {
    hide Inv, IsDir, PathAsks, PathVisits, Changed, Renewed, DataKept, NotFileSector, Lost, Zone, Avoids, IsFile, Stays,
      ZoneBit, SetBit;
    InvParts(d);
    ClearSector(d, Zone(after, n, 0));
    RenewedStays(d, after, {}, n, {2 * Zone(after, n, 0)}, other);
  }

  /** What a failing mkdir leaves: the disk as it was for a name or directory that does
      not suit or when no inode number is left; a taken number without a zone to go with it;
      and in a full directory the whole new directory, under no name. */
  lemma CreateDirLeaves(d: Disk, path: Bytes)
    requires Inv(d) && PathOk(path) && CreateDir(d, path).1 != ESUCCESS
    ensures var r, n := CreateDir(d, path), FreeInode(d);
      && (r.1 != -ENOSPC || n == 0 ==> r.0 == d)
      && (r.1 == -ENOSPC && n != 0 && !ZoneFree(d) ==> r.0 == TakeInode(d, n))
      && (r.1 == -ENOSPC && n != 0 && ZoneFree(d) ==> Orphan(d, r.0, n))
  {
    hide Inv, MakeDir, PathDir, PathName, DirAt, GoodDir, FirstClear, Bit, SetBit, Full, Lookup, ZoneFree, Orphan,
      ZoneBit;
    InvParts(d);
    CreateDirReturns(d, path);
    ZoneFound(d);
    FoundClear(d);
    var s, n := PathDir(d, path), FreeInode(d);
    if Find(d, path) == 0 && s != 0 && n != 0 {
      TakenBits(d, n);
      PathGood(d, path);
      var z := FirstClear(TakeInode(d, n)[ZONE_BITMAP], 0);
      if z != ZONE_LIMIT {
        MakesOrphan(d, s, n, z, PathName(path));
      }
    }
  }

  lemma WriteStays(d: Disk, path: Bytes, input: Bytes, count: nat, other: Bytes)
    requires Inv(d) && Min(count, SECTOR_SIZE) <= |input| && IsFile(d, other)
    requires Find(d, path) == 0 || (Find(d, path) != Find(d, other) && !IsDir(d, Find(d, path)))
    ensures Stays(d, WriteFile(d, path, input, count).0, other)
  {
    hide Inv, Find, Size, Zone, WriteInode, Mode, DirMode, Changed;
    InvParts(d);
    var n, m := Find(d, path), Find(d, other);
    WriteFinds(d, path, input, count);
    PathGood(d, path);
    PathGood(d, other);
    if n != 0 {
      WriteReturns(d, n, input, count);
      var r := WriteInode(d, n, input, count);
      if r.1 >= 0 {
        WriteMovesNoPath(d, n, input, count);
        WriteInodeEffect(d, n, input, count);
        FindKept(d, r.0, {}, {}, other);
        assert SameFile(d, r.0, m);
      }
    }
  }

  /** A removed name and inode. */
  lemma DroppedStays(d: Disk, after: Disk, s: nat, n: InodeNo, name: Bytes, other: Bytes)
    requires Inv(d) && Formed(after) && DirAt(d, s) && s < SECTORS && Dropped(d, after, s, n, name)
    requires Lookup(DirOf(d[s]), name) == n && IsFile(d, other) && Avoids(d, other, n)
    ensures Stays(d, after, other)
  {
    hide Inv, IsDir, PathAsks, PathVisits, Changed, Renewed, DataKept, NotFileSector, Lost, Size, Zone, Lookup, Stays,
      Find;
    InvParts(d);
    DirSector(d, s);
    LostSelf(n);
    OthersNotAsked(d, other, s, name, n);
    RenewedStays(d, after, {(s, name)}, n, {s}, other);
  }

  lemma DeleteStays(d: Disk, path: Bytes, other: Bytes)
    requires Inv(d) && PathOk(path) && IsFile(d, other)
    requires DeleteFile(d, path).0 == d || (Find(d, path) != 0 && Avoids(d, other, Find(d, path)))
    ensures Stays(d, DeleteFile(d, path).0, other)
  {
    hide Inv, IsDir, PathDir, PathName, Dropped, Size, Zone, Lookup, Avoids, IsFile, Stays, DropFile, ZoneBit, Lost;
    InvParts(d);
    if DeleteFile(d, path).0 == d {
      StaysSame(d, other);
    } else {
      DeleteFileDrops(d, path);
      PathGood(d, path);
      DroppedStays(d, DeleteFile(d, path).0, PathDir(d, path), Find(d, path), PathName(path), other);
    }
  }

  lemma RmdirStays(d: Disk, path: Bytes, other: Bytes)
    requires Inv(d) && PathOk(path) && IsFile(d, other)
    requires DeleteDir(d, path).0 == d || (Find(d, path) != 0 && Avoids(d, other, Find(d, path)))
    ensures Stays(d, DeleteDir(d, path).0, other)
  {
    hide Inv, IsDir, PathDir, PathName, Dropped, Size, Zone, Lookup, Avoids, IsFile, Stays, DropDir, ZoneBit, Lost,
      DirAt, GoodDir;
    InvParts(d);
    if DeleteDir(d, path).0 == d {
      StaysSame(d, other);
    } else {
      var s, n := PathDir(d, path), Find(d, path);
      DeleteDirDrops(d, path);
      PathGood(d, path);
      DirAtMeans(d, s);
      var i := FindInode(DirOf(d[s]), n);
      GoodInode(DirOf(d[s]), i);
      DroppedStays(d, DeleteDir(d, path).0, s, n, DirOf(d[s])[i].name, other);
    }
  }

  /** Only directory sectors change. */
  lemma EntriesStay(d: Disk, after: Disk, touched: set<(nat, Bytes)>, from: nat, to: nat, other: Bytes)
    requires Inv(d) && Formed(after) && DirAt(d, from) && DirAt(d, to) && Changed(d, after, touched, {})
    requires forall t | 0 <= t < SECTORS && t != from && t != to :: after[t] == d[t]
    requires IsFile(d, other) && PathAsks(d, other) !! touched
    ensures Stays(d, after, other)
  {
    hide Inv, Find, IsDir, Zone, Size, GoodDir, DirAt, Changed, PathAsks, PathVisits;
    InvParts(d);
    DirAtMeans(d, from);
    DirAtMeans(d, to);
    DirSector(d, from);
    DirSector(d, to);
    NodesSame(d, after);
    FindKept(d, after, touched, {}, other);
    PathGood(d, other);
  }

  lemma RenameStays(d: Disk, oldPath: Bytes, newPath: Bytes, other: Bytes)
    requires Inv(d) && PathOk(oldPath) && PathOk(newPath) && IsFile(d, other)
    requires RenameFile(d, oldPath, newPath).0 == d || (PathDir(d, oldPath), PathName(oldPath)) !in PathAsks(d, other)
    ensures Stays(d, RenameFile(d, oldPath, newPath).0, other)
  {
    hide Inv, IsDir, PathDir, PathName, Changed, Size, Zone, Lookup, IsFile, Stays, PathAsks, Move, DirAt, InodesIn,
      Full, GoodDir;
    InvParts(d);
    var r, from, to := RenameFile(d, oldPath, newPath), PathDir(d, oldPath), PathDir(d, newPath);
    RenameReturns(d, oldPath, newPath);
    PathGood(d, oldPath);
    PathGood(d, newPath);
    FileFound(d, other);
    if r.0 == d {
      StaysSame(d, other);
    } else if r.1 == ESUCCESS {
      RenameMoves(d, oldPath, newPath);
      AbsentName(d, newPath);
      AbsentNotAsked(d, other, to, PathName(newPath));
      EntriesStay(d, r.0, {(from, PathName(oldPath)), (to, PathName(newPath))}, from, to, other);
    } else {
      var i := FindName(DirOf(d[from]), PathName(oldPath));
      FreedChanges(d, r.0, from, i);
      EntriesStay(d, r.0, {(from, PathName(oldPath))}, from, from, other);
    }
  }

  /** A freed entry changes the lookup of its name alone. */
  lemma FreedChanges(d: Disk, after: Disk, s: nat, i: nat)
    requires Inv(d) && Formed(after) && DirAt(d, s) && s < SECTORS && i < ENTRIES && DirOf(d[s])[i].Used?
    requires after == PutSector(d, s, after[s]) && DirOf(after[s]) == DirOf(d[s])[i := Free]
    ensures Changed(d, after, {(s, DirOf(d[s])[i].name)}, {})
  {
    hide Inv, IsDir, Zone, GoodDir, DirAt, Lookup;
    InvParts(d);
    DirAtMeans(d, s);
    RemoveEntry(DirOf(d[s]), i);
    NodesSame(d, after);
  }

  lemma CopyStays(d: Disk, source: Bytes, dest: Bytes, buffer: Bytes, other: Bytes)
    requires Inv(d) && PathOk(source) && PathOk(dest) && |buffer| == SECTOR_SIZE && IsFile(d, other)
    requires CopyFile(d, source, dest, buffer).0 == d || (FreeInode(d) != 0 && Avoids(d, other, FreeInode(d)))
    ensures Stays(d, CopyFile(d, source, dest, buffer).0, other)
  {
    hide Inv, CreateFile, WriteFile, ReadInode, IsDir, FreeInode, Find, Size, Zone, PathVisits, PathDir, PathName, Lost,
      FileKept, IsFile;
    InvParts(d);
    var read, made := ReadFile(d, source, SECTOR_SIZE, buffer), CreateFile(d, dest);
    ReadReturns(d, source, SECTOR_SIZE, buffer);
    if CopyFile(d, source, dest, buffer).0 == d {
      StaysSame(d, other);
    } else {
      CreateStays(d, dest, other);
      CreateFileKeeps(d, dest);
      if made.1 == ESUCCESS {
        MadeForCopy(d, dest);
        CreateFileFinds(d, dest, dest);
        NewlyNamed(d, dest);
        StillFile(d, made.0, other);
        WriteStays(made.0, dest, read.0, read.1, other);
        StaysMore(d, made.0, WriteFile(made.0, dest, read.0, read.1).0, other);
      }
    }
  }

  /** What create leaves under its path. */
  lemma NewlyNamed(d: Disk, path: Bytes)
    requires Inv(d) && PathOk(path) && CreateFile(d, path).1 == ESUCCESS
    ensures Find(CreateFile(d, path).0, path) == 0 || Find(CreateFile(d, path).0, path) == FreeInode(d)
  {
    hide Inv, CreateFile, Find, PathVisits, Lost, PathDir, PathName, FreeInode;
    InvParts(d);
    CreateFileMakes(d, path);
    CreateFileFinds(d, path, path);
  }

  lemma StillFile(d: Disk, after: Disk, path: Bytes)
    requires Formed(d) && Formed(after) && Stays(d, after, path)
    ensures IsFile(after, path)
  {
    hide Find, IsDir, Size, Zone;
  }

  // All calls, and runs.

  /** The call leaves the file at `path` alone: it fails without a trace, or the inode
      that it makes or removes is avoided, or it writes another file, or renames a name
      that the path does not ask for. */
  ghost predicate Leaves(d: Disk, c: Call, path: Bytes)
    requires Formed(d) && CallOk(c)
  {
    After(d, c) == d ||
    match c
    case Create(_) => FreeInode(d) != 0 && Avoids(d, path, FreeInode(d))
    case Mkdir(_) => FreeInode(d) != 0 && Avoids(d, path, FreeInode(d))
    case Copy(_, _, _) => FreeInode(d) != 0 && Avoids(d, path, FreeInode(d))
    case Delete(other) => Find(d, other) != 0 && Avoids(d, path, Find(d, other))
    case Rmdir(other) => Find(d, other) != 0 && Avoids(d, path, Find(d, other))
    case Write(other, _, _) => Find(d, other) != Find(d, path) && (Find(d, other) == 0 || !IsDir(d, Find(d, other)))
    case Rename(other, _) => (PathDir(d, other), PathName(other)) !in PathAsks(d, path)
  }

  /** Isolation for every call: the path leads to the same file, and reads of it return
      the same. */
  lemma CallIsolated(d: Disk, c: Call, path: Bytes, k: nat, output: Bytes)
    requires Inv(d) && CallOk(c) && IsFile(d, path) && Leaves(d, c, path)
    requires k <= |output| && CanRead(d, path, k)
    ensures Stays(d, After(d, c), path)
    ensures CanRead(After(d, c), path, k) && ReadFile(After(d, c), path, k, output) == ReadFile(d, path, k, output)
  {
    hide Inv, CallOk, After, IsFile, Leaves, Stays, CanRead, ReadFile;
    InvParts(d);
    CallStays(d, c, path);
    StaysReads(d, After(d, c), path, k, output);
  }

  lemma CallStays(d: Disk, c: Call, path: Bytes)
    requires Inv(d) && CallOk(c) && IsFile(d, path) && Leaves(d, c, path)
    ensures Stays(d, After(d, c), path)
  {
    hide Inv, CreateFile, WriteFile, CreateDir, DeleteFile, DeleteDir, RenameFile, CopyFile, Find, IsFile, Stays,
      Avoids, PathDir, PathName, PathAsks, IsDir, FreeInode, PathOk;
    InvParts(d);
    if After(d, c) == d {
      StaysSame(d, path);
    } else {
      match c
      case Create(other) => CreateStays(d, other, path);
      case Write(other, input, count) => WriteStays(d, other, input, count, path);
      case Mkdir(other) => MkdirStays(d, other, path);
      case Delete(other) => DeleteStays(d, other, path);
      case Rmdir(other) => RmdirStays(d, other, path);
      case Rename(other, newPath) => RenameStays(d, other, newPath, path);
      case Copy(other, newPath, buffer) => CopyStays(d, other, newPath, buffer, path);
    }
  }

  ghost predicate AllLeave(d: Disk, calls: seq<Call>, path: Bytes)
    requires Formed(d) && forall c | c in calls :: CallOk(c)
    decreases |calls|
  {
    calls == [] || (Leaves(d, calls[0], path) && AllLeave(After(d, calls[0]), calls[1..], path))
  }

  lemma {:induction false} RunStays(d: Disk, calls: seq<Call>, path: Bytes)
    requires Inv(d) && (forall c | c in calls :: CallOk(c)) && AllAllowed(d, calls)
    requires IsFile(d, path) && AllLeave(d, calls, path)
    ensures Stays(d, Run(d, calls), path)
    decreases |calls|
  {
    hide Inv, After, Allowed, CallOk, IsFile, Stays, Leaves;
    InvParts(d);
    if calls == [] {
      StaysSame(d, path);
    } else {
      var e := After(d, calls[0]);
      CallKeepsExactly(d, calls[0]);
      CallStays(d, calls[0], path);
      StillFile(d, e, path);
      RunStays(e, calls[1..], path);
      StaysMore(d, e, Run(e, calls[1..]), path);
    }
  }

  /** Reading `k` bytes leaves `result` in the output and returns `code`. */
  predicate Reads(d: Disk, path: Bytes, k: nat, output: Bytes, result: Bytes, code: int)
    requires Formed(d) && k <= |output|
  {
    CanRead(d, path, k) && ReadFile(d, path, k, output) == (result, code)
  }

  /** What is written stays written: after a successful write to a file and any allowed
      run that leaves that file alone, a read yields the block of bytes written, padded
      with zeros. */
  lemma WrittenStays(d: Disk, path: Bytes, input: Bytes, count: nat, calls: seq<Call>, k: nat, output: Bytes)
    requires Inv(d) && PathOk(path) && Min(count, SECTOR_SIZE) <= |input|
    requires IsFile(d, path) && WriteFile(d, path, input, count).1 >= 0
    requires (forall c | c in calls :: CallOk(c)) && AllAllowed(WriteFile(d, path, input, count).0, calls)
    requires AllLeave(WriteFile(d, path, input, count).0, calls, path)
    requires k <= SECTOR_SIZE && k <= |output|
    ensures var after := Run(WriteFile(d, path, input, count).0, calls);
      var n, written := Find(d, path), Min(count, SECTOR_SIZE);
      var size := if Size(d, n) < written then written else Size(d, n);
      && Find(after, path) == n && Size(after, n) == size
      && Reads(after, path, k, output, Block(input, count)[..k] + output[k..], Min(k, size))
  {
    hide Inv, Find, Size, Zone, IsDir, WriteFile, ReadInode, Run, AllAllowed, AllLeave, CallOk;
    InvParts(d);
    var e := WriteFile(d, path, input, count).0;
    WrittenFile(d, path, input, count);
    WriteThenRead(d, path, input, count, k, output);
    RunStays(e, calls, path);
    StaysReads(e, Run(e, calls), path, k, output);
    BlockStart(input, count, k);
  }

  lemma BlockStart(input: Bytes, count: nat, k: nat)
    requires Min(count, SECTOR_SIZE) <= |input| && k <= SECTOR_SIZE
    ensures var n := Min(Min(count, SECTOR_SIZE), k); Block(input, count)[..k] == input[..n] + Zeros(k - n)
  {
  }

  lemma WrittenFile(d: Disk, path: Bytes, input: Bytes, count: nat)
    requires Inv(d) && PathOk(path) && Min(count, SECTOR_SIZE) <= |input|
    requires IsFile(d, path) && WriteFile(d, path, input, count).1 >= 0
    ensures Inv(WriteFile(d, path, input, count).0) && IsFile(WriteFile(d, path, input, count).0, path)
  {
    hide Inv, Find, Size, Zone, Mode, DirMode, WriteInode, ReadInode, Changed, Block, GoodDir;
    InvParts(d);
    WriteFileKeeps(d, path, input, count);
    WriteThenRead(d, path, input, count, 0, []);
    WriteFinds(d, path, input, count);
    PathGood(d, path);
    WriteInodeEffect(d, Find(d, path), input, count);
  }
}
