/** Renaming and copying. */
module MinixMoves {
  import opened Bits
  import opened Directory
  import opened Inodes
  import opened Machine
  import opened MinixFiles
  import opened MinixInvariant
  import opened MinixKeeps
  import opened MinixModel
  import opened MinixNames
  import opened MinixPaths
  import opened Sectors
  import opened Strings

  // Renaming.

  /** The entry being renamed exists and the new name does not. */
  predicate CanRename(d: Disk, oldPath: Bytes, newPath: Bytes)
    requires Formed(d)
  {
    && PathDir(d, oldPath) != 0 && PathDir(d, newPath) != 0 && Find(d, newPath) == 0
    && Find(d, oldPath) != 0
  }

  /** Inside one directory, renaming finds room; into another one it fails exactly
      when that is full, and then the entry is already gone. */
  lemma RenameReturns(d: Disk, oldPath: Bytes, newPath: Bytes)
    requires Inv(d) && PathOk(oldPath) && PathOk(newPath)
    ensures var r, from, to := RenameFile(d, oldPath, newPath), PathDir(d, oldPath), PathDir(d, newPath);
      && (r.1 == -EEXIST <==> from != 0 && to != 0 && Find(d, newPath) != 0)
      && (r.1 == -ENOENT <==> from == 0 || to == 0 || (Find(d, newPath) == 0 && Find(d, oldPath) == 0))
      && (r.1 == -EEXIST || r.1 == -ENOENT ==> r.0 == d)
      && (r.1 == ESUCCESS <==> CanRename(d, oldPath, newPath) && (from == to || !Full(DirOf(d[to]))))
      && (r.1 == -ENOSPC <==> CanRename(d, oldPath, newPath) && from != to && Full(DirOf(d[to])))
      && (r.1 == -ENOSPC ==> DirOf(r.0[from]) == DirOf(d[from])[FindName(DirOf(d[from]), PathName(oldPath)) := Free]
                             && r.0 == PutSector(d, from, r.0[from]))
  {
    hide Inv, GoodDir, DirAt, PathDir, PathName, PutEntry;
    InvParts(d);
    var from, to := PathDir(d, oldPath), PathDir(d, newPath);
    if CanRename(d, oldPath, newPath) {
      PathGood(d, oldPath);
      DirAtMeans(d, from);
      var es := DirOf(d[from]);
      var i := FindName(es, PathName(oldPath));
      FreeEntryKeeps(d, from, i);
      if from == to {
        assert es[i := Free][i].Free?;
      }
    }
  }

  /** A successful rename: one name gone, one made, nothing else. */
  ghost predicate Moved(d: Disk, after: Disk, from: nat, to: nat, oldName: Bytes, newName: Bytes, n: nat)
    requires Formed(d) && Formed(after) && from < SECTORS && to < SECTORS
  {
    && Changed(d, after, {(from, oldName), (to, newName)}, {})
    && (forall t | 0 <= t < SECTORS && t != from && t != to :: after[t] == d[t])
    && Lookup(DirOf(after[from]), oldName) == 0 && Lookup(DirOf(after[to]), newName) == n
    && (from == to ==> InodesIn(DirOf(after[from])) == InodesIn(DirOf(d[from])))
    && (from != to ==>
          InodesIn(DirOf(after[from])) + InodesIn(DirOf(after[to]))
          == InodesIn(DirOf(d[from])) + InodesIn(DirOf(d[to])))
  }

  /** Freeing an entry takes its inode out of the multiset; filling a free one
      adds it. */
  lemma MoveCounts(a: seq<Entry>, i: nat, b: seq<Entry>, j: nat, name: Bytes)
    requires i < |a| && a[i].Used? && j < |b| && b[j].Free?
    ensures InodesIn(a[i := Free]) + multiset{a[i].inode} == InodesIn(a)
    ensures InodesIn(b[j := Used(a[i].inode, name)]) == InodesIn(b) + multiset{a[i].inode}
  {
    hide InodesIn;
    InodesUpdate(a, i, Free);
    InodesUpdate(b, j, Used(a[i].inode, name));
    var e: Entry := Used(a[i].inode, name);
    assert Weight(a[i]) == Weight(e) == multiset{a[i].inode} && Weight(Free) == Weight(b[j]) == multiset{};
    assert InodesIn(a) + multiset{} == InodesIn(a);
    assert InodesIn(b[j := e]) + multiset{} == InodesIn(b[j := e]);
  }

  lemma MultisetMove(a: multiset<nat>, b: multiset<nat>, c: multiset<nat>, e: multiset<nat>, m: multiset<nat>)
    requires b + m == a && e == c + m
    ensures b + e == a + c
  {
    assert b + (c + m) == (b + m) + c;
  }

  /** The directories before and after: `i` freed in one, `j` filled in the other. */
  ghost predicate EntryMoved(d: Disk, after: Disk, from: nat, i: nat, to: nat, j: nat, name: Bytes)
    requires Formed(d) && Formed(after) && from < SECTORS && to < SECTORS && i < ENTRIES && j < ENTRIES
  {
    var a := DirOf(d[from]);
    var b := if to == from then a[i := Free] else DirOf(d[to]);
    && a[i].Used? && b[j].Free?
    && DirOf(after[to]) == b[j := Used(a[i].inode, name)]
    && (to != from ==> DirOf(after[from]) == a[i := Free])
    && forall t | 0 <= t < SECTORS && t != from && t != to :: after[t] == d[t]
  }

  lemma MoveEntries(d: Disk, from: nat, i: nat, to: nat, newName: Bytes) returns (j: nat)
    requires Inv(d) && DirAt(d, from) && DirAt(d, to) && from < SECTORS && to < SECTORS && i < ENTRIES
    requires DirOf(d[from])[i].Used? && |newName| < NAME_FIELD && 0 !in newName
    requires Lookup(DirOf(d[to]), newName) == 0
    requires Move(d, from, i, to, newName).1 == ESUCCESS
    ensures j < ENTRIES && EntryMoved(d, Move(d, from, i, to, newName).0, from, i, to, j, newName)
  {
    hide Inv, GoodDir, DirAt, FreeEntry, AddEntry, Lookup, Zone, IsDir;
    InvParts(d);
    DirAtMeans(d, from);
    DirAtMeans(d, to);
    var es := DirOf(d[from]);
    FreeEntryKeeps(d, from, i);
    var g := FreeEntry(d, from, i);
    FreeEntryOnly(d, from, i);
    RemoveEntry(es, i);
    GoodInode(es, i);
    AddEntryEffect(g, to, es[i].inode, newName);
    AddEntryFails(g, to, es[i].inode, newName);
    j := FindFree(DirOf(g[to]));
  }

  lemma MovedNames(d: Disk, after: Disk, from: nat, i: nat, to: nat, j: nat, name: Bytes)
    requires Inv(d) && DirAt(d, from) && DirAt(d, to) && Formed(after)
    requires from < SECTORS && to < SECTORS && i < ENTRIES && j < ENTRIES
    requires EntryMoved(d, after, from, i, to, j, name)
    requires |name| < NAME_FIELD && Lookup(DirOf(d[to]), name) == 0
    ensures var e := DirOf(d[from])[i];
      && Lookup(DirOf(after[from]), e.name) == 0 && Lookup(DirOf(after[to]), name) == e.inode
      && forall t: nat, x: Bytes | t < SECTORS && (t, x) !in {(from, e.name), (to, name)} ::
           Lookup(DirOf(after[t]), x) == Lookup(DirOf(d[t]), x)
  {
    hide Inv, GoodDir, DirAt, Lookup;
    InvParts(d);
    DirAtMeans(d, from);
    DirAtMeans(d, to);
    var es := DirOf(d[from]);
    var e := es[i];
    RemoveEntry(es, i);
    GoodInode(es, i);
    InsertEntry(if to == from then es[i := Free] else DirOf(d[to]), j, e.inode, name);
    forall t: nat, x: Bytes | t < SECTORS && (t, x) !in {(from, e.name), (to, name)}
      ensures Lookup(DirOf(after[t]), x) == Lookup(DirOf(d[t]), x)
    {
      assert t == from || t == to || after[t] == d[t];
    }
  }

  /** The two directory sectors after a successful rename. */
  lemma MoveSectors(d: Disk, from: nat, to: nat, i: nat, newName: Bytes)
    requires Inv(d) && DirAt(d, from) && DirAt(d, to) && from < SECTORS && to < SECTORS && i < ENTRIES
    requires DirOf(d[from])[i].Used? && |newName| < NAME_FIELD && 0 !in newName
    requires Lookup(DirOf(d[to]), newName) == 0
    requires Move(d, from, i, to, newName).1 == ESUCCESS
    ensures var after, e := Move(d, from, i, to, newName).0, DirOf(d[from])[i];
      && Moved(d, after, from, to, e.name, newName, e.inode)
  {
    hide Inv, GoodDir, DirAt, Move, Lookup, InodesIn, Zone, IsDir;
    InvParts(d);
    DirAtMeans(d, from);
    DirAtMeans(d, to);
    var after := Move(d, from, i, to, newName).0;
    var j := MoveEntries(d, from, i, to, newName);
    MovedNames(d, after, from, i, to, j, newName);
    NodesSame(d, after);
    var es := DirOf(d[from]);
    var b := if to == from then es[i := Free] else DirOf(d[to]);
    MoveCounts(es, i, b, j, newName);
    if from != to {
      MultisetMove(InodesIn(es), InodesIn(DirOf(after[from])), InodesIn(b), InodesIn(DirOf(after[to])),
          multiset{es[i].inode});
    }
  }

  lemma RenameMoves(d: Disk, oldPath: Bytes, newPath: Bytes)
    requires Inv(d) && PathOk(oldPath) && PathOk(newPath) && RenameFile(d, oldPath, newPath).1 == ESUCCESS
    ensures var after := RenameFile(d, oldPath, newPath).0;
      Moved(d, after, PathDir(d, oldPath), PathDir(d, newPath), PathName(oldPath), PathName(newPath), Find(d, oldPath))
  {
    hide Inv, GoodDir, DirAt, PathDir, PathName, Move, Moved;
    InvParts(d);
    PathGood(d, oldPath);
    PathGood(d, newPath);
    SubName(newPath);
    var from := PathDir(d, oldPath);
    MoveSectors(d, from, PathDir(d, newPath), FindName(DirOf(d[from]), PathName(oldPath)), PathName(newPath));
  }

  /** After a successful rename the old path leads nowhere, and the new one leads
      to the inode exactly if it does not pass through the old name. Of the paths
      that do not ask for the new name, those that ask for the old one are lost
      and all others stay. */
  lemma RenameFinds(d: Disk, oldPath: Bytes, newPath: Bytes, other: Bytes)
    requires Inv(d) && PathOk(oldPath) && PathOk(newPath)
    requires RenameFile(d, oldPath, newPath).1 == ESUCCESS
    ensures var after, n := RenameFile(d, oldPath, newPath).0, Find(d, oldPath);
      var o, t := (PathDir(d, oldPath), PathName(oldPath)), (PathDir(d, newPath), PathName(newPath));
      && n != 0 && Find(after, oldPath) == 0
      && Find(after, newPath) == (if o in Asked(d, PathParts(newPath), ROOT_SECTOR) then 0 else n)
      && (t !in PathAsks(d, other) ==> Find(after, other) == if o in PathAsks(d, other) then 0 else Find(d, other))
  {
    hide Inv, GoodDir, DirAt, PathDir, PathName, Asked, Lookup, RenameFile, PathAsks, Moved, Find;
    InvParts(d);
    var after, n := RenameFile(d, oldPath, newPath).0, Find(d, oldPath);
    var from, to := PathDir(d, oldPath), PathDir(d, newPath);
    RenameReturns(d, oldPath, newPath);
    RenameMoves(d, oldPath, newPath);
    MovedNew(d, after, oldPath, newPath, n);
    MovedOld(d, after, oldPath, newPath, n);
    if (to, PathName(newPath)) !in PathAsks(d, other) {
      MovedOther(d, after, from, to, PathName(oldPath), PathName(newPath), n, other);
    }
  }

  /** The new path after the move. */
  lemma MovedNew(d: Disk, after: Disk, oldPath: Bytes, newPath: Bytes, n: nat)
    requires Inv(d) && Formed(after) && CanRename(d, oldPath, newPath)
    requires Moved(d, after, PathDir(d, oldPath), PathDir(d, newPath), PathName(oldPath), PathName(newPath), n)
    ensures var o := (PathDir(d, oldPath), PathName(oldPath));
      Find(after, newPath) == if o in Asked(d, PathParts(newPath), ROOT_SECTOR) then 0 else n
  {
    hide Inv, GoodDir, DirAt, PathDir, PathName, Asked, Lookup, Changed, PathVisits, DeadEnd;
    InvParts(d);
    var o, t := (PathDir(d, oldPath), PathName(oldPath)), (PathDir(d, newPath), PathName(newPath));
    GoneIsDead(after, o.0, o.1);
    PathDirAsks(d, newPath, t.0, t.1);
    PathDirWhenGone(d, after, {o, t}, {}, newPath);
  }

  /** The old path after the move. */
  lemma MovedOld(d: Disk, after: Disk, oldPath: Bytes, newPath: Bytes, n: nat)
    requires Inv(d) && Formed(after) && CanRename(d, oldPath, newPath)
    requires Moved(d, after, PathDir(d, oldPath), PathDir(d, newPath), PathName(oldPath), PathName(newPath), n)
    ensures Find(after, oldPath) == 0
  {
    hide Inv, GoodDir, DirAt, PathDir, PathName, Asked, Lookup, Changed, PathVisits, DeadEnd;
    InvParts(d);
    var o, t := (PathDir(d, oldPath), PathName(oldPath)), (PathDir(d, newPath), PathName(newPath));
    GoneIsDead(after, o.0, o.1);
    PathDirAsks(d, oldPath, t.0, t.1);
    PathDirWhenGone(d, after, {o, t}, {}, oldPath);
  }

  lemma MovedMeans(d: Disk, after: Disk, from: nat, to: nat, oldName: Bytes, newName: Bytes, n: nat)
    requires Formed(d) && Formed(after) && from < SECTORS && to < SECTORS
    requires Moved(d, after, from, to, oldName, newName, n)
    ensures Changed(d, after, {(from, oldName), (to, newName)}, {}) && Lookup(DirOf(after[from]), oldName) == 0
  {
    hide Changed, Lookup;
  }

  /** Any path that does not ask for the new name. */
  lemma MovedOther(d: Disk, after: Disk, from: nat, to: nat, oldName: Bytes, newName: Bytes, n: nat, path: Bytes)
    requires Inv(d) && Formed(after) && from < SECTORS && to < SECTORS
    requires Moved(d, after, from, to, oldName, newName, n) && (to, newName) !in PathAsks(d, path)
    ensures Find(after, path) == if (from, oldName) in PathAsks(d, path) then 0 else Find(d, path)
  {
    hide Inv, GoodDir, DirAt, PathDir, PathName, Asked, Lookup, PathVisits, DeadEnd, Changed, Moved;
    InvParts(d);
    MovedMeans(d, after, from, to, oldName, newName, n);
    var touched := {(from, oldName), (to, newName)};
    GoneIsDead(after, from, oldName);
    PathDirWhenGone(d, after, touched, {}, path);
    PathGood(d, path);
    var s, name := PathDir(d, path), PathName(path);
    if s != 0 && (s, name) !in touched {
      LookupKept(d, after, touched, {}, s, name);
    }
  }

  lemma GoneIsDead(d: Disk, t: nat, x: Bytes)
    requires Formed(d) && t < SECTORS && Lookup(DirOf(d[t]), x) == 0
    ensures DeadEnd(d, t, x)
  {
  }

  // Copying.

  /** After a successful copy, the destination reads as the source did, if that has
      a zone or no contents. */
  lemma CopyReads(d: Disk, source: Bytes, dest: Bytes, buffer: Bytes, k: nat, output: Bytes)
    requires Inv(d) && PathOk(source) && PathOk(dest) && |buffer| == SECTOR_SIZE
    requires CopyFile(d, source, dest, buffer).1 == ESUCCESS
    requires k <= SECTOR_SIZE && k <= |output|
    ensures var after := CopyFile(d, source, dest, buffer).0;
      && Find(d, source) != 0 && Find(after, dest) != 0
      && Size(after, Find(after, dest)) == Min(SECTOR_SIZE, Size(d, Find(d, source)))
      && (Zone(d, Find(d, source), 0) != 0 || Size(d, Find(d, source)) == 0 ==>
            SameRead(after, dest, d, source, k, output))
  {
    hide Inv, PathDir, CreateFile, WriteFile, ReadFile, Size, Zone, Find, IsDir, SameRead;
    InvParts(d);
    var read, made := ReadFile(d, source, SECTOR_SIZE, buffer), CreateFile(d, dest);
    ReadReturns(d, source, SECTOR_SIZE, buffer);
    MadeForCopy(d, dest);
    WriteNothing(made.0, dest, read.0, read.1);
    CopiedReads(d, made.0, source, dest, buffer, k, output);
  }

  /** Both paths read the same. */
  predicate SameRead(d: Disk, path: Bytes, e: Disk, other: Bytes, k: nat, output: Bytes)
    requires Formed(d) && Formed(e) && k <= SECTOR_SIZE && k <= |output|
  {
    ReadFile(d, path, k, output) == ReadFile(e, other, k, output)
  }

  /** The destination that a copy makes: found again, it is an empty file. */
  lemma MadeForCopy(d: Disk, dest: Bytes)
    requires Inv(d) && PathOk(dest) && CreateFile(d, dest).1 == ESUCCESS
    ensures var e := CreateFile(d, dest).0;
      && Inv(e) && (Find(e, dest) != 0 ==> !IsDir(e, Find(e, dest)) && Size(e, Find(e, dest)) == 0)
  {
    hide Inv, PathDir, CreateFile, Size, Zone, Find, PathVisits, IsDir, Changed, Renewed, DataKept;
    CreateFileMakes(d, dest);
    CreateFileFinds(d, dest, dest);
    CreateFileKeeps(d, dest);
  }

  /** A path that leads nowhere cannot be written. */
  lemma WriteNothing(d: Disk, path: Bytes, input: Bytes, count: nat)
    requires Formed(d) && Min(count, SECTOR_SIZE) <= |input|
    ensures Find(d, path) == 0 ==> WriteFile(d, path, input, count).1 == -ENOENT
  {
  }

  lemma CopiedReads(d: Disk, e: Disk, source: Bytes, dest: Bytes, buffer: Bytes, k: nat, output: Bytes)
    requires Formed(d) && Inv(e) && PathOk(dest) && |buffer| == SECTOR_SIZE && Find(d, source) != 0
    requires Find(e, dest) != 0 && !IsDir(e, Find(e, dest)) && Size(e, Find(e, dest)) == 0
    requires var read := ReadFile(d, source, SECTOR_SIZE, buffer);
      read.1 >= 0 && WriteFile(e, dest, read.0, read.1).1 == read.1
    requires k <= SECTOR_SIZE && k <= |output|
    ensures var read := ReadFile(d, source, SECTOR_SIZE, buffer);
      var after := WriteFile(e, dest, read.0, read.1).0;
      && Find(after, dest) == Find(e, dest)
      && Size(after, Find(e, dest)) == Min(SECTOR_SIZE, Size(d, Find(d, source)))
      && (Zone(d, Find(d, source), 0) != 0 || Size(d, Find(d, source)) == 0 ==>
            SameRead(after, dest, d, source, k, output))
  {
    hide Inv, PathDir, WriteFile, ReadInode, Size, Zone, Find, IsDir;
    InvParts(e);
    var read := ReadFile(d, source, SECTOR_SIZE, buffer);
    ReadReturns(d, source, SECTOR_SIZE, buffer);
    WriteThenRead(e, dest, read.0, read.1, k, output);
    if Size(d, Find(d, source)) == 0 {
      EmptyRead(d, Find(d, source), k, output);
      EmptyRead(WriteFile(e, dest, read.0, read.1).0, Find(e, dest), k, output);
    } else if Zone(d, Find(d, source), 0) != 0 {
      ReadTwice(d, source, buffer, k, output);
    }
  }

  /** A read of a file without a zone changes no byte within its size, and zeros the rest
      of what was asked for. */
  lemma ReadUnzoned(d: Disk, n: InodeNo, k: nat, output: Bytes)
    requires Formed(d) && k <= |output| && k <= SECTOR_SIZE && Zone(d, n, 0) == 0
    ensures var actual := Min(k, Size(d, n));
      ReadInode(d, n, k, output) == (output[..actual] + Zeros(k - actual) + output[k..], actual)
  {
    hide Size, Zone;
  }

  /** A source with a size and no zone: the copy holds what the buffer held before,
      which the code does not initialize. */
  lemma CopyStale(d: Disk, source: Bytes, dest: Bytes, buffer: Bytes, x: byte)
    requires Inv(d) && PathOk(source) && PathOk(dest) && |buffer| == SECTOR_SIZE
    requires CopyFile(d, source, dest, buffer).1 == ESUCCESS
    requires Find(d, source) != 0 && Zone(d, Find(d, source), 0) == 0 && Size(d, Find(d, source)) != 0
    ensures ReadFile(CopyFile(d, source, dest, buffer).0, dest, 1, [x]) == ([buffer[0]], 1)
    ensures ReadFile(d, source, 1, [x]) == ([x], 1)
  {
    hide Inv, PathDir, CreateFile, WriteFile, ReadInode, Size, Zone, Find, IsDir;
    InvParts(d);
    var read, made := ReadFile(d, source, SECTOR_SIZE, buffer), CreateFile(d, dest);
    ReadReturns(d, source, SECTOR_SIZE, buffer);
    ReadReturns(d, source, 1, [x]);
    ReadUnzoned(d, Find(d, source), SECTOR_SIZE, buffer);
    ReadUnzoned(d, Find(d, source), 1, [x]);
    assert ReadFile(d, source, 1, [x]).0 == [x];
    MadeForCopy(d, dest);
    WriteNothing(made.0, dest, read.0, read.1);
    WriteThenRead(made.0, dest, read.0, read.1, 1, [x]);
    assert read.0[..1] + Zeros(0) + [x][1..] == [buffer[0]];
  }

  /** So a copy reads as its source whatever the read, exactly if the source has a zone
      or no contents. */
  lemma CopyReadsExactly(d: Disk, source: Bytes, dest: Bytes, buffer: Bytes)
    requires Inv(d) && PathOk(source) && PathOk(dest) && |buffer| == SECTOR_SIZE
    requires CopyFile(d, source, dest, buffer).1 == ESUCCESS
    ensures Find(d, source) != 0
    ensures (forall k: nat, output: Bytes | k <= SECTOR_SIZE && k <= |output| ::
               SameRead(CopyFile(d, source, dest, buffer).0, dest, d, source, k, output))
            <==> Zone(d, Find(d, source), 0) != 0 || Size(d, Find(d, source)) == 0
  {
    hide Inv, CopyFile, ReadFile, Size, Zone, Find, SameRead;
    InvParts(d);
    var after := CopyFile(d, source, dest, buffer).0;
    CopyReads(d, source, dest, buffer, 0, []);
    if Zone(d, Find(d, source), 0) != 0 || Size(d, Find(d, source)) == 0 {
      forall k: nat, output: Bytes | k <= SECTOR_SIZE && k <= |output|
        ensures SameRead(after, dest, d, source, k, output)
      {
        CopyReads(d, source, dest, buffer, k, output);
      }
    } else {
      var x: byte := if buffer[0] == 0 then 1 else 0;
      CopyStale(d, source, dest, buffer, x);
      NotSame(after, dest, d, source, [x]);
    }
  }

  lemma NotSame(d: Disk, path: Bytes, e: Disk, other: Bytes, output: Bytes)
    requires Formed(d) && Formed(e) && |output| == 1
    requires ReadFile(d, path, 1, output).0 != ReadFile(e, other, 1, output).0
    ensures !SameRead(d, path, e, other, 1, output)
  {
    hide ReadFile;
  }

  lemma ReadReturns(d: Disk, path: Bytes, count: nat, output: Bytes)
    requires Formed(d) && count <= |output| && CanRead(d, path, count)
    ensures ReadFile(d, path, count, output).1
            == if Find(d, path) == 0 then -ENOENT else Min(count, Size(d, Find(d, path)))
  {
  }

  /** Reading the whole sector and then taking `k` bytes is reading `k` bytes. */
  lemma ReadTwice(d: Disk, path: Bytes, buffer: Bytes, k: nat, output: Bytes)
    requires Formed(d) && |buffer| == SECTOR_SIZE && k <= SECTOR_SIZE && k <= |output|
    requires Find(d, path) != 0 && Zone(d, Find(d, path), 0) != 0
    ensures var read := ReadFile(d, path, SECTOR_SIZE, buffer);
      var size := Min(SECTOR_SIZE, Size(d, Find(d, path)));
      && read.1 == size
      && ReadFile(d, path, k, output)
         == (read.0[..Min(size, k)] + Zeros(k - Min(size, k)) + output[k..], Min(k, size))
  {
    hide Find, Size, Zone, ReadInode;
    var n := Find(d, path);
    var size := Min(SECTOR_SIZE, Size(d, n));
    var b := d[2 * Zone(d, n, 0)];
    ReadIs(d, n, SECTOR_SIZE, buffer);
    ReadIs(d, n, k, output);
    var read := ReadFile(d, path, SECTOR_SIZE, buffer);
    assert read.0[..Min(size, k)] == b[..Min(size, k)];
    assert Min(size, k) == Min(k, Size(d, n)) == Min(k, size);
  }

  /** Creating a file marks no zone. */
  lemma CreateZones(d: Disk, path: Bytes)
    requires Inv(d) && PathOk(path) && CreateFile(d, path).1 == ESUCCESS
    ensures ZoneFree(CreateFile(d, path).0) <==> ZoneFree(d)
  {
    hide Inv, PathDir, PathName, DirAt, GoodDir, FreshRecord, SetBit, PutEntry, Find, SectorOf, FreeInode, FindFree,
      DirOf, Lookup;
    InvParts(d);
    CreateFileMakes(d, path);
    PathGood(d, path);
    DirAtMeans(d, PathDir(d, path));
    NodeSector(FreeInode(d));
    assert CreateFile(d, path).0[ZONE_BITMAP] == d[ZONE_BITMAP];
    SameBits(d, CreateFile(d, path).0);
    SameBits(CreateFile(d, path).0, d);
  }

  /** The destination can be made and found again: the name is new, its directory is
      there with a free entry, an inode number is left, and clearing that inode's record does
      not take a directory on the destination's own path. */
  ghost predicate CanMake(d: Disk, dest: Bytes)
    requires Formed(d)
  {
    && Find(d, dest) == 0 && PathDir(d, dest) != 0 && FreeInode(d) != 0 && !Full(DirOf(d[PathDir(d, dest)]))
    && PathVisits(d, dest) !! Lost(FreeInode(d))
  }

  /** Each code of a copy by its condition. It succeeds exactly if the source is there,
      the destination can be made and found again, and a zone is left, also for an
      empty source. */
  lemma CopyFileReturns(d: Disk, source: Bytes, dest: Bytes, buffer: Bytes)
    requires Inv(d) && PathOk(source) && PathOk(dest) && |buffer| == SECTOR_SIZE
    ensures var code, s := CopyFile(d, source, dest, buffer).1, PathDir(d, dest);
      && (code == ESUCCESS <==> Find(d, source) != 0 && CanMake(d, dest) && ZoneFree(d))
      && (code == -EEXIST <==> Find(d, source) != 0 && Find(d, dest) != 0)
      && (code == -ENOENT <==> Find(d, source) == 0 || s == 0)
      && (code == -ENOSPC <==>
            Find(d, source) != 0 && Find(d, dest) == 0 && s != 0 && (FreeInode(d) == 0 || Full(DirOf(d[s]))))
      && (code == -1 <==>
            Find(d, source) != 0 && CreateFile(d, dest).1 == ESUCCESS && !(CanMake(d, dest) && ZoneFree(d)))
  {
    hide Inv, CreateFile, WriteFile, ReadInode, Size, Zone, Find, IsDir, PathDir, FreeInode, PathVisits, Lost, ZoneFree,
      Full, NewFileInode, TakeInode, Changed, Renewed, DataKept, Lookup;
    InvParts(d);
    var read, made := ReadFile(d, source, SECTOR_SIZE, buffer), CreateFile(d, dest);
    ReadReturns(d, source, SECTOR_SIZE, buffer);
    CreateFileReturns(d, dest);
    NowhereFound(d, dest);
    if Find(d, source) != 0 && made.1 == ESUCCESS {
      CreateFileMakes(d, dest);
      CreateFileFinds(d, dest, dest);
      MadeForCopy(d, dest);
      CreateZones(d, dest);
      WriteFileReturns(made.0, dest, read.0, read.1);
    }
  }

  /** What a failing copy leaves: the disk as it was without a source, or with a name
      or directory that does not suit or no inode number left; a taken inode number when
      the directory is full; and for -1 the destination, empty if it can be found. */
  lemma CopyFileLeaves(d: Disk, source: Bytes, dest: Bytes, buffer: Bytes)
    requires Inv(d) && PathOk(source) && PathOk(dest) && |buffer| == SECTOR_SIZE
    ensures var r, n := CopyFile(d, source, dest, buffer), FreeInode(d);
      && (r.1 == -EEXIST || r.1 == -ENOENT || (r.1 == -ENOSPC && n == 0) ==> r.0 == d)
      && (r.1 == -ENOSPC && n != 0 ==> r.0 == NewFileInode(TakeInode(d, n), n))
      && (r.1 == -1 ==> r.0 == CreateFile(d, dest).0 && (Find(r.0, dest) == 0 || EmptyFile(r.0, dest)))
  {
    hide Inv, CreateFile, WriteFile, ReadInode, Size, Zone, Find, IsDir, PathDir, FreeInode, PathVisits, Lost, ZoneFree,
      Full, NewFileInode, TakeInode, Changed, Renewed, DataKept, Lookup;
    InvParts(d);
    var read, made := ReadFile(d, source, SECTOR_SIZE, buffer), CreateFile(d, dest);
    ReadReturns(d, source, SECTOR_SIZE, buffer);
    CreateFileReturns(d, dest);
    NowhereFound(d, dest);
    if Find(d, source) != 0 && made.1 == ESUCCESS {
      MadeForCopy(d, dest);
      WriteFileReturns(made.0, dest, read.0, read.1);
    }
  }

  /** The path leads to a file of size 0. */
  predicate EmptyFile(d: Disk, path: Bytes)
    requires Formed(d)
  {
    Find(d, path) != 0 && !IsDir(d, Find(d, path)) && Size(d, Find(d, path)) == 0
  }

  lemma NowhereFound(d: Disk, path: Bytes)
    requires Formed(d)
    ensures PathDir(d, path) == 0 ==> Find(d, path) == 0
  {
  }

  lemma CopyFileKeeps(d: Disk, source: Bytes, dest: Bytes, buffer: Bytes)
    requires Inv(d) && PathOk(source) && PathOk(dest) && |buffer| == SECTOR_SIZE
    ensures Inv(CopyFile(d, source, dest, buffer).0)
  {
    hide Inv, PathDir, CreateFile, WriteFile, ReadInode, Size, Zone, Find, PathVisits, IsDir, Changed;
    InvParts(d);
    var read, made := ReadFile(d, source, SECTOR_SIZE, buffer), CreateFile(d, dest);
    ReadReturns(d, source, SECTOR_SIZE, buffer);
    CreateFileKeeps(d, dest);
    if read.1 >= 0 && made.1 == ESUCCESS {
      CreateFileMakes(d, dest);
      CreateFileFinds(d, dest, dest);
      WriteFileKeeps(made.0, dest, read.0, read.1);
    }
  }
}
