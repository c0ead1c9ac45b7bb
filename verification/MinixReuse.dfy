/** Inode numbers handed out twice: when it happens, a run in which it does, and
    the runs in which it does not. */
module MinixReuse {
  import opened Bits
  import opened Directory
  import opened Inodes
  import opened Machine
  import opened MinixFiles
  import opened MinixImage
  import opened MinixInvariant
  import opened MinixKeeps
  import opened MinixMarks
  import opened MinixModel
  import opened MinixNames
  import opened MinixPaths
  import opened MinixRuns
  import opened Sectors
  import opened Strings

  // When it happens.

  lemma FirstClearIs(m: Bytes, from: nat, r: nat)
    requires |m| == SECTOR_SIZE && from <= r < ZONE_LIMIT && !Bit(m, r)
    requires forall j: nat | from <= j < r :: Bit(m, j)
    ensures FirstClear(m, from) == r
  {
    hide FirstClear, Bit;
  }

  /** Deleting the file with inode n makes n + 1 the next number to be handed out
      if and only if all numbers from 3 to n are marked; whether n + 1 is in use
      plays no part. */
  lemma DeleteOffersNext(d: Disk, path: Bytes)
    requires Inv(d) && PathOk(path) && DeleteFile(d, path).1 == ESUCCESS
    requires 2 <= Find(d, path) < ZONE_LIMIT
    ensures FreeInode(DeleteFile(d, path).0) == Find(d, path) + 1
            <==> forall j: nat | 2 <= j < Find(d, path) :: Bit(d[INODE_BITMAP], j)
  {
    hide Inv, DeleteFile, Find, FirstClear, Bit, Dropped, ZoneBit, Zone;
    InvParts(d);
    DeleteFileDrops(d, path);
    var after, n := DeleteFile(d, path).0, Find(d, path);
    if forall j: nat | 2 <= j < n :: Bit(d[INODE_BITMAP], j) {
      FirstClearIs(after[INODE_BITMAP], 2, n);
    }
    if FreeInode(after) == n + 1 {
      forall j: nat | 2 <= j < n
        ensures Bit(d[INODE_BITMAP], j)
      {
        assert Bit(after[INODE_BITMAP], j);
      }
    }
  }

  /** Create then takes the inode of a file that is still there: that file reads as
      empty under its old path, and the new path leads to the same inode. */
  lemma CreateWipes(d: Disk, path: Bytes, other: Bytes, k: nat, output: Bytes)
    requires Inv(d) && PathOk(path) && CreateFile(d, path).1 == ESUCCESS
    requires Find(d, other) == FreeInode(d) && PathVisits(d, other) !! Lost(FreeInode(d)) && k <= |output|
    ensures var after, n := CreateFile(d, path).0, FreeInode(d);
      && Find(after, other) == n != 0
      && (PathVisits(d, path) !! Lost(n) ==> Find(after, path) == n)
      && CanRead(after, other, k)
      && ReadFile(after, other, k, output) == (Zeros(k) + output[k..], 0)
  {
    hide Inv, CreateFile, FreeInode, PathVisits, Lost, PathDir, PathName, Find, Changed, Renewed, DataKept, Lookup,
      IsDir;
    InvParts(d);
    CreateFileMakes(d, path);
    CreateFileFinds(d, path, other);
    CreateFileFinds(d, path, path);
    EmptyRead(CreateFile(d, path).0, FreeInode(d), k, output);
  }

  // When it does not: runs that keep the marks.

  /** No delete or rmdir frees the mark of an inode that stays in a directory, and
      no write to a directory names unmarked ones. */
  ghost predicate MarksAllowed(d: Disk, c: Call)
    requires Formed(d) && CallOk(c)
  {
    match c
    case Delete(path) =>
      var n := Find(d, path);
      DeleteFile(d, path).1 != ESUCCESS || n >= ZONE_LIMIT || (n != 0 && !NamedElsewhere(d, n, n + 1))
    case Rmdir(path) =>
      var n := Find(d, path);
      DeleteDir(d, path).1 != ESUCCESS || n >= ZONE_LIMIT || (n != 0 && !NamedElsewhere(d, n, n + 1))
    case Write(path, input, count) =>
      WriteFile(d, path, input, count).1 < 0 || !IsDir(d, Find(d, path)) || AllMarked(d, Block(input, count))
    case _ => true
  }

  /** One call keeps the marks exactly under that condition. */
  lemma CallMarksExactly(d: Disk, c: Call)
    requires Inv(d) && MarksOk(d) && CallOk(c)
    ensures MarksOk(After(d, c)) <==> MarksAllowed(d, c)
  {
    hide Inv, MarksOk, CreateFile, WriteFile, CreateDir, DeleteFile, DeleteDir, RenameFile, CopyFile, Find, AllMarked,
      NamedElsewhere;
    InvParts(d);
    match c
    case Create(path) => CreateFileMarks(d, path);
    case Write(path, input, count) => WriteFileMarks(d, path, input, count);
    case Mkdir(path) => CreateDirMarks(d, path);
    case Delete(path) => DeleteFileMarks(d, path);
    case Rmdir(path) => DeleteDirMarks(d, path);
    case Rename(path, newPath) => RenameFileMarks(d, path, newPath);
    case Copy(path, newPath, buffer) => CopyFileMarks(d, path, newPath, buffer);
  }

  ghost predicate AllMarksAllowed(d: Disk, calls: seq<Call>)
    requires Formed(d) && forall c | c in calls :: CallOk(c)
    decreases |calls|
  {
    calls == [] || (MarksAllowed(d, calls[0]) && AllMarksAllowed(After(d, calls[0]), calls[1..]))
  }

  /** After any such run no path leads to the number that create takes next. */
  lemma {:induction false} RunMarks(d: Disk, calls: seq<Call>, path: Bytes)
    requires Inv(d) && MarksOk(d) && (forall c | c in calls :: CallOk(c))
    requires AllAllowed(d, calls) && AllMarksAllowed(d, calls)
    ensures Inv(Run(d, calls)) && MarksOk(Run(d, calls))
    ensures FreeInode(Run(d, calls)) != 0 ==> Find(Run(d, calls), path) != FreeInode(Run(d, calls))
    decreases |calls|
  {
    hide Inv, MarksOk, After, Allowed, MarksAllowed, CallOk, FreeInode, Find;
    InvParts(d);
    if calls == [] {
      if FreeInode(d) != 0 {
        FreshNumber(d, path);
      }
    } else {
      CallKeepsExactly(d, calls[0]);
      CallMarksExactly(d, calls[0]);
      RunMarks(After(d, calls[0]), calls[1..], path);
    }
  }

  // A run in which it happens.

  /** The last `k` entries of the root directory are free. */
  predicate Room(d: Disk, k: nat)
    requires Formed(d)
  {
    k <= ENTRIES && forall i | ENTRIES - k <= i < ENTRIES :: DirOf(d[ROOT_SECTOR])[i].Free?
  }

  lemma HasRoom(d: Disk, k: nat)
    requires Formed(d) && Room(d, k) && k > 0
    ensures !Full(DirOf(d[ROOT_SECTOR])) && FindFree(DirOf(d[ROOT_SECTOR])) <= ENTRIES - k
  {
    assert DirOf(d[ROOT_SECTOR])[ENTRIES - k].Free?;
  }

  /** Creating a file at the root: the number, its bit and the entry. */
  lemma CreateStep(d: Disk, path: Bytes, k: nat)
    requires Inv(d) && PathOk(path) && PathParts(path) == [] && Find(d, path) == 0
    requires FreeInode(d) != 0 && Room(d, k) && k > 0
    ensures var r, n := CreateFile(d, path), FreeInode(d);
      && r.1 == ESUCCESS && Inv(r.0) && Room(r.0, k - 1)
      && r.0[INODE_BITMAP] == SetBit(d[INODE_BITMAP], n - 1) && r.0[ZONE_BITMAP] == d[ZONE_BITMAP]
      && !IsDir(r.0, n)
  {
    hide Inv, Find, CreateFile, SetBit, FreeInode, PathName, GoodDir, Lookup, Changed, Renewed, DataKept, IsDir, Size,
      Zone;
    InvParts(d);
    RootLevel(d, path);
    HasRoom(d, k);
    CreateFileReturns(d, path);
    CreateFileKeeps(d, path);
    CreateFileMakes(d, path);
    CreateEntry(d, path);
  }

  /** One more number handed out, and one more entry in the first free place. */
  predicate EntryAdded(d: Disk, after: Disk, s: nat, n: InodeNo, name: Bytes)
    requires Formed(d) && Formed(after) && s < SECTORS && n <= ZONE_LIMIT
  {
    var i := FindFree(DirOf(d[s]));
    && i < ENTRIES && DirOf(after[s]) == DirOf(d[s])[i := Used(n, name)]
    && after[INODE_BITMAP] == SetBit(d[INODE_BITMAP], n - 1) && after[ZONE_BITMAP] == d[ZONE_BITMAP]
  }

  lemma CreateEntry(d: Disk, path: Bytes)
    requires Inv(d) && PathOk(path) && CreateFile(d, path).1 == ESUCCESS
    ensures FreeInode(d) != 0 && EntryAdded(d, CreateFile(d, path).0, PathDir(d, path), FreeInode(d), PathName(path))
  {
    hide Inv, FreshRecord, SetBit, AddEntry, PathDir, PathName, DirAt, GoodDir, Lookup, FreeInode, SectorOf;
    InvParts(d);
    var s, n := PathDir(d, path), FreeInode(d);
    PathGood(d, path);
    DirAtMeans(d, s);
    SubName(path);
    AbsentName(d, path);
    var g := NewFileInode(TakeInode(d, n), n);
    assert g[s] == d[s];
    FreeFound(g, s, n, PathName(path));
    AddEntryEffect(g, s, n, PathName(path));
  }

  /** The bits of the numbers from 3 to `n` are set, and no later ones. */
  predicate Handed(d: Disk, n: nat)
    requires Formed(d)
  {
    forall j: nat | 2 <= j < ZONE_LIMIT :: Bit(d[INODE_BITMAP], j) <==> j < n
  }

  lemma NextNumber(d: Disk, n: nat)
    requires Formed(d) && Handed(d, n) && 2 <= n < ZONE_LIMIT
    ensures FreeInode(d) == n + 1
  {
    hide Bit, FirstClear;
    FirstClearIs(d[INODE_BITMAP], 2, n);
  }

  lemma HandedOne(d: Disk, after: Disk, n: nat)
    requires Formed(d) && Formed(after) && Handed(d, n) && 2 <= n < ZONE_LIMIT
    requires after[INODE_BITMAP] == SetBit(d[INODE_BITMAP], n)
    ensures Handed(after, n + 1)
  {
    hide Bit, SetBit;
    SetBitEffect(d[INODE_BITMAP], n);
  }

  const A: Bytes := [47, 97]
  const B: Bytes := [47, 98]
  const C: Bytes := [47, 99]

  lemma PathsABC()
    ensures PathOk(A) && PathOk(B) && PathOk(C)
    ensures PathParts(A) == PathParts(B) == PathParts(C) == []
    ensures PathName(A) == [97] && PathName(B) == [98] && PathName(C) == [99]
  {
    hide PathParts, PathName;
    ShortPath(97);
    ShortPath(98);
    ShortPath(99);
  }

  lemma FreshStart()
    ensures var d := FreshDisk();
      Inv(d) && Room(d, 14) && Handed(d, 2) && Find(d, A) == Find(d, B) == Find(d, C) == 0
  {
    hide FreshDisk, NewDir, Bit, FreshMarks, DirOf, Find, Inv, MarksOk, Size;
    FreshDiskGood();
    FreshNumbers();
    NewDirEntries(ROOT_INODE, ROOT_INODE);
    EmptyDir(Zeros(SECTOR_SIZE));
    FreshFinds(97);
    FreshFinds(98);
    FreshFinds(99);
  }

  /** Files a and b made on a fresh disk. */
  lemma TwoFiles()
    ensures var d2 := CreateFile(CreateFile(FreshDisk(), A).0, B).0;
      && Inv(d2) && Room(d2, 12) && Handed(d2, 4)
      && Find(d2, A) == 3 && Find(d2, B) == 4 && Find(d2, C) == 0
      && !IsDir(d2, 4) && d2[ZONE_BITMAP] == FreshBitmap()
  {
    hide FreshDisk, Inv, Find, Room, Handed, CreateFile, PathParts, PathName, FreeInode, IsDir, FreshBitmap;
    var d := FreshDisk();
    PathsABC();
    FreshStart();
    NextNumber(d, 2);
    CreateStep(d, A, 14);
    var d1 := CreateFile(d, A).0;
    HandedOne(d, d1, 2);
    CreateAtRoot(d, A, B);
    CreateAtRoot(d, A, C);
    NextNumber(d1, 3);
    CreateStep(d1, B, 13);
    HandedOne(d1, CreateFile(d1, B).0, 3);
    CreateAtRoot(d1, B, A);
    CreateAtRoot(d1, B, C);
  }

  /** Writing to b changes neither the bits nor the root's entries nor a path. */
  lemma WriteStep(d: Disk, path: Bytes, input: Bytes, count: nat, k: nat, n: nat)
    requires Inv(d) && PathOk(path) && Room(d, k) && Handed(d, n) && Min(count, SECTOR_SIZE) <= |input|
    requires Find(d, path) != 0 && !IsDir(d, Find(d, path))
    ensures var after := WriteFile(d, path, input, count).0;
      && Inv(after) && Room(after, k) && Handed(after, n)
      && (Find(after, A) == Find(d, A) && Find(after, B) == Find(d, B) && Find(after, C) == Find(d, C))
  {
    hide Inv, Find, IsDir, WriteInode, Block, Bit, Zone, Size, Mode, Changed, GoodDir;
    InvParts(d);
    var f := Find(d, path);
    PathGood(d, path);
    WriteFinds(d, path, input, count);
    WriteFileKeeps(d, path, input, count);
    WriteMovesNoPath(d, f, input, count);
    var after := WriteInode(d, f, input, count).0;
    FindKept(d, after, {}, {}, A);
    FindKept(d, after, {}, {}, B);
    FindKept(d, after, {}, {}, C);
    WriteReturns(d, f, input, count);
    if WriteInode(d, f, input, count).1 >= 0 {
      WriteBits(d, f, input, count);
      WriteInodeEffect(d, f, input, count);
      RootZone(d);
      assert f != ROOT_INODE;
      assert IsNode(ROOT_INODE);
    }
  }

  lemma RootZone(d: Disk)
    requires Inv(d)
    ensures IsDir(d, ROOT_INODE) && Zone(d, ROOT_INODE, 0) == ROOT_ZONE
  {
  }

  /** Deleting a file at the root. */
  lemma DeleteStep(d: Disk, path: Bytes, k: nat, n: nat)
    requires Inv(d) && PathOk(path) && PathParts(path) == [] && Room(d, k) && Handed(d, n + 1)
    requires Find(d, path) == n && 2 < n < ZONE_LIMIT && PathName(path) != DOT && PathName(path) != DOT_DOT
    ensures var r := DeleteFile(d, path); r.1 == ESUCCESS && Inv(r.0) && Room(r.0, k) && Handed(r.0, n)
  {
    hide Inv, Bit, DeleteFile, Find, GoodDir, Dropped, ZoneBit, Zone;
    InvParts(d);
    RootLevel(d, path);
    DeleteSucceeds(d, path);
    DeleteFileKeeps(d, path);
    DeleteFileDrops(d, path);
    var i := DeleteEntry(d, path);
  }

  lemma DeleteSucceeds(d: Disk, path: Bytes)
    requires Formed(d) && Find(d, path) != 0 && PathName(path) != DOT && PathName(path) != DOT_DOT
    ensures DeleteFile(d, path).1 == ESUCCESS
  {
    hide PathDir, PathName, DropFile;
  }

  lemma DeleteEntry(d: Disk, path: Bytes) returns (i: nat)
    requires Inv(d) && PathOk(path) && DeleteFile(d, path).1 == ESUCCESS
    ensures i < ENTRIES && DirOf(DeleteFile(d, path).0[PathDir(d, path)]) == DirOf(d[PathDir(d, path)])[i := Free]
  {
    hide Inv, PathDir, PathName, DirAt, GoodDir, FreeZones, WipeInode, ClearInodeBit, FreeEntry, SectorOf;
    InvParts(d);
    var s := PathDir(d, path);
    PathGood(d, path);
    DirAtMeans(d, s);
    i := FindName(DirOf(d[s]), PathName(path));
    var n := DirOf(d[s])[i].inode;
    FreeZonesEffect(d, d[SectorOf(n)], OffsetOf(n), ZONES);
    DropsEntry(d, FreeZones(d, d[SectorOf(n)], OffsetOf(n), ZONES), s, i, n);
  }

  lemma FreshZone()
    ensures !Bit(FreshBitmap(), 220)
  {
    assert FreshBitmap()[27] == 0x0F;
    assert !Test(0x0F, 4);
  }

  /** Reading one byte gives `b` and returns `code`. */
  predicate OneByte(d: Disk, path: Bytes, b: byte, code: int) {
    Formed(d) && CanRead(d, path, 1) && ReadFile(d, path, 1, [0]) == ([b], code)
  }

  /** The disk before the delete, and at the end. */
  function Before(letter: byte): (d: Disk)
    ensures Formed(d)
  {
    WriteFile(CreateFile(CreateFile(FreshDisk(), A).0, B).0, B, [letter], 1).0
  }

  function AtEnd(letter: byte): (d: Disk)
    ensures Formed(d)
  {
    CreateFile(DeleteFile(Before(letter), A).0, C).0
  }

  lemma BeforeIs(letter: byte)
    ensures var d := Before(letter);
      && Inv(d) && Room(d, 12) && Handed(d, 4)
      && Find(d, A) == 3 && Find(d, B) == 4 && Find(d, C) == 0
      && OneByte(d, B, letter, 1)
  {
    hide FreshDisk, CreateFile, WriteFile, Find, Inv, IsDir, ReadFile, Size, Room, Handed, FreshBitmap, Bit;
    PathsABC();
    TwoFiles();
    var d := CreateFile(CreateFile(FreshDisk(), A).0, B).0;
    FreshZone();
    assert ZoneBit(d, 220) == Bit(d[ZONE_BITMAP], 220);
    WriteFileReturns(d, B, [letter], 1);
    WriteStep(d, B, [letter], 1, 12, 4);
    WriteThenRead(d, B, [letter], 1, 1, [0]);
    assert [letter][..1] + Zeros(0) + [0][1..] == [letter];
  }

  lemma AtEndIs(letter: byte)
    ensures Find(AtEnd(letter), B) == Find(AtEnd(letter), C) == 4 && OneByte(AtEnd(letter), B, 0, 0)
  {
    hide Before, CreateFile, DeleteFile, Find, Inv, ReadFile, Size, Room, Handed, FreeInode, PathParts, PathName;
    PathsABC();
    BeforeIs(letter);
    var d := Before(letter);
    DeleteStep(d, A, 12, 3);
    DeleteAtRoot(d, A, B);
    DeleteAtRoot(d, A, C);
    var e := DeleteFile(d, A).0;
    NextNumber(e, 3);
    CreateStep(e, C, 12);
    RootLevel(e, B);
    RootLevel(e, C);
    CreateWipes(e, C, B, 1, [0]);
    assert Zeros(1) + [0][1..] == [0];
  }

  lemma RunStep(d: Disk, c: Call, calls: seq<Call>)
    requires Formed(d) && CallOk(c) && forall x | x in calls :: CallOk(x)
    ensures forall x | x in [c] + calls :: CallOk(x)
    ensures Run(d, [c] + calls) == Run(After(d, c), calls)
    ensures AllAllowed(d, [c] + calls) <==> Allowed(d, c) && AllAllowed(After(d, c), calls)
  {
    hide After, Allowed, CallOk;
    assert ([c] + calls)[1..] == calls;
  }

  function FirstCalls(letter: byte): seq<Call> {
    [Create(A), Create(B), Write(B, [letter], 1)]
  }

  function LastCalls(): seq<Call> {
    [Delete(A), Create(C)]
  }

  lemma CallsOk(letter: byte)
    ensures forall c | c in FirstCalls(letter) + LastCalls() :: CallOk(c)
  {
    hide PathOk;
    PathsABC();
  }

  /** A run on a fresh disk: make a and b, write to b; then delete a, make c. Then
      b is still there but reads as empty, and it is the same file as c. */
  lemma ReuseRun(letter: byte)
    ensures (CallsOk(letter);
      var d := FreshDisk();
      var before := Run(d, FirstCalls(letter));
      var after := Run(before, LastCalls());
      && AllAllowed(d, FirstCalls(letter)) && AllAllowed(before, LastCalls()) && Inv(after)
      && Find(before, B) == 4 && OneByte(before, B, letter, 1)
      && Find(after, B) == Find(after, C) == 4 && OneByte(after, B, 0, 0))
  {
    hide FreshDisk, CreateFile, DeleteFile, WriteFile, Find, Inv, IsDir, OneByte, PathParts, PathName, Size, PathOk,
      Room,
      Handed, Allowed;
    CallsOk(letter);
    PathsABC();
    FreshDiskGood();
    BeforeIs(letter);
    AtEndIs(letter);
    CallsAllowed(letter);
    var d := FreshDisk();
    ThreeCalls(d, Create(A), Create(B), Write(B, [letter], 1));
    TwoCalls(Before(letter), Delete(A), Create(C));
    RunKeeps(d, FirstCalls(letter));
    RunKeeps(Before(letter), LastCalls());
  }

  lemma CallsAllowed(letter: byte)
    ensures (CallsOk(letter); var d := FreshDisk();
      && Allowed(d, Create(A)) && Allowed(CreateFile(d, A).0, Create(B))
      && Allowed(CreateFile(CreateFile(d, A).0, B).0, Write(B, [letter], 1))
      && Allowed(Before(letter), Delete(A)) && Allowed(DeleteFile(Before(letter), A).0, Create(C)))
  {
    hide FreshDisk, CreateFile, DeleteFile, WriteFile, Find, Inv, IsDir, PathParts, PathName, PathOk, Room, Handed,
      OneByte, FreshBitmap;
    CallsOk(letter);
    TwoFiles();
    BeforeIs(letter);
  }

  lemma TwoCalls(d: Disk, a: Call, b: Call)
    requires Formed(d) && CallOk(a) && CallOk(b)
    ensures (forall x | x in [a, b] :: CallOk(x)) && Run(d, [a, b]) == After(After(d, a), b)
    ensures AllAllowed(d, [a, b]) <==> Allowed(d, a) && Allowed(After(d, a), b)
  {
    hide After, CallOk, Allowed;
    RunStep(After(d, a), b, []);
    assert [b] + [] == [b];
    RunStep(d, a, [b]);
    assert [a] + [b] == [a, b];
  }

  lemma ThreeCalls(d: Disk, a: Call, b: Call, c: Call)
    requires Formed(d) && CallOk(a) && CallOk(b) && CallOk(c)
    ensures (forall x | x in [a, b, c] :: CallOk(x)) && Run(d, [a, b, c]) == After(After(After(d, a), b), c)
    ensures AllAllowed(d, [a, b, c]) <==> Allowed(d, a) && Allowed(After(d, a), b) && Allowed(After(After(d, a), b), c)
  {
    hide After, CallOk, Allowed;
    TwoCalls(After(d, a), b, c);
    RunStep(d, a, [b, c]);
    assert [a] + [b, c] == [a, b, c];
  }
}
