/** A run of mkdir and rmdir in which a directory that nobody removes is lost, and then
    rmdir drops another name than the one it was given. */
module MinixReuseDirs {
  import opened Bits
  import opened Directory
  import opened Inodes
  import opened MinixFiles
  import opened MinixImage
  import opened MinixInvariant
  import opened MinixKeeps
  import opened MinixMarks
  import opened MinixModel
  import opened MinixNames
  import opened MinixPaths
  import opened MinixReuse
  import opened MinixRuns
  import MinixTree
  import opened Sectors
  import opened Strings

  // The root directory of the run.

  /** "." and ".." of the root and two entries after them. */
  function RootEntries(two: Entry, three: Entry): (es: seq<Entry>)
    ensures |es| == ENTRIES && es[0] == Used(ROOT_INODE, DOT) && es[1] == Used(ROOT_INODE, DOT_DOT)
    ensures es[2] == two && es[3] == three && forall i | 4 <= i < ENTRIES :: es[i] == Free
  {
    [Used(ROOT_INODE, DOT), Used(ROOT_INODE, DOT_DOT), two, three] + seq(ENTRIES - 4, _ => Free)
  }

  /** Two different names other than "." and "..". */
  predicate TwoNames(two: Entry, three: Entry) {
    && (two.Used? ==> two.name != DOT && two.name != DOT_DOT)
    && (three.Used? ==> three.name != DOT && three.name != DOT_DOT)
    && (two.Used? && three.Used? ==> two.name != three.name)
  }

  lemma RootLookup(two: Entry, three: Entry, name: Bytes)
    requires TwoNames(two, three) && name != DOT && name != DOT_DOT
    requires (two.Used? ==> two.inode > 0) && (three.Used? ==> three.inode > 0)
    ensures Lookup(RootEntries(two, three), name)
            == if Matches(two, name) then two.inode else if Matches(three, name) then three.inode else 0
  {
    hide RootEntries;
    var es := RootEntries(two, three);
    if Matches(two, name) {
      LookupFrom(es, name, 2);
    } else if Matches(three, name) {
      LookupFrom(es, name, 3);
    } else {
      LookupNone(es, name);
    }
  }

  /** The first free place of such a directory. */
  lemma RootFree(two: Entry, three: Entry)
    requires two.Free? || three.Free?
    ensures FindFree(RootEntries(two, three)) == if two.Free? then 2 else 3
  {
    hide RootEntries, FindFree;
  }

  lemma RootAdd(two: Entry, three: Entry, e: Entry)
    ensures RootEntries(two, three)[2 := e] == RootEntries(e, three)
    ensures RootEntries(two, three)[3 := e] == RootEntries(two, e)
  {
    hide RootEntries;
  }

  /** The first entry with the number, the one removed in place of a later one. */
  lemma RootInode(two: Entry, three: Entry, n: nat)
    requires n != ROOT_INODE && two.Used? && two.inode == n
    ensures FindInode(RootEntries(two, three), n) == 2
  {
    hide RootEntries, FindInode;
  }

  /** The last `k` zones are not marked. */
  ghost predicate ZonesLeft(d: Disk, k: nat)
    requires Formed(d)
  {
    k <= ZONE_LIMIT && forall z: nat | ZONE_LIMIT - k <= z < ZONE_LIMIT :: !ZoneBit(d, z)
  }

  /** Where the run stands: the entries of the root, the inode bits and free zones. */
  ghost predicate Stands(d: Disk, two: Entry, three: Entry, n: nat, k: nat) {
    && Inv(d) && DirOf(d[ROOT_SECTOR]) == RootEntries(two, three) && TwoNames(two, three)
    && Handed(d, n) && ZonesLeft(d, k)
  }

  lemma StandsMeans(d: Disk, two: Entry, three: Entry, n: nat, k: nat, path: Bytes)
    requires Stands(d, two, three, n, k) && PathParts(path) == []
    requires PathName(path) != DOT && PathName(path) != DOT_DOT
    ensures Inv(d) && Formed(d) && PathDir(d, path) == ROOT_SECTOR && PathVisits(d, path) == {}
    ensures Find(d, path) == if Matches(two, PathName(path)) then two.inode
                             else if Matches(three, PathName(path)) then three.inode else 0
  {
    hide Inv, Handed, ZonesLeft, RootEntries, Lookup, PathName, PathParts, TwoNames, PathVisits, PathDir;
    InvParts(d);
    RootLevel(d, path);
    assert DirOf(d[ROOT_SECTOR])[2] == two == EntryAt(d[ROOT_SECTOR], 2);
    assert DirOf(d[ROOT_SECTOR])[3] == three == EntryAt(d[ROOT_SECTOR], 3);
    RootLookup(two, three, PathName(path));
  }

  // The steps.

  /** What mkdir writes apart from the new directory itself. */
  lemma MkdirEntry(d: Disk, path: Bytes)
    requires Inv(d) && PathOk(path) && CreateDir(d, path).1 == ESUCCESS
    ensures var after, s, n, z := CreateDir(d, path).0, PathDir(d, path), FreeInode(d), FirstClear(d[ZONE_BITMAP], 0);
      && n != 0 && z < ZONE_LIMIT && FindFree(DirOf(d[s])) < ENTRIES
      && DirOf(after[s]) == DirOf(d[s])[FindFree(DirOf(d[s])) := Used(n, PathName(path))]
      && after[INODE_BITMAP] == SetBit(d[INODE_BITMAP], n - 1)
      && after[ZONE_BITMAP] == SetBit(d[ZONE_BITMAP], z)
  {
    hide Inv, SetBit, AddEntry, PathDir, PathName, DirAt, GoodDir, Lookup, FirstClear, Bit, NewDir, U16, FreshRecord,
      Put16, ZoneBit, SectorOf;
    InvParts(d);
    var s, n, name := PathDir(d, path), FreeInode(d), PathName(path);
    var z := FirstClear(d[ZONE_BITMAP], 0);
    PathGood(d, path);
    DirAtMeans(d, s);
    SubName(path);
    AbsentName(d, path);
    FoundClear(d);
    ClearZone(d, z);
    var t := TakeZone(TakeInode(d, n), z);
    RecordElsewhere(t, n, z, s);
    TakenElsewhere(d, n, z, s);
    var h := PutSector(NewDirInode(t, n, z), 2 * z, NewDir(n, U16(d[s], 0)));
    assert h[s] == d[s];
    FreeFound(h, s, n, name);
    AddEntryEffect(h, s, n, name);
    NodeSector(n);
  }

  lemma ZonesMore(d: Disk, after: Disk, k: nat)
    requires Formed(d) && Formed(after) && ZonesLeft(d, k) && k > 0
    requires FirstClear(d[ZONE_BITMAP], 0) < ZONE_LIMIT
    requires after[ZONE_BITMAP] == SetBit(d[ZONE_BITMAP], FirstClear(d[ZONE_BITMAP], 0))
    ensures ZonesLeft(after, k - 1)
  {
    hide Bit, SetBit, FirstClear;
    assert !ZoneBit(d, ZONE_LIMIT - k);
    SetBitEffect(d[ZONE_BITMAP], FirstClear(d[ZONE_BITMAP], 0));
    forall z: nat | ZONE_LIMIT - (k - 1) <= z < ZONE_LIMIT
      ensures !ZoneBit(after, z)
    {
      assert !ZoneBit(d, z);
    }
  }

  lemma SomeZone(d: Disk, k: nat)
    requires Formed(d) && ZonesLeft(d, k) && k > 0
    ensures ZoneFree(d)
  {
    hide ZoneBit;
    assert !ZoneBit(d, ZONE_LIMIT - k);
  }

  /** mkdir of a new name at the root. */
  lemma MkdirStep(d: Disk, path: Bytes, two: Entry, three: Entry, n: nat, k: nat)
    requires Stands(d, two, three, n, k) && PathOk(path) && PathParts(path) == [] && 2 <= n < ZONE_LIMIT && k > 0
    requires PathName(path) != DOT && PathName(path) != DOT_DOT
    requires !Matches(two, PathName(path)) && !Matches(three, PathName(path)) && (two.Free? || three.Free?)
    ensures var r, e: Entry := CreateDir(d, path), Used(n + 1, PathName(path));
      && r.1 == ESUCCESS
      && Stands(r.0, if two.Free? then e else two, if two.Free? then three else e, n + 1, k - 1)
      && IsDir(r.0, n + 1) && Size(r.0, n + 1) == 64 && Renewed(d, r.0, n + 1)
  {
    hide Inv, CreateDir, SetBit, FirstClear, Bit, PathName, PathParts, PathDir, Find, RootEntries, Handed, ZonesLeft,
      ZoneFree, FreeInode, FindFree, DirOf, Changed, Renewed, DataKept, IsDir, Size, Zone, ZoneBit, Lookup, U16;
    StandsMeans(d, two, three, n, k, path);
    NextNumber(d, n);
    SomeZone(d, k);
    RootFree(two, three);
    CreateDirReturns(d, path);
    CreateDirKeeps(d, path);
    CreateDirMakes(d, path);
    MkdirEntry(d, path);
    var after, e: Entry := CreateDir(d, path).0, Used(n + 1, PathName(path));
    HandedOne(d, after, n);
    ZonesMore(d, after, k);
    RootAdd(two, three, e);
  }

  lemma RmdirSucceeds(d: Disk, path: Bytes)
    requires Formed(d) && PathName(path) != DOT && PathName(path) != DOT_DOT
    requires Find(d, path) != 0 && IsDir(d, Find(d, path)) && Size(d, Find(d, path)) <= 64
    ensures DeleteDir(d, path).1 == ESUCCESS
  {
    hide PathDir, PathName, DropDir, IsDir, Size;
  }

  /** The entry that rmdir frees. */
  lemma RmdirEntry(d: Disk, path: Bytes)
    requires Inv(d) && PathOk(path) && DeleteDir(d, path).1 == ESUCCESS
    ensures var s, n := PathDir(d, path), Find(d, path);
      && FindInode(DirOf(d[s]), n) < ENTRIES
      && DirOf(DeleteDir(d, path).0[s]) == DirOf(d[s])[FindInode(DirOf(d[s]), n) := Free]
  {
    hide Inv, DirAt, GoodDir, PathName, PathDir, ClearBit, FreeZone, FreeEntry, Wiped, SectorOf, IsDir, Zone, Size;
    InvParts(d);
    var s, n := PathDir(d, path), Find(d, path);
    PathGood(d, path);
    DirAtMeans(d, s);
    var freed := FreeZone(d, Zone(d, n, 0));
    FreeZoneEffect(d, Zone(d, n, 0));
    assert ClearInodeBit(WipeInode(freed, n), n)[s] == d[s];
    FoundNumber(d, path);
    DropsEntry(d, freed, s, FindInode(DirOf(d[s]), n), n);
  }

  lemma ZonesFreed(d: Disk, after: Disk, k: nat)
    requires Formed(d) && Formed(after) && ZonesLeft(d, k)
    requires forall y: nat | y < ZONE_LIMIT :: ZoneBit(after, y) ==> ZoneBit(d, y)
    ensures ZonesLeft(after, k)
  {
    hide ZoneBit;
  }

  lemma HandedBack(d: Disk, after: Disk, m: nat, n: nat)
    requires Formed(d) && Formed(after) && Handed(d, m) && m <= n + 1 && 2 < n < ZONE_LIMIT
    requires forall j: nat | j < ZONE_LIMIT :: Bit(after[INODE_BITMAP], j) == (j != n && Bit(d[INODE_BITMAP], j))
    ensures Handed(after, Min(m, n))
  {
    hide Bit;
  }

  /** rmdir of a path at the root whose number the third entry of the root has, and no
      earlier one: that entry goes, and the next number's directory with it. */
  lemma RmdirStep(d: Disk, path: Bytes, two: Entry, three: Entry, m: nat, n: nat, k: nat)
    requires Stands(d, two, three, m, k) && PathOk(path) && PathParts(path) == [] && 2 < n < 16 && m <= n + 1
    requires PathName(path) != DOT && PathName(path) != DOT_DOT
    requires two.Used? && two.inode == n
    requires Find(d, path) == n && IsDir(d, n) && Size(d, n) <= 64
    ensures var r := DeleteDir(d, path);
      r.1 == ESUCCESS && Stands(r.0, Free, three, Min(m, n), k) && !IsDir(r.0, n) && !IsDir(r.0, n + 1)
  {
    hide Inv, DeleteDir, Bit, PathName, PathParts, PathDir, Find, RootEntries, Handed, ZonesLeft, DirOf, Changed,
      DataKept, IsDir, Size, Zone, ZoneBit, Lookup, FindInode;
    StandsMeans(d, two, three, m, k, path);
    RmdirSucceeds(d, path);
    DeleteDirKeeps(d, path);
    DeleteDirDrops(d, path);
    RmdirEntry(d, path);
    RootInode(two, three, n);
    var after := DeleteDir(d, path).0;
    ZonesFreed(d, after, k);
    HandedBack(d, after, m, n);
    RootAdd(two, three, Free);
    assert n + 1 in Lost(n);
  }

  // The run.

  lemma FreshStands()
    ensures Stands(FreshDisk(), Free, Free, 2, 3)
  {
    hide FreshDisk, NewDir, Bit, FreshMarks, FreshBitmap, DirOf, Inv, MarksOk, Size;
    var d := FreshDisk();
    FreshDiskGood();
    FreshNumbers();
    NewDirEntries(ROOT_INODE, ROOT_INODE);
    EmptyDir(Zeros(SECTOR_SIZE));
    assert DirOf(d[ROOT_SECTOR]) == RootEntries(Free, Free);
    forall z: nat | ZONE_LIMIT - 3 <= z < ZONE_LIMIT
      ensures !ZoneBit(d, z)
    {
      LastZones(z);
    }
  }

  lemma LastZones(z: nat)
    requires ZONE_LIMIT - 3 <= z < ZONE_LIMIT
    ensures !Bit(FreshBitmap(), z)
  {
    assert FreshBitmap()[z / 8] == 0;
    ZeroByte(z % 8);
  }

  /** Directories a and b, and b entered. */
  lemma TwoDirs()
    ensures var d1 := CreateDir(FreshDisk(), A).0;
      var d2 := CreateDir(d1, B).0;
      && Stands(d2, Used(3, [97]), Used(4, [98]), 4, 1) && Find(d2, A) == 3 && Find(d2, B) == 4
      && IsDir(d2, 3) && Size(d2, 3) == 64 && Find(d2, MinixTree.Below(B, DOT)) == 4
  {
    hide FreshDisk, CreateDir, Find, Stands, PathParts, PathName, IsDir, Size, PathOk, FreeInode, Zone;
    var d := FreshDisk();
    PathsABC();
    FreshStands();
    MkdirStep(d, A, Free, Free, 2, 3);
    var d1 := CreateDir(d, A).0;
    MkdirStep(d1, B, Used(3, [97]), Free, 3, 2);
    StandsMeans(d1, Used(3, [97]), Free, 3, 2, B);
    StandsNext(d1, Used(3, [97]), Free, 3, 2);
    var d2 := CreateDir(d1, B).0;
    MinixTree.NewDirEntered(d1, B);
    StandsMeans(d2, Used(3, [97]), Used(4, [98]), 4, 1, A);
    StandsMeans(d2, Used(3, [97]), Used(4, [98]), 4, 1, B);
    assert IsNode(3) && 3 !in Lost(4);
  }

  lemma StandsNext(d: Disk, two: Entry, three: Entry, n: nat, k: nat)
    requires Stands(d, two, three, n, k) && 2 <= n < ZONE_LIMIT
    ensures Formed(d) && FreeInode(d) == n + 1
  {
    hide Handed, FreeInode;
    NextNumber(d, n);
  }

  /** With a removed, b is a name that leads to no directory. */
  lemma NeighbourLost()
    ensures var d3 := DeleteDir(CreateDir(CreateDir(FreshDisk(), A).0, B).0, A).0;
      && Stands(d3, Free, Used(4, [98]), 3, 1) && Find(d3, B) == 4 && Find(d3, MinixTree.Below(B, DOT)) == 0
  {
    hide FreshDisk, CreateDir, DeleteDir, Find, Stands, PathParts, PathName, IsDir, Size, PathOk, Zone;
    PathsABC();
    TwoDirs();
    var d2 := CreateDir(CreateDir(FreshDisk(), A).0, B).0;
    RmdirStep(d2, A, Used(3, [97]), Used(4, [98]), 4, 3, 1);
    var d3 := DeleteDir(d2, A).0;
    StandsMeans(d3, Free, Used(4, [98]), 3, 1, B);
    MinixTree.FindBelow(d3, B, DOT);
  }

  /** A new directory c takes b's number and a's place; removing b then drops c. */
  lemma WrongName()
    ensures var d3 := DeleteDir(CreateDir(CreateDir(FreshDisk(), A).0, B).0, A).0;
      var d4 := CreateDir(d3, C).0;
      var r := DeleteDir(d4, B);
      && Find(d4, B) == Find(d4, C) == 4
      && r.1 == ESUCCESS && Find(r.0, B) == 4 && Find(r.0, C) == 0
  {
    hide FreshDisk, CreateDir, DeleteDir, Find, Stands, PathParts, PathName, IsDir, Size, PathOk, Zone;
    PathsABC();
    NeighbourLost();
    var d3 := DeleteDir(CreateDir(CreateDir(FreshDisk(), A).0, B).0, A).0;
    MkdirStep(d3, C, Free, Used(4, [98]), 3, 1);
    var d4 := CreateDir(d3, C).0;
    StandsMeans(d4, Used(4, [99]), Used(4, [98]), 4, 0, B);
    StandsMeans(d4, Used(4, [99]), Used(4, [98]), 4, 0, C);
    RmdirStep(d4, B, Used(4, [99]), Used(4, [98]), 4, 4, 0);
    var d5 := DeleteDir(d4, B).0;
    StandsMeans(d5, Free, Used(4, [98]), 4, 0, B);
    StandsMeans(d5, Free, Used(4, [98]), 4, 0, C);
  }

  function MakeCalls(): seq<Call> {
    [Mkdir(A), Mkdir(B)]
  }

  function SwapCalls(): seq<Call> {
    [Mkdir(C), Rmdir(B)]
  }

  /** On a fresh disk: make directories a and b and remove a, and b can no longer be
      entered. Then make c and remove b: the name b is still there, and c is gone. */
  lemma RmdirRun()
    ensures (forall c | c in MakeCalls() + [Rmdir(A)] + SwapCalls() :: CallOk(c))
    ensures var d := FreshDisk();
      var made := Run(d, MakeCalls());
      var removed := Run(made, [Rmdir(A)]);
      var after := Run(removed, SwapCalls());
      && AllAllowed(d, MakeCalls()) && AllAllowed(made, [Rmdir(A)]) && AllAllowed(removed, SwapCalls())
      && Find(made, B) == 4 && Find(made, MinixTree.Below(B, DOT)) == 4
      && Find(removed, B) == 4 && Find(removed, MinixTree.Below(B, DOT)) == 0
      && Find(after, B) == 4 && Find(after, C) == 0
  {
    hide FreshDisk, CreateDir, DeleteDir, Find, Stands, PathParts, PathName, IsDir, Size, PathOk, MinixTree.Below;
    PathsABC();
    TwoDirs();
    NeighbourLost();
    WrongName();
    var d := FreshDisk();
    var d2 := CreateDir(CreateDir(d, A).0, B).0;
    var d3 := DeleteDir(d2, A).0;
    TwoCalls(d, Mkdir(A), Mkdir(B));
    RunStep(d2, Rmdir(A), []);
    assert [Rmdir(A)] + [] == [Rmdir(A)];
    TwoCalls(d3, Mkdir(C), Rmdir(B));
  }
}
