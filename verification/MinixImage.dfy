/** Where new data lands on a disk, whatever its state, and an empty file system to
    start from. */
module MinixImage {
  import opened Bits
  import opened Directory
  import opened Inodes
  import opened Machine
  import opened MinixFiles
  import opened MinixInvariant
  import opened MinixKeeps
  import opened MinixMarks
  import opened MinixModel
  import opened MinixPaths
  import opened MinixRuns
  import opened Sectors
  import opened Strings

  // Without the invariant: where the next zone lies.

  /** The zone that write and mkdir take next is a data zone exactly if all zones
      of the metadata are marked. */
  lemma NextZoneExactly(d: Disk)
    requires Formed(d)
    ensures FirstClear(d[ZONE_BITMAP], 0) >= ROOT_ZONE <==> Reserved(d)
  {
    hide FirstClear, Bit;
    var z := FirstClear(d[ZONE_BITMAP], 0);
    assert z < ROOT_ZONE ==> ZoneBit(d, z) == Bit(d[ZONE_BITMAP], z);
    assert forall y: nat | y < ZONE_LIMIT :: ZoneBit(d, y) == Bit(d[ZONE_BITMAP], y);
  }

  /** A file's first write puts its data into the sector of that zone: past the
      metadata if and only if the metadata is marked. */
  lemma WriteLands(d: Disk, n: InodeNo, input: Bytes, count: nat)
    requires Formed(d) && Min(count, SECTOR_SIZE) <= |input| && Zone(d, n, 0) == 0
    requires WriteInode(d, n, input, count).1 >= 0
    ensures var after, z := WriteInode(d, n, input, count).0, FirstClear(d[ZONE_BITMAP], 0);
      && Zone(after, n, 0) == z
      && (2 * z != SectorOf(n) ==> after[2 * z] == Block(input, count))
      && (2 * z >= ROOT_SECTOR <==> Reserved(d))
  {
    hide FirstClear, Put16, Block, Grown, ZoneAt, Reserved, SetBit;
    NextZoneExactly(d);
    var z := FirstClear(d[ZONE_BITMAP], 0);
    var b := Put16(d[SectorOf(n)], OffsetOf(n) + 14, z);
    PutZoneEffect(d[SectorOf(n)], OffsetOf(n), z);
    GrownEffect(b, OffsetOf(n), Min(count, SECTOR_SIZE));
  }

  /** The same for the sector of a new directory. */
  lemma CreateDirLands(d: Disk, path: Bytes)
    requires Formed(d) && CreateDir(d, path).1 == ESUCCESS
    ensures var after, z, s := CreateDir(d, path).0, FirstClear(d[ZONE_BITMAP], 0), PathDir(d, path);
      && FreeInode(d) != 0 && z < ZONE_LIMIT
      && (2 * z != s ==> Lookup(DirOf(after[2 * z]), DOT) == FreeInode(d))
      && (2 * z >= ROOT_SECTOR <==> Reserved(d))
  {
    hide FirstClear, MakeDir, Reserved, Lookup, SetBit, DirOf, FreeInode, PathDir, Find, PathName;
    NextZoneExactly(d);
    var n, z, s := FreeInode(d), FirstClear(d[ZONE_BITMAP], 0), PathDir(d, path);
    if s != 2 * z {
      MakeDirLands(TakeZone(TakeInode(d, n), z), s, n, z, PathName(path));
    }
  }

  lemma MakeDirLands(d: Disk, s: nat, n: InodeNo, z: nat, name: Bytes)
    requires Formed(d) && s < SECTORS && z < ZONE_LIMIT && n <= LAST_INODE && s != 2 * z
    ensures Lookup(DirOf(MakeDir(d, s, n, z, name).0[2 * z]), DOT) == n
  {
    hide NewDirInode, NewDir, Lookup, PutEntry, U16, DirOf;
    DotOfAny(n, U16(NewDirInode(d, n, z)[s], 0));
  }

  /** A fresh directory names itself, whatever number its parent entry gets. */
  lemma DotOfAny(n: InodeNo, parent: nat)
    requires n <= LAST_INODE && parent < 0x10000
    ensures Lookup(DirOf(NewDir(n, parent)), DOT) == n
  {
    hide PutEntry, DirOf, U16, Padded, Distinct, EntryAt;
    var z := Zeros(SECTOR_SIZE);
    EmptyDir(z);
    PutEntryEffect(z, 0, n, DOT);
    LookupNone(DirOf(z), DOT);
    InsertEntry(DirOf(z), 0, n, DOT);
    PutEntryEffect(PutEntry(z, 0, n, DOT), 1, parent, DOT_DOT);
    LookupFrom(DirOf(NewDir(n, parent)), DOT, 0);
  }

  /** A zone bitmap that begins with the byte 1 marks the boot block alone. The
      first write to a file then overwrites the inode bitmap. */
  lemma WriteOverBitmap(d: Disk, n: InodeNo, input: Bytes, count: nat)
    requires Formed(d) && d[ZONE_BITMAP][0] == 1
    requires Min(count, SECTOR_SIZE) <= |input| && Zone(d, n, 0) == 0
    ensures !Inv(d)
    ensures WriteInode(d, n, input, count).1 >= 0
    ensures WriteInode(d, n, input, count).0[INODE_BITMAP] == Block(input, count)
  {
    hide FirstClear, Put16, Block, Grown, ZoneAt, SetBit;
    OnlyFirstBit(d[ZONE_BITMAP]);
    PutZoneEffect(d[SectorOf(n)], OffsetOf(n), 1);
    assert !ZoneBit(d, 1);
  }

  lemma OnlyFirstBit(m: Bytes)
    requires |m| == SECTOR_SIZE && m[0] == 1
    ensures Bit(m, 0) && !Bit(m, 1) && FirstClear(m, 0) == 1
  {
    hide FirstClear;
    assert Test(1, 0) && !Test(1, 1);
  }

  // An empty file system.

  /** Bits 0 and 1: the numbers that the code never hands out. */
  function FreshMarks(): (m: Bytes)
    ensures |m| == SECTOR_SIZE
  {
    seq(SECTOR_SIZE, i => if i == 0 then 3 else 0)
  }

  /** Bits 0 to 219: the metadata and the root directory. */
  function FreshBitmap(): (m: Bytes)
    ensures |m| == SECTOR_SIZE
  {
    seq(SECTOR_SIZE, i => if i < 27 then 0xFF else if i == 27 then 0x0F else 0)
  }

  /** The record of the root: a directory of two entries in zone 219. */
  function RootRecord(): (b: Bytes)
    ensures |b| == SECTOR_SIZE
  {
    Put16(Put32(Put16(Zeros(SECTOR_SIZE), 0, DIR_MODE), 4, 64), 14, ROOT_ZONE)
  }

  /** A disk with an empty root directory: "." and "..", both the root itself. */
  function FreshDisk(): (d: Disk)
    ensures Formed(d)
    ensures d[INODE_BITMAP] == FreshMarks() && d[ZONE_BITMAP] == FreshBitmap()
    ensures d[10] == RootRecord() && d[ROOT_SECTOR] == NewDir(ROOT_INODE, ROOT_INODE)
    ensures forall s | 0 <= s < SECTORS && s != INODE_BITMAP && s != ZONE_BITMAP && s != 10 && s != ROOT_SECTOR ::
      d[s] == Zeros(SECTOR_SIZE)
  {
    seq(SECTORS, _ => Zeros(SECTOR_SIZE))[INODE_BITMAP := FreshMarks()][ZONE_BITMAP := FreshBitmap()]
      [10 := RootRecord()][ROOT_SECTOR := NewDir(ROOT_INODE, ROOT_INODE)]
  }

  lemma FreshBits(z: nat)
    requires z <= ROOT_ZONE
    ensures Bit(FreshBitmap(), z)
  {
    var m := FreshBitmap();
    if z / 8 < 27 {
      FullByteBits(m, z / 8);
    } else {
      assert z / 8 == 27 && m[27] == 0x0F;
      assert Test(0x0F, 0) && Test(0x0F, 1) && Test(0x0F, 2) && Test(0x0F, 3);
    }
  }

  lemma FreshNumbers()
    ensures Bit(FreshMarks(), 0) && forall j: nat | 2 <= j < ZONE_LIMIT :: !Bit(FreshMarks(), j)
  {
    var m := FreshMarks();
    assert Test(3, 0);
    forall j: nat | 2 <= j < ZONE_LIMIT
      ensures !Bit(m, j)
    {
      if j < 8 {
        ThreeHasTwo(j);
      } else {
        ZeroByte(j % 8);
      }
    }
  }

  lemma ThreeHasTwo(j: nat)
    requires j >= 2
    ensures !Test(3, j)
  {
    assert Test(3, j) == Test(1, j - 1) == Test(0, j - 2);
    ZeroByte(j - 2);
  }

  lemma RootRecordIs()
    ensures var r := RootRecord();
      && SameOutside(Zeros(SECTOR_SIZE), r, 0, 16) && RecordIs(r, 0, DIR_MODE, 64, ROOT_ZONE)
  {
    hide U16, Put16, Put32, U32, ZoneAt;
    var z := Zeros(SECTOR_SIZE);
    var a := Put16(z, 0, DIR_MODE);
    var b := Put32(a, 4, 64);
    var r := RootRecord();
    Put16Effect(z, 0, DIR_MODE);
    Put32Effect(a, 4, 64);
    PutZoneEffect(b, 0, ROOT_ZONE);
    U16Frame(a, b, 4, 8, 0);
    forall k: nat | k < ZONES
      ensures ZoneAt(r, 0, k) == if k == 0 then ROOT_ZONE else 0
    {
      if k > 0 {
        ZoneFrame(z, r, 0, 16, 0, k);
        ZeroZone(z, 0, k);
      }
    }
  }

  lemma ZeroZone(b: Bytes, o: nat, k: nat)
    requires |b| == SECTOR_SIZE && o + 32 <= SECTOR_SIZE && k < ZONES && forall i | 0 <= i < |b| :: b[i] == 0
    ensures ZoneAt(b, o, k) == 0 && U16(b, o) == 0 && U32(b, o + 4) == 0
  {
  }

  lemma FreshRecords(n: InodeNo, k: nat)
    requires IsNode(n) && k < ZONES
    ensures Zone(FreshDisk(), n, k) == if n == ROOT_INODE && k == 0 then ROOT_ZONE else 0
    ensures IsDir(FreshDisk(), n) <==> n == ROOT_INODE
    ensures Size(FreshDisk(), n) == if n == ROOT_INODE then 64 else 0
  {
    hide U16, U32, FreshDisk, RootRecord, DirMode, ZoneAt;
    var z := Zeros(SECTOR_SIZE);
    var r := RootRecord();
    RootRecordIs();
    FileModes();
    var o := OffsetOf(n);
    ZeroZone(z, o, k);
    if n != ROOT_INODE && SectorOf(n) == 10 {
      U16Frame(z, r, 0, 16, o);
      U32Frame(z, r, 0, 16, o + 4);
      ZoneFrame(z, r, 0, 16, o, k);
    }
  }

  /** The disk meets the invariant, its entries name marked inodes, and its files
      fit one sector and have a zone if they have a size. */
  lemma FreshDiskGood()
    ensures Inv(FreshDisk()) && MarksOk(FreshDisk())
    ensures Backed(FreshDisk()) && forall n: InodeNo | IsNode(n) :: Size(FreshDisk(), n) <= SECTOR_SIZE
  {
    hide Zone, IsDir, Bit, FreshDisk, FreshBitmap, GoodDir, NewDir, DirOf, Lists, Size, RootRecord, FreshMarks;
    var d := FreshDisk();
    forall z: nat | z < ROOT_ZONE
      ensures ZoneBit(d, z)
    {
      FreshBits(z);
    }
    forall n: InodeNo, k: nat | IsNode(n) && k < ZONES
      ensures Zone(d, n, k) == if n == ROOT_INODE && k == 0 then ROOT_ZONE else 0
    {
      FreshRecords(n, k);
    }
    forall n: InodeNo | IsNode(n)
      ensures (IsDir(d, n) <==> n == ROOT_INODE) && Size(d, n) == if n == ROOT_INODE then 64 else 0
    {
      FreshRecords(n, 0);
    }
    FreshBits(ROOT_ZONE);
    FreshNumbers();
    NewDirGood(ROOT_INODE, ROOT_INODE);
    NewDirLists(ROOT_INODE, ROOT_INODE);
    assert IsNode(ROOT_INODE);
    assert 2 * Zone(d, ROOT_INODE, 0) == ROOT_SECTOR;
  }

  // Runs that lose the root.

  const SELF: Bytes := [47, 46]
  const OTHER: Bytes := [47, 120]

  lemma ShortPath(c: byte)
    requires c != 0 && c != SLASH
    ensures PathOk([SLASH, c]) && PathParts([SLASH, c]) == [] && PathName([SLASH, c]) == [c]
  {
    var p: Bytes := [SLASH, c];
    assert p[..1] == [SLASH] && p[0] == SLASH;
    assert LastIndex([SLASH], SLASH) == 0;
    assert LastIndex(p, SLASH) == 0;
    assert p[1..] == [c];
  }

  /** At the start "/." leads to the root, and no other one-letter name leads
      anywhere. */
  lemma FreshFinds(c: byte)
    requires c != 0 && c != SLASH
    ensures Find(FreshDisk(), [SLASH, c]) == if c == 46 then ROOT_INODE else 0
  {
    hide FreshDisk, NewDir, DirOf, PathName, PathParts;
    ShortPath(c);
    RootLevel(FreshDisk(), [SLASH, c]);
    NewDirGood(ROOT_INODE, ROOT_INODE);
    NewDirEntries(ROOT_INODE, ROOT_INODE);
    if c != 46 {
      EmptyDir(Zeros(SECTOR_SIZE));
      LookupNone(DirOf(NewDir(ROOT_INODE, ROOT_INODE)), [c]);
    }
  }

  /** Renaming "/." and then removing it under its new name is a run that the code
      accepts and that takes the root's own inode away, whichever of the two
      removals is used. Writing to "/." is another. */
  lemma RootLost(count: nat)
    ensures var d := FreshDisk();
      var r := RenameFile(d, SELF, OTHER);
      && Inv(d) && r.1 == ESUCCESS && Inv(r.0) && Find(r.0, OTHER) == ROOT_INODE
      && !Inv(DeleteFile(r.0, OTHER).0) && !Inv(DeleteDir(r.0, OTHER).0)
      && Find(WriteFile(d, SELF, Zeros(SECTOR_SIZE), count).0, SELF) == 0
  {
    hide FreshDisk, RenameFile, DeleteFile, DeleteDir, Inv, Find, PathParts, PathName, Size, WriteFile, InodesIn,
      MarksOk;
    var d := FreshDisk();
    FreshDiskGood();
    FreshFinds(46);
    FreshFinds(120);
    ShortPath(46);
    ShortPath(120);
    RenameAtRoot(d, SELF, OTHER, SELF);
    RenameFileKeeps(d, SELF, OTHER);
    var r := RenameFile(d, SELF, OTHER).0;
    DeleteFileKeeps(r, OTHER);
    FreshRecords(ROOT_INODE, 0);
    RenameSizes(d, SELF, OTHER);
    RootSize(d, SELF, OTHER);
    DeleteDirKeeps(r, OTHER);
    WriteEmptiesRoot(d, SELF, count, SELF);
  }

  /** Renaming changes no record. */
  lemma RootSize(d: Disk, oldPath: Bytes, newPath: Bytes)
    requires Inv(d) && PathOk(oldPath) && PathOk(newPath)
    ensures Size(RenameFile(d, oldPath, newPath).0, ROOT_INODE) == Size(d, ROOT_INODE)
  {
    hide Inv, PathDir, DirAt, GoodDir, PutEntry, Size, Find, FindName;
    InvParts(d);
    PathGood(d, oldPath);
    PathGood(d, newPath);
    if PathDir(d, oldPath) != 0 {
      DirAtMeans(d, PathDir(d, oldPath));
    }
    if PathDir(d, newPath) != 0 {
      DirAtMeans(d, PathDir(d, newPath));
    }
    var after := RenameFile(d, oldPath, newPath).0;
    RecordsSame(d, after);
    assert IsNode(ROOT_INODE);
  }
}
