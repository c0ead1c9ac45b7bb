/** Every file operation keeps the invariant of the disk, apart from two families
    of calls that the code does not refuse: removing the root's own inode and
    writing to a directory as if it were a file. */
module MinixKeeps {
  import opened Bits
  import opened Directory
  import opened Inodes
  import opened Machine
  import opened MinixInvariant
  import opened MinixModel
  import opened Sectors
  import opened Strings

  // Where paths lead.

  lemma DirAtMeans(d: Disk, s: nat)
    requires Inv(d) && DirAt(d, s)
    ensures s % 2 == 0 && ROOT_SECTOR <= s < 2 * ZONE_LIMIT && ZoneBit(d, s / 2) && GoodDir(DirOf(d[s]))
    ensures !Unnamed(d, s / 2)
  {
    hide Zone, IsDir, ZoneBit, GoodDir;
    var n: InodeNo :| IsNode(n) && IsDir(d, n) && 2 * Zone(d, n, 0) == s;
    assert Zone(d, n, 0) == s / 2;
  }

  lemma RootAt(d: Disk)
    requires Inv(d)
    ensures DirAt(d, ROOT_SECTOR)
  {
    hide Zone, IsDir;
    assert IsNode(ROOT_INODE);
  }

  /** A walk that finds its way ends at a live directory. */
  lemma {:induction false} WalkGood(d: Disk, parts: seq<Bytes>, s: nat)
    requires Inv(d) && DirAt(d, s)
    ensures Walk(d, parts, s) == 0 || DirAt(d, Walk(d, parts, s))
    decreases |parts|
  {
    hide Zone, IsDir, ZoneBit, GoodDir;
    if parts != [] {
      DirAtMeans(d, s);
      var n := Lookup(DirOf(d[s]), parts[0]);
      LookupGood(DirOf(d[s]), parts[0]);
      if n != 0 && IsDir(d, n) {
        assert IsNode(n);
        WalkGood(d, parts[1..], 2 * Zone(d, n, 0));
      }
    }
  }

  lemma PathGood(d: Disk, path: Bytes)
    requires Inv(d)
    ensures PathDir(d, path) == 0 || DirAt(d, PathDir(d, path))
    ensures Find(d, path) <= LAST_INODE
  {
    hide Zone, IsDir, ZoneBit, GoodDir, Walk, PathParts;
    RootAt(d);
    WalkGood(d, PathParts(path), ROOT_SECTOR);
    var s := PathDir(d, path);
    if s != 0 {
      DirAtMeans(d, s);
      LookupGood(DirOf(d[s]), PathName(path));
    }
  }

  lemma SubName(path: Bytes)
    requires PathOk(path)
    ensures 0 !in PathName(path) && |PathName(path)| < NAME_FIELD
  {
  }

  // Steps.

  lemma NodeSector(n: InodeNo)
    ensures SectorOf(n) >= 10
  {
  }

  lemma NoDirBelow(d: Disk, s: nat)
    requires Inv(d) && s < ROOT_SECTOR
    ensures !DirAt(d, s)
  {
    if DirAt(d, s) {
      DirAtMeans(d, s);
    }
  }

  /** Writing the inode bitmap. */
  lemma KeepInodeBits(d: Disk, m: Bytes)
    requires Inv(d) && |m| == SECTOR_SIZE
    ensures Inv(PutSector(d, INODE_BITMAP, m))
  {
    hide Inv, DirAt, GoodDir;
    InvParts(d);
    NoDirBelow(d, INODE_BITMAP);
    KeepSector(d, INODE_BITMAP, m);
  }

  lemma AddEntryKeeps(d: Disk, s: nat, n: InodeNo, name: Bytes)
    requires Inv(d) && ROOT_SECTOR <= s < SECTORS && IsNode(n)
    requires |name| < NAME_FIELD && 0 !in name
    requires GoodDir(DirOf(d[s])) && Lookup(DirOf(d[s]), name) == 0
    ensures Inv(AddEntry(d, s, n, name).0)
  {
    hide Inv, DirAt, GoodDir, PutEntry, Lookup;
    InvParts(d);
    var es := DirOf(d[s]);
    var i := FindFree(es);
    if i < ENTRIES {
      PutEntryEffect(d[s], i, n, name);
      InsertEntry(es, i, n, name);
      KeepSector(d, s, PutEntry(d[s], i, n, name));
    }
  }

  lemma FreeEntryKeeps(d: Disk, s: nat, i: nat)
    requires Inv(d) && ROOT_SECTOR <= s < SECTORS && i < ENTRIES
    requires GoodDir(DirOf(d[s])) && DirOf(d[s])[i].Used?
    ensures Inv(FreeEntry(d, s, i)) && DirOf(FreeEntry(d, s, i)[s]) == DirOf(d[s])[i := Free]
    ensures GoodDir(DirOf(FreeEntry(d, s, i)[s]))
  {
    hide Inv, DirAt, GoodDir, PutEntry, Lookup;
    InvParts(d);
    PutEntryEffect(d[s], i, 0, []);
    RemoveEntry(DirOf(d[s]), i);
    KeepSector(d, s, PutEntry(d[s], i, 0, []));
  }

  /** A record cleared or renewed, other than the root's. */
  lemma RenewKeeps(d: Disk, n: InodeNo, b: Bytes, mode: nat, size: nat, zone: nat)
    requires Inv(d) && IsNode(n) && n != ROOT_INODE && |b| == SECTOR_SIZE
    requires WithinWipe(d[SectorOf(n)], b, OffsetOf(n)) && RecordIs(b, OffsetOf(n), mode, size, zone)
    requires MayName(d, n, 0, zone)
    requires DirMode(mode) ==> zone != 0 && GoodDir(DirOf(d[2 * zone]))
    ensures Inv(PutSector(d, SectorOf(n), b))
  {
    hide Inv, DirAt, GoodDir, WithinWipe, Zone, Mode, DirMode;
    InvParts(d);
    var after := PutSector(d, SectorOf(n), b);
    WipeOthers(d, n, b);
    RecordViews(d, n, b, mode, size, zone);
    FileModes();
    KeepInode(d, n, b);
  }

  /** The fields of a record as seen from the disk. */
  lemma RecordViews(d: Disk, n: InodeNo, b: Bytes, mode: nat, size: nat, zone: nat)
    requires Formed(d) && |b| == SECTOR_SIZE && RecordIs(b, OffsetOf(n), mode, size, zone)
    ensures var after := PutSector(d, SectorOf(n), b);
      && Mode(after, n) == mode && Size(after, n) == size && Zone(after, n, 0) == zone
      && forall k: nat | k < ZONES :: Zone(after, n, k) == if k == 0 then zone else 0
  {
    hide U16, U32, ZoneAt;
  }

  // Creating.

  lemma FileModes()
    ensures !DirMode(0) && !DirMode(FILE_MODE) && DirMode(DIR_MODE)
  {
  }

  lemma NewFileKeeps(d: Disk, n: InodeNo)
    requires Inv(d) && IsNode(n) && n != ROOT_INODE
    ensures Inv(NewFileInode(d, n))
  {
    hide Inv, RecordIs, WithinWipe, FreshRecord, DirMode, Zone;
    InvParts(d);
    FileModes();
    FreshRecordEffect(d[SectorOf(n)], OffsetOf(n), FILE_MODE, 0, 1);
    RenewKeeps(d, n, FreshRecord(d[SectorOf(n)], OffsetOf(n), FILE_MODE, 0, 1), FILE_MODE, 0, 0);
  }

  lemma CreateFileKeeps(d: Disk, path: Bytes)
    requires Inv(d) && PathOk(path)
    ensures Inv(CreateFile(d, path).0)
  {
    hide Inv, DirAt, GoodDir, Lookup, FreshRecord, SectorOf, PathName, PathDir, SetBit, AddEntry;
    InvParts(d);
    var s, n := PathDir(d, path), FreeInode(d);
    if Find(d, path) == 0 && s != 0 && n != 0 {
      PathGood(d, path);
      DirAtMeans(d, s);
      SubName(path);
      KeepInodeBits(d, SetBit(d[INODE_BITMAP], n - 1));
      NewFileKeeps(TakeInode(d, n), n);
      assert NewFileInode(TakeInode(d, n), n)[s] == d[s];
      AddEntryKeeps(NewFileInode(TakeInode(d, n), n), s, n, PathName(path));
    }
  }

  /** A zone whose bit is clear is a data zone that nothing names. */
  lemma ClearZone(d: Disk, z: nat)
    requires Inv(d) && z < ZONE_LIMIT && !ZoneBit(d, z)
    ensures z > ROOT_ZONE && Unnamed(d, z) && !DirAt(d, 2 * z)
  {
    hide Zone, IsDir, ZoneBit, GoodDir;
    assert IsNode(ROOT_INODE);
  }

  lemma NotDirAt(d: Disk, after: Disk, s: nat)
    requires Formed(d) && Formed(after) && !DirAt(d, s)
    requires forall n: InodeNo | IsNode(n) :: IsDir(after, n) == IsDir(d, n) && Zone(after, n, 0) == Zone(d, n, 0)
    ensures !DirAt(after, s)
  {
    hide IsDir, Zone;
  }

  lemma TakeZoneKeeps(d: Disk, z: nat)
    requires Inv(d) && z < ZONE_LIMIT && !ZoneBit(d, z)
    ensures Inv(TakeZone(d, z)) && ZoneBit(TakeZone(d, z), z)
    ensures z > ROOT_ZONE && Unnamed(TakeZone(d, z), z) && !DirAt(TakeZone(d, z), 2 * z)
  {
    hide Zone, IsDir, Bit, SetBit, GoodDir, Dirs, Apart, DirAt;
    var m := SetBit(d[ZONE_BITMAP], z);
    SetBitEffect(d[ZONE_BITMAP], z);
    ClearZone(d, z);
    forall n: InodeNo, k: nat | IsNode(n) && k < ZONES && Zone(d, n, k) != 0
      ensures Bit(m, Zone(d, n, k))
    {
      assert ZoneBit(d, Zone(d, n, k));
    }
    forall y: nat | y < ROOT_ZONE
      ensures Bit(m, y)
    {
      assert ZoneBit(d, y);
    }
    KeepBitmap(d, m);
    NodesSame(d, TakeZone(d, z));
    NotDirAt(d, TakeZone(d, z), 2 * z);
  }

  /** The record of a new directory in zone `z`. */
  lemma NewDirRecord(b: Bytes, o: nat, z: nat)
    requires |b| == SECTOR_SIZE && o + 32 <= SECTOR_SIZE && z < ZONE_LIMIT
    ensures var r := Put16(FreshRecord(b, o, DIR_MODE, 64, 2), o + 14, z);
      RecordIs(r, o, DIR_MODE, 64, z) && WithinWipe(b, r, o)
  {
    hide FreshRecord, Put16, ZoneAt, U16, U32, WipeEnd;
    var f := FreshRecord(b, o, DIR_MODE, 64, 2);
    FreshRecordEffect(b, o, DIR_MODE, 64, 2);
    PutZoneEffect(f, o, z);
    var r := Put16(f, o + 14, z);
    assert U16(r, o) == DIR_MODE;
    assert U32(r, o + 4) == 64;
    forall k: nat | k < ZONES
      ensures ZoneAt(r, o, k) == if k == 0 then z else 0
    {
      assert ZoneAt(f, o, k) == 0;
    }
    assert SameOutside(b, r, o, WipeEnd(o));
  }

  /** The first entry's inode number is that of a record, or 0. */
  lemma ParentGood(b: Bytes)
    requires |b| == SECTOR_SIZE && GoodDir(DirOf(b))
    ensures U16(b, 0) <= LAST_INODE
  {
    hide U16, CStr, Distinct;
    var es := DirOf(b);
    assert es[0] == EntryAt(b, 0) && GoodEntry(es[0]);
    assert 32 * 0 == 0;
  }

  /** Writes to different sectors commute. */
  lemma Commute(d: Disk, s: nat, a: Bytes, t: nat, b: Bytes)
    requires Formed(d) && s < SECTORS && t < SECTORS && s != t && |a| == |b| == SECTOR_SIZE
    ensures PutSector(PutSector(d, s, a), t, b) == PutSector(PutSector(d, t, b), s, a)
  {
  }

  lemma MakeDirKeeps(d: Disk, s: nat, n: InodeNo, z: nat, name: Bytes)
    requires Inv(d) && ROOT_SECTOR <= s < SECTORS && IsNode(n) && n != ROOT_INODE
    requires |name| < NAME_FIELD && 0 !in name
    requires GoodDir(DirOf(d[s])) && Lookup(DirOf(d[s]), name) == 0
    requires ROOT_ZONE < z < ZONE_LIMIT && ZoneBit(d, z) && Unnamed(d, z) && !DirAt(d, 2 * z) && s != 2 * z
    ensures Inv(MakeDir(d, s, n, z, name).0)
  {
    hide Inv, DirAt, GoodDir, Lookup, FreshRecord, SectorOf, Put16, U16, NewDir, Zone, Unnamed, ZoneBit, DirMode,
      RecordIs, WithinWipe, AddEntry;
    InvParts(d);
    var b := Put16(FreshRecord(d[SectorOf(n)], OffsetOf(n), DIR_MODE, 64, 2), OffsetOf(n) + 14, z);
    var c := NewDir(n, U16(d[s], 0));
    ParentGood(d[s]);
    NewDirGood(n, U16(d[s], 0));
    KeepSector(d, 2 * z, c);
    var e := PutSector(d, 2 * z, c);
    NodesSame(d, e);
    NewDirRecord(d[SectorOf(n)], OffsetOf(n), z);
    FreshStays(d, e, z);
    FileModes();
    RenewKeeps(e, n, b, DIR_MODE, 64, z);
    Commute(d, SectorOf(n), b, 2 * z, c);
    AddEntryKeeps(PutSector(e, SectorOf(n), b), s, n, name);
  }

  lemma FreshStays(d: Disk, e: Disk, z: nat)
    requires Formed(d) && Formed(e) && z < ZONE_LIMIT && d[ZONE_BITMAP] == e[ZONE_BITMAP] && ZoneBit(d, z)
        && Unnamed(d, z)
    requires forall s | 10 <= s < ROOT_SECTOR :: e[s] == d[s]
    ensures ZoneBit(e, z) && Unnamed(e, z)
  {
    hide Zone, Bit;
    NodesSame(d, e);
  }

  lemma CreateDirKeeps(d: Disk, path: Bytes)
    requires Inv(d) && PathOk(path)
    ensures Inv(CreateDir(d, path).0)
  {
    hide Inv, DirAt, GoodDir, Lookup, FreshRecord, SectorOf, PathName, PathDir, SetBit, AddEntry, MakeDir, FirstClear,
      Unnamed, Bit;
    InvParts(d);
    var s, n := PathDir(d, path), FreeInode(d);
    if Find(d, path) == 0 && s != 0 && n != 0 {
      PathGood(d, path);
      DirAtMeans(d, s);
      SubName(path);
      KeepInodeBits(d, SetBit(d[INODE_BITMAP], n - 1));
      var d1 := TakeInode(d, n);
      var z := FirstClear(d1[ZONE_BITMAP], 0);
      if z != ZONE_LIMIT {
        assert !ZoneBit(d1, z) && s != 2 * z;
        TakeZoneKeeps(d1, z);
        assert TakeZone(d1, z)[s] == d[s];
        MakeDirKeeps(TakeZone(d1, z), s, n, z, PathName(path));
      }
    }
  }

  // Deleting.

  /** One of the first `k` zone fields of the record names zone `y`. */
  predicate FieldNames(b: Bytes, o: nat, k: nat, y: nat)
    requires |b| == SECTOR_SIZE && o + 32 <= SECTOR_SIZE && k <= ZONES
  {
    exists j: nat | j < k :: ZoneAt(b, o, j) == y
  }

  /** Freeing a zone clears its bit and no other. */
  lemma FreeZoneEffect(d: Disk, z: nat)
    requires Formed(d)
    ensures FreeZone(d, z) == PutSector(d, ZONE_BITMAP, FreeZone(d, z)[ZONE_BITMAP])
    ensures forall y: nat | y < ZONE_LIMIT :: ZoneBit(FreeZone(d, z), y) == (ZoneBit(d, y) && (y == z ==> z == 0))
  {
    hide Bit, ClearBit;
    if 0 < z < ZONE_LIMIT {
      ClearBitEffect(d[ZONE_BITMAP], z);
    }
  }

  /** Freeing the zones of a record clears exactly the bits that it names. */
  lemma {:induction false} FreeZonesEffect(d: Disk, b: Bytes, o: nat, k: nat)
    requires Formed(d) && |b| == SECTOR_SIZE && o + 32 <= SECTOR_SIZE && k <= ZONES
    ensures FreeZones(d, b, o, k) == PutSector(d, ZONE_BITMAP, FreeZones(d, b, o, k)[ZONE_BITMAP])
    ensures forall y: nat | y < ZONE_LIMIT ::
      ZoneBit(FreeZones(d, b, o, k), y) == (ZoneBit(d, y) && (FieldNames(b, o, k, y) ==> y == 0))
  {
    hide ZoneBit, ZoneAt, FreeZone;
    if k > 0 {
      FreeZonesEffect(d, b, o, k - 1);
      FreeZoneEffect(FreeZones(d, b, o, k - 1), ZoneAt(b, o, k - 1));
      assert forall y: nat :: FieldNames(b, o, k, y) == (FieldNames(b, o, k - 1, y) || ZoneAt(b, o, k - 1) == y);
    }
  }

  /** A bitmap that loses only zones of a record that no longer names any. */
  lemma LoseZones(d: Disk, wiped: Disk, n: InodeNo, m: Bytes)
    requires Inv(d) && Inv(wiped) && IsNode(n) && |m| == SECTOR_SIZE
    requires ZonesKept(d, wiped, n) && forall k: nat | k < ZONES :: Zone(wiped, n, k) == 0
    requires forall y: nat | y < ZONE_LIMIT && ZoneBit(d, y) && !Bit(m, y) ::
      y != 0 && exists k: nat :: k < ZONES && Zone(d, n, k) == y
    ensures Inv(PutSector(wiped, ZONE_BITMAP, m))
  {
    hide Zone, IsDir, Bit, GoodDir, Dirs, Rooted;
    forall a: InodeNo, k: nat | IsNode(a) && k < ZONES && Zone(wiped, a, k) != 0
      ensures Bit(m, Zone(wiped, a, k))
    {
      assert a != n && Zone(wiped, a, k) == Zone(d, a, k);
      assert ZoneBit(d, Zone(d, a, k));
    }
    forall y: nat | y < ROOT_ZONE
      ensures Bit(m, y)
    {
      assert ZoneBit(d, y);
    }
    KeepBitmap(wiped, m);
  }

  lemma WipeKeeps(d: Disk, n: InodeNo)
    requires Inv(d) && IsNode(n)
    ensures ZonesKept(d, WipeInode(d, n), n) && forall k: nat | k < ZONES :: Zone(WipeInode(d, n), n, k) == 0
    ensures !IsDir(WipeInode(d, n), n)
    ensures n != ROOT_INODE ==> Inv(WipeInode(d, n))
  {
    hide Inv, RecordIs, WithinWipe, Wiped, DirMode, Zone, Mode;
    InvParts(d);
    FileModes();
    var b := Wiped(d[SectorOf(n)], OffsetOf(n));
    WipedEffect(d[SectorOf(n)], OffsetOf(n));
    WipeOthers(d, n, b);
    RecordViews(d, n, b, 0, 0, 0);
    if n != ROOT_INODE {
      RenewKeeps(d, n, b, 0, 0, 0);
    }
  }

  /** Freeing zones of inode `n` and clearing its record. */
  lemma ReleaseKeeps(d: Disk, freed: Disk, n: InodeNo)
    requires Inv(d) && Formed(freed) && IsNode(n)
    requires freed == PutSector(d, ZONE_BITMAP, freed[ZONE_BITMAP])
    requires forall y: nat | y < ZONE_LIMIT && ZoneBit(d, y) && !ZoneBit(freed, y) ::
      y != 0 && exists k: nat :: k < ZONES && Zone(d, n, k) == y
    ensures n != ROOT_INODE ==> Inv(WipeInode(freed, n))
    ensures !IsDir(WipeInode(freed, n), n)
  {
    hide Inv, Zone, IsDir, Bit, Wiped;
    InvParts(d);
    WipeKeeps(d, n);
    Commute(d, ZONE_BITMAP, freed[ZONE_BITMAP], SectorOf(n), Wiped(d[SectorOf(n)], OffsetOf(n)));
    assert WipeInode(freed, n) == PutSector(WipeInode(d, n), ZONE_BITMAP, freed[ZONE_BITMAP]);
    NodesSame(WipeInode(d, n), WipeInode(freed, n));
    if n != ROOT_INODE {
      LoseZones(d, WipeInode(d, n), n, freed[ZONE_BITMAP]);
    }
  }

  lemma ClearInodeBitKeeps(d: Disk, n: InodeNo)
    requires Inv(d)
    ensures Inv(ClearInodeBit(d, n))
  {
    hide Inv, ClearBit;
    InvParts(d);
    if n < ZONE_LIMIT {
      KeepInodeBits(d, ClearBit(d[INODE_BITMAP], n));
    }
  }

  /** The root's own inode gone, the disk has lost its root. */
  lemma RootGone(d: Disk)
    requires Formed(d) && !IsDir(d, ROOT_INODE)
    ensures !Inv(d)
  {
  }

  lemma ZoneIs(d: Disk, n: InodeNo, k: nat)
    requires Formed(d) && k < ZONES
    ensures Zone(d, n, k) == ZoneAt(d[SectorOf(n)], OffsetOf(n), k)
  {
  }

  lemma DropFileKeeps(d: Disk, s: nat, i: nat, n: InodeNo)
    requires Inv(d) && ROOT_SECTOR <= s < SECTORS && i < ENTRIES && IsNode(n)
    requires GoodDir(DirOf(d[s])) && DirOf(d[s])[i].Used?
    ensures Inv(DropFile(d, s, i, n)) <==> n != ROOT_INODE
  {
    hide Inv, Zone, IsDir, ZoneBit, Wiped, GoodDir, FreeZones, ClearBit, PutEntry, ZoneAt;
    InvParts(d);
    var b, o := d[SectorOf(n)], OffsetOf(n);
    var d1 := FreeZones(d, b, o, ZONES);
    FreeZonesEffect(d, b, o, ZONES);
    forall y: nat | y < ZONE_LIMIT && ZoneBit(d, y) && !ZoneBit(d1, y)
      ensures y != 0 && exists k: nat :: k < ZONES && Zone(d, n, k) == y
    {
      var k: nat :| k < ZONES && ZoneAt(b, o, k) == y;
      ZoneIs(d, n, k);
    }
    ReleaseKeeps(d, d1, n);
    var d2 := WipeInode(d1, n);
    var d3 := ClearInodeBit(d2, n);
    assert d3[s] == d[s];
    if n != ROOT_INODE {
      ClearInodeBitKeeps(d2, n);
      FreeEntryKeeps(d3, s, i);
    } else {
      NodesSame(d2, DropFile(d, s, i, n));
      assert IsNode(n);
      RootGone(DropFile(d, s, i, n));
    }
  }

  lemma DeleteFileKeeps(d: Disk, path: Bytes)
    requires Inv(d) && PathOk(path)
    ensures Inv(DeleteFile(d, path).0)
            <==> Find(d, path) != ROOT_INODE || PathName(path) == DOT || PathName(path) == DOT_DOT
  {
    hide Inv, DirAt, GoodDir, PathName, PathDir, DropFile;
    InvParts(d);
    var s, name := PathDir(d, path), PathName(path);
    if s != 0 && name != DOT && name != DOT_DOT {
      PathGood(d, path);
      DirAtMeans(d, s);
      var i := FindName(DirOf(d[s]), name);
      if i < ENTRIES {
        DropFileKeeps(d, s, i, DirOf(d[s])[i].inode);
      }
    }
  }

  lemma DropDirKeeps(d: Disk, s: nat, n: InodeNo)
    requires Inv(d) && ROOT_SECTOR <= s < SECTORS && IsNode(n) && GoodDir(DirOf(d[s]))
    ensures Inv(DropDir(d, s, n)) <==> n != ROOT_INODE
  {
    hide Inv, Zone, IsDir, ZoneBit, Wiped, GoodDir, FreeZone, ClearBit, PutEntry;
    InvParts(d);
    var d1 := FreeZone(d, Zone(d, n, 0));
    FreeZoneEffect(d, Zone(d, n, 0));
    ReleaseKeeps(d, d1, n);
    var d2 := WipeInode(d1, n);
    var d3 := ClearInodeBit(d2, n);
    assert d3[s] == d[s];
    var i := FindInode(DirOf(d3[s]), n);
    if n != ROOT_INODE {
      ClearInodeBitKeeps(d2, n);
      if i < ENTRIES {
        FreeEntryKeeps(d3, s, i);
      }
    } else {
      NodesSame(d2, DropDir(d, s, n));
      assert IsNode(n);
      RootGone(DropDir(d, s, n));
    }
  }

  lemma DeleteDirKeeps(d: Disk, path: Bytes)
    requires Inv(d) && PathOk(path)
    ensures Inv(DeleteDir(d, path).0)
            <==> Find(d, path) != ROOT_INODE || PathName(path) == DOT || PathName(path) == DOT_DOT
                 || Size(d, ROOT_INODE) > 64
  {
    hide GoodDir, PathName, PathDir, DropDir, DirAt, Size, IsDir;
    var s, n := PathDir(d, path), Find(d, path);
    if n != 0 {
      PathGood(d, path);
      DirAtMeans(d, s);
      DropDirKeeps(d, s, n);
    }
  }

  // Writing.

  /** The record `b` of inode `n` with the size raised: only size bytes change. */
  lemma GrownEffect(b: Bytes, o: nat, count: nat)
    requires |b| == SECTOR_SIZE && o + 32 <= SECTOR_SIZE && count < TWO32
    ensures SameOutside(b, Grown(b, o, count), o + 4, o + 8)
    ensures U32(Grown(b, o, count), o + 4) == if U32(b, o + 4) < count then count else U32(b, o + 4)
    ensures U16(Grown(b, o, count), o) == U16(b, o)
    ensures forall k: nat | k < ZONES :: ZoneAt(Grown(b, o, count), o, k) == ZoneAt(b, o, k)
  {
    hide U16, Put32, U32;
    var r := Grown(b, o, count);
    if U32(b, o + 4) < count {
      Put32Effect(b, o + 4, count);
    }
    U16Frame(b, r, o + 4, o + 8, o);
    forall k: nat | k < ZONES
      ensures ZoneAt(r, o, k) == ZoneAt(b, o, k)
    {
      ZoneFrame(b, r, o + 4, o + 8, o, k);
    }
  }

  /** `b` is the record of `n` with its first zone set to `zone`. */
  ghost predicate Prepared(d: Disk, n: InodeNo, b: Bytes, zone: nat)
    requires Formed(d)
  {
    && SameOutside(d[SectorOf(n)], b, OffsetOf(n) + 14, OffsetOf(n) + 16)
    && zone == ZoneAt(b, OffsetOf(n), 0)
  }

  /** What storing does to the records. */
  lemma StoreViews(d: Disk, n: InodeNo, b: Bytes, input: Bytes, count: nat, zone: nat)
    requires Formed(d) && Min(count, SECTOR_SIZE) <= |input| && Prepared(d, n, b, zone)
    requires zone >= ROOT_ZONE && IsNode(n)
    ensures var e, r := PutSector(d, 2 * zone, Block(input, count)), Grown(b, OffsetOf(n), Min(count, SECTOR_SIZE));
      var after := Store(d, n, b, input, count);
      && after == PutSector(e, SectorOf(n), r)
      && ZonesKept(e, after, n) && SizesKept(e, after, n) && ModesKept(e, after, n)
      && Mode(after, n) == Mode(d, n) && Zone(after, n, 0) == zone
      && (forall k: nat | 0 < k < ZONES :: Zone(after, n, k) == Zone(d, n, k))
      && Size(after, n) == (if Size(d, n) < Min(count, SECTOR_SIZE) then Min(count, SECTOR_SIZE) else Size(d, n))
  {
    hide U16, U32, ZoneAt, Grown, SectorOf, OffsetOf, Block;
    var a, o := d[SectorOf(n)], OffsetOf(n);
    var e := PutSector(d, 2 * zone, Block(input, count));
    assert e[SectorOf(n)] == a;
    var r := Grown(b, o, Min(count, SECTOR_SIZE));
    GrownEffect(b, o, Min(count, SECTOR_SIZE));
    assert SameOutside(a, r, o, o + 32);
    SlotOthers(e, n, r);
    U16Frame(a, b, o + 14, o + 16, o);
    U32Frame(a, b, o + 14, o + 16, o + 4);
    forall k: nat | 0 < k < ZONES
      ensures ZoneAt(r, o, k) == ZoneAt(a, o, k)
    {
      ZoneFrame(a, b, o + 14, o + 16, o, k);
    }
  }

  /** Storing keeps the invariant exactly if the inode is no directory or the
      new contents are a well-formed directory. */
  lemma StoreKeeps(d: Disk, n: InodeNo, b: Bytes, input: Bytes, count: nat, zone: nat)
    requires Inv(d) && IsNode(n) && Min(count, SECTOR_SIZE) <= |input|
    requires |b| == SECTOR_SIZE && Prepared(d, n, b, zone)
    requires zone != 0 && MayName(d, n, 0, zone) && zone >= ROOT_ZONE
    requires IsDir(d, n) ==> zone == Zone(d, n, 0)
    requires DirAt(d, 2 * zone) <==> IsDir(d, n)
    ensures Inv(Store(d, n, b, input, count)) <==> (IsDir(d, n) ==> GoodDir(DirOf(Block(input, count))))
  {
    hide Inv, Zone, Mode, GoodDir, Grown, SectorOf, OffsetOf, Block, DirMode, DirAt, Prepared, ZoneBit, Unnamed;
    InvParts(d);
    var c, r := Block(input, count), Grown(b, OffsetOf(n), Min(count, SECTOR_SIZE));
    var e, after := PutSector(d, 2 * zone, c), Store(d, n, b, input, count);
    StoreViews(d, n, b, input, count, zone);
    NodesSame(d, e);
    if IsDir(d, n) ==> GoodDir(DirOf(c)) {
      KeepSector(d, 2 * zone, c);
      if zone < ZONE_LIMIT && ZoneBit(d, zone) && Unnamed(d, zone) {
        FreshStays(d, e, zone);
      }
      KeepInode(e, n, r);
    } else if Inv(after) {
      StoredDir(after, n, zone);
    }
  }

  lemma StoredDir(after: Disk, n: InodeNo, zone: nat)
    requires Inv(after) && IsNode(n) && IsDir(after, n) && Zone(after, n, 0) == zone
    ensures GoodDir(DirOf(after[2 * zone]))
  {
  }

  /** A zone that `n` names first belongs to a directory only if `n` is one. */
  lemma OwnZone(d: Disk, n: InodeNo)
    requires Inv(d) && IsNode(n) && Zone(d, n, 0) != 0
    ensures DirAt(d, 2 * Zone(d, n, 0)) <==> IsDir(d, n)
    ensures Zone(d, n, 0) >= ROOT_ZONE
  {
    hide Zone, IsDir, ZoneBit, GoodDir;
  }

  lemma NoZoneNoDir(d: Disk, n: InodeNo)
    requires Inv(d) && IsNode(n) && Zone(d, n, 0) == 0
    ensures !IsDir(d, n)
  {
  }

  /** The bit that the search stops at is clear. */
  lemma FoundClear(d: Disk)
    requires Formed(d)
    ensures var z := FirstClear(d[ZONE_BITMAP], 0); z < ZONE_LIMIT ==> !ZoneBit(d, z)
  {
    hide FirstClear, Bit;
  }

  lemma WriteInodeKeeps(d: Disk, n: InodeNo, input: Bytes, count: nat)
    requires Inv(d) && IsNode(n) && Min(count, SECTOR_SIZE) <= |input|
    ensures Inv(WriteInode(d, n, input, count).0) <==> (IsDir(d, n) ==> GoodDir(DirOf(Block(input, count))))
  {
    hide Inv, GoodDir, SectorOf, OffsetOf, Block, DirAt, ZoneBit, Unnamed, Store, IsDir, FirstClear, Put16, ZoneAt,
      Bit, TakeZone;
    InvParts(d);
    var b := d[SectorOf(n)];
    if Zone(d, n, 0) != 0 {
      OwnZone(d, n);
      StoreKeeps(d, n, b, input, count, Zone(d, n, 0));
    } else {
      NoZoneNoDir(d, n);
      var z := FirstClear(d[ZONE_BITMAP], 0);
      if z != ZONE_LIMIT {
        FoundClear(d);
        TakeZoneKeeps(d, z);
        var t := TakeZone(d, z);
        TakeZoneViews(d, z);
        PutZoneEffect(b, OffsetOf(n), z);
        StoreKeeps(t, n, Put16(b, OffsetOf(n) + 14, z), input, count, z);
      }
    }
  }

  lemma TakeZoneViews(d: Disk, z: nat)
    requires Formed(d) && z < ZONE_LIMIT
    ensures forall s | 0 <= s < SECTORS && s != ZONE_BITMAP :: TakeZone(d, z)[s] == d[s]
    ensures forall n: InodeNo | IsNode(n) :: IsDir(TakeZone(d, z), n) == IsDir(d, n)
  {
    hide IsDir, SetBit;
    NodesSame(d, TakeZone(d, z));
  }

  lemma WriteFileKeeps(d: Disk, path: Bytes, input: Bytes, count: nat)
    requires Inv(d) && PathOk(path) && Min(count, SECTOR_SIZE) <= |input|
    ensures Inv(WriteFile(d, path, input, count).0)
            <==> Find(d, path) == 0 || !IsDir(d, Find(d, path)) || GoodDir(DirOf(Block(input, count)))
  {
    hide Inv, GoodDir, Block, IsDir, Find, WriteInode;
    InvParts(d);
    PathGood(d, path);
    if Find(d, path) != 0 {
      WriteInodeKeeps(d, Find(d, path), input, count);
    }
  }

  // Renaming.

  lemma FreeEntryOnly(d: Disk, s: nat, i: nat)
    requires Formed(d) && s < SECTORS && i < ENTRIES
    ensures FreeEntry(d, s, i) == PutSector(d, s, FreeEntry(d, s, i)[s])
  {
    hide PutEntry;
  }

  lemma RenameFileKeeps(d: Disk, oldPath: Bytes, newPath: Bytes)
    requires Inv(d) && PathOk(oldPath) && PathOk(newPath)
    ensures Inv(RenameFile(d, oldPath, newPath).0)
  {
    hide Inv, GoodDir, DirAt, PathDir, PathName, FreeEntry, AddEntry, Lookup;
    InvParts(d);
    var from, to, name := PathDir(d, oldPath), PathDir(d, newPath), PathName(newPath);
    if from != 0 && to != 0 && Find(d, newPath) == 0 {
      PathGood(d, oldPath);
      PathGood(d, newPath);
      DirAtMeans(d, from);
      DirAtMeans(d, to);
      SubName(newPath);
      var es := DirOf(d[from]);
      var i := FindName(es, PathName(oldPath));
      if i < ENTRIES {
        FreeEntryKeeps(d, from, i);
        var d1 := FreeEntry(d, from, i);
        FreeEntryOnly(d, from, i);
        RemoveEntry(es, i);
        GoodInode(es, i);
        AddEntryKeeps(d1, to, es[i].inode, name);
      }
    }
  }
}
