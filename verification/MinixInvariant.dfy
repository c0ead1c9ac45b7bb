/** What every file operation keeps: which zones are reserved, which inode field
    names which zone, and that directories stay readable. */
module MinixInvariant {
  import opened Bits
  import opened Directory
  import opened Inodes
  import opened MinixModel
  import opened Sectors
  import opened Strings

  predicate IsNode(n: InodeNo) {
    n <= LAST_INODE
  }

  /** The zones before the root directory's (boot block, superblock, bitmaps and
      inode records) are marked used. */
  ghost predicate Reserved(d: Disk)
    requires Formed(d)
  {
    forall z: nat | z < ROOT_ZONE :: ZoneBit(d, z)
  }

  /** A zone that a record names is a data zone and marked used. */
  ghost predicate Named(d: Disk)
    requires Formed(d)
  {
    forall n: InodeNo, k: nat | IsNode(n) && k < ZONES && Zone(d, n, k) != 0 ::
      ROOT_ZONE <= Zone(d, n, k) < ZONE_LIMIT && ZoneBit(d, Zone(d, n, k))
  }

  /** No two fields name the same zone. */
  ghost predicate Apart(d: Disk)
    requires Formed(d)
  {
    forall n: InodeNo, k: nat, m: InodeNo, j: nat |
      IsNode(n) && k < ZONES && IsNode(m) && j < ZONES && Zone(d, n, k) != 0 && Zone(d, n, k) == Zone(d, m, j) ::
      n == m && k == j
  }

  ghost predicate Rooted(d: Disk)
    requires Formed(d)
  {
    IsDir(d, ROOT_INODE) && Zone(d, ROOT_INODE, 0) == ROOT_ZONE
  }

  /** A directory has a zone, and that holds well-formed entries with pairwise
      different names. */
  ghost predicate Dirs(d: Disk)
    requires Formed(d)
  {
    forall n: InodeNo | IsNode(n) && IsDir(d, n) :: Zone(d, n, 0) != 0 && GoodDir(DirOf(d[2 * Zone(d, n, 0)]))
  }

  ghost predicate Inv(d: Disk) {
    Formed(d) && Reserved(d) && Named(d) && Apart(d) && Rooted(d) && Dirs(d)
  }

  lemma InvParts(d: Disk)
    requires Inv(d)
    ensures Formed(d) && Rooted(d)
  {
  }

  lemma DirHasZone(d: Disk, n: InodeNo)
    requires Inv(d) && IsNode(n) && IsDir(d, n)
    ensures Zone(d, n, 0) != 0
  {
  }

  /** Sector `s` is that of a live directory. */
  ghost predicate DirAt(d: Disk, s: nat)
    requires Formed(d)
  {
    exists n: InodeNo :: IsNode(n) && IsDir(d, n) && 2 * Zone(d, n, 0) == s
  }

  /** No record names zone `z`. */
  ghost predicate Unnamed(d: Disk, z: nat)
    requires Formed(d)
  {
    forall n: InodeNo, k: nat | IsNode(n) && k < ZONES :: Zone(d, n, k) != z
  }

  lemma NodesSame(d: Disk, after: Disk)
    requires Formed(d) && Formed(after) && forall s | 10 <= s < ROOT_SECTOR :: after[s] == d[s]
    ensures forall n: InodeNo, k: nat | IsNode(n) && k < ZONES :: Zone(after, n, k) == Zone(d, n, k)
    ensures forall n: InodeNo | IsNode(n) :: IsDir(after, n) == IsDir(d, n) && Size(after, n) == Size(d, n)
  {
    hide U16, U32, ZoneAt, SectorOf, OffsetOf, DirMode;
  }

  /** Writing the inode bitmap or a data sector: only a directory at that sector
      matters. */
  lemma KeepSector(d: Disk, s: nat, b: Bytes)
    requires Inv(d) && (s == INODE_BITMAP || ROOT_SECTOR <= s < SECTORS) && |b| == SECTOR_SIZE
    requires DirAt(d, s) ==> GoodDir(DirOf(b))
    ensures Inv(PutSector(d, s, b))
  {
    hide Zone, IsDir, Size, Bit, GoodDir;
    var after := PutSector(d, s, b);
    NodesSame(d, after);
    assert forall z: nat | z < ZONE_LIMIT :: ZoneBit(after, z) == ZoneBit(d, z);
    assert Reserved(after);
    assert Named(after);
    assert Apart(after);
    assert Rooted(after);
    forall n: InodeNo | IsNode(n) && IsDir(after, n)
      ensures Zone(after, n, 0) != 0 && GoodDir(DirOf(after[2 * Zone(after, n, 0)]))
    {
      assert IsDir(d, n);
    }
  }

  /** Changing the zone bitmap: reserved and named zones must stay marked. */
  lemma KeepBitmap(d: Disk, m: Bytes)
    requires Inv(d) && |m| == SECTOR_SIZE
    requires forall z: nat | z < ROOT_ZONE :: Bit(m, z)
    requires forall n: InodeNo, k: nat | IsNode(n) && k < ZONES && Zone(d, n, k) != 0 :: Bit(m, Zone(d, n, k))
    ensures Inv(PutSector(d, ZONE_BITMAP, m))
  {
    hide Zone, IsDir, Size, Bit, GoodDir;
    NodesSame(d, PutSector(d, ZONE_BITMAP, m));
  }

  /** Zone field `k` of inode `n` may hold `z` after a change to that record. */
  ghost predicate MayName(d: Disk, n: InodeNo, k: nat, z: nat)
    requires Formed(d) && k < ZONES
  {
    z == 0 || z == Zone(d, n, k) || (ROOT_ZONE <= z < ZONE_LIMIT && k == 0 && ZoneBit(d, z) && Unnamed(d, z))
  }

  /** Changing one record: its zones may go, or be fresh; a directory needs a
      well-formed sector; other records may at most stop being directories. */
  lemma KeepInode(d: Disk, n: InodeNo, b: Bytes)
    requires Inv(d) && IsNode(n) && |b| == SECTOR_SIZE
    requires var after := PutSector(d, SectorOf(n), b);
      && ZonesKept(d, after, n)
      && (forall m: InodeNo | m != n && IsDir(after, m) :: IsDir(d, m))
      && (forall k: nat | k < ZONES :: MayName(d, n, k, Zone(after, n, k)))
      && (IsDir(after, n) ==> Zone(after, n, 0) != 0 && GoodDir(DirOf(d[2 * Zone(after, n, 0)])))
      && (IsDir(after, ROOT_INODE) && (n == ROOT_INODE ==> Zone(after, n, 0) == ROOT_ZONE))
    ensures Inv(PutSector(d, SectorOf(n), b))
  {
    hide Zone, IsDir, Size, Bit, GoodDir, SectorOf;
    var after := PutSector(d, SectorOf(n), b);
    assert SectorOf(n) < ROOT_SECTOR && SectorOf(n) != ZONE_BITMAP;
    assert forall z: nat | z < ZONE_LIMIT :: ZoneBit(after, z) == ZoneBit(d, z);
    assert Reserved(after);
    assert Named(after);
    assert Apart(after);
    assert Rooted(after);
    assert Dirs(after);
  }
}
