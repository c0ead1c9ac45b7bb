/** What callers see: contents written are contents read, and names lead where
    they should. */
module MinixFiles {
  import opened Bits
  import opened Directory
  import opened Inodes
  import opened MinixInvariant
  import opened MinixKeeps
  import opened MinixModel
  import opened MinixPaths
  import opened Sectors
  import opened Strings

  // Reading back what was written.

  /** The data that a read of inode `m` depends on. */
  ghost predicate SameFile(d: Disk, after: Disk, m: InodeNo)
    requires Formed(d) && Formed(after)
  {
    && Size(after, m) == Size(d, m) && Zone(after, m, 0) == Zone(d, m, 0)
    && after[2 * Zone(d, m, 0)] == d[2 * Zone(d, m, 0)]
  }

  /** Nothing but the inode's own data and size changes. */
  ghost predicate Written(d: Disk, after: Disk, n: InodeNo, b: Bytes, count: nat)
    requires Formed(d) && Formed(after)
  {
    && Zone(after, n, 0) != 0 && after[2 * Zone(after, n, 0)] == b
    && Size(after, n) == (if Size(d, n) < count then count else Size(d, n))
    && forall m: InodeNo | IsNode(m) && m != n :: SameFile(d, after, m)
  }

  lemma StoreWrites(d: Disk, n: InodeNo, b: Bytes, input: Bytes, count: nat, zone: nat)
    requires Inv(d) && IsNode(n) && Min(count, SECTOR_SIZE) <= |input|
    requires |b| == SECTOR_SIZE && Prepared(d, n, b, zone) && ROOT_ZONE <= zone < 0x10000
    requires forall m: InodeNo | IsNode(m) && m != n :: Zone(d, m, 0) != zone
    ensures Written(d, Store(d, n, b, input, count), n, Block(input, count), Min(count, SECTOR_SIZE))
    ensures forall t | ROOT_SECTOR <= t < SECTORS && t != 2 * zone :: Store(d, n, b, input, count)[t] == d[t]
    ensures forall m: InodeNo | IsNode(m) ::
      Mode(Store(d, n, b, input, count), m) == Mode(d, m)
      && (m != n ==> Zone(Store(d, n, b, input, count), m, 0) == Zone(d, m, 0))
  {
    hide Zone, Mode, Size, Block, Grown, Prepared, GoodDir, DirAt, Apart, Dirs, Reserved, Rooted, IsDir, ZoneBit,
      ZoneAt;
    var e := PutSector(d, 2 * zone, Block(input, count));
    StoreViews(d, n, b, input, count, zone);
    RecordsSame(d, e);
    var after := Store(d, n, b, input, count);
    forall m: InodeNo | IsNode(m) && m != n
      ensures SameFile(d, after, m)
    {
      assert Zone(d, m, 0) == 0 || Zone(d, m, 0) >= ROOT_ZONE;
    }
  }

  lemma RecordsSame(d: Disk, after: Disk)
    requires Formed(d) && Formed(after) && forall s | 10 <= s < ROOT_SECTOR :: after[s] == d[s]
    ensures forall n: InodeNo, k: nat | IsNode(n) && k < ZONES :: Zone(after, n, k) == Zone(d, n, k)
    ensures forall n: InodeNo | IsNode(n) :: Mode(after, n) == Mode(d, n) && Size(after, n) == Size(d, n)
  {
    hide U16, U32, ZoneAt, SectorOf, OffsetOf;
  }

  /** A successful write: the inode's data and size change, every other file and
      every record's kind stay, and so do all data sectors but the inode's own. */
  lemma WriteInodeEffect(d: Disk, n: InodeNo, input: Bytes, count: nat)
    requires Inv(d) && IsNode(n) && Min(count, SECTOR_SIZE) <= |input|
    requires WriteInode(d, n, input, count).1 >= 0
    ensures var after := WriteInode(d, n, input, count).0;
      && Written(d, after, n, Block(input, count), Min(count, SECTOR_SIZE))
      && (forall m: InodeNo | IsNode(m) ::
            Mode(after, m) == Mode(d, m) && (m != n || Zone(d, n, 0) != 0 ==> Zone(after, m, 0) == Zone(d, m, 0)))
      && (forall t | ROOT_SECTOR <= t < SECTORS && t != 2 * Zone(after, n, 0) :: after[t] == d[t])
      && !(exists m: InodeNo :: IsNode(m) && m != n && Zone(d, m, 0) == Zone(after, n, 0))
  {
    hide GoodDir, SectorOf, OffsetOf, Block, DirAt, ZoneBit, Store, IsDir, FirstClear, Put16, ZoneAt, Mode, Size,
      Bit, TakeZone, Dirs, Rooted, Reserved;
    var b := d[SectorOf(n)];
    if Zone(d, n, 0) != 0 {
      StoreWrites(d, n, b, input, count, Zone(d, n, 0));
      StoreViews(d, n, b, input, count, Zone(d, n, 0));
    } else {
      var z := FirstClear(d[ZONE_BITMAP], 0);
      FoundClear(d);
      TakeZoneKeeps(d, z);
      var t := TakeZone(d, z);
      TakeZoneViews(d, z);
      RecordsSame(d, t);
      PutZoneEffect(b, OffsetOf(n), z);
      assert t[SectorOf(n)] == b;
      StoreWrites(t, n, Put16(b, OffsetOf(n) + 14, z), input, count, z);
      StoreViews(t, n, Put16(b, OffsetOf(n) + 14, z), input, count, z);
    }
  }

  /** Writing a regular file moves no path. */
  lemma WriteMovesNoPath(d: Disk, n: InodeNo, input: Bytes, count: nat)
    requires Inv(d) && IsNode(n) && !IsDir(d, n) && Min(count, SECTOR_SIZE) <= |input|
    ensures Changed(d, WriteInode(d, n, input, count).0, {}, {})
  {
    hide Inv, WriteInode, Written, Mode, Lookup, GoodDir, Zone;
    InvParts(d);
    var r := WriteInode(d, n, input, count);
    if r.1 >= 0 {
      WriteInodeEffect(d, n, input, count);
      forall t: nat, x: Bytes | t < SECTORS && DirAt(d, t)
        ensures Lookup(DirOf(r.0[t]), x) == Lookup(DirOf(d[t]), x)
      {
        DirAtMeans(d, t);
        var m: InodeNo :| IsNode(m) && IsDir(d, m) && 2 * Zone(d, m, 0) == t;
        assert m != n;
      }
      forall m: InodeNo | IsNode(m)
        ensures IsDir(r.0, m) == IsDir(d, m) && (IsDir(d, m) ==> Zone(r.0, m, 0) == Zone(d, m, 0))
      {
      }
    } else {
      WriteReturns(d, n, input, count);
    }
  }

  /** Copying the first bytes and clearing the rest of the stretch. */
  lemma CopyThenPad(output: Bytes, s: Bytes, k: nat)
    requires |s| <= k <= |output|
    ensures Overwrite(Overwrite(output, 0, s), |s|, Zeros(k - |s|)) == s + Zeros(k - |s|) + output[k..]
  {
    var copied := Overwrite(output, 0, s);
    assert copied == s + output[|s|..];
    assert copied[..|s|] == s && copied[|s|..] == output[|s|..];
    assert output[|s|..][k - |s|..] == output[k..];
  }

  lemma ReadIs(d: Disk, n: InodeNo, k: nat, output: Bytes)
    requires Formed(d) && k <= |output| && k <= SECTOR_SIZE && Zone(d, n, 0) != 0
    ensures var actual := Min(k, Size(d, n));
      ReadInode(d, n, k, output) == (d[2 * Zone(d, n, 0)][..actual] + Zeros(k - actual) + output[k..], actual)
  {
    hide Zone, Size, Overwrite;
    var actual := Min(k, Size(d, n));
    CopyThenPad(output, d[2 * Zone(d, n, 0)][..actual], k);
    if actual == 0 {
      CopyNothing(output);
      assert d[2 * Zone(d, n, 0)][..0] == [];
    }
  }

  /** A file of size 0 reads as zeros, zone or not. */
  lemma EmptyRead(d: Disk, n: InodeNo, k: nat, output: Bytes)
    requires Formed(d) && Size(d, n) == 0 && k <= |output|
    ensures ReadInode(d, n, k, output) == (Zeros(k) + output[k..], 0)
  {
    hide Size, Zone;
    assert output[0 + |Zeros(k)|..] == output[k..] && output[..0] == [];
    assert Overwrite(output, 0, Zeros(k)) == Zeros(k) + output[k..];
  }

  lemma CopyNothing(output: Bytes)
    ensures Overwrite(output, 0, []) == output
  {
  }

  /** Reading `k` bytes of a file whose sector is `b`, with `size` at least the
      length of what is not 0 in it, gives the first `k` bytes of the sector. */
  lemma ReadBlock(d: Disk, n: InodeNo, k: nat, output: Bytes, b: Bytes, used: nat)
    requires Formed(d) && k <= |output| && k <= SECTOR_SIZE && |b| == SECTOR_SIZE
    requires Zone(d, n, 0) != 0 && d[2 * Zone(d, n, 0)] == b && used <= Size(d, n)
    requires forall i | used <= i < SECTOR_SIZE :: b[i] == 0
    ensures ReadInode(d, n, k, output) == (b[..k] + output[k..], Min(k, Size(d, n)))
  {
    hide Zone, Size, ReadInode;
    var actual := Min(k, Size(d, n));
    ReadIs(d, n, k, output);
    assert b[..k] == b[..actual] + Zeros(k - actual);
  }

  /** After a successful write to a regular file, a read returns the smaller of
      its count and the size, and yields the bytes written followed by zeros. */
  lemma WriteThenRead(d: Disk, path: Bytes, input: Bytes, count: nat, k: nat, output: Bytes)
    requires Inv(d) && PathOk(path) && Min(count, SECTOR_SIZE) <= |input|
    requires WriteFile(d, path, input, count).1 >= 0 && !IsDir(d, Find(d, path))
    requires k <= SECTOR_SIZE && k <= |output|
    ensures var after := WriteFile(d, path, input, count).0;
      var n := Find(d, path);
      var written := Min(count, SECTOR_SIZE);
      && WriteFile(d, path, input, count).1 == written
      && Find(after, path) == n
      && Size(after, n) == (if Size(d, n) < written then written else Size(d, n))
      && ReadFile(after, path, k, output)
         == (input[..Min(written, k)] + Zeros(k - Min(written, k)) + output[k..], Min(k, Size(after, n)))
  {
    hide Inv, Find, Size, Zone, WriteInode, ReadInode, IsDir, Changed;
    InvParts(d);
    var n := Find(d, path);
    var written := Min(count, SECTOR_SIZE);
    WriteFinds(d, path, input, count);
    PathGood(d, path);
    WriteInodeEffect(d, n, input, count);
    WriteMovesNoPath(d, n, input, count);
    WriteReturns(d, n, input, count);
    var after := WriteInode(d, n, input, count).0;
    FindKept(d, after, {}, {}, path);
    ReadBlock(after, n, k, output, Block(input, count), written);
    assert Block(input, count)[..k] == input[..Min(written, k)] + Zeros(k - Min(written, k));
  }

  /** When write succeeds: the file has a zone, or one is left. */
  lemma WriteFileReturns(d: Disk, path: Bytes, input: Bytes, count: nat)
    requires Formed(d) && Min(count, SECTOR_SIZE) <= |input|
    ensures var r, n := WriteFile(d, path, input, count), Find(d, path);
      && (r.1 >= 0 <==> n != 0 && (Zone(d, n, 0) != 0 || ZoneFree(d)))
      && (r.1 >= 0 ==> r.1 == Min(count, SECTOR_SIZE))
      && (r.1 < 0 ==> r.0 == d && r.1 == if n == 0 then -ENOENT else -ENOSPC)
  {
    hide Find, Zone, ZoneFree, Store, Put16, FirstClear;
    ZoneFound(d);
  }

  /** Some zone is not marked used. */
  ghost predicate ZoneFree(d: Disk)
    requires Formed(d)
  {
    exists z: nat :: z < ZONE_LIMIT && !ZoneBit(d, z)
  }

  /** The search finds a zone exactly if one is left. */
  lemma ZoneFound(d: Disk)
    requires Formed(d)
    ensures FirstClear(d[ZONE_BITMAP], 0) < ZONE_LIMIT <==> ZoneFree(d)
  {
    hide FirstClear, Bit;
    var z := FirstClear(d[ZONE_BITMAP], 0);
    if z < ZONE_LIMIT {
      assert !ZoneBit(d, z);
    } else {
      assert forall y: nat | y < ZONE_LIMIT :: ZoneBit(d, y) == Bit(d[ZONE_BITMAP], y);
    }
  }

  lemma WriteFinds(d: Disk, path: Bytes, input: Bytes, count: nat)
    requires Formed(d) && Min(count, SECTOR_SIZE) <= |input|
    ensures WriteFile(d, path, input, count)
            == if Find(d, path) == 0 then (d, -ENOENT) else WriteInode(d, Find(d, path), input, count)
  {
    hide Find, WriteInode;
  }

  lemma WriteReturns(d: Disk, n: InodeNo, input: Bytes, count: nat)
    requires Formed(d) && Min(count, SECTOR_SIZE) <= |input|
    ensures WriteInode(d, n, input, count).1 == Min(count, SECTOR_SIZE)
            || (WriteInode(d, n, input, count) == (d, -ENOSPC) && Zone(d, n, 0) == 0)
  {
  }

  /** Every other file reads as before, and every path leads where it did. */
  lemma WriteIsolated(d: Disk, path: Bytes, input: Bytes, count: nat, other: Bytes, k: nat, output: Bytes)
    requires Inv(d) && PathOk(path) && PathOk(other) && Min(count, SECTOR_SIZE) <= |input|
    requires Find(d, path) != 0 ==> !IsDir(d, Find(d, path))
    requires k <= |output| && CanRead(d, other, k)
    ensures var after := WriteFile(d, path, input, count).0;
      && Find(after, other) == Find(d, other) && PathDir(after, other) == PathDir(d, other)
      && (Find(d, other) == 0 || Find(d, other) != Find(d, path) ==>
            CanRead(after, other, k) && ReadFile(after, other, k, output) == ReadFile(d, other, k, output))
  {
    hide Inv, Find, PathDir, Size, Zone, WriteInode, IsDir, Changed;
    InvParts(d);
    var n, m := Find(d, path), Find(d, other);
    PathGood(d, path);
    PathGood(d, other);
    if n != 0 {
      WriteMovesNoPath(d, n, input, count);
      var r := WriteInode(d, n, input, count);
      FindKept(d, r.0, {}, {}, other);
      if r.1 >= 0 {
        WriteInodeEffect(d, n, input, count);
      } else {
        WriteReturns(d, n, input, count);
      }
      if m != 0 && m != n {
        assert r.1 >= 0 ==> SameFile(d, r.0, m);
      }
    }
  }
}
