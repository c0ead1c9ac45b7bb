/** Inode records and the two bitmaps (kernel/fs/minix/inode.c). A record takes a
    slot of 32 bytes, but the structure that the code clears is 34 bytes long. */
module Inodes {
  import opened Bits
  import opened Directory
  import opened Machine
  import opened Sectors
  import opened Strings

  const INODE_BITMAP: nat := 2
  const ZONE_BITMAP: nat := 3
  const ROOT_SECTOR: nat := 438
  const ROOT_ZONE: nat := 219
  const ROOT_INODE: nat := 1
  const ZONE_LIMIT: nat := 4096
  const RECORD_SIZE: nat := 34
  const ZONES: nat := 7

  const FILE_MODE: nat := 0x81ED
  const DIR_MODE: nat := 0x41ED

  /** The sector of an inode record. */
  function SectorOf(n: InodeNo): (s: nat)
    ensures 10 <= s < 4106 && (n <= LAST_INODE ==> s < ROOT_SECTOR)
  {
    10 + (n - 1) / 16
  }

  /** Its offset in the sector. */
  function OffsetOf(n: InodeNo): (o: nat)
    ensures o + 32 <= SECTOR_SIZE
  {
    (n - 1) % 16 * 32
  }

  function Mode(d: Disk, n: InodeNo): nat
    requires Formed(d)
  {
    U16(d[SectorOf(n)], OffsetOf(n))
  }

  function Size(d: Disk, n: InodeNo): nat
    requires Formed(d)
  {
    U32(d[SectorOf(n)], OffsetOf(n) + 4)
  }

  function Zone(d: Disk, n: InodeNo, k: nat): (z: nat)
    requires Formed(d) && k < ZONES
    ensures z < 0x10000
  {
    ZoneAt(d[SectorOf(n)], OffsetOf(n), k)
  }

  predicate DirMode(mode: nat) {
    mode / 0x4000 % 2 == 1
  }

  /** Bit 14 of the mode tells directories from files. */
  lemma DirModeBit(mode: nat)
    ensures DirMode(mode) <==> Test(mode, 14)
  {
    var q, r := TestMeans(mode, 14);
    assert Pow2(14) == 64 * Pow2(8) && Pow2(8) == 0x100 by {
      Pow2Eight();
      assert Pow2(14) == 2 * Pow2(13) && Pow2(13) == 2 * Pow2(12) && Pow2(12) == 2 * Pow2(11);
    }
  }

  predicate IsDir(d: Disk, n: InodeNo)
    requires Formed(d)
  {
    DirMode(Mode(d, n))
  }

  predicate ZoneBit(d: Disk, z: nat)
    requires Formed(d) && z < ZONE_LIMIT
  {
    Bit(d[ZONE_BITMAP], z)
  }

  /** Different records lie in different slots. */
  lemma SlotsApart(n: InodeNo, m: InodeNo)
    requires n != m && SectorOf(n) == SectorOf(m)
    ensures OffsetOf(m) + 32 <= OffsetOf(n) || OffsetOf(n) + 32 <= OffsetOf(m)
  {
  }

  // Changing a record.

  /** Zone field `k` of the record at `o`. */
  function ZoneAt(b: Bytes, o: nat, k: nat): (z: nat)
    requires |b| == SECTOR_SIZE && o + 32 <= SECTOR_SIZE && k < ZONES
    ensures z < 0x10000
  {
    U16(b, o + 14 + 2 * k)
  }

  /** Where the clearing of a record at `o` stops: 34 bytes on, or at the end of
      the buffer. */
  function WipeEnd(o: nat): (e: nat)
    requires o + 32 <= SECTOR_SIZE
    ensures o + 32 <= e <= SECTOR_SIZE && e <= o + RECORD_SIZE
  {
    if o + RECORD_SIZE <= SECTOR_SIZE then o + RECORD_SIZE else SECTOR_SIZE
  }

  /** The record at `o` cleared. */
  function Wiped(b: Bytes, o: nat): (r: Bytes)
    requires |b| == SECTOR_SIZE && o + 32 <= SECTOR_SIZE
    ensures |r| == SECTOR_SIZE
  {
    Overwrite(b, o, Zeros(WipeEnd(o) - o))
  }

  /** A new record: cleared, then mode, size and link count set. */
  function FreshRecord(b: Bytes, o: nat, mode: nat, size: nat, links: byte): (r: Bytes)
    requires |b| == SECTOR_SIZE && o + 32 <= SECTOR_SIZE && mode < 0x10000 && size < TWO32
    ensures |r| == SECTOR_SIZE
  {
    Put32(Put16(Wiped(b, o), o, mode), o + 4, size)[o + 13 := links]
  }

  /** The fields of the record at `o`. */
  predicate RecordIs(b: Bytes, o: nat, mode: nat, size: nat, zone: nat)
    requires |b| == SECTOR_SIZE && o + 32 <= SECTOR_SIZE
  {
    && U16(b, o) == mode && U32(b, o + 4) == size
    && forall k: nat | k < ZONES :: ZoneAt(b, o, k) == if k == 0 then zone else 0
  }

  /** Nothing but the cleared stretch has changed, and what belongs to the next
      record in that stretch is 0. */
  predicate WithinWipe(a: Bytes, b: Bytes, o: nat)
    requires |a| == |b| == SECTOR_SIZE && o + 32 <= SECTOR_SIZE
  {
    && SameOutside(a, b, o, WipeEnd(o))
    && forall k | o + 32 <= k < WipeEnd(o) :: b[k] == 0
  }

  lemma ZoneFrame(a: Bytes, b: Bytes, lo: nat, hi: nat, o: nat, k: nat)
    requires |a| == |b| == SECTOR_SIZE && o + 32 <= SECTOR_SIZE && k < ZONES
    requires SameOutside(a, b, lo, hi) && (o + 16 + 2 * k <= lo || hi <= o + 14 + 2 * k)
    ensures ZoneAt(a, o, k) == ZoneAt(b, o, k)
  {
    U16Frame(a, b, lo, hi, o + 14 + 2 * k);
  }

  lemma WipedEffect(b: Bytes, o: nat)
    requires |b| == SECTOR_SIZE && o + 32 <= SECTOR_SIZE
    ensures RecordIs(Wiped(b, o), o, 0, 0, 0) && WithinWipe(b, Wiped(b, o), o)
  {
    hide U16;
    var r := Wiped(b, o);
    OverwriteEffect(b, o, Zeros(WipeEnd(o) - o));
    assert forall k | o <= k < WipeEnd(o) :: r[k] == r[o..WipeEnd(o)][k - o] == 0;
    ZeroNumbers(r, o, o + 32);
  }

  lemma FreshRecordEffect(b: Bytes, o: nat, mode: nat, size: nat, links: byte)
    requires |b| == SECTOR_SIZE && o + 32 <= SECTOR_SIZE && mode < 0x10000 && size < TWO32
    ensures RecordIs(FreshRecord(b, o, mode, size, links), o, mode, size, 0)
    ensures WithinWipe(b, FreshRecord(b, o, mode, size, links), o)
    ensures FreshRecord(b, o, mode, size, links)[o + 13] == links
  {
    hide U16, Put16, Put32, Wiped, WipeEnd, ZoneAt;
    var w := Wiped(b, o);
    var m := Put16(w, o, mode);
    var s := Put32(m, o + 4, size);
    var r := FreshRecord(b, o, mode, size, links);
    WipedEffect(b, o);
    Put16Effect(w, o, mode);
    Put32Effect(m, o + 4, size);
    assert SameOutside(s, r, o + 13, o + 14);
    assert SameOutside(w, r, o, o + 14);
    U16Frame(m, s, o + 4, o + 8, o);
    U16Frame(s, r, o + 13, o + 14, o);
    U32Frame(s, r, o + 13, o + 14, o + 4);
    forall k: nat | k < ZONES
      ensures ZoneAt(r, o, k) == 0
    {
      ZoneFrame(w, r, o, o + 14, o, k);
    }
  }

  /** The 32 bytes on disk of a new regular file and of a new directory in zone `z`. */
  function FileRecord(): (r: Bytes)
    ensures |r| == 32
  {
    [0xED, 0x81] + Zeros(11) + [1] + Zeros(18)
  }

  function DirRecord(z: nat): (r: Bytes)
    requires z < 0x10000
    ensures |r| == 32
  {
    [0xED, 0x41, 0, 0, 64] + Zeros(8) + [2, z % 0x100, z / 0x100] + Zeros(16)
  }

  lemma FreshBytes(b: Bytes, o: nat, mode: nat, size: nat, links: byte, k: nat)
    requires |b| == SECTOR_SIZE && o + 32 <= SECTOR_SIZE && mode < 0x10000 && size < 0x100 && k < 32
    ensures FreshRecord(b, o, mode, size, links)[o + k]
            == if k == 0 then mode % 0x100 else if k == 1 then mode / 0x100 else if k == 4 then size
               else if k == 13 then links else 0
  {
    hide Wiped;
    WipedBytes(b, o);
  }

  lemma WipedBytes(b: Bytes, o: nat)
    requires |b| == SECTOR_SIZE && o + 32 <= SECTOR_SIZE
    ensures forall i | o <= i < o + 32 :: Wiped(b, o)[i] == 0
  {
  }

  lemma NewRecordBytes(b: Bytes, o: nat, z: nat)
    requires |b| == SECTOR_SIZE && o + 32 <= SECTOR_SIZE && z < 0x10000
    ensures FreshRecord(b, o, FILE_MODE, 0, 1)[o..o + 32] == FileRecord()
    ensures Put16(FreshRecord(b, o, DIR_MODE, 64, 2), o + 14, z)[o..o + 32] == DirRecord(z)
  {
    hide FreshRecord;
    var f, g := FreshRecord(b, o, FILE_MODE, 0, 1), FreshRecord(b, o, DIR_MODE, 64, 2);
    forall k: nat | k < 32
      ensures f[o + k] == FileRecord()[k] && Put16(g, o + 14, z)[o + k] == DirRecord(z)[k]
    {
      FreshBytes(b, o, FILE_MODE, 0, 1, k);
      FreshBytes(b, o, DIR_MODE, 64, 2, k);
    }
  }

  /** The first zone field set in an otherwise kept record. */
  lemma PutZoneEffect(b: Bytes, o: nat, z: nat)
    requires |b| == SECTOR_SIZE && o + 32 <= SECTOR_SIZE && z < 0x10000
    ensures ZoneAt(Put16(b, o + 14, z), o, 0) == z && SameOutside(b, Put16(b, o + 14, z), o + 14, o + 16)
    ensures forall k: nat | 0 < k < ZONES :: ZoneAt(Put16(b, o + 14, z), o, k) == ZoneAt(b, o, k)
    ensures U16(Put16(b, o + 14, z), o) == U16(b, o) && U32(Put16(b, o + 14, z), o + 4) == U32(b, o + 4)
  {
    hide U16, Put16, U32;
    var r := Put16(b, o + 14, z);
    Put16Effect(b, o + 14, z);
    U16Frame(b, r, o + 14, o + 16, o);
    U32Frame(b, r, o + 14, o + 16, o + 4);
    forall k: nat | 0 < k < ZONES
      ensures ZoneAt(r, o, k) == ZoneAt(b, o, k)
    {
      ZoneFrame(b, r, o + 14, o + 16, o, k);
    }
  }

  /** The 32 bytes of the record of inode `n`. */
  function RecordOf(d: Disk, n: InodeNo): (r: Bytes)
    requires Formed(d)
    ensures |r| == 32
  {
    d[SectorOf(n)][OffsetOf(n)..OffsetOf(n) + 32]
  }

  // What a changed record means for the others.

  ghost predicate ZonesKept(d: Disk, after: Disk, n: InodeNo)
    requires Formed(d) && Formed(after)
  {
    forall m: InodeNo, k: nat | m != n && k < ZONES :: Zone(after, m, k) == Zone(d, m, k)
  }

  ghost predicate SizesKept(d: Disk, after: Disk, n: InodeNo)
    requires Formed(d) && Formed(after)
  {
    forall m: InodeNo | m != n :: Size(after, m) == Size(d, m)
  }

  ghost predicate ModesKept(d: Disk, after: Disk, n: InodeNo)
    requires Formed(d) && Formed(after)
  {
    forall m: InodeNo | m != n :: Mode(after, m) == Mode(d, m)
  }

  /** The record that follows `n` in the same sector. */
  predicate IsNext(n: InodeNo, m: InodeNo) {
    m == n + 1 && n % 16 != 0
  }

  /** Modes stay, except that of the next record, which becomes 0. */
  ghost predicate ModesFall(d: Disk, after: Disk, n: InodeNo)
    requires Formed(d) && Formed(after)
  {
    forall m: InodeNo | m != n :: Mode(after, m) == if IsNext(n, m) then 0 else Mode(d, m)
  }

  lemma NextSlot(n: InodeNo, m: InodeNo)
    ensures IsNext(n, m) <==> SectorOf(n) == SectorOf(m) && OffsetOf(m) == OffsetOf(n) + 32
    ensures SectorOf(n) == SectorOf(m) && n != m && !IsNext(n, m) ==>
      OffsetOf(m) + 32 <= OffsetOf(n) || OffsetOf(n) + 64 <= OffsetOf(m)
  {
  }

  lemma WipeOther(d: Disk, n: InodeNo, b: Bytes, m: InodeNo)
    requires Formed(d) && |b| == SECTOR_SIZE && WithinWipe(d[SectorOf(n)], b, OffsetOf(n)) && m != n
    ensures var after := d[SectorOf(n) := b];
      && (forall k: nat | k < ZONES :: Zone(after, m, k) == Zone(d, m, k)) && Size(after, m) == Size(d, m)
      && Mode(after, m) == if IsNext(n, m) then 0 else Mode(d, m)
  {
    hide U16, U32, ZoneAt, OffsetOf, SectorOf, IsNext, WipeEnd;
    if SectorOf(m) == SectorOf(n) {
      var a, o, p := d[SectorOf(n)], OffsetOf(n), OffsetOf(m);
      NextSlot(n, m);
      SlotsApart(n, m);
      forall k: nat | k < ZONES
        ensures ZoneAt(a, p, k) == ZoneAt(b, p, k)
      {
        ZoneFrame(a, b, o, WipeEnd(o), p, k);
      }
      U32Frame(a, b, o, WipeEnd(o), p + 4);
      if IsNext(n, m) {
        WipeReaches(o);
        ZeroNumbers(b, o + 32, WipeEnd(o));
      } else {
        U16Frame(a, b, o, WipeEnd(o), p);
      }
    } else {
      NextSlot(n, m);
    }
  }

  lemma WipeReaches(o: nat)
    requires o + 64 <= SECTOR_SIZE
    ensures WipeEnd(o) == o + 34
  {
  }

  /** Clearing or renewing a record touches the mode of the next one and no
      other field of any record. */
  lemma WipeOthers(d: Disk, n: InodeNo, b: Bytes)
    requires Formed(d) && |b| == SECTOR_SIZE && WithinWipe(d[SectorOf(n)], b, OffsetOf(n))
    ensures var after := d[SectorOf(n) := b];
      ZonesKept(d, after, n) && SizesKept(d, after, n) && ModesFall(d, after, n)
  {
    hide Zone, Size, Mode, WithinWipe, IsNext, SectorOf, OffsetOf;
    var after := d[SectorOf(n) := b];
    forall m: InodeNo, k: nat | m != n && k < ZONES
      ensures Zone(after, m, k) == Zone(d, m, k)
    {
      WipeOther(d, n, b, m);
    }
    forall m: InodeNo | m != n
      ensures Size(after, m) == Size(d, m)
    {
      WipeOther(d, n, b, m);
    }
    forall m: InodeNo | m != n
      ensures Mode(after, m) == if IsNext(n, m) then 0 else Mode(d, m)
    {
      WipeOther(d, n, b, m);
    }
  }

  /** Changing bytes of a slot leaves the other records alone. */
  lemma SlotOthers(d: Disk, n: InodeNo, b: Bytes)
    requires Formed(d) && SameOutside(d[SectorOf(n)], b, OffsetOf(n), OffsetOf(n) + 32)
    ensures var after := d[SectorOf(n) := b];
      ZonesKept(d, after, n) && SizesKept(d, after, n) && ModesKept(d, after, n)
  {
    hide Zone, Size, Mode, SectorOf, OffsetOf;
    var after := d[SectorOf(n) := b];
    forall m: InodeNo, k: nat | m != n && k < ZONES
      ensures Zone(after, m, k) == Zone(d, m, k)
    {
      SlotOther(d, n, b, m);
    }
    forall m: InodeNo | m != n
      ensures Size(after, m) == Size(d, m)
    {
      SlotOther(d, n, b, m);
    }
    forall m: InodeNo | m != n
      ensures Mode(after, m) == Mode(d, m)
    {
      SlotOther(d, n, b, m);
    }
  }

  lemma SlotOther(d: Disk, n: InodeNo, b: Bytes, m: InodeNo)
    requires Formed(d) && SameOutside(d[SectorOf(n)], b, OffsetOf(n), OffsetOf(n) + 32) && m != n
    ensures var after := d[SectorOf(n) := b];
      && (forall k: nat | k < ZONES :: Zone(after, m, k) == Zone(d, m, k)) && Size(after, m) == Size(d, m)
      && Mode(after, m) == Mode(d, m)
  {
    hide U16, U32, ZoneAt, OffsetOf, SectorOf;
    if SectorOf(m) == SectorOf(n) {
      var a, o, p := d[SectorOf(n)], OffsetOf(n), OffsetOf(m);
      SlotsApart(n, m);
      forall k: nat | k < ZONES
        ensures ZoneAt(a, p, k) == ZoneAt(b, p, k)
      {
        ZoneFrame(a, b, o, o + 32, p, k);
      }
      U32Frame(a, b, o, o + 32, p + 4);
      U16Frame(a, b, o, o + 32, p);
    }
  }
}
