/** The Multiboot2 boot information as the kernel reads it out of memory:
    tags, memory-map entries and the framebuffer tag (include/LySys/mbi.h). */
module BootInfo {
  import opened Machine

  /** Physical memory while the boot information is read. */
  type Memory = seq<byte>

  /** Reads past the end of memory give 0, as on an unpopulated bus. */
  function ByteAt(mem: Memory, a: nat): byte {
    if a < |mem| then mem[a] else 0
  }

  /** The little-endian number in bytes `a` up to `b`. */
  function LittleEndian(mem: Memory, a: nat, b: nat): nat
    decreases b - a
  {
    if a >= b then 0 else ByteAt(mem, a) + 0x100 * LittleEndian(mem, a + 1, b)
  }

  function U32(mem: Memory, a: nat): nat { LittleEndian(mem, a, a + 4) }
  function U64(mem: Memory, a: nat): nat { LittleEndian(mem, a, a + 8) }

  lemma U64Bound(mem: Memory, a: nat)
    ensures U64(mem, a) < TWO64
  {
    var b := a + 8;
    assert LittleEndian(mem, b - 1, b) < 0x100;
    assert LittleEndian(mem, b - 2, b) < 0x1_0000;
    assert LittleEndian(mem, b - 3, b) < 0x100_0000;
    assert LittleEndian(mem, b - 4, b) < 0x1_0000_0000;
    assert LittleEndian(mem, b - 5, b) < 0x100_0000_0000;
    assert LittleEndian(mem, b - 6, b) < 0x1_0000_0000_0000;
    assert LittleEndian(mem, b - 7, b) < 0x100_0000_0000_0000;
  }

  function TagType(mem: Memory, t: nat): nat { U32(mem, t) }
  function TagSize(mem: Memory, t: nat): nat { U32(mem, t + 4) }
  function EntrySize(mem: Memory, t: nat): nat { U32(mem, t + 8) }

  /** Distance to the next tag, rounded up to 8 in 32-bit arithmetic. */
  function TagStep(mem: Memory, t: nat): nat {
    (TagSize(mem, t) + 7) % TWO32 / 8 * 8
  }

  const MMAP_TAG: nat := 6
  const FRAMEBUFFER_TAG: nat := 8
  const AVAILABLE: nat := 1

  datatype MmapEntry = MmapEntry(addr: nat, len: nat, kind: nat)

  function EntryAt(mem: Memory, e: nat): MmapEntry {
    MmapEntry(U64(mem, e), U64(mem, e + 8), U32(mem, e + 16))
  }

  /** The entry walk of a memory-map tag advances. */
  predicate EntriesAdvance(mem: Memory, t: nat) {
    TagSize(mem, t) > 16 ==> EntrySize(mem, t) > 0
  }

  /** The tag walk from `t` to `end` advances at every tag it visits. */
  predicate WalkEnds(mem: Memory, t: nat, end: nat)
    decreases end - t
  {
    t < end && TagType(mem, t) != 0 ==>
      && TagStep(mem, t) > 0
      && (TagType(mem, t) == MMAP_TAG ==> EntriesAdvance(mem, t))
      && WalkEnds(mem, t + TagStep(mem, t), end)
  }

  function EntriesFrom(mem: Memory, e: nat, stop: nat, entrySize: nat): seq<MmapEntry>
    requires e < stop ==> entrySize > 0
    decreases stop - e
  {
    if e >= stop then [] else [EntryAt(mem, e)] + EntriesFrom(mem, e + entrySize, stop, entrySize)
  }

  /** The entries of one tag; only memory-map tags have any. */
  function TagEntries(mem: Memory, t: nat): seq<MmapEntry>
    requires TagType(mem, t) == MMAP_TAG ==> EntriesAdvance(mem, t)
  {
    if TagType(mem, t) == MMAP_TAG
    then EntriesFrom(mem, t + 16, t + TagSize(mem, t), EntrySize(mem, t))
    else []
  }

  /** All memory-map entries, in the order both walks visit them. */
  function Entries(mem: Memory, t: nat, end: nat): seq<MmapEntry>
    requires WalkEnds(mem, t, end)
    decreases end - t
  {
    if t >= end || TagType(mem, t) == 0 then []
    else TagEntries(mem, t) + Entries(mem, t + TagStep(mem, t), end)
  }

  datatype Framebuffer = Framebuffer(addr: nat, pitch: nat, width: nat, height: nat, bpp: nat)

  function FramebufferAt(mem: Memory, t: nat): Framebuffer {
    Framebuffer(U64(mem, t + 8), U32(mem, t + 16), U32(mem, t + 20), U32(mem, t + 24), ByteAt(mem, t + 28))
  }

  /** The framebuffer left behind by the walk: the last such tag wins. */
  function LastFramebuffer(mem: Memory, t: nat, end: nat, fb: Framebuffer): Framebuffer
    requires WalkEnds(mem, t, end)
    decreases end - t
  {
    if t >= end || TagType(mem, t) == 0 then fb
    else LastFramebuffer(mem, t + TagStep(mem, t), end,
                         if TagType(mem, t) == FRAMEBUFFER_TAG then FramebufferAt(mem, t) else fb)
  }

  // When the walks end.

  /** A tag's step is 0 exactly for size 0 and for the sizes whose rounding wraps
      at 32 bits; then the walk stays where it is. */
  lemma StepZeroExactly(mem: Memory, t: nat)
    requires TagSize(mem, t) < TWO32
    ensures TagStep(mem, t) == 0 <==> TagSize(mem, t) == 0 || TagSize(mem, t) > TWO32 - 8
  {
    hide LittleEndian;
  }

  /** A memory-map tag's entries come to an end exactly if they advance. */
  lemma EntriesAdvanceExactly(mem: Memory, t: nat)
    ensures EntriesAdvance(mem, t) <==> exists m: nat :: 16 + m * EntrySize(mem, t) >= TagSize(mem, t)
  {
    hide LittleEndian;
    var size, step := TagSize(mem, t), EntrySize(mem, t);
    if step > 0 {
      TimesAtLeast(size, step);
      assert 16 + size * step >= size;
    } else if size <= 16 {
      assert 16 + 0 * step >= size;
    } else {
      forall m: nat
        ensures m * step == 0
      {
      }
    }
  }

  lemma TimesAtLeast(a: nat, b: nat)
    requires b > 0
    ensures a * b >= a
  {
  }

  /** The tag loop is over after at most `n` iterations. */
  predicate Halts(mem: Memory, t: nat, end: nat, n: nat)
    decreases n
  {
    t < end && TagType(mem, t) != 0 ==>
      && n > 0
      && (TagType(mem, t) == MMAP_TAG ==> EntriesAdvance(mem, t))
      && Halts(mem, t + TagStep(mem, t), end, n - 1)
  }

  /** A visited tag whose step is 0 is visited for ever. */
  lemma {:induction false} StuckTag(mem: Memory, t: nat, end: nat, n: nat)
    requires t < end && TagType(mem, t) != 0 && TagStep(mem, t) == 0
    ensures !Halts(mem, t, end, n)
    decreases n
  {
    hide LittleEndian, TagStep;
    if n > 0 {
      StuckTag(mem, t, end, n - 1);
    }
  }

  /** WalkEnds is exact: the loops over tags and entries end if and only if it
      holds. */
  lemma WalkEndsExactly(mem: Memory, t: nat, end: nat)
    ensures WalkEnds(mem, t, end) <==> exists n: nat :: Halts(mem, t, end, n)
  {
    hide LittleEndian, TagStep;
    if WalkEnds(mem, t, end) {
      var n := WalkLength(mem, t, end);
    }
    if n: nat :| Halts(mem, t, end, n) {
      HaltingEnds(mem, t, end, n);
    }
  }

  lemma {:induction false} WalkLength(mem: Memory, t: nat, end: nat) returns (n: nat)
    requires WalkEnds(mem, t, end)
    ensures Halts(mem, t, end, n)
    decreases end - t
  {
    hide LittleEndian, TagStep;
    n := 0;
    if t < end && TagType(mem, t) != 0 {
      n := WalkLength(mem, t + TagStep(mem, t), end);
      n := n + 1;
    }
  }

  lemma {:induction false} HaltingEnds(mem: Memory, t: nat, end: nat, n: nat)
    requires Halts(mem, t, end, n)
    ensures WalkEnds(mem, t, end)
    decreases n
  {
    hide LittleEndian, TagStep;
    if t < end && TagType(mem, t) != 0 {
      if TagStep(mem, t) == 0 {
        StuckTag(mem, t, end, n);
      } else {
        HaltingEnds(mem, t + TagStep(mem, t), end, n - 1);
      }
    }
  }

  lemma StepAtLeast(mem: Memory, t: nat)
    requires 8 <= TagSize(mem, t) <= TWO32 - 8
    ensures TagStep(mem, t) >= TagSize(mem, t)
  {
    hide LittleEndian;
  }

  /** Every visited tag has a size from 8 to 2^32 - 8, and entries of a size. */
  predicate SizesOk(mem: Memory, t: nat, end: nat)
    decreases end - t
  {
    t < end && TagType(mem, t) != 0 ==>
      && 8 <= TagSize(mem, t) <= TWO32 - 8
      && (TagType(mem, t) == MMAP_TAG ==> EntrySize(mem, t) > 0)
      && (StepAtLeast(mem, t); SizesOk(mem, t + TagStep(mem, t), end))
  }

  /** Such tags are stepped over one by one, and the walk ends. */
  lemma {:induction false} SizesEnd(mem: Memory, t: nat, end: nat)
    requires SizesOk(mem, t, end)
    ensures WalkEnds(mem, t, end)
    decreases end - t
  {
    hide LittleEndian, TagStep;
    if t < end && TagType(mem, t) != 0 {
      StepAtLeast(mem, t);
      SizesEnd(mem, t + TagStep(mem, t), end);
    }
  }

  // Stepping through one available entry.

  /** Where the stepping stops: the sum wraps at 64 bits. */
  function End(e: MmapEntry): nat {
    (e.addr + e.len) % TWO64
  }

  /** The stepping in 4 KiB strides leaves the entry before it wraps. */
  predicate Stops(e: MmapEntry) {
    e.addr >= End(e) || End(e) <= TWO64 - PAGE_SIZE + e.addr % PAGE_SIZE
  }

  /** Stops is exact: if it fails, no step ever reaches the end. */
  lemma StopsExactly(e: MmapEntry)
    requires e.addr < TWO64
    ensures Stops(e) <==> exists k: nat :: (e.addr + PAGE_SIZE * k) % TWO64 >= End(e)
  {
    if e.addr >= End(e) {
      assert (e.addr + PAGE_SIZE * 0) % TWO64 >= End(e);
    } else if Stops(e) {
      var k := TWO64 / PAGE_SIZE - 1 - e.addr / PAGE_SIZE;
      assert e.addr + PAGE_SIZE * k == TWO64 - PAGE_SIZE + e.addr % PAGE_SIZE;
      assert (e.addr + PAGE_SIZE * k) % TWO64 >= End(e);
    } else {
      forall k: nat
        ensures (e.addr + PAGE_SIZE * k) % TWO64 < End(e)
      {
        var a := e.addr + PAGE_SIZE * k;
        assert a % TWO64 % PAGE_SIZE == e.addr % PAGE_SIZE by {
          assert a % TWO64 == a - a / TWO64 * TWO64;
          var pages := e.addr / PAGE_SIZE + k - a / TWO64 * (TWO64 / PAGE_SIZE);
          assert a % TWO64 == e.addr % PAGE_SIZE + PAGE_SIZE * pages;
        }
      }
    }
  }

  /** The stepping visits an address in page `page`. */
  predicate HitsPage(e: MmapEntry, page: nat) {
    e.addr / PAGE_SIZE <= page && page * PAGE_SIZE + e.addr % PAGE_SIZE < End(e)
  }

  /** Some visited address below `limit` lies in a page whose 32-bit block number is `b`. */
  ghost predicate FreedBy(e: MmapEntry, limit: nat, b: nat) {
    exists page: nat ::
      HitsPage(e, page) && page * PAGE_SIZE + e.addr % PAGE_SIZE < limit && page % TWO32 == b
  }

  ghost predicate FreedByAny(es: seq<MmapEntry>, limit: nat, b: nat) {
    exists e :: e in es && e.kind == AVAILABLE && FreedBy(e, limit, b)
  }

  predicate AllStop(es: seq<MmapEntry>) {
    forall e :: e in es && e.kind == AVAILABLE ==> Stops(e)
  }
}
