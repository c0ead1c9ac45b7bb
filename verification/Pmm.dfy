/** The physical memory manager: a bitmap of 4 KiB blocks and a running count
    (kernel/mem/pmm.c). Its abstract state is the set of used blocks. */
module Pmm {
  import opened Bits
  import opened BootInfo
  import opened Machine

  const MAX_BLOCKS: nat := 65536
  const BITMAP_SIZE: nat := 8192

  /** The block a physical address belongs to; the quotient is stored in 32 bits. */
  function BlockOf(addr: nat): nat {
    addr / PAGE_SIZE % TWO32
  }

  /** The bitmap represents the set `used`. */
  ghost predicate Represents(m: seq<byte>, used: set<nat>)
    requires |m| == BITMAP_SIZE
  {
    && used <= AllBlocks()
    && forall n: nat {:trigger Bit(m, n)} | n < MAX_BLOCKS :: Bit(m, n) <==> n in used
  }

  ghost function AllBlocks(): set<nat> {
    Below(MAX_BLOCKS)
  }

  lemma BlockAddress(i: nat)
    requires i < MAX_BLOCKS
    ensures BlockOf(i * PAGE_SIZE) == i == i * PAGE_SIZE / PAGE_SIZE && i * PAGE_SIZE % PAGE_SIZE == 0
  {
  }

  /** `b` is the lowest free block. */
  ghost predicate LowestFree(used: set<nat>, b: nat) {
    && b < MAX_BLOCKS && b !in used
    && forall c: nat | c < b :: c in used
  }

  /** One allocation: 0 when nothing is free, else the lowest free block. */
  ghost predicate AllocStep(used: set<nat>, physAddr: nat, after: set<nat>) {
    if used == AllBlocks() then
      physAddr == 0 && after == used
    else
      && physAddr % PAGE_SIZE == 0 && LowestFree(used, physAddr / PAGE_SIZE)
      && after == used + {physAddr / PAGE_SIZE}
  }

  /** The free blocks that start above physical address `bound`. */
  ghost function FreeAbove(used: set<nat>, bound: nat): set<nat> {
    set b: nat | b < MAX_BLOCKS && b !in used && b * PAGE_SIZE > bound
  }

  /** Every block up to the one holding `bound` is used. */
  ghost predicate LowUsed(used: set<nat>, bound: nat) {
    forall b: nat | b < MAX_BLOCKS && b * PAGE_SIZE <= bound :: b in used
  }

  class FrameAllocator {
    const bitmap: array<byte>
    var usedBlocks: nat
    ghost var used: set<nat>

    /** The bitmap represents `used`, and the running count agrees with it. */
    ghost predicate Valid()
      reads this, bitmap
    {
      && bitmap.Length == BITMAP_SIZE
      && Represents(bitmap[..], used)
      && usedBlocks == |used|
    }

    // The bitmap starts zeroed although the count says everything is used:
    // only Init makes the two agree.
    constructor ()
      ensures bitmap.Length == BITMAP_SIZE && fresh(bitmap)
      ensures usedBlocks == MAX_BLOCKS && used == {} && Represents(bitmap[..], used)
    {
      bitmap := new byte[BITMAP_SIZE](_ => 0);
      usedBlocks := MAX_BLOCKS;
      used := {};
      new;
      forall n: nat | n < MAX_BLOCKS
        ensures !Bit(bitmap[..], n)
      {
        assert bitmap[..][n / 8] == 0;
        ZeroByte(n % 8);
      }
    }

    method SetBit(i: nat)
      requires bitmap.Length == BITMAP_SIZE && i < MAX_BLOCKS && Represents(bitmap[..], used)
      modifies bitmap, this`used
      ensures used == old(used) + {i} && Represents(bitmap[..], used)
    {
      hide Bit, WithBit;
      SetBitEffect(bitmap[..], i);
      ghost var now := Bits.SetBit(bitmap[..], i);
      bitmap[i / 8] := WithBit(bitmap[i / 8], i % 8);
      used := used + {i};
      assert bitmap[..] == now;
    }

    method ClearBit(i: nat)
      requires bitmap.Length == BITMAP_SIZE && i < MAX_BLOCKS && Represents(bitmap[..], used)
      modifies bitmap, this`used
      ensures used == old(used) - {i} && Represents(bitmap[..], used)
    {
      hide Bit, WithoutBit;
      ClearBitEffect(bitmap[..], i);
      ghost var now := Bits.ClearBit(bitmap[..], i);
      bitmap[i / 8] := WithoutBit(bitmap[i / 8], i % 8);
      used := used - {i};
      assert bitmap[..] == now;
    }

    method TestBit(i: nat) returns (isSet: bool)
      requires bitmap.Length == BITMAP_SIZE && i < MAX_BLOCKS && Represents(bitmap[..], used)
      ensures isSet <==> i in used
    {
      isSet := Test(bitmap[i / 8], i % 8);
      assert isSet == Bit(bitmap[..], i);
    }

    method MarkUsed(physAddr: nat)
      requires Valid() && physAddr < TWO64
      modifies this, bitmap
      ensures Valid()
      ensures used == if BlockOf(physAddr) < MAX_BLOCKS then old(used) + {BlockOf(physAddr)} else old(used)
    {
      var block := BlockOf(physAddr);
      if block >= MAX_BLOCKS {
        return;
      }
      var isSet := TestBit(block);
      if !isSet {
        SetBit(block);
        usedBlocks := usedBlocks + 1;
      }
    }

    method MarkFree(physAddr: nat)
      requires Valid() && physAddr < TWO64
      modifies this, bitmap
      ensures Valid()
      ensures used == if BlockOf(physAddr) < MAX_BLOCKS then old(used) - {BlockOf(physAddr)} else old(used)
    {
      var block := BlockOf(physAddr);
      if block >= MAX_BLOCKS {
        return;
      }
      var isSet := TestBit(block);
      if isSet {
        assert |old(used) - {block}| == |old(used)| - 1;
        ClearBit(block);
        usedBlocks := usedBlocks - 1;
      }
    }

    /** Lowest-first allocation; 0 means either block 0 or that nothing is free. */
    method AllocBlock() returns (physAddr: nat)
      requires Valid()
      modifies this, bitmap
      ensures Valid()
      ensures AllocStep(old(used), physAddr, used)
    {
      var i := 0;
      while i < MAX_BLOCKS
        invariant i <= MAX_BLOCKS && Valid() && used == old(used)
        invariant forall c: nat | c < i :: c in used
      {
        var isSet := TestBit(i);
        if !isSet {
          assert i in AllBlocks();
          BlockAddress(i);
          physAddr := i * PAGE_SIZE;
          MarkUsed(physAddr);
          return;
        }
        i := i + 1;
      }
      assert used == AllBlocks();
      return 0;
    }

    method FreeBlock(physAddr: nat)
      requires Valid() && physAddr < TWO64
      modifies this, bitmap
      ensures Valid()
      ensures used == if BlockOf(physAddr) < MAX_BLOCKS then old(used) - {BlockOf(physAddr)} else old(used)
    {
      MarkFree(physAddr);
    }

    /** Fill the bitmap: the first step of Init. */
    method MarkAll()
      requires bitmap.Length == BITMAP_SIZE
      modifies this, bitmap
      ensures Valid() && used == AllBlocks()
    {
      for i := 0 to BITMAP_SIZE
        invariant forall k | 0 <= k < i :: bitmap[k] == 0xFF
      {
        bitmap[i] := 0xFF;
      }
      used := AllBlocks();
      forall n: nat | n < MAX_BLOCKS
        ensures Bit(bitmap[..], n)
      {
        FullByteBits(bitmap[..], n / 8);
      }
      CountBelow(MAX_BLOCKS);
      usedBlocks := MAX_BLOCKS;
    }

    /** One available entry, stepped through in 4 KiB strides from its address.
        Addresses at or above `limit` are skipped. */
    method FreeRange(e: MmapEntry, limit: nat)
      requires Valid() && e.addr < TWO64 && Stops(e)
      modifies this, bitmap
      ensures Valid() && used == old(used) - FreedOne(e, limit)
    {
      hide Represents, RangeInv, BlockOf, FreedOne;
      ghost var u0 := used;
      ghost var page: nat := e.addr / PAGE_SIZE;
      var a := e.addr;
      RangeStart(e, limit, u0);
      while a < End(e)
        invariant Valid() && RangeInv(e, limit, u0, used, page, a)
        decreases TWO64 - a
      {
        ghost var before := used;
        if a < limit {
          MarkFree(a);
        }
        RangeStep(e, limit, u0, before, used, page, a);
        page := page + 1;
        a := (a + PAGE_SIZE) % TWO64;
      }
      RangeDone(e, limit, u0, used, page, a);
    }

    /** The entries of one memory-map tag. */
    method FreeEntries(mem: Memory, t: nat, limit: nat)
      requires Valid() && TagType(mem, t) == MMAP_TAG && EntriesAdvance(mem, t) && AllStop(TagEntries(mem, t))
      modifies this, bitmap
      ensures Valid() && used == old(used) - Freed(TagEntries(mem, t), limit)
    {
      hide Represents, Freed, FreedOne, LittleEndian, EntriesInv, EntriesFrom, EntryAt, Stops;
      ghost var final := used - Freed(TagEntries(mem, t), limit);
      var stop, entrySize := t + TagSize(mem, t), EntrySize(mem, t);
      var e := t + 16;
      EntriesBegin(mem, e, stop, entrySize, used, limit);
      while e < stop
        invariant e >= t + 16 && Valid() && EntriesInv(mem, e, stop, entrySize, used, limit, final)
        decreases stop - e
      {
        var entry := EntryAt(mem, e);
        FreedEntry(mem, e, stop, entrySize, used, limit, final);
        if entry.kind == AVAILABLE {
          FreeRange(entry, limit);
        }
        e := e + entrySize;
      }
      EntriesDone(mem, e, stop, entrySize, used, limit, final);
    }

    /** The walk over all tags, common to both passes over the memory map. */
    method FreeAvailable(mem: Memory, start: nat, end: nat, limit: nat)
      requires Valid() && WalkEnds(mem, start, end) && AllStop(Entries(mem, start, end))
      modifies this, bitmap
      ensures Valid() && used == old(used) - Freed(Entries(mem, start, end), limit)
    {
      hide WalkInv, TagStep, Represents, EntriesAdvance;
      ghost var final := used - Freed(Entries(mem, start, end), limit);
      WalkBegins(mem, start, end, used, limit);
      var t := start;
      while t < end && TagType(mem, t) != 0
        invariant Valid() && WalkInv(mem, t, end, used, limit, final)
        decreases end - t
      {
        ghost var before := used;
        TagStops(mem, t, end, used, limit, final);
        if TagType(mem, t) == MMAP_TAG {
          FreeEntries(mem, t, limit);
        }
        WalkStep(mem, t, end, before, used, limit, final);
        t := t + TagStep(mem, t);
      }
      WalkDone(mem, t, end, used, limit, final);
    }

    /** Build the bitmap: everything used, the available memory below 256 MiB
        freed, then the kernel, the first MiB and one block of boot information
        reserved. */
    method Init(mem: Memory, mbi: nat, kernelStart: nat, kernelEnd: nat)
      requires bitmap.Length == BITMAP_SIZE && mbi < TWO32 && kernelStart < TWO64 && kernelEnd <= TWO64 - PAGE_SIZE
      requires WalkEnds(mem, mbi + 8, mbi + U32(mem, mbi))
      requires AllStop(Entries(mem, mbi + 8, mbi + U32(mem, mbi)))
      modifies this, bitmap
      ensures Valid()
      ensures used == UsedAfterInit(Entries(mem, mbi + 8, mbi + U32(mem, mbi)), mbi, kernelStart, kernelEnd)
    {
      hide Represents, Freed, ReservedBlocks, WalkEnds, AllStop, BlockOf;
      MarkAll();
      FreeAvailable(mem, mbi + 8, mbi + U32(mem, mbi), MAX_BLOCKS * PAGE_SIZE);
      ReserveRange(kernelStart, kernelEnd);
      ReserveRange(0, 0x100000);
      MarkUsed(mbi);
    }

    /** Mark blocks used in 4 KiB strides from an address. */
    method ReserveRange(from: nat, to: nat)
      requires Valid() && from < TWO64 && to <= TWO64 - PAGE_SIZE
      modifies this, bitmap
      ensures Valid() && used == old(used) + ReservedBlocks(from, to)
    {
      hide Represents, ReserveInv, BlockOf, ReservedBlocks;
      ghost var u0 := used;
      ghost var page: nat := from / PAGE_SIZE;
      var a := from;
      ReserveStart(from, to, u0);
      while a < to
        invariant Valid() && ReserveInv(from, to, u0, used, page, a)
        decreases TWO64 - a
      {
        ghost var before := used;
        MarkUsed(a);
        ReserveStep(from, to, u0, before, used, page, a);
        page := page + 1;
        a := a + PAGE_SIZE;
      }
      ReserveDone(from, to, u0, used, page, a);
    }

    /** Allocate until a block above the kernel comes back. It terminates
        because such a block exists; SafeAllocSpins shows that it otherwise
        would not. */
    method SafeAlloc(kernelEnd: nat) returns (addr: nat)
      requires Valid()
      requires FreeAbove(used, kernelEnd) != {}
      modifies this, bitmap
      ensures Valid()
      ensures addr % PAGE_SIZE == 0 && IsLowestAbove(old(used), kernelEnd, addr / PAGE_SIZE)
      ensures used == old(used) + Below(addr / PAGE_SIZE + 1)
    {
      hide Represents, AllocStep, SafeInv, FreeAbove, IsLowestAbove;
      ghost var u0 := used;
      ghost var w :| w in FreeAbove(u0, kernelEnd);
      addr := AllocBlock();
      FirstUsed(u0, w, kernelEnd, addr, used);
      while addr <= kernelEnd
        invariant Valid() && SafeInv(u0, kernelEnd, addr, used)
        decreases MAX_BLOCKS - addr / PAGE_SIZE
      {
        ghost var last, before := addr, used;
        SafeBound(u0, kernelEnd, addr, used);
        addr := AllocBlock();
        NextUsed(u0, w, kernelEnd, last, before, addr, used);
      }
      SafeDone(u0, w, kernelEnd, addr, used);
    }
  }

  // The blocks that the walks over the memory map free, and those reserved.

  ghost function Freed(es: seq<MmapEntry>, limit: nat): set<nat> {
    set b: nat | b < MAX_BLOCKS && FreedByAny(es, limit, b)
  }

  ghost function FreedOne(e: MmapEntry, limit: nat): set<nat> {
    set b: nat | b < MAX_BLOCKS && FreedBy(e, limit, b)
  }

  ghost predicate FreedBelow(e: MmapEntry, limit: nat, b: nat, bound: nat) {
    exists page: nat ::
      HitsPage(e, page) && page < bound && page * PAGE_SIZE + e.addr % PAGE_SIZE < limit && page % TWO32 == b
  }

  ghost function FreedFirst(e: MmapEntry, limit: nat, bound: nat): set<nat> {
    set b: nat | b < MAX_BLOCKS && FreedBelow(e, limit, b, bound)
  }

  /** The stepping through `e` stands at address `a` in page `page`. */
  ghost predicate RangeInv(e: MmapEntry, limit: nat, u0: set<nat>, used: set<nat>, page: nat, a: nat) {
    && page >= e.addr / PAGE_SIZE && a == page * PAGE_SIZE + e.addr % PAGE_SIZE
    && used == u0 - FreedFirst(e, limit, page)
    && (a >= End(e) ==> used == u0 - FreedOne(e, limit))
  }

  lemma RangeStart(e: MmapEntry, limit: nat, u0: set<nat>)
    ensures RangeInv(e, limit, u0, u0, e.addr / PAGE_SIZE, e.addr)
  {
  }

  lemma RangeDone(e: MmapEntry, limit: nat, u0: set<nat>, used: set<nat>, page: nat, a: nat)
    requires RangeInv(e, limit, u0, used, page, a) && a >= End(e)
    ensures used == u0 - FreedOne(e, limit)
  {
  }

  /** One stride does not wrap. */
  lemma Stride(e: MmapEntry, page: nat, a: nat)
    requires page >= e.addr / PAGE_SIZE && a == page * PAGE_SIZE + e.addr % PAGE_SIZE
    requires a < End(e) && Stops(e)
    ensures HitsPage(e, page) && BlockOf(a) == page % TWO32
    ensures a < (a + PAGE_SIZE) % TWO64 == (page + 1) * PAGE_SIZE + e.addr % PAGE_SIZE
  {
    assert a / PAGE_SIZE == page;
    assert a + PAGE_SIZE < TWO64;
  }

  lemma FreedFirstStep(e: MmapEntry, limit: nat, page: nat)
    requires HitsPage(e, page)
    ensures FreedFirst(e, limit, page + 1)
            == if page * PAGE_SIZE + e.addr % PAGE_SIZE < limit && page % TWO32 < MAX_BLOCKS
               then FreedFirst(e, limit, page) + {page % TWO32}
               else FreedFirst(e, limit, page)
  {
  }

  lemma FreedFirstAll(e: MmapEntry, limit: nat, page: nat)
    requires page * PAGE_SIZE + e.addr % PAGE_SIZE >= End(e)
    ensures FreedFirst(e, limit, page) == FreedOne(e, limit)
  {
    forall q: nat | HitsPage(e, q)
      ensures q < page
    {
    }
  }

  lemma RangeStep(e: MmapEntry, limit: nat, u0: set<nat>, before: set<nat>, after: set<nat>, page: nat, a: nat)
    requires RangeInv(e, limit, u0, before, page, a) && a < End(e) && Stops(e)
    requires after == if a < limit && BlockOf(a) < MAX_BLOCKS then before - {BlockOf(a)} else before
    ensures a < (a + PAGE_SIZE) % TWO64
    ensures RangeInv(e, limit, u0, after, page + 1, (a + PAGE_SIZE) % TWO64)
  {
    hide FreedFirst, FreedOne, HitsPage, BlockOf, Stops, End;
    Stride(e, page, a);
    FreedFirstStep(e, limit, page);
    if (a + PAGE_SIZE) % TWO64 >= End(e) {
      FreedFirstAll(e, limit, page + 1);
    }
  }

  lemma FreedAppend(es: seq<MmapEntry>, fs: seq<MmapEntry>, limit: nat)
    ensures Freed(es + fs, limit) == Freed(es, limit) + Freed(fs, limit)
  {
    forall b: nat | b < MAX_BLOCKS
      ensures FreedByAny(es + fs, limit, b) <==> FreedByAny(es, limit, b) || FreedByAny(fs, limit, b)
    {
    }
  }

  lemma FreedNone(limit: nat)
    ensures Freed([], limit) == {}
  {
  }

  /** What is left of a tag's entries leads to the final set. */
  ghost predicate EntriesInv(mem: Memory, e: nat, stop: nat, size: nat, u: set<nat>, limit: nat, final: set<nat>) {
    && (e < stop ==> size > 0) && AllStop(EntriesFrom(mem, e, stop, size))
    && u - Freed(EntriesFrom(mem, e, stop, size), limit) == final
  }

  lemma EntriesBegin(mem: Memory, e: nat, stop: nat, size: nat, u: set<nat>, limit: nat)
    requires (e < stop ==> size > 0) && AllStop(EntriesFrom(mem, e, stop, size))
    ensures EntriesInv(mem, e, stop, size, u, limit, u - Freed(EntriesFrom(mem, e, stop, size), limit))
  {
  }

  lemma EntriesDone(mem: Memory, e: nat, stop: nat, size: nat, u: set<nat>, limit: nat, final: set<nat>)
    requires EntriesInv(mem, e, stop, size, u, limit, final) && e >= stop
    ensures u == final
  {
    FreedNone(limit);
  }

  lemma FreedEntry(mem: Memory, e: nat, stop: nat, size: nat, u: set<nat>, limit: nat, final: set<nat>)
    requires e < stop && EntriesInv(mem, e, stop, size, u, limit, final)
    ensures size > 0 && EntryAt(mem, e).addr < TWO64 && (EntryAt(mem, e).kind == AVAILABLE ==> Stops(EntryAt(mem, e)))
    ensures var v := if EntryAt(mem, e).kind == AVAILABLE then u - FreedOne(EntryAt(mem, e), limit) else u;
      EntriesInv(mem, e + size, stop, size, v, limit, final)
  {
    hide LittleEndian, Stops;
    var entry, rest := EntryAt(mem, e), EntriesFrom(mem, e + size, stop, size);
    U64Bound(mem, e);
    FreedAppend([entry], rest, limit);
    assert Freed([entry], limit) == if entry.kind == AVAILABLE then FreedOne(entry, limit) else {} by {
      assert entry in [entry];
    }
    assert entry in [entry] + rest;
    assert forall f :: f in rest ==> f in [entry] + rest;
  }

  /** What the walk still has to free leads to the final set. */
  ghost predicate WalkInv(mem: Memory, t: nat, end: nat, u: set<nat>, limit: nat, final: set<nat>) {
    && WalkEnds(mem, t, end) && AllStop(Entries(mem, t, end))
    && u - Freed(Entries(mem, t, end), limit) == final
  }

  lemma WalkBegins(mem: Memory, t: nat, end: nat, u: set<nat>, limit: nat)
    requires WalkEnds(mem, t, end) && AllStop(Entries(mem, t, end))
    ensures WalkInv(mem, t, end, u, limit, u - Freed(Entries(mem, t, end), limit))
  {
  }

  lemma WalkDone(mem: Memory, t: nat, end: nat, u: set<nat>, limit: nat, final: set<nat>)
    requires WalkInv(mem, t, end, u, limit, final) && (t >= end || TagType(mem, t) == 0)
    ensures u == final
  {
    FreedNone(limit);
  }

  lemma TagStops(mem: Memory, t: nat, end: nat, u: set<nat>, limit: nat, final: set<nat>)
    requires WalkInv(mem, t, end, u, limit, final) && t < end && TagType(mem, t) != 0
    ensures TagType(mem, t) == MMAP_TAG ==> EntriesAdvance(mem, t) && AllStop(TagEntries(mem, t))
  {
    assert forall e :: e in TagEntries(mem, t) ==> e in Entries(mem, t, end);
  }

  lemma WalkStep(mem: Memory, t: nat, end: nat, before: set<nat>, after: set<nat>, limit: nat, final: set<nat>)
    requires WalkInv(mem, t, end, before, limit, final) && t < end && TagType(mem, t) != 0
    requires TagType(mem, t) == MMAP_TAG ==> after == before - Freed(TagEntries(mem, t), limit)
    requires TagType(mem, t) != MMAP_TAG ==> after == before
    ensures TagStep(mem, t) > 0 && WalkInv(mem, t + TagStep(mem, t), end, after, limit, final)
  {
    var now, rest := TagEntries(mem, t), Entries(mem, t + TagStep(mem, t), end);
    FreedAppend(now, rest, limit);
    FreedNone(limit);
    assert after == before - Freed(now, limit);
    assert forall e :: e in rest ==> e in now + rest;
  }

  /** The blocks marked by stepping from `from` up to `to`. */
  ghost predicate Steps(from: nat, to: nat, page: nat) {
    from / PAGE_SIZE <= page && page * PAGE_SIZE + from % PAGE_SIZE < to
  }

  ghost predicate ReservedBy(from: nat, to: nat, b: nat) {
    exists page: nat :: Steps(from, to, page) && page % TWO32 == b
  }

  ghost predicate ReservedBelow(from: nat, to: nat, b: nat, bound: nat) {
    exists page: nat :: Steps(from, to, page) && page < bound && page % TWO32 == b
  }

  ghost function ReservedFirst(from: nat, to: nat, bound: nat): set<nat> {
    set b: nat | b < MAX_BLOCKS && ReservedBelow(from, to, b, bound)
  }

  ghost function ReservedBlocks(from: nat, to: nat): set<nat> {
    set b: nat | b < MAX_BLOCKS && ReservedBy(from, to, b)
  }

  ghost predicate ReserveInv(from: nat, to: nat, u0: set<nat>, used: set<nat>, page: nat, a: nat) {
    && page >= from / PAGE_SIZE && a == page * PAGE_SIZE + from % PAGE_SIZE
    && used == u0 + ReservedFirst(from, to, page)
    && (a >= to ==> used == u0 + ReservedBlocks(from, to))
  }

  lemma ReserveStart(from: nat, to: nat, u0: set<nat>)
    ensures ReserveInv(from, to, u0, u0, from / PAGE_SIZE, from)
  {
  }

  lemma ReserveDone(from: nat, to: nat, u0: set<nat>, used: set<nat>, page: nat, a: nat)
    requires ReserveInv(from, to, u0, used, page, a) && a >= to
    ensures used == u0 + ReservedBlocks(from, to)
  {
  }

  lemma ReservedFirstStep(from: nat, to: nat, page: nat)
    requires Steps(from, to, page)
    ensures ReservedFirst(from, to, page + 1)
            == if page % TWO32 < MAX_BLOCKS then ReservedFirst(from, to, page) + {page % TWO32}
               else ReservedFirst(from, to, page)
  {
  }

  lemma ReservedFirstAll(from: nat, to: nat, page: nat)
    requires page * PAGE_SIZE + from % PAGE_SIZE >= to
    ensures ReservedFirst(from, to, page) == ReservedBlocks(from, to)
  {
    forall q: nat | Steps(from, to, q)
      ensures q < page
    {
    }
  }

  lemma ReserveStep(from: nat, to: nat, u0: set<nat>, before: set<nat>, after: set<nat>, page: nat, a: nat)
    requires ReserveInv(from, to, u0, before, page, a) && a < to
    requires after == if BlockOf(a) < MAX_BLOCKS then before + {BlockOf(a)} else before
    ensures ReserveInv(from, to, u0, after, page + 1, a + PAGE_SIZE)
  {
    hide ReservedFirst, ReservedBlocks;
    assert a / PAGE_SIZE == page;
    ReservedFirstStep(from, to, page);
    if a + PAGE_SIZE >= to {
      ReservedFirstAll(from, to, page + 1);
    }
  }

  /** What is used once Init has returned. */
  ghost function UsedAfterInit(es: seq<MmapEntry>, mbi: nat, kernelStart: nat, kernelEnd: nat): set<nat> {
    AllBlocks() - Freed(es, MAX_BLOCKS * PAGE_SIZE)
    + ReservedBlocks(kernelStart, kernelEnd) + ReservedBlocks(0, 0x100000)
    + (if BlockOf(mbi) < MAX_BLOCKS then {BlockOf(mbi)} else {})
  }

  /** `b` is the lowest free block that starts above `bound`. */
  ghost predicate IsLowestAbove(used: set<nat>, bound: nat, b: nat) {
    && b < MAX_BLOCKS && b in FreeAbove(used, bound)
    && forall c | c in FreeAbove(used, bound) :: b <= c
  }

  /** The loop of SafeAlloc: everything up to the last block handed out is
      used, nothing else has changed, and no candidate has been passed over. */
  ghost predicate SafeInv(u0: set<nat>, bound: nat, addr: nat, used: set<nat>) {
    var b := addr / PAGE_SIZE;
    && addr % PAGE_SIZE == 0 && b < MAX_BLOCKS && b !in u0
    && used == u0 + Below(b + 1)
    && forall c | c in FreeAbove(u0, bound) :: b <= c
  }

  lemma FirstUsed(u0: set<nat>, w: nat, bound: nat, addr: nat, used: set<nat>)
    requires w in FreeAbove(u0, bound) && AllocStep(u0, addr, used)
    ensures SafeInv(u0, bound, addr, used)
  {
    assert w in AllBlocks() && w !in u0;
  }

  lemma SafeDone(u0: set<nat>, w: nat, bound: nat, addr: nat, used: set<nat>)
    requires w in FreeAbove(u0, bound) && SafeInv(u0, bound, addr, used) && addr > bound
    ensures addr % PAGE_SIZE == 0 && IsLowestAbove(u0, bound, addr / PAGE_SIZE)
    ensures used == u0 + Below(addr / PAGE_SIZE + 1)
  {
    assert addr == addr / PAGE_SIZE * PAGE_SIZE;
  }

  lemma SafeBound(u0: set<nat>, bound: nat, addr: nat, used: set<nat>)
    requires SafeInv(u0, bound, addr, used)
    ensures addr / PAGE_SIZE < MAX_BLOCKS
  {
  }

  lemma NextUsed(u0: set<nat>, w: nat, bound: nat, last: nat, before: set<nat>, addr: nat, used: set<nat>)
    requires w in FreeAbove(u0, bound)
    requires SafeInv(u0, bound, last, before) && last <= bound
    requires AllocStep(before, addr, used)
    ensures SafeInv(u0, bound, addr, used) && addr / PAGE_SIZE > last / PAGE_SIZE
  {
    assert w in AllBlocks() && w !in before;
    var b, b0 := addr / PAGE_SIZE, last / PAGE_SIZE;
    assert b !in before;
    assert u0 + Below(b0 + 1) + {b} == u0 + Below(b + 1);
    forall c | c in FreeAbove(u0, bound)
      ensures b <= c
    {
      assert c > b0;
      assert c !in before;
    }
  }

  /** Successive allocations: `used[i]` is the state before the i-th one. */
  ghost predicate AllocRun(used: seq<set<nat>>, addrs: seq<nat>) {
    && |used| == |addrs| + 1
    && forall i | 0 <= i < |addrs| :: AllocStep(used[i], addrs[i], used[i + 1])
  }

  /** If no block above the kernel is free, then however often the loop of
      SafeAlloc allocates, it rejects the result: it never ends. */
  lemma {:induction false} SafeAllocSpins(used: seq<set<nat>>, addrs: seq<nat>, kernelEnd: nat)
    requires AllocRun(used, addrs)
    requires used[0] <= AllBlocks() && FreeAbove(used[0], kernelEnd) == {}
    ensures forall i | 0 <= i < |addrs| :: addrs[i] <= kernelEnd
  {
    if addrs != [] {
      var u, addr, v := used[0], addrs[0], used[1];
      assert AllocStep(u, addr, v);
      assert addr <= kernelEnd && v <= AllBlocks() by {
        if u != AllBlocks() {
          assert addr / PAGE_SIZE !in FreeAbove(u, kernelEnd);
        }
      }
      assert FreeAbove(v, kernelEnd) <= FreeAbove(u, kernelEnd);
      assert AllocRun(used[1..], addrs[1..]) by {
        forall i | 0 <= i < |addrs[1..]|
          ensures AllocStep(used[1..][i], addrs[1..][i], used[1..][i + 1])
        {
          assert AllocStep(used[i + 1], addrs[i + 1], used[i + 2]);
        }
      }
      SafeAllocSpins(used[1..], addrs[1..], kernelEnd);
      forall i | 0 <= i < |addrs|
        ensures addrs[i] <= kernelEnd
      {
        if i > 0 {
          assert addrs[i] == addrs[1..][i - 1];
        }
      }
    }
  }

  lemma FreeAfterSafeAlloc(used: set<nat>, bound: nat, b: nat)
    requires IsLowestAbove(used, bound, b)
    ensures FreeAbove(used + Below(b + 1), bound) == FreeAbove(used, bound) - {b}
    ensures LowUsed(used, bound) ==> used + Below(b + 1) == used + {b}
    ensures used <= AllBlocks() ==> used + Below(b + 1) <= AllBlocks() && LowUsed(used + Below(b + 1), bound)
  {
    forall c: nat | c < b
      ensures c in used || c * PAGE_SIZE <= bound
    {
      assert c in used || c !in FreeAbove(used, bound);
    }
    forall c: nat | c < MAX_BLOCKS && c * PAGE_SIZE <= bound
      ensures c in Below(b + 1)
    {
      assert c < b;
    }
  }

  /** Once everything up to the kernel end is used, an allocation that succeeds
      is above the kernel, so its result is not 0, and 0 means exactly that
      nothing was free. */
  lemma AllocUnambiguous(used: set<nat>, kernelEnd: nat, physAddr: nat, after: set<nat>)
    requires LowUsed(used, kernelEnd) && used <= AllBlocks()
    requires AllocStep(used, physAddr, after)
    ensures physAddr == 0 <==> used == AllBlocks()
    ensures physAddr != 0 ==> physAddr > kernelEnd
  {
    if used != AllBlocks() {
      assert physAddr == physAddr / PAGE_SIZE * PAGE_SIZE;
      assert physAddr / PAGE_SIZE !in used;
    }
  }

  // What the two walks over the memory map leave used.

  /** HitsPage in terms of the entry: its end does not wrap, and one of the addresses
      that lie 4 KiB apart from its first one on, up to its end, is in the page. */
  lemma HitsExactly(e: MmapEntry, b: nat)
    requires e.addr < TWO64 && e.len < TWO64
    ensures HitsPage(e, b)
            <==> e.addr + e.len < TWO64
                 && exists k: nat :: PagesOn(e.addr, k) < e.addr + e.len && PagesOn(e.addr, k) / PAGE_SIZE == b
  {
    if HitsPage(e, b) {
      var k := b - e.addr / PAGE_SIZE;
      assert PagesOn(e.addr, k) == b * PAGE_SIZE + e.addr % PAGE_SIZE;
      assert PagesOn(e.addr, k) / PAGE_SIZE == b;
    }
    forall k: nat | e.addr + e.len < TWO64 && PagesOn(e.addr, k) < e.addr + e.len && PagesOn(e.addr, k) / PAGE_SIZE == b
      ensures HitsPage(e, b)
    {
      assert PagesOn(e.addr, k) / PAGE_SIZE == e.addr / PAGE_SIZE + k;
    }
  }

  /** The address `k` pages on. */
  function PagesOn(a: nat, k: nat): nat {
    a + PAGE_SIZE * k
  }

  /** The same for a reservation. */
  lemma StepsExactly(from: nat, to: nat, b: nat)
    ensures Steps(from, to, b) <==> exists k: nat :: PagesOn(from, k) < to && PagesOn(from, k) / PAGE_SIZE == b
  {
    if Steps(from, to, b) {
      var k := b - from / PAGE_SIZE;
      assert PagesOn(from, k) == b * PAGE_SIZE + from % PAGE_SIZE;
      assert PagesOn(from, k) / PAGE_SIZE == b;
    }
    forall k: nat | PagesOn(from, k) < to && PagesOn(from, k) / PAGE_SIZE == b
      ensures Steps(from, to, b)
    {
      assert PagesOn(from, k) / PAGE_SIZE == from / PAGE_SIZE + k;
    }
  }

  /** Below 256 MiB the guarded walk frees exactly the pages it steps on. */
  lemma FreedBelowLimit(e: MmapEntry, b: nat)
    requires b < MAX_BLOCKS
    ensures FreedBy(e, MAX_BLOCKS * PAGE_SIZE, b) <==> HitsPage(e, b)
  {
    if HitsPage(e, b) {
      assert b * PAGE_SIZE + e.addr % PAGE_SIZE < MAX_BLOCKS * PAGE_SIZE && b % TWO32 == b;
    }
  }

  lemma ReservedMeans(from: nat, to: nat, b: nat)
    requires b < MAX_BLOCKS && to <= TWO32 * PAGE_SIZE
    ensures b in ReservedBlocks(from, to) <==> Steps(from, to, b)
  {
    forall page: nat | Steps(from, to, page)
      ensures page % TWO32 == page
    {
    }
  }

  /** After Init a block is used exactly if no entry of type 1 (available) steps on it or a
      reservation marks it. */
  lemma UsedAfterInitMeans(es: seq<MmapEntry>, mbi: nat, kernelStart: nat, kernelEnd: nat, b: nat)
    requires b < MAX_BLOCKS && kernelEnd <= TWO32 * PAGE_SIZE
    ensures b in UsedAfterInit(es, mbi, kernelStart, kernelEnd)
            <==> || (forall e :: e in es && e.kind == 1 ==> !HitsPage(e, b))
                 || Steps(kernelStart, kernelEnd, b)
                 || b < 0x100
                 || b == BlockOf(mbi)
  {
    ReservedMeans(kernelStart, kernelEnd, b);
    ReservedMeans(0, 0x100000, b);
    forall e: MmapEntry
      ensures FreedBy(e, MAX_BLOCKS * PAGE_SIZE, b) <==> HitsPage(e, b)
    {
      FreedBelowLimit(e, b);
    }
    assert b in AllBlocks();
  }

  /** The kernel's own pages are all reserved exactly if its start lies no
      further into its page than its last byte does. */
  lemma KernelPagesReserved(kernelStart: nat, kernelEnd: nat)
    requires kernelStart < kernelEnd <= MAX_BLOCKS * PAGE_SIZE
    ensures (forall b: nat | kernelStart / PAGE_SIZE <= b <= (kernelEnd - 1) / PAGE_SIZE ::
               b in ReservedBlocks(kernelStart, kernelEnd))
            <==> kernelStart % PAGE_SIZE <= (kernelEnd - 1) % PAGE_SIZE
  {
    var last := (kernelEnd - 1) / PAGE_SIZE;
    forall b: nat | b < MAX_BLOCKS
      ensures b in ReservedBlocks(kernelStart, kernelEnd) <==> Steps(kernelStart, kernelEnd, b)
    {
      ReservedMeans(kernelStart, kernelEnd, b);
    }
    assert last < MAX_BLOCKS && kernelStart / PAGE_SIZE <= last;
    assert last * PAGE_SIZE + (kernelEnd - 1) % PAGE_SIZE == kernelEnd - 1;
    assert Steps(kernelStart, kernelEnd, last) <==> kernelStart % PAGE_SIZE <= (kernelEnd - 1) % PAGE_SIZE;
  }

  /** The second walk frees every block an available entry reaches, so none of
      Init's reservations survives on such a block. */
  lemma ReservationsUndone(es: seq<MmapEntry>, mbi: nat, kernelStart: nat, kernelEnd: nat)
    ensures UsedAfterInit(es, mbi, kernelStart, kernelEnd) - Freed(es, TWO64) == AllBlocks() - Freed(es, TWO64)
  {
    forall b: nat | b < MAX_BLOCKS
      ensures FreedByAny(es, MAX_BLOCKS * PAGE_SIZE, b) ==> FreedByAny(es, TWO64, b)
    {
      if FreedByAny(es, MAX_BLOCKS * PAGE_SIZE, b) {
        var e :| e in es && e.kind == AVAILABLE && FreedBy(e, MAX_BLOCKS * PAGE_SIZE, b);
        assert FreedBy(e, TWO64, b);
      }
    }
  }
}
