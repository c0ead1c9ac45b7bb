/** What clients of the kernel heap can rely on (kernel/mem/heap.c). */
module HeapLaws {
  import opened HeapList
  import opened Machine

  /** Freeing what was just allocated restores the list exactly. */
  lemma FreeUndoesAlloc(bs: seq<Block>, s: nat, e: nat, n: nat)
    requires Tiles(bs, s, e) && Merged(bs) && AllocBlock(bs, n).Some?
    ensures Free(Alloc(bs, n), AllocBlock(bs, n).value.addr) == bs
  {
    var b := AllocBlock(bs, n).value;
    AllocKeeps(bs, s, e, n);
    FreeKeeps(Alloc(bs, n), s, e, b.addr);
    assert (set c | c in Live(bs) + {b} && c.addr != b.addr) == Live(bs);
    Canonical(Free(Alloc(bs, n), b.addr), bs, s, e);
  }

  /** Free several blocks, first to last. */
  function FreeAll(bs: seq<Block>, addrs: seq<nat>): seq<Block>
    decreases |addrs|
  {
    if addrs == [] then bs else FreeAll(Free(bs, addrs[0]), addrs[1..])
  }

  lemma {:induction false} FreeAllKeeps(bs: seq<Block>, s: nat, e: nat, addrs: seq<nat>)
    requires Tiles(bs, s, e) && Merged(bs)
    ensures Tiles(FreeAll(bs, addrs), s, e) && Merged(FreeAll(bs, addrs))
    ensures Live(FreeAll(bs, addrs)) == set b | b in Live(bs) && b.addr !in addrs
    decreases |addrs|
  {
    if addrs == [] {
      assert Live(bs) == set b | b in Live(bs) && b.addr !in addrs;
    } else {
      FreeKeeps(bs, s, e, addrs[0]);
      FreeAllKeeps(Free(bs, addrs[0]), s, e, addrs[1..]);
      assert forall a :: a in addrs <==> a == addrs[0] || a in addrs[1..];
    }
  }

  /** The order of frees does not matter, nor do repeated ones. */
  lemma FreeOrder(bs: seq<Block>, s: nat, e: nat, xs: seq<nat>, ys: seq<nat>)
    requires Tiles(bs, s, e) && Merged(bs)
    requires forall a: nat :: a in xs <==> a in ys
    ensures FreeAll(bs, xs) == FreeAll(bs, ys)
  {
    FreeAllKeeps(bs, s, e, xs);
    FreeAllKeeps(bs, s, e, ys);
    Canonical(FreeAll(bs, xs), FreeAll(bs, ys), s, e);
  }

  /** Freeing everything leaves the single block that heap_init made. */
  lemma FreeEverything(bs: seq<Block>, s: nat, e: nat, addrs: seq<nat>)
    requires Tiles(bs, s, e) && Merged(bs) && bs != []
    requires forall b | b in Live(bs) :: b.addr in addrs
    ensures s + HEADER <= e && FreeAll(bs, addrs) == [Block(s, e - s - HEADER, true)]
  {
    TilesOrder(bs, s, e);
    assert BlockEnd(bs[0]) <= e;
    var one := [Block(s, e - s - HEADER, true)];
    FreeAllKeeps(bs, s, e, addrs);
    assert one[1..] == [];
    Canonical(FreeAll(bs, addrs), one, s, e);
  }

  // When allocation fails.

  /** The bytes from `a` up to `a + len` lie in the heap and outside every allocated block. */
  ghost predicate Gap(bs: seq<Block>, s: nat, e: nat, a: nat, len: nat) {
    && s <= a && a + len <= e
    && forall c | c in Live(bs) :: BlockEnd(c) <= a || a + len <= c.addr
  }

  /** A gap that holds a header and `n` bytes. */
  ghost predicate GapFor(bs: seq<Block>, s: nat, e: nat, n: nat, a: nat) {
    Gap(bs, s, e, a, HEADER + n)
  }

  lemma FitIsGap(bs: seq<Block>, s: nat, e: nat, n: nat)
    requires Tiles(bs, s, e) && AllocBlock(bs, n).Some?
    ensures exists a: nat :: GapFor(bs, s, e, n, a)
  {
    hide Alloc, AllocBlock, Tiles;
    AllocKeeps(bs, s, e, n);
    TilesOrder(Alloc(bs, n), s, e);
    var b := AllocBlock(bs, n).value;
    forall c | c in Live(bs)
      ensures BlockEnd(c) <= b.addr || b.addr + HEADER + n <= c.addr
    {
      assert c in Live(Alloc(bs, n)) && c != b;
      assert c in Alloc(bs, n) && b in Alloc(bs, n);
    }
    assert GapFor(bs, s, e, n, b.addr);
  }

  lemma {:induction false} GapFits(bs: seq<Block>, s: nat, e: nat, a: nat, n: nat)
    requires Tiles(bs, s, e) && Merged(bs) && Gap(bs, s, e, a, HEADER + n)
    ensures AllocBlock(bs, n).Some?
  {
    if bs == [] {
      assert false;
    } else {
      var b, rest := bs[0], bs[1..];
      TilesOrder(bs, s, e);
      if a >= BlockEnd(b) {
        assert forall c | c in Live(rest) :: c in Live(bs);
        GapFits(rest, BlockEnd(b), e, a, n);
      } else {
        assert b.free by {
          assert !b.free ==> b in Live(bs);
        }
        if rest != [] {
          assert rest[0] in Live(bs);
          assert BlockEnd(b) == rest[0].addr;
        }
        assert a + HEADER + n <= BlockEnd(b);
      }
    }
  }

  /** kmalloc fails exactly if no gap between allocated blocks holds a header
      and the rounded size. */
  lemma AllocFailsExactly(bs: seq<Block>, s: nat, e: nat, n: nat)
    requires Tiles(bs, s, e) && Merged(bs)
    ensures AllocBlock(bs, n).None? <==> !exists a: nat :: GapFor(bs, s, e, n, a)
  {
    if exists a: nat :: GapFor(bs, s, e, n, a) {
      var a: nat :| GapFor(bs, s, e, n, a);
      GapFits(bs, s, e, a, n);
    } else if AllocBlock(bs, n).Some? {
      FitIsGap(bs, s, e, n);
    }
  }

  /** Block `b` is made of block `c` of the list: the first one that is free and large
      enough, cut to size if that leaves more than a header and 32 bytes. */
  predicate FirstFit(bs: seq<Block>, n: nat, b: Block, c: Block) {
    && c in bs && c.free && c.size >= n && b.addr == c.addr && !b.free
    && b.size == (if c.size > n + 56 then n else c.size)
    && forall d | d in bs && d.addr < c.addr :: !(d.free && d.size >= n)
  }

  lemma {:induction false} AllocFirstFit(bs: seq<Block>, s: nat, e: nat, n: nat) returns (c: Block)
    requires Tiles(bs, s, e) && AllocBlock(bs, n).Some?
    ensures FirstFit(bs, n, AllocBlock(bs, n).value, c)
  {
    TilesOrder(bs, s, e);
    ConsTail(bs);
    if Fits(bs[0], n) {
      c := bs[0];
    } else {
      c := AllocFirstFit(bs[1..], BlockEnd(bs[0]), e, n);
    }
  }

  /** Rounding returns at least the size asked for, and a multiple of 16,
      exactly up to 2^64 - 16; above that it wraps to 0. */
  lemma RoundMeans(size: nat)
    requires size < TWO64
    ensures size <= TWO64 - 16 ==> size <= Round(size) < size + 16 && Round(size) % 16 == 0
    ensures size > TWO64 - 16 ==> Round(size) == 0
  {
  }

  // Alignment.

  predicate Aligned(bs: seq<Block>) {
    forall b | b in bs :: b.size % 8 == 0
  }

  lemma EightTimes(q: int)
    ensures 8 * q % 8 == 0
  {
  }

  lemma TakenAligned(b: Block, n: nat, x: nat, y: nat)
    requires Fits(b, n) && b.size == 8 * x && n == 8 * y
    ensures Aligned(Taken(b, n))
  {
    EightTimes(y);
    EightTimes(x);
    EightTimes(x - y - 3);
    assert b.size - n - HEADER == 8 * (x - y - 3);
  }

  lemma {:induction false} AllocAligned(bs: seq<Block>, n: nat)
    requires Aligned(bs) && n % 8 == 0
    ensures Aligned(Alloc(bs, n))
  {
    hide Taken;
    if bs != [] {
      assert forall b | b in bs[1..] :: b in bs;
      assert bs[0] in bs;
      if Fits(bs[0], n) {
        TakenAligned(bs[0], n, bs[0].size / 8, n / 8);
      } else {
        AllocAligned(bs[1..], n);
      }
    }
  }

  lemma MergeAligned(b: Block, c: Block, x: nat, y: nat)
    requires b.size == 8 * x && c.size == 8 * y
    ensures Merge(b, c).size % 8 == 0
  {
    assert Merge(b, c).size == 8 * (x + y + 3);
    EightTimes(x + y + 3);
  }

  lemma {:induction false} CoalesceAligned(bs: seq<Block>)
    requires Aligned(bs)
    ensures Aligned(Coalesce(bs))
    decreases |bs|
  {
    hide Merge;
    if |bs| >= 2 {
      assert bs[0] in bs && bs[1] in bs;
      if bs[0].free && bs[1].free {
        MergeAligned(bs[0], bs[1], bs[0].size / 8, bs[1].size / 8);
        CoalesceAligned([Merge(bs[0], bs[1])] + bs[2..]);
      } else {
        CoalesceAligned(bs[1..]);
      }
    }
  }

  lemma {:induction false} MarkAligned(bs: seq<Block>, addr: nat)
    requires Aligned(bs)
    ensures Aligned(Mark(bs, addr))
  {
    if bs != [] {
      assert forall b | b in bs[1..] :: b in bs;
      assert bs[0] in bs;
      MarkAligned(bs[1..], addr);
    }
  }

  lemma FreeAligned(bs: seq<Block>, addr: nat)
    requires Aligned(bs)
    ensures Aligned(Free(bs, addr))
  {
    hide Aligned;
    MarkAligned(bs, addr);
    CoalesceAligned(Mark(bs, addr));
  }

  /** In a heap whose ends are multiples of 8, so are all block sizes. */
  predicate AlignedIn(bs: seq<Block>, s: nat, e: nat) {
    s % 8 == 0 && e % 8 == 0 ==> Aligned(bs)
  }

  /** A rounded request is a multiple of 8, also when it wraps. */
  lemma RoundAligned(size: nat)
    ensures Round(size) % 8 == 0
  {
    EightDivides((size + 15) % TWO64 / 16);
  }

  lemma EightDivides(q: nat)
    ensures q * 16 % 8 == 0
  {
    assert q * 16 == 8 * (2 * q);
  }

  lemma OneBlockAligned(s: nat, e: nat)
    requires s + HEADER <= e
    ensures AlignedIn([Block(s, e - s - HEADER, true)], s, e)
  {
    if s % 8 == 0 && e % 8 == 0 {
      assert e - s - HEADER == 8 * (e / 8 - s / 8 - 3);
      EightTimes(e / 8 - s / 8 - 3);
    }
  }

  /** The block that an allocation hands out starts on a multiple of 8. */
  lemma AllocatedAligned(bs: seq<Block>, s: nat, e: nat, n: nat)
    requires Tiles(bs, s, e) && AlignedIn(bs, s, e) && n % 8 == 0 && AllocBlock(bs, n).Some?
    ensures s % 8 == 0 && e % 8 == 0 ==> (AllocBlock(bs, n).value.addr + HEADER) % 8 == 0
  {
    hide Alloc, AllocBlock, Tiles;
    AllocKeeps(bs, s, e, n);
    if s % 8 == 0 && e % 8 == 0 {
      AllocAligned(bs, n);
      AlignedAddresses(Alloc(bs, n), s, e);
    }
  }

  lemma {:induction false} AlignedAddresses(bs: seq<Block>, s: nat, e: nat)
    requires Tiles(bs, s, e) && Aligned(bs) && s % 8 == 0
    ensures forall b | b in bs :: (b.addr + HEADER) % 8 == 0
  {
    if bs != [] {
      assert forall b | b in bs[1..] :: b in bs;
      assert bs[0] in bs;
      var x, y := s / 8, bs[0].size / 8;
      assert bs[0].addr + HEADER == 8 * (x + 3) && BlockEnd(bs[0]) == 8 * (x + 3 + y);
      EightTimes(x + 3);
      EightTimes(x + 3 + y);
      AlignedAddresses(bs[1..], BlockEnd(bs[0]), e);
      ConsTail(bs);
    }
  }

  /** Header and payload sizes always add up to the heap. */
  function Total(bs: seq<Block>): nat {
    if bs == [] then 0 else HEADER + bs[0].size + Total(bs[1..])
  }

  lemma {:induction false} TilesTotal(bs: seq<Block>, s: nat, e: nat)
    requires Tiles(bs, s, e)
    ensures s + Total(bs) == e
  {
    if bs != [] {
      TilesTotal(bs[1..], BlockEnd(bs[0]), e);
    }
  }
}
