/** The kernel heap on values: the list of blocks that tiles the heap, the
    first-fit allocation with splitting, and freeing with coalescing
    (kernel/mem/heap.c). */
module HeapList {
  import opened Machine

  /** Size of a block header. */
  const HEADER: nat := 24

  /** A block is named by the address of its header. */
  datatype Block = Block(addr: nat, size: nat, free: bool)

  function BlockEnd(b: Block): nat {
    b.addr + HEADER + b.size
  }

  /** The blocks lie one after the other from `s` to `e`. */
  predicate Tiles(bs: seq<Block>, s: nat, e: nat) {
    if bs == [] then s == e else bs[0].addr == s && Tiles(bs[1..], BlockEnd(bs[0]), e)
  }

  /** No two adjacent blocks are both free. */
  predicate Merged(bs: seq<Block>) {
    |bs| >= 2 ==> !(bs[0].free && bs[1].free) && Merged(bs[1..])
  }

  /** The allocated blocks. */
  ghost function Live(bs: seq<Block>): set<Block> {
    set b | b in bs && !b.free
  }

  /** Sizes are rounded up to 16 in 64-bit arithmetic. */
  function Round(size: nat): nat {
    (size + 15) % TWO64 / 16 * 16
  }

  predicate Fits(b: Block, n: nat) {
    b.free && b.size >= n
  }

  /** The block a fitting block becomes: split if enough is left over. */
  function Taken(b: Block, n: nat): (r: seq<Block>)
    requires Fits(b, n)
  {
    if b.size > n + HEADER + 32
    then [Block(b.addr, n, false), Block(b.addr + HEADER + n, b.size - n - HEADER, true)]
    else [b.(free := false)]
  }

  /** The list after allocating `n` bytes first-fit. */
  function Alloc(bs: seq<Block>, n: nat): seq<Block> {
    if bs == [] then []
    else if Fits(bs[0], n) then Taken(bs[0], n) + bs[1..]
    else [bs[0]] + Alloc(bs[1..], n)
  }

  /** The block that this allocation hands out. */
  function AllocBlock(bs: seq<Block>, n: nat): Option<Block> {
    if bs == [] then None
    else if Fits(bs[0], n) then Some(Taken(bs[0], n)[0])
    else AllocBlock(bs[1..], n)
  }

  function Merge(b: Block, c: Block): Block {
    Block(b.addr, b.size + c.size + HEADER, b.free)
  }

  /** The sweep that merges adjacent free blocks, from the front. */
  function Coalesce(bs: seq<Block>): seq<Block>
    decreases |bs|
  {
    if |bs| < 2 then bs
    else if bs[0].free && bs[1].free then Coalesce([Merge(bs[0], bs[1])] + bs[2..])
    else [bs[0]] + Coalesce(bs[1..])
  }

  /** Mark the block at `addr` free. */
  function Mark(bs: seq<Block>, addr: nat): seq<Block> {
    if bs == [] then []
    else [if bs[0].addr == addr then bs[0].(free := true) else bs[0]] + Mark(bs[1..], addr)
  }

  function Free(bs: seq<Block>, addr: nat): seq<Block> {
    Coalesce(Mark(bs, addr))
  }

  // Tilings.

  /** In a tiling every block starts at or after `s` and ends by `e`, and later
      blocks start where earlier ones have ended. */
  lemma {:induction false} TilesOrder(bs: seq<Block>, s: nat, e: nat)
    requires Tiles(bs, s, e)
    ensures s <= e
    ensures forall i | 0 <= i < |bs| :: s <= bs[i].addr && BlockEnd(bs[i]) <= e
    ensures forall i, j | 0 <= i < j < |bs| :: BlockEnd(bs[i]) <= bs[j].addr
  {
    if bs != [] {
      TilesOrder(bs[1..], BlockEnd(bs[0]), e);
      forall i | 0 <= i < |bs|
        ensures s <= bs[i].addr && BlockEnd(bs[i]) <= e
      {
        if i > 0 {
          assert bs[i] == bs[1..][i - 1];
        }
      }
      forall i, j | 0 <= i < j < |bs|
        ensures BlockEnd(bs[i]) <= bs[j].addr
      {
        assert bs[j] == bs[1..][j - 1];
        if i > 0 {
          assert bs[i] == bs[1..][i - 1];
        }
      }
    }
  }

  /** Blocks of a tiling with the same address are the same. */
  lemma TilesUnique(bs: seq<Block>, s: nat, e: nat, b: Block, c: Block)
    requires Tiles(bs, s, e) && b in bs && c in bs
    requires b.addr < BlockEnd(c) && c.addr < BlockEnd(b)
    ensures b == c
  {
    TilesOrder(bs, s, e);
  }

  /** Payloads of different blocks do not overlap. */
  lemma PayloadsDisjoint(bs: seq<Block>, s: nat, e: nat, b: Block, c: Block, x: nat)
    requires Tiles(bs, s, e) && b in bs && c in bs && b != c
    ensures !(b.addr <= x < BlockEnd(b) && c.addr <= x < BlockEnd(c))
  {
    TilesOrder(bs, s, e);
  }

  lemma {:induction false} LiveCons(b: Block, bs: seq<Block>)
    ensures Live([b] + bs) == (if b.free then {} else {b}) + Live(bs)
  {
  }

  lemma ConsTail<T>(s: seq<T>)
    requires s != []
    ensures s == [s[0]] + s[1..]
  {
  }

  // The sweep.

  /** The sweep keeps the tiling and the allocated blocks and leaves no two
      adjacent free blocks. */
  lemma {:induction false} CoalesceKeeps(bs: seq<Block>, s: nat, e: nat)
    requires Tiles(bs, s, e)
    ensures Tiles(Coalesce(bs), s, e)
    ensures Live(Coalesce(bs)) == Live(bs)
    ensures Merged(Coalesce(bs))
    ensures bs != [] ==> Coalesce(bs) != [] && Coalesce(bs)[0].free == bs[0].free
    decreases |bs|
  {
    if |bs| >= 2 {
      if bs[0].free && bs[1].free {
        var ds := [Merge(bs[0], bs[1])] + bs[2..];
        assert ds[1..] == bs[2..] == bs[1..][1..];
        CoalesceKeeps(ds, s, e);
        assert Live(ds) == Live(bs) by {
          LiveCons(Merge(bs[0], bs[1]), bs[2..]);
          LiveCons(bs[1], bs[2..]);
          LiveCons(bs[0], bs[1..]);
          assert bs == [bs[0]] + bs[1..] && bs[1..] == [bs[1]] + bs[2..];
        }
      } else {
        var cs := Coalesce(bs[1..]);
        CoalesceKeeps(bs[1..], BlockEnd(bs[0]), e);
        assert ([bs[0]] + cs)[1..] == cs;
        LiveCons(bs[0], cs);
        LiveCons(bs[0], bs[1..]);
        assert bs == [bs[0]] + bs[1..];
      }
    }
  }

  /** Where nothing can be merged the sweep changes nothing. */
  lemma {:induction false} CoalesceMerged(bs: seq<Block>)
    requires Merged(bs)
    ensures Coalesce(bs) == bs
  {
    if |bs| >= 2 {
      CoalesceMerged(bs[1..]);
      ConsTail(bs);
    }
  }

  lemma {:induction false} MarkKeeps(bs: seq<Block>, s: nat, e: nat, addr: nat)
    requires Tiles(bs, s, e)
    ensures Tiles(Mark(bs, addr), s, e)
    ensures Live(Mark(bs, addr)) == set b | b in Live(bs) && b.addr != addr
  {
    if bs != [] {
      MarkKeeps(bs[1..], BlockEnd(bs[0]), e, addr);
      var b := if bs[0].addr == addr then bs[0].(free := true) else bs[0];
      var ms := Mark(bs[1..], addr);
      assert ([b] + ms)[1..] == ms;
      LiveCons(b, ms);
      LiveCons(bs[0], bs[1..]);
      ConsTail(bs);
    }
  }

  /** Freeing removes exactly the block at `addr` from the allocated ones. */
  lemma FreeKeeps(bs: seq<Block>, s: nat, e: nat, addr: nat)
    requires Tiles(bs, s, e)
    ensures Tiles(Free(bs, addr), s, e) && Merged(Free(bs, addr))
    ensures Live(Free(bs, addr)) == set b | b in Live(bs) && b.addr != addr
  {
    MarkKeeps(bs, s, e, addr);
    CoalesceKeeps(Mark(bs, addr), s, e);
  }

  // Allocation.

  lemma TakenKeeps(b: Block, n: nat)
    requires Fits(b, n)
    ensures var r := Taken(b, n);
      && r != [] && r[0].addr == b.addr && !r[0].free && n <= r[0].size <= n + HEADER + 32
      && Tiles(r, b.addr, BlockEnd(b)) && Live(r) == {r[0]} && Merged(r)
  {
    var r := Taken(b, n);
    if |r| == 2 {
      assert r[1..] == [r[1]] && r[1..][1..] == [];
      assert r == [r[0]] + [r[1]];
    } else {
      assert r[1..] == [];
    }
  }

  lemma {:induction false} TilesAppend(a: seq<Block>, b: seq<Block>, s: nat, m: nat, e: nat)
    requires Tiles(a, s, m) && Tiles(b, m, e)
    ensures Tiles(a + b, s, e)
  {
    if a == [] {
      assert a + b == b;
    } else {
      TilesAppend(a[1..], b, BlockEnd(a[0]), m, e);
      assert (a + b)[1..] == a[1..] + b;
    }
  }

  lemma LiveAppend(a: seq<Block>, b: seq<Block>)
    ensures Live(a + b) == Live(a) + Live(b)
  {
  }

  /** The first block taken. */
  lemma TakeHead(bs: seq<Block>, s: nat, e: nat, n: nat)
    requires Tiles(bs, s, e) && bs != [] && Fits(bs[0], n)
    ensures var r := Taken(bs[0], n);
      && r != [] && Tiles(r + bs[1..], s, e) && Live(r + bs[1..]) == Live(bs) + {r[0]}
      && r[0] in r + bs[1..] && !r[0].free && n <= r[0].size <= n + HEADER + 32
      && s <= r[0].addr && BlockEnd(r[0]) <= e
      && forall c | c in Live(bs) :: c.addr != r[0].addr
  {
    hide Taken;
    var r, rest := Taken(bs[0], n), bs[1..];
    ConsTail(bs);
    LiveCons(bs[0], rest);
    TilesOrder(bs, s, e);
    TakenKeeps(bs[0], n);
    TilesAppend(r, rest, s, BlockEnd(bs[0]), e);
    LiveAppend(r, rest);
    TilesOrder(r, s, BlockEnd(bs[0]));
    forall c | c in Live(bs)
      ensures c.addr != r[0].addr
    {
      assert c in rest;
    }
  }

  /** Allocation keeps the tiling and adds exactly one allocated block: the one
      handed out, whose address was not allocated before and which exceeds the
      request by at most 56 bytes. */
  lemma {:induction false} AllocKeeps(bs: seq<Block>, s: nat, e: nat, n: nat)
    requires Tiles(bs, s, e)
    ensures Tiles(Alloc(bs, n), s, e)
    ensures match AllocBlock(bs, n)
            case None => Alloc(bs, n) == bs
            case Some(b) =>
              && Live(Alloc(bs, n)) == Live(bs) + {b}
              && b in Alloc(bs, n) && !b.free && n <= b.size <= n + HEADER + 32
              && s <= b.addr && BlockEnd(b) <= e
              && forall c | c in Live(bs) :: c.addr != b.addr
  {
    hide Taken;
    if bs != [] {
      if Fits(bs[0], n) {
        TakeHead(bs, s, e, n);
      } else {
        var rest := bs[1..];
        AllocKeeps(rest, BlockEnd(bs[0]), e, n);
        var cs := Alloc(rest, n);
        ConsTail(bs);
        LiveCons(bs[0], rest);
        LiveCons(bs[0], cs);
        TilesOrder(bs, s, e);
        assert ([bs[0]] + cs)[1..] == cs;
      }
    }
  }

  lemma {:induction false} AllocMerged(bs: seq<Block>, n: nat)
    requires Merged(bs)
    ensures Merged(Alloc(bs, n))
    ensures bs != [] ==> Alloc(bs, n) != [] && (Alloc(bs, n)[0].free ==> bs[0].free)
  {
    if bs != [] {
      var rest := bs[1..];
      if Fits(bs[0], n) {
        var r := Taken(bs[0], n);
        if |r| == 2 {
          assert (r + rest)[1..] == [r[1]] + rest && ([r[1]] + rest)[1..] == rest;
          if rest != [] {
            assert !rest[0].free;
          }
        } else {
          assert (r + rest)[1..] == rest;
        }
      } else {
        AllocMerged(rest, n);
        assert ([bs[0]] + Alloc(rest, n))[1..] == Alloc(rest, n);
      }
    }
  }

  // The list is determined by the allocated blocks.

  lemma {:induction false} Canonical(bs: seq<Block>, cs: seq<Block>, s: nat, e: nat)
    requires Tiles(bs, s, e) && Tiles(cs, s, e) && Merged(bs) && Merged(cs)
    requires Live(bs) == Live(cs)
    ensures bs == cs
    decreases |bs|
  {
    TilesOrder(bs, s, e);
    TilesOrder(cs, s, e);
    if bs == [] || cs == [] {
      assert bs == [] && cs == [];
    } else {
      var b, c := bs[0], cs[0];
      SameHead(bs, cs, s, e);
      ConsTail(bs);
      ConsTail(cs);
      LiveCons(b, bs[1..]);
      LiveCons(c, cs[1..]);
      NotInTail(bs, s, e);
      NotInTail(cs, s, e);
      Canonical(bs[1..], cs[1..], BlockEnd(b), e);
    }
  }

  lemma NotInTail(bs: seq<Block>, s: nat, e: nat)
    requires Tiles(bs, s, e) && bs != []
    ensures bs[0] !in Live(bs[1..])
  {
    TilesOrder(bs[1..], BlockEnd(bs[0]), e);
  }

  lemma SameHead(bs: seq<Block>, cs: seq<Block>, s: nat, e: nat)
    requires Tiles(bs, s, e) && Tiles(cs, s, e) && Merged(bs) && Merged(cs)
    requires Live(bs) == Live(cs) && bs != [] && cs != []
    ensures bs[0] == cs[0]
  {
    var b, c := bs[0], cs[0];
    if !b.free {
      assert b in Live(cs);
      TilesUnique(cs, s, e, b, c);
    } else if !c.free {
      assert c in Live(bs);
      TilesUnique(bs, s, e, b, c);
    } else {
      FreeHeadNotShorter(bs, cs, s, e);
      FreeHeadNotShorter(cs, bs, s, e);
    }
  }

  lemma FreeHeadNotShorter(bs: seq<Block>, cs: seq<Block>, s: nat, e: nat)
    requires Tiles(bs, s, e) && Tiles(cs, s, e) && Merged(bs)
    requires Live(bs) == Live(cs) && bs != [] && cs != [] && bs[0].free && cs[0].free
    ensures bs[0].size >= cs[0].size
  {
    TilesOrder(cs, s, e);
    if |bs| == 1 {
      assert bs[1..] == [];
      assert BlockEnd(bs[0]) == e;
    } else {
      var d := bs[1];
      assert bs[1..][0] == d && !d.free;
      assert d in Live(cs);
      assert BlockEnd(cs[0]) <= d.addr;
    }
  }
}
