/** The heap list as linked headers in memory, and what each step of the
    in-place algorithms does to it (kernel/mem/heap.c). */
module HeapLinks {
  import opened HeapList
  import opened Machine

  const HEAP_MAGIC: nat := 0x1234_5678

  datatype Header = Header(magic: nat, isFree: bool, size: nat, next: nat)

  /** The address that the header of block `i` points on to; 0 ends the list. */
  function NextAddr(bs: seq<Block>, i: nat): nat {
    if i + 1 < |bs| then bs[i + 1].addr else 0
  }

  function HeaderOf(bs: seq<Block>, i: nat): Header
    requires i < |bs|
  {
    Header(HEAP_MAGIC, bs[i].free, bs[i].size, NextAddr(bs, i))
  }

  /** The headers in memory form the list `bs`. */
  ghost predicate Links(memory: map<nat, Header>, bs: seq<Block>) {
    forall i: nat {:trigger bs[i]} | i < |bs| ::
      bs[i].addr in memory && memory[bs[i].addr] == HeaderOf(bs, i)
  }

  /** A non-empty linked list that tiles the range from `s` to `e`. */
  ghost predicate Linked(memory: map<nat, Header>, bs: seq<Block>, s: nat, e: nat) {
    64 <= s && e <= TWO64 && bs != [] && Tiles(bs, s, e) && Links(memory, bs)
  }

  lemma HeaderAt(memory: map<nat, Header>, bs: seq<Block>, s: nat, e: nat, i: nat)
    requires Linked(memory, bs, s, e) && i < |bs|
    ensures bs[i].addr in memory && memory[bs[i].addr] == HeaderOf(bs, i)
    ensures bs[i].addr >= 64 && BlockEnd(bs[i]) <= TWO64
    ensures NextAddr(bs, i) == 0 <==> i + 1 == |bs|
  {
    TilesOrder(bs, s, e);
  }

  /** No other header lies within block `i`. */
  lemma Apart(bs: seq<Block>, s: nat, e: nat, i: nat)
    requires Tiles(bs, s, e) && i < |bs|
    ensures forall j: nat | j < |bs| && j != i :: bs[j].addr < bs[i].addr || BlockEnd(bs[i]) <= bs[j].addr
  {
    TilesOrder(bs, s, e);
  }

  /** Writing the header of block `i` alone. */
  lemma SetHeader(memory: map<nat, Header>, bs: seq<Block>, s: nat, e: nat, i: nat, free: bool)
    requires Linked(memory, bs, s, e) && i < |bs|
    ensures Links(memory[bs[i].addr := HeaderOf(bs, i).(isFree := free)], bs[i := bs[i].(free := free)])
  {
    hide Tiles;
    Apart(bs, s, e, i);
    var m, cs := memory[bs[i].addr := HeaderOf(bs, i).(isFree := free)], bs[i := bs[i].(free := free)];
    forall j: nat | j < |cs|
      ensures cs[j].addr in m && m[cs[j].addr] == HeaderOf(cs, j)
    {
      assert bs[j].addr in memory && memory[bs[j].addr] == HeaderOf(bs, j);
      assert NextAddr(cs, j) == NextAddr(bs, j);
    }
  }

  // The first-fit search.

  /** The search stands at block `i`; no earlier block fits. */
  ghost predicate Searching(bs: seq<Block>, n: nat, i: nat, current: nat) {
    && i <= |bs|
    && current == (if i < |bs| then bs[i].addr else 0)
    && (current == 0 <==> i == |bs|)
    && forall j: nat | j < i :: !Fits(bs[j], n)
  }

  lemma SearchStart(memory: map<nat, Header>, bs: seq<Block>, s: nat, e: nat, n: nat)
    requires if s == 0 then bs == [] else Linked(memory, bs, s, e)
    ensures Searching(bs, n, 0, s)
  {
  }

  /** The list right after heap_init: one free block. */
  lemma OneBlock(memory: map<nat, Header>, s: nat, e: nat)
    requires 64 <= s && s + HEADER <= e <= TWO64
    ensures Linked(memory[s := Header(HEAP_MAGIC, true, e - s - HEADER, 0)], [Block(s, e - s - HEADER, true)], s, e)
    ensures Merged([Block(s, e - s - HEADER, true)])
  {
    var bs := [Block(s, e - s - HEADER, true)];
    assert bs[1..] == [] && BlockEnd(bs[0]) == e;
  }

  lemma {:induction false} AllocAt(bs: seq<Block>, n: nat, i: nat)
    requires i < |bs| && Fits(bs[i], n) && forall j: nat | j < i :: !Fits(bs[j], n)
    ensures Alloc(bs, n) == bs[..i] + Taken(bs[i], n) + bs[i + 1..]
    ensures AllocBlock(bs, n) == Some(Taken(bs[i], n)[0])
  {
    if i > 0 {
      var rest := bs[1..];
      forall j: nat | j < i - 1
        ensures !Fits(rest[j], n)
      {
        assert rest[j] == bs[j + 1];
      }
      AllocAt(rest, n, i - 1);
      assert [bs[0]] + rest[..i - 1] == bs[..i];
      assert rest[i..] == bs[i + 1..];
    }
  }

  lemma {:induction false} AllocNowhere(bs: seq<Block>, n: nat)
    requires forall j: nat | j < |bs| :: !Fits(bs[j], n)
    ensures Alloc(bs, n) == bs && AllocBlock(bs, n) == None
  {
    if bs != [] {
      forall j: nat | j < |bs[1..]|
        ensures !Fits(bs[1..][j], n)
      {
        assert bs[1..][j] == bs[j + 1];
      }
      AllocNowhere(bs[1..], n);
      ConsTail(bs);
    }
  }

  /** The header writes that hand out the block at `current`. */
  function TakenMemory(memory: map<nat, Header>, current: nat, n: nat): map<nat, Header>
    requires current in memory && n <= memory[current].size
  {
    var h := memory[current];
    var next := current + HEADER + n;
    if h.size > n + HEADER + 32
    then memory[next := Header(HEAP_MAGIC, true, h.size - n - HEADER, h.next)]
               [current := Header(h.magic, false, n, next)]
    else memory[current := h.(isFree := false)]
  }

  lemma TakenLinks(memory: map<nat, Header>, bs: seq<Block>, s: nat, e: nat, n: nat, i: nat)
    requires Linked(memory, bs, s, e) && i < |bs| && Fits(bs[i], n)
    requires forall j: nat | j < i :: !Fits(bs[j], n)
    requires bs[i].addr in memory && n <= memory[bs[i].addr].size
    ensures Linked(TakenMemory(memory, bs[i].addr, n), Alloc(bs, n), s, e)
  {
    hide Tiles, Links, Alloc;
    AllocAt(bs, n, i);
    AllocKeeps(bs, s, e, n);
    HeaderAt(memory, bs, s, e, i);
    if bs[i].size > n + HEADER + 32 {
      SplitLinks(memory, bs, s, e, n, i);
    } else {
      SetHeader(memory, bs, s, e, i, false);
      assert bs[i := bs[i].(free := false)] == Alloc(bs, n);
    }
  }

  lemma SplitLinks(memory: map<nat, Header>, bs: seq<Block>, s: nat, e: nat, n: nat, i: nat)
    requires Linked(memory, bs, s, e) && i < |bs| && Fits(bs[i], n) && bs[i].size > n + HEADER + 32
    requires bs[i].addr in memory && memory[bs[i].addr] == HeaderOf(bs, i)
    ensures Links(TakenMemory(memory, bs[i].addr, n), bs[..i] + Taken(bs[i], n) + bs[i + 1..])
  {
    hide Tiles;
    Apart(bs, s, e, i);
    var m := TakenMemory(memory, bs[i].addr, n);
    var cs := bs[..i] + Taken(bs[i], n) + bs[i + 1..];
    assert |cs| == |bs| + 1;
    assert cs[i] == Block(bs[i].addr, n, false);
    assert cs[i + 1] == Block(bs[i].addr + HEADER + n, bs[i].size - n - HEADER, true);
    forall j: nat | j < |cs|
      ensures cs[j].addr in m && m[cs[j].addr] == HeaderOf(cs, j)
    {
      if j < i {
        assert cs[j] == bs[j] && NextAddr(cs, j) == NextAddr(bs, j);
        assert memory[bs[j].addr] == HeaderOf(bs, j);
      } else if j > i + 1 {
        assert cs[j] == bs[j - 1] && NextAddr(cs, j) == NextAddr(bs, j - 1);
        assert memory[bs[j - 1].addr] == HeaderOf(bs, j - 1);
      } else if j == i + 1 {
        assert NextAddr(cs, j) == NextAddr(bs, i);
      }
    }
  }

  // Freeing.

  lemma {:induction false} MarkAt(bs: seq<Block>, s: nat, e: nat, i: nat)
    requires Tiles(bs, s, e) && i < |bs|
    ensures Mark(bs, bs[i].addr) == bs[i := bs[i].(free := true)]
  {
    TilesOrder(bs, s, e);
    if i == 0 {
      MarkMiss(bs[1..], bs[0].addr);
    } else {
      MarkAt(bs[1..], BlockEnd(bs[0]), e, i - 1);
      assert bs[i := bs[i].(free := true)] == [bs[0]] + bs[1..][i - 1 := bs[i].(free := true)];
    }
  }

  lemma {:induction false} MarkMiss(bs: seq<Block>, addr: nat)
    requires forall j: nat | j < |bs| :: bs[j].addr != addr
    ensures Mark(bs, addr) == bs
  {
    if bs != [] {
      forall j: nat | j < |bs[1..]|
        ensures bs[1..][j].addr != addr
      {
        assert bs[1..][j] == bs[j + 1];
      }
      MarkMiss(bs[1..], addr);
    }
  }

  /** Marking the header at `addr` free: of a block of the list, or of one that has
      been merged away, which no block of the list starts with. */
  lemma MarkLinks(memory: map<nat, Header>, bs: seq<Block>, s: nat, e: nat, addr: nat)
    requires Linked(memory, bs, s, e) && addr in memory
    ensures Linked(memory[addr := memory[addr].(isFree := true)], Mark(bs, addr), s, e)
  {
    MarkKeeps(bs, s, e, addr);
    if i: nat :| i < |bs| && bs[i].addr == addr {
      HeaderAt(memory, bs, s, e, i);
      SetHeader(memory, bs, s, e, i, true);
      MarkAt(bs, s, e, i);
    } else {
      MarkMiss(bs, addr);
    }
  }

  /** Freeing what no block starts at changes nothing. */
  lemma FreeMiss(bs: seq<Block>, addr: nat)
    requires Merged(bs) && forall j: nat | j < |bs| :: bs[j].addr != addr
    ensures Free(bs, addr) == bs
  {
    MarkMiss(bs, addr);
    CoalesceMerged(bs);
  }

  /** The list with blocks `i` and `i + 1` merged. */
  function MergeAt(bs: seq<Block>, i: nat): seq<Block>
    requires i + 1 < |bs|
  {
    bs[..i] + [Merge(bs[i], bs[i + 1])] + bs[i + 2..]
  }

  /** The sweep stands at block `i`; what is left to sweep leads to `final`. */
  ghost predicate Sweeping(memory: map<nat, Header>, bs: seq<Block>, s: nat, e: nat, final: seq<Block>, i: nat,
      current: nat) {
    && Linked(memory, bs, s, e)
    && i < |bs| && current == bs[i].addr
    && final == bs[..i] + Coalesce(bs[i..])
  }

  lemma {:induction false} MergeTiles(bs: seq<Block>, s: nat, e: nat, i: nat)
    requires Tiles(bs, s, e) && i + 1 < |bs|
    ensures Tiles(MergeAt(bs, i), s, e)
  {
    if i == 0 {
      assert MergeAt(bs, 0)[1..] == bs[1..][1..];
    } else {
      MergeTiles(bs[1..], BlockEnd(bs[0]), e, i - 1);
      assert MergeAt(bs, i)[1..] == MergeAt(bs[1..], i - 1) by {
        assert bs[1..][..i - 1] == bs[1..i] && bs[1..][i + 1..] == bs[i + 2..];
      }
    }
  }

  lemma MergeLinks(memory: map<nat, Header>, bs: seq<Block>, s: nat, e: nat, i: nat)
    requires Linked(memory, bs, s, e) && i + 1 < |bs|
    ensures var b := Merge(bs[i], bs[i + 1]);
      Links(memory[b.addr := Header(HEAP_MAGIC, b.free, b.size, NextAddr(bs, i + 1))], MergeAt(bs, i))
  {
    hide Tiles;
    Apart(bs, s, e, i);
    var b := Merge(bs[i], bs[i + 1]);
    var m := memory[b.addr := Header(HEAP_MAGIC, b.free, b.size, NextAddr(bs, i + 1))];
    var cs := MergeAt(bs, i);
    forall j: nat | j < |cs|
      ensures cs[j].addr in m && m[cs[j].addr] == HeaderOf(cs, j)
    {
      if j < i {
        assert cs[j] == bs[j] && NextAddr(cs, j) == NextAddr(bs, j);
        assert memory[bs[j].addr] == HeaderOf(bs, j);
      } else {
        assert NextAddr(cs, j) == NextAddr(bs, j + 1);
        if j > i {
          assert cs[j] == bs[j + 1];
          assert memory[bs[j + 1].addr] == HeaderOf(bs, j + 1);
        }
      }
    }
  }

  lemma SweepMerge(memory: map<nat, Header>, bs: seq<Block>, s: nat, e: nat, final: seq<Block>, i: nat, current: nat)
    requires Sweeping(memory, bs, s, e, final, i, current) && i + 1 < |bs| && bs[i].free && bs[i + 1].free
    ensures var b := Merge(bs[i], bs[i + 1]);
      Sweeping(memory[current := Header(HEAP_MAGIC, true, b.size, NextAddr(bs, i + 1))], MergeAt(bs, i), s, e, final,
          i, current)
  {
    MergeTiles(bs, s, e, i);
    MergeLinks(memory, bs, s, e, i);
    var cs := MergeAt(bs, i);
    assert cs[..i] == bs[..i];
    assert cs[i..] == [Merge(bs[i], bs[i + 1])] + bs[i..][2..];
    assert Coalesce(bs[i..]) == Coalesce(cs[i..]);
  }

  lemma SweepSkip(memory: map<nat, Header>, bs: seq<Block>, s: nat, e: nat, final: seq<Block>, i: nat, current: nat)
    requires Sweeping(memory, bs, s, e, final, i, current) && i + 1 < |bs| && !(bs[i].free && bs[i + 1].free)
    ensures Sweeping(memory, bs, s, e, final, i + 1, bs[i + 1].addr)
  {
    assert bs[i..][1..] == bs[i + 1..];
    assert bs[..i + 1] == bs[..i] + [bs[i]];
    assert final == bs[..i] + ([bs[i]] + Coalesce(bs[i + 1..]));
  }

  lemma EmptySweep(bs: seq<Block>)
    ensures bs == [] ==> Coalesce(bs) == []
  {
  }

  lemma SweepStart(memory: map<nat, Header>, bs: seq<Block>, s: nat, e: nat)
    requires Linked(memory, bs, s, e)
    ensures s in memory && Sweeping(memory, bs, s, e, Coalesce(bs), 0, s)
  {
    assert bs[0].addr == s && bs[0..] == bs;
  }

  lemma SweepDone(memory: map<nat, Header>, bs: seq<Block>, s: nat, e: nat, final: seq<Block>, i: nat, current: nat)
    requires Sweeping(memory, bs, s, e, final, i, current) && i + 1 == |bs|
    ensures final == bs
  {
    assert Coalesce(bs[i..]) == bs[i..];
  }
}
