/** The kernel heap (kernel/mem/heap.c): a linked list of block headers in
    memory, split and merged in place. */
module Heap {
  import opened HeapLaws
  import opened HeapLinks
  import opened HeapList
  import opened Machine

  class KernelHeap {
    /** Memory as far as the heap writes headers into it, by address. Headers
        of blocks that have been merged away stay behind. */
    var memory: map<nat, Header>
    /** Address of the first header, or 0 before heap_init. */
    var start: nat
    ghost var blocks: seq<Block>
    ghost var end: nat

    ghost predicate Valid()
      reads this
    {
      if start == 0 then blocks == []
      else Linked(memory, blocks, start, end) && Merged(blocks) && AlignedIn(blocks, start, end)
    }

    constructor ()
      ensures Valid() && start == 0
    {
      memory := map[];
      start := 0;
      blocks := [];
      end := 0;
    }

    /** The header half of heap_init: one free block over the whole range. */
    method Format(startAddr: nat, endAddr: nat)
      requires 64 <= startAddr && startAddr + HEADER <= endAddr <= TWO64
      modifies this
      ensures Valid() && start == startAddr && end == endAddr
      ensures blocks == [Block(startAddr, endAddr - startAddr - HEADER, true)]
    {
      OneBlock(memory, startAddr, endAddr);
      OneBlockAligned(startAddr, endAddr);
      start := startAddr;
      memory := memory[startAddr := Header(HEAP_MAGIC, true, endAddr - startAddr - HEADER, 0)];
      blocks := [Block(startAddr, endAddr - startAddr - HEADER, true)];
      end := endAddr;
    }

    /** First fit. The result is the address of the payload, or 0; a multiple of 8
        when the ends of the heap are. */
    method Kmalloc(size: nat) returns (ptr: nat)
      requires Valid() && size < TWO64
      modifies this
      ensures Valid() && start == old(start) && end == old(end)
      ensures blocks == Alloc(old(blocks), Round(size))
      ensures ptr == match AllocBlock(old(blocks), Round(size)) case None => 0 case Some(b) => b.addr + HEADER
      ensures start % 8 == 0 && end % 8 == 0 ==> ptr % 8 == 0
    {
      hide Tiles, Links, Merged, Alloc, AllocBlock, Round, Aligned;
      var n := Round(size);
      RoundAligned(size);
      ghost var i: nat := 0;
      var current: nat := start;
      SearchStart(memory, blocks, start, end, n);
      while current != 0
        invariant unchanged(this) && Searching(blocks, n, i, current)
        decreases |blocks| - i
      {
        HeaderAt(memory, blocks, start, end, i);
        var h := memory[current];
        if h.isFree && h.size >= n {
          TakenLinks(memory, blocks, start, end, n, i);
          AllocAt(blocks, n, i);
          AllocMerged(blocks, n);
          AllocatedAligned(blocks, start, end, n);
          if start % 8 == 0 && end % 8 == 0 {
            AllocAligned(blocks, n);
          }
          ghost var before := memory;
          assert n + HEADER + 32 < TWO64;
          if h.size > (n + HEADER + 32) % TWO64 {
            var nextBlock := current + HEADER + n;
            memory := memory[nextBlock := Header(HEAP_MAGIC, true, h.size - n - HEADER, h.next)];
            memory := memory[current := memory[current].(size := n, next := nextBlock)];
          }
          memory := memory[current := memory[current].(isFree := false)];
          assert memory == TakenMemory(before, current, n);
          blocks := Alloc(blocks, n);
          ptr := current + HEADER;
          return;
        }
        i := i + 1;
        current := h.next;
      }
      AllocNowhere(blocks, n);
      ptr := 0;
    }

    /** Give a block back. A pointer that no header with the magic number stands in
        front of is ignored, and one to a header that was merged away frees nothing. */
    method Kfree(ptr: nat)
      requires Valid()
      modifies this
      ensures Valid() && start == old(start) && end == old(end)
      ensures blocks == if ptr < HEADER then old(blocks) else Free(old(blocks), ptr - HEADER)
    {
      hide Tiles;
      if ptr == 0 {
        return;
      }
      var header := ptr - HEADER;
      if header !in memory || memory[header].magic != HEAP_MAGIC {
        if ptr >= HEADER {
          FreeMiss(blocks, header);
        }
        return;
      }
      if start != 0 {
        MarkLinks(memory, blocks, start, end, header);
        MarkKeeps(blocks, start, end, header);
        CoalesceKeeps(Mark(blocks, header), start, end);
        if start % 8 == 0 && end % 8 == 0 {
          FreeAligned(blocks, header);
        }
      }
      memory := memory[header := memory[header].(isFree := true)];
      blocks := Mark(blocks, header);
      Sweep(Coalesce(blocks));
    }

    /** The sweep of Kfree: merge adjacent free blocks until none are left. */
    method Sweep(ghost final: seq<Block>)
      requires if start == 0 then blocks == [] else Linked(memory, blocks, start, end)
      requires final == Coalesce(blocks)
      modifies this
      ensures start == old(start) && end == old(end)
      ensures start != 0 ==> Linked(memory, blocks, start, end)
      ensures blocks == final
    {
      EmptySweep(blocks);
      hide Links, Tiles, Coalesce, Merged;
      ghost var i: nat := 0;
      var current: nat := start;
      if start != 0 {
        SweepStart(memory, blocks, start, end);
      }
      while current != 0 && memory[current].next != 0
        invariant start == old(start) && end == old(end)
        invariant if start == 0 then current == 0 && blocks == [] else current in memory
        invariant start != 0 ==> Sweeping(memory, blocks, start, end, final, i, current)
        decreases |blocks| - i
      {
        HeaderAt(memory, blocks, start, end, i);
        HeaderAt(memory, blocks, start, end, i + 1);
        var h := memory[current];
        var next := memory[h.next];
        if h.isFree && next.isFree {
          SweepMerge(memory, blocks, start, end, final, i, current);
          memory := memory[current := h.(size := h.size + next.size + HEADER, next := next.next)];
          blocks := MergeAt(blocks, i);
        } else {
          SweepSkip(memory, blocks, start, end, final, i, current);
          current := h.next;
          i := i + 1;
        }
      }
      if start != 0 {
        HeaderAt(memory, blocks, start, end, i);
        SweepDone(memory, blocks, start, end, final, i, current);
      }
    }
  }
}
