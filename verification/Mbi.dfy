/** The second pass over the boot information (kernel/mbi.c): it frees the
    available memory once more and remembers the framebuffer. */
module Mbi {
  import opened BootInfo
  import opened Machine
  import opened Pmm

  class BootParser {
    const pmm: FrameAllocator
    var fb: Framebuffer

    constructor (pmm: FrameAllocator)
      ensures this.pmm == pmm
    {
      this.pmm := pmm;
      fb := Framebuffer(0, 0, 0, 0, 0);
    }

    method Parse(mem: Memory, physAddr: nat)
      requires pmm.Valid() && physAddr < TWO32
      requires WalkEnds(mem, physAddr + 8, physAddr + U32(mem, physAddr))
      requires AllStop(Entries(mem, physAddr + 8, physAddr + U32(mem, physAddr)))
      modifies this, pmm, pmm.bitmap
      ensures pmm.Valid()
      ensures pmm.used == old(pmm.used) - Freed(Entries(mem, physAddr + 8, physAddr + U32(mem, physAddr)), TWO64)
      ensures fb == LastFramebuffer(mem, physAddr + 8, physAddr + U32(mem, physAddr), old(fb))
    {
      hide WalkInv, FramebufferInv, TagStep, Represents, EntriesAdvance;
      var t, end := physAddr + 8, physAddr + U32(mem, physAddr);
      ghost var final := pmm.used - Freed(Entries(mem, t, end), TWO64);
      ghost var finalFb := LastFramebuffer(mem, t, end, fb);
      WalkBegins(mem, t, end, pmm.used, TWO64);
      FramebufferBegins(mem, t, end, fb);
      while t < end && TagType(mem, t) != 0
        invariant pmm.Valid() && WalkInv(mem, t, end, pmm.used, TWO64, final)
        invariant FramebufferInv(mem, t, end, fb, finalFb)
        decreases end - t
      {
        ghost var before := pmm.used;
        TagStops(mem, t, end, before, TWO64, final);
        FramebufferStep(mem, t, end, fb, finalFb);
        match TagType(mem, t) {
          case 6 => pmm.FreeEntries(mem, t, TWO64);
          case 8 => fb := FramebufferAt(mem, t);
          case _ =>
        }
        WalkStep(mem, t, end, before, pmm.used, TWO64, final);
        t := t + TagStep(mem, t);
      }
      WalkDone(mem, t, end, pmm.used, TWO64, final);
      FramebufferDone(mem, t, end, fb, finalFb);
    }
  }

  /** What the walk still has to read leads to the final framebuffer. */
  ghost predicate FramebufferInv(mem: Memory, t: nat, end: nat, fb: Framebuffer, final: Framebuffer) {
    WalkEnds(mem, t, end) && LastFramebuffer(mem, t, end, fb) == final
  }

  lemma FramebufferBegins(mem: Memory, t: nat, end: nat, fb: Framebuffer)
    requires WalkEnds(mem, t, end)
    ensures FramebufferInv(mem, t, end, fb, LastFramebuffer(mem, t, end, fb))
  {
  }

  lemma FramebufferDone(mem: Memory, t: nat, end: nat, fb: Framebuffer, final: Framebuffer)
    requires FramebufferInv(mem, t, end, fb, final) && (t >= end || TagType(mem, t) == 0)
    ensures fb == final
  {
  }

  lemma FramebufferStep(mem: Memory, t: nat, end: nat, fb: Framebuffer, final: Framebuffer)
    requires FramebufferInv(mem, t, end, fb, final) && t < end && TagType(mem, t) != 0
    ensures FramebufferInv(mem, t + TagStep(mem, t), end,
                           if TagType(mem, t) == FRAMEBUFFER_TAG then FramebufferAt(mem, t) else fb, final)
  {
  }
}
