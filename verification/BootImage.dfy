/** Boot information laid out as a boot loader does (section 3.6 of the Multiboot2
    Specification version 2.0), and that the kernel's walks find in it what was put in. */
module BootImage {
  import opened BootInfo
  import opened Machine

  /** A tag by its contents; the rest of an unknown tag is just bytes. */
  datatype Tag =
    | MmapTag(entrySize: nat, entries: seq<MmapEntry>)
    | FramebufferTag(fb: Framebuffer)
    | OtherTag(kind: nat, body: seq<byte>)

  /** The `n` low bytes of a number, least significant first. */
  function Num(v: nat, n: nat): (b: seq<byte>)
    ensures |b| == n
  {
    if n == 0 then [] else [v % 0x100] + Num(v / 0x100, n - 1)
  }

  function Limit(n: nat): nat {
    if n == 0 then 1 else 0x100 * Limit(n - 1)
  }

  function Fill(n: nat): (b: seq<byte>)
    ensures |b| == n
  {
    seq(n, _ => 0)
  }

  // What the fields can hold.

  predicate EntryOk(e: MmapEntry) {
    e.addr < Limit(8) && e.len < Limit(8) && e.kind < Limit(4)
  }

  predicate FramebufferOk(fb: Framebuffer) {
    fb.addr < Limit(8) && fb.pitch < Limit(4) && fb.width < Limit(4) && fb.height < Limit(4) && fb.bpp < 0x100
  }

  predicate TagOk(tag: Tag) {
    && |Content(tag)| + 8 <= 0xFFFF_FFF8
    && match tag
       case MmapTag(size, entries) => 20 <= size < Limit(4) && forall e | e in entries :: EntryOk(e)
       case FramebufferTag(fb) => FramebufferOk(fb)
       case OtherTag(kind, _) => kind < Limit(4) && kind != 0 && kind != 6 && kind != 8
  }

  // The layout.

  /** A base address, a length, a type, and whatever else the entry size leaves room for. */
  function EntryBytes(e: MmapEntry, size: nat): (b: seq<byte>)
    requires size >= 20
    ensures |b| == size
  {
    Num(e.addr, 8) + (Num(e.len, 8) + (Num(e.kind, 4) + Fill(size - 20)))
  }

  function EntryList(entries: seq<MmapEntry>, size: nat): (b: seq<byte>)
    requires size >= 20
    ensures |b| == |entries| * size
  {
    if entries == [] then [] else EntryBytes(entries[0], size) + EntryList(entries[1..], size)
  }

  /** Address, pitch, width, height, bits per pixel, type and a reserved field. */
  function FramebufferBytes(fb: Framebuffer): seq<byte>
    requires fb.bpp < 0x100
  {
    Num(fb.addr, 8) + (Num(fb.pitch, 4) + (Num(fb.width, 4) + (Num(fb.height, 4) + [fb.bpp, 1, 0, 0])))
  }

  /** What follows type and size. */
  function Content(tag: Tag): seq<byte> {
    match tag
    case MmapTag(size, entries) => Num(size, 4) + (Num(0, 4) + if size >= 20 then EntryList(entries, size) else [])
    case FramebufferTag(fb) => if fb.bpp < 0x100 then FramebufferBytes(fb) else []
    case OtherTag(_, body) => body
  }

  function KindOf(tag: Tag): nat {
    match tag
    case MmapTag(_, _) => 6
    case FramebufferTag(_) => 8
    case OtherTag(kind, _) => kind
  }

  /** Type, size and content; the next tag starts on a multiple of 8. */
  function TagBytes(tag: Tag): seq<byte> {
    var size := 8 + |Content(tag)|;
    Num(KindOf(tag), 4) + (Num(size, 4) + (Content(tag) + Fill((8 - size % 8) % 8)))
  }

  function TagList(tags: seq<Tag>): seq<byte> {
    if tags == [] then Num(0, 4) + Num(8, 4) else TagBytes(tags[0]) + TagList(tags[1..])
  }

  /** The total size, a reserved field, the tags and the end tag. */
  function Image(tags: seq<Tag>): seq<byte> {
    Num(8 + |TagList(tags)|, 4) + (Num(0, 4) + TagList(tags))
  }

  // What is in it.

  function EntriesIn(tags: seq<Tag>): seq<MmapEntry> {
    if tags == [] then []
    else (if tags[0].MmapTag? then tags[0].entries else []) + EntriesIn(tags[1..])
  }

  function LastIn(tags: seq<Tag>, fb: Framebuffer): Framebuffer {
    if tags == [] then fb else LastIn(tags[1..], if tags[0].FramebufferTag? then tags[0].fb else fb)
  }

  // Reading it back.

  /** Memory holds the bytes at address `a`. */
  predicate Holds(mem: Memory, a: nat, b: seq<byte>) {
    a + |b| <= |mem| && mem[a..a + |b|] == b
  }

  lemma HoldsParts(mem: Memory, a: nat, x: seq<byte>, y: seq<byte>)
    requires Holds(mem, a, x + y)
    ensures Holds(mem, a, x) && Holds(mem, a + |x|, y)
  {
    var b := mem[a..a + |x + y|];
    assert b[..|x|] == x && b[|x|..] == y;
    assert mem[a..a + |x|] == b[..|x|] && mem[a + |x|..a + |x + y|] == b[|x|..];
  }

  lemma {:induction false} NumReadsBack(mem: Memory, a: nat, v: nat, n: nat)
    requires Holds(mem, a, Num(v, n)) && v < Limit(n)
    ensures LittleEndian(mem, a, a + n) == v
    decreases n
  {
    if n > 0 {
      HoldsParts(mem, a, [v % 0x100], Num(v / 0x100, n - 1));
      assert mem[a] == mem[a..a + 1][0];
      NumReadsBack(mem, a + 1, v / 0x100, n - 1);
    }
  }

  lemma Limits()
    ensures Limit(4) == TWO32 && Limit(8) == TWO64
  {
    assert Limit(4) == 0x1_0000_0000;
  }

  lemma EntryReadsBack(mem: Memory, a: nat, e: MmapEntry, size: nat)
    requires size >= 20 && EntryOk(e) && Holds(mem, a, EntryBytes(e, size))
    ensures EntryAt(mem, a) == e
  {
    hide LittleEndian, Num, Limit, Holds;
    HoldsParts(mem, a, Num(e.addr, 8), Num(e.len, 8) + (Num(e.kind, 4) + Fill(size - 20)));
    HoldsParts(mem, a + 8, Num(e.len, 8), Num(e.kind, 4) + Fill(size - 20));
    HoldsParts(mem, a + 16, Num(e.kind, 4), Fill(size - 20));
    NumReadsBack(mem, a, e.addr, 8);
    NumReadsBack(mem, a + 8, e.len, 8);
    NumReadsBack(mem, a + 16, e.kind, 4);
  }

  lemma {:induction false} EntriesReadBack(mem: Memory, a: nat, entries: seq<MmapEntry>, size: nat)
    requires size >= 20 && (forall e | e in entries :: EntryOk(e)) && Holds(mem, a, EntryList(entries, size))
    ensures EntriesFrom(mem, a, a + |entries| * size, size) == entries
    decreases |entries|
  {
    hide EntryAt, EntryBytes, Holds, EntryOk;
    if entries != [] {
      HoldsParts(mem, a, EntryBytes(entries[0], size), EntryList(entries[1..], size));
      EntryReadsBack(mem, a, entries[0], size);
      EntriesReadBack(mem, a + size, entries[1..], size);
      OneMore(|entries|, size);
    }
  }

  lemma OneMore(n: nat, size: nat)
    requires n > 0
    ensures n * size == size + (n - 1) * size
  {
  }

  lemma FramebufferReadsBack(mem: Memory, t: nat, fb: Framebuffer)
    requires FramebufferOk(fb) && Holds(mem, t + 8, FramebufferBytes(fb))
    ensures FramebufferAt(mem, t) == fb
  {
    hide LittleEndian, Num, Limit, Holds;
    var last: seq<byte> := [fb.bpp, 1, 0, 0];
    HoldsParts(mem, t + 8, Num(fb.addr, 8), Num(fb.pitch, 4) + (Num(fb.width, 4) + (Num(fb.height, 4) + last)));
    HoldsParts(mem, t + 16, Num(fb.pitch, 4), Num(fb.width, 4) + (Num(fb.height, 4) + last));
    HoldsParts(mem, t + 20, Num(fb.width, 4), Num(fb.height, 4) + last);
    HoldsParts(mem, t + 24, Num(fb.height, 4), last);
    NumReadsBack(mem, t + 8, fb.addr, 8);
    NumReadsBack(mem, t + 16, fb.pitch, 4);
    NumReadsBack(mem, t + 20, fb.width, 4);
    NumReadsBack(mem, t + 24, fb.height, 4);
    FirstByte(mem, t + 28, last);
  }

  lemma FirstByte(mem: Memory, a: nat, b: seq<byte>)
    requires Holds(mem, a, b) && b != []
    ensures ByteAt(mem, a) == b[0]
  {
    assert mem[a] == mem[a..a + |b|][0];
  }

  /** One tag: its type and size, how far the next one is, and where its content lies. */
  lemma TagReadsBack(mem: Memory, t: nat, tag: Tag)
    requires TagOk(tag) && Holds(mem, t, TagBytes(tag))
    ensures TagType(mem, t) == KindOf(tag) != 0 && TagSize(mem, t) == 8 + |Content(tag)|
    ensures TagStep(mem, t) == |TagBytes(tag)| > 0 && Holds(mem, t + 8, Content(tag))
  {
    hide LittleEndian, Num, Limit, Holds, Content;
    var size := 8 + |Content(tag)|;
    var pad := Fill((8 - size % 8) % 8);
    Limits();
    HoldsParts(mem, t, Num(KindOf(tag), 4), Num(size, 4) + (Content(tag) + pad));
    HoldsParts(mem, t + 4, Num(size, 4), Content(tag) + pad);
    HoldsParts(mem, t + 8, Content(tag), pad);
    NumReadsBack(mem, t, KindOf(tag), 4);
    NumReadsBack(mem, t + 4, size, 4);
    RoundToEight(size);
  }

  lemma RoundToEight(n: nat)
    requires n <= 0xFFFF_FFF8
    ensures (n + 7) % TWO32 / 8 * 8 == n + (8 - n % 8) % 8
  {
  }

  lemma MmapReadsBack(mem: Memory, t: nat, tag: Tag)
    requires TagOk(tag) && tag.MmapTag? && Holds(mem, t + 8, Content(tag))
    requires TagType(mem, t) == MMAP_TAG && TagSize(mem, t) == 8 + |Content(tag)|
    ensures EntriesAdvance(mem, t) && TagEntries(mem, t) == tag.entries
  {
    hide LittleEndian, Num, Limit, Holds, EntryAt, EntryOk, EntryList;
    var size := tag.entrySize;
    HoldsParts(mem, t + 8, Num(size, 4), Num(0, 4) + EntryList(tag.entries, size));
    HoldsParts(mem, t + 12, Num(0, 4), EntryList(tag.entries, size));
    NumReadsBack(mem, t + 8, size, 4);
    EntriesReadBack(mem, t + 16, tag.entries, size);
  }

  /** The walks from `t` to `end` end and find those tags. */
  ghost predicate Finds(mem: Memory, t: nat, end: nat, tags: seq<Tag>, fb: Framebuffer) {
    && WalkEnds(mem, t, end)
    && Entries(mem, t, end) == EntriesIn(tags) && LastFramebuffer(mem, t, end, fb) == LastIn(tags, fb)
  }

  lemma {:induction false} TagsReadBack(mem: Memory, t: nat, end: nat, tags: seq<Tag>, fb: Framebuffer)
    requires (forall tag | tag in tags :: TagOk(tag)) && Holds(mem, t, TagList(tags)) && end == t + |TagList(tags)|
    ensures Finds(mem, t, end, tags, fb)
    decreases |tags|
  {
    hide LittleEndian, Num, Limit, Holds, Content, TagStep, TagEntries, EntriesAdvance, TagOk, TagBytes;
    if tags == [] {
      HoldsParts(mem, t, Num(0, 4), Num(8, 4));
      EndRead(mem, t);
    } else {
      var tag, rest := tags[0], tags[1..];
      HoldsParts(mem, t, TagBytes(tag), TagList(rest));
      TagReadsBack(mem, t, tag);
      match tag {
        case MmapTag(_, _) => MmapReadsBack(mem, t, tag);
        case FramebufferTag(_) => FramebufferContent(mem, t, tag);
        case OtherTag(_, _) => OtherKind(tag);
      }
      TagsReadBack(mem, t + TagStep(mem, t), end, rest, if tag.FramebufferTag? then tag.fb else fb);
      if !tag.MmapTag? {
        NoEntries(mem, t);
      }
    }
  }

  lemma EndRead(mem: Memory, t: nat)
    requires Holds(mem, t, Num(0, 4))
    ensures TagType(mem, t) == 0
  {
    NumReadsBack(mem, t, 0, 4);
  }

  lemma OtherKind(tag: Tag)
    requires TagOk(tag) && tag.OtherTag?
    ensures KindOf(tag) != MMAP_TAG && KindOf(tag) != FRAMEBUFFER_TAG
  {
  }

  lemma NoEntries(mem: Memory, t: nat)
    requires TagType(mem, t) != MMAP_TAG
    ensures TagEntries(mem, t) == []
  {
  }

  lemma FramebufferContent(mem: Memory, t: nat, tag: Tag)
    requires TagOk(tag) && tag.FramebufferTag? && Holds(mem, t + 8, Content(tag))
    ensures FramebufferAt(mem, t) == tag.fb
  {
    hide FramebufferAt, FramebufferBytes, Holds;
    FramebufferReadsBack(mem, t, tag.fb);
  }

  /** Whatever tags are laid out, in whatever order: both walks end, they find exactly
      the memory-map entries in order, and the second one the last framebuffer. */
  lemma ImageReadsBack(mem: Memory, mbi: nat, tags: seq<Tag>, fb: Framebuffer)
    requires (forall tag | tag in tags :: TagOk(tag)) && 8 + |TagList(tags)| < TWO32 && Holds(mem, mbi, Image(tags))
    ensures U32(mem, mbi) == |Image(tags)| && Finds(mem, mbi + 8, mbi + U32(mem, mbi), tags, fb)
  {
    hide LittleEndian, Num, Limit, Holds, TagOk, TagList, Finds;
    Limits();
    HoldsParts(mem, mbi, Num(8 + |TagList(tags)|, 4), Num(0, 4) + TagList(tags));
    HoldsParts(mem, mbi + 4, Num(0, 4), TagList(tags));
    NumReadsBack(mem, mbi, 8 + |TagList(tags)|, 4);
    TagsReadBack(mem, mbi + 8, mbi + 8 + |TagList(tags)|, tags, fb);
  }
}
