/** Bitmap images: the writer that turns a picture into bytes
    (include/img/img2c.py) and the reader (kernel/GPU/bmp.c). */
module Bmp {
  import opened Machine
  import opened Sectors
  import opened Strings

  const HEADER_SIZE: nat := 54
  const BMP_TYPE: nat := 0x4D42

  datatype Pixel = Pixel(r: byte, g: byte, b: byte, a: byte)

  /** 0xFF000000 | r << 16 | g << 8 | b */
  function Argb(r: byte, g: byte, b: byte): nat {
    var red: nat, green: nat, blue: nat := r, g, b;
    0xFF00_0000 + 0x1_0000 * red + 0x100 * green + blue
  }

  // Where pixels are.

  /** What the headers say about the pixel data. */
  datatype Layout = Layout(width: nat, height: nat, bpp: nat, offset: nat, bottomUp: bool)

  /** Bytes that fill a row up to a multiple of 4. */
  function Padding(width: nat, bpp: nat): (p: nat)
    ensures p < 4
  {
    (4 - width * bpp % 4) % 4
  }

  function Stride(l: Layout): nat {
    l.width * l.bpp + Padding(l.width, l.bpp)
  }

  /** Rows start on multiples of 4 bytes. */
  lemma StrideAligned(l: Layout)
    ensures Stride(l) % 4 == 0 && l.width * l.bpp <= Stride(l) < l.width * l.bpp + 4
  {
    PadToFour(l.width * l.bpp);
  }

  lemma PadToFour(n: nat)
    ensures (n + (4 - n % 4) % 4) % 4 == 0 && (4 - n % 4) % 4 < 4
  {
    var q, r := n / 4, n % 4;
    assert n == 4 * q + r;
    if r > 0 {
      assert n + (4 - r) == 4 * (q + 1);
    }
  }

  /** Where pixel `x` of stored row `y` begins. */
  function Source(l: Layout, x: nat, y: nat): nat {
    l.offset + y * Stride(l) + x * l.bpp
  }

  /** The picture's row for stored row `y`. */
  function TargetRow(l: Layout, y: nat): nat
    requires y < l.height
  {
    if l.bottomUp then l.height - 1 - y else y
  }

  /** The place of that pixel in the picture. */
  function Target(l: Layout, x: nat, y: nat): nat
    requires y < l.height
  {
    TargetRow(l, y) * l.width + x
  }

  lemma RowEnd(width: nat, height: nat, row: nat, x: nat)
    requires x < width && row < height
    ensures row * width + x < width * height
  {
    assert (row + 1) * width <= height * width;
  }

  lemma TargetBound(l: Layout, x: nat, y: nat)
    requires x < l.width && y < l.height
    ensures Target(l, x, y) < l.width * l.height
  {
    RowEnd(l.width, l.height, TargetRow(l, y), x);
  }

  lemma RowsApart(width: nat, row1: nat, x1: nat, row2: nat, x2: nat)
    requires x1 < width && x2 < width && row1 < row2
    ensures row1 * width + x1 < row2 * width + x2
  {
    assert (row1 + 1) * width <= row2 * width;
  }

  /** No place is written twice. */
  lemma TargetOnce(l: Layout, x1: nat, y1: nat, x2: nat, y2: nat)
    requires x1 < l.width && y1 < l.height && x2 < l.width && y2 < l.height
    ensures Target(l, x1, y1) == Target(l, x2, y2) <==> x1 == x2 && y1 == y2
  {
    var r1, r2 := TargetRow(l, y1), TargetRow(l, y2);
    if r1 < r2 {
      RowsApart(l.width, r1, x1, r2, x2);
    } else if r2 < r1 {
      RowsApart(l.width, r2, x2, r1, x1);
    }
  }

  lemma Monotone(a: nat, b: nat, factor: nat)
    ensures a <= b ==> a * factor <= b * factor
  {
  }

  /** Every place is written. */
  lemma TargetReached(l: Layout, i: nat) returns (x: nat, y: nat)
    requires i < l.width * l.height
    ensures x < l.width && y < l.height && Target(l, x, y) == i
  {
    var row := i / l.width;
    x := i % l.width;
    assert i == row * l.width + x;
    Monotone(l.height, row, l.width);
    y := if l.bottomUp then l.height - 1 - row else row;
  }

  // Reading.

  /** Two's-complement negation of a 32-bit number. */
  function Negated(v: nat): nat
    requires v < TWO32
  {
    (TWO32 - v) % TWO32
  }

  function LayoutOf(data: Bytes): Layout
    requires |data| >= HEADER_SIZE
  {
    var raw := U32(data, 22);
    var positive := 0 < raw < 0x8000_0000;
    Layout(U32(data, 18), if positive then raw else Negated(raw), U16(data, 28) / 8, U32(data, 10), positive)
  }

  /** A file type, depth and compression that the reader takes. */
  predicate Accepted(data: Bytes)
    requires |data| >= HEADER_SIZE
  {
    && U16(data, 0) == BMP_TYPE && (U16(data, 28) == 24 || U16(data, 28) == 32)
    && U32(data, 30) == 0
  }

  /** The picture fits 32-bit sizes, and its pixels lie within the data. */
  predicate Fits(data: Bytes)
    requires |data| >= HEADER_SIZE
  {
    var l := LayoutOf(data);
    && l.width * l.height * 4 < TWO32
    && forall x, y :: 0 <= x < l.width && 0 <= y < l.height ==> Source(l, x, y) + l.bpp <= |data|
  }

  /** The colour that pixel `x` of stored row `y` decodes to. */
  function Decoded(data: Bytes, l: Layout, x: nat, y: nat): nat
    requires Source(l, x, y) + 3 <= |data|
  {
    var p := Source(l, x, y);
    Argb(data[p + 2], data[p + 1], data[p])
  }

  class Image {
    const width: nat
    const height: nat
    const pixels: array<nat>

    constructor (width: nat, height: nat, pixels: array<nat>)
      ensures this.width == width && this.height == height && this.pixels == pixels
    {
      this.width := width;
      this.height := height;
      this.pixels := pixels;
    }
  }

  /** Rows before `y`, and the first `x` pixels of row `y`, are in place. */
  ghost predicate Done(data: Bytes, l: Layout, pixels: seq<nat>, x: nat, y: nat)
    requires |data| >= HEADER_SIZE && Accepted(data) && Fits(data) && l == LayoutOf(data)
  {
    && |pixels| == l.width * l.height
    && forall u: nat, v: nat | u < l.width && v < l.height && (v < y || (v == y && u < x)) ::
         Target(l, u, v) < |pixels| && pixels[Target(l, u, v)] == Decoded(data, l, u, v)
  }

  /** One more pixel in its place. */
  lemma DoneStep(data: Bytes, l: Layout, pixels: seq<nat>, x: nat, y: nat)
    requires |data| >= HEADER_SIZE && Accepted(data) && Fits(data) && l == LayoutOf(data)
    requires x < l.width && y < l.height && Done(data, l, pixels, x, y)
    ensures Target(l, x, y) < |pixels|
    ensures Done(data, l, pixels[Target(l, x, y) := Decoded(data, l, x, y)], x + 1, y)
  {
    hide Target, Decoded, Source, LayoutOf;
    TargetBound(l, x, y);
    InData(data, l, x, y);
    var after := pixels[Target(l, x, y) := Decoded(data, l, x, y)];
    forall u: nat, v: nat | u < l.width && v < l.height && (v < y || (v == y && u < x + 1))
      ensures Target(l, u, v) < |after| && after[Target(l, u, v)] == Decoded(data, l, u, v)
    {
      TargetBound(l, u, v);
      TargetOnce(l, x, y, u, v);
    }
  }

  lemma NextPixel(l: Layout, x: nat, y: nat)
    ensures Source(l, x + 1, y) == Source(l, x, y) + l.bpp
  {
    assert (x + 1) * l.bpp == x * l.bpp + l.bpp;
  }

  lemma NextRow(l: Layout, y: nat)
    ensures Source(l, 0, y + 1) == Source(l, l.width, y) + Padding(l.width, l.bpp)
  {
    assert (y + 1) * Stride(l) == y * Stride(l) + Stride(l);
  }

  lemma FirstPixel(l: Layout)
    ensures Source(l, 0, 0) == l.offset
  {
  }

  /** `pixelsFail` is whether the allocation of the pixels fails; that of the
      image record, which the code does not check, is taken to succeed. The
      pointer into the data stands at Source(x, y) throughout. */
  method Parse(data: array?<byte>, pixelsFail: bool) returns (image: Image?)
    requires data != null ==> data.Length >= HEADER_SIZE && (Accepted(data[..]) ==> Fits(data[..]))
    ensures image == null <==> data == null || !Accepted(data[..]) || pixelsFail
    ensures image != null ==>
      && image.width == LayoutOf(data[..]).width && image.height == LayoutOf(data[..]).height
      && Done(data[..], LayoutOf(data[..]), image.pixels[..], 0, image.height)
  {
    hide Done, Source, Target, Accepted, LayoutOf, Fits, U16, U32, Padding, Decoded;
    if data == null {
      return null;
    }
    ghost var bytes := data[..];
    AcceptedMeans(bytes);
    if U16(data[..], 0) != BMP_TYPE {
      return null;
    }
    if (U16(data[..], 28) != 24 && U16(data[..], 28) != 32) || U32(data[..], 30) != 0 {
      return null;
    }
    if pixelsFail {
      return null;
    }
    var l := LayoutOf(data[..]);
    var pixels := new nat[l.width * l.height];
    var padding := Padding(l.width, l.bpp);
    var p := l.offset;
    FirstPixel(l);
    DoneStart(bytes, l, pixels[..]);
    var y := 0;
    while y < l.height
      invariant y <= l.height && Done(bytes, l, pixels[..], 0, y) && p == Source(l, 0, y)
    {
      var targetY := if l.bottomUp then l.height - 1 - y else y;
      var x := 0;
      while x < l.width
        invariant x <= l.width && Done(bytes, l, pixels[..], x, y) && p == Source(l, x, y)
      {
        InData(bytes, l, x, y);
        DoneStep(bytes, l, pixels[..], x, y);
        NextPixel(l, x, y);
        TargetIs(l, x, y);
        var b, g, r := data[p], data[p + 1], data[p + 2];
        ghost var next := pixels[..][Target(l, x, y) := Decoded(bytes, l, x, y)];
        pixels[targetY * l.width + x] := Argb(r, g, b);
        DecodedIs(bytes, l, x, y);
        assert pixels[..] == next;
        p := p + 3;
        if l.bpp == 4 {
          p := p + 1;
        }
        x := x + 1;
      }
      NextRow(l, y);
      DoneRow(bytes, l, pixels[..], y);
      p := p + padding;
      y := y + 1;
    }
    image := new Image(l.width, l.height, pixels);
  }

  lemma AcceptedMeans(data: Bytes)
    requires |data| >= HEADER_SIZE
    ensures Accepted(data) <==>
      U16(data, 0) == BMP_TYPE && (U16(data, 28) == 24 || U16(data, 28) == 32) && U32(data, 30) == 0
  {
  }

  lemma DoneStart(data: Bytes, l: Layout, pixels: seq<nat>)
    requires |data| >= HEADER_SIZE && Accepted(data) && Fits(data) && l == LayoutOf(data)
    requires |pixels| == l.width * l.height
    ensures Done(data, l, pixels, 0, 0)
  {
  }

  lemma DoneRow(data: Bytes, l: Layout, pixels: seq<nat>, y: nat)
    requires |data| >= HEADER_SIZE && Accepted(data) && Fits(data) && l == LayoutOf(data)
    requires Done(data, l, pixels, l.width, y)
    ensures Done(data, l, pixels, 0, y + 1)
  {
    hide Decoded, Target, Source;
  }

  lemma InData(data: Bytes, l: Layout, x: nat, y: nat)
    requires |data| >= HEADER_SIZE && Accepted(data) && Fits(data) && l == LayoutOf(data)
    requires x < l.width && y < l.height
    ensures Source(l, x, y) + l.bpp <= |data| && (l.bpp == 3 || l.bpp == 4)
  {
    hide Source;
  }

  lemma DecodedIs(data: Bytes, l: Layout, x: nat, y: nat)
    requires Source(l, x, y) + 3 <= |data|
    ensures var p := Source(l, x, y); Decoded(data, l, x, y) == Argb(data[p + 2], data[p + 1], data[p])
  {
  }

  lemma TargetIs(l: Layout, x: nat, y: nat)
    requires y < l.height
    ensures Target(l, x, y) == (if l.bottomUp then l.height - 1 - y else y) * l.width + x
  {
  }

  // Writing.

  /** The four bytes of a 32-bit field; a negative number in two's complement. */
  function Field32(v: int): (b: Bytes)
    ensures |b| == 4
  {
    [v % 0x100, v / 0x100 % 0x100, v / 0x1_0000 % 0x100, v / 0x100_0000 % 0x100]
  }

  /** The header: 32 bits a pixel, uncompressed, and a negative height, which
      means that rows are stored from the top down. */
  function Header(width: nat, height: nat): (h: Bytes)
    ensures |h| == HEADER_SIZE
  {
    [0x42, 0x4D] + Field32(HEADER_SIZE + width * height * 4) + [0, 0, 0, 0] + [0x36, 0, 0, 0] + [0x28, 0, 0, 0]
    + Field32(width) + Field32(0 - height) + [1, 0] + [0x20, 0] + [0, 0, 0, 0] + [0, 0, 0, 0]
    + [0, 0, 0, 0, 0, 0, 0, 0, 0, 0, 0, 0, 0, 0, 0, 0]
  }

  /** The bytes of the picture: header, then blue, green, red and alpha of each
      pixel in turn. */
  predicate Encodes(out: Bytes, width: nat, height: nat, pixels: seq<Pixel>) {
    && |out| == HEADER_SIZE + 4 * |pixels|
    && out[..HEADER_SIZE] == Header(width, height)
    && forall i | 0 <= i < |pixels| :: PixelBytes(out, HEADER_SIZE + 4 * i, pixels[i])
  }

  predicate PixelBytes(out: Bytes, p: nat, c: Pixel) {
    p + 4 <= |out| && out[p] == c.b && out[p + 1] == c.g && out[p + 2] == c.r && out[p + 3] == c.a
  }

  method Write(width: nat, height: nat, pixels: seq<Pixel>) returns (out: Bytes)
    requires |pixels| == width * height
    ensures Encodes(out, width, height, pixels)
  {
    hide Header;
    out := [];
    var header := Header(width, height);
    var i := 0;
    while i < HEADER_SIZE
      invariant i <= HEADER_SIZE && out == header[..i]
    {
      out := out + [header[i]];
      i := i + 1;
    }
    var count := 0;
    while count < |pixels|
      invariant count <= |pixels| && |out| == HEADER_SIZE + 4 * count && out[..HEADER_SIZE] == header
      invariant forall i | 0 <= i < count :: PixelBytes(out, HEADER_SIZE + 4 * i, pixels[i])
    {
      var c := pixels[count];
      out := out + [c.b, c.g, c.r, c.a];
      count := count + 1;
    }
  }

  lemma FieldReadsBack(data: Bytes, o: nat, v: int)
    requires o + 4 <= |data| && data[o..o + 4] == Field32(v)
    ensures U32(data, o) == v % TWO32
  {
    var f := data[o..o + 4];
    assert data[o] == f[0] && data[o + 1] == f[1] && data[o + 2] == f[2] && data[o + 3] == f[3];
    BytesOf(v);
  }

  /** The bytes of a number add up to it, modulo 2^32. */
  lemma BytesOf(v: int)
    ensures v % 0x100 + 0x100 * (v / 0x100 % 0x100) + 0x1_0000 * (v / 0x1_0000 % 0x100)
            + 0x100_0000 * (v / 0x100_0000 % 0x100) == v % TWO32
  {
    var q1, q2, q3 := v / 0x100, v / 0x1_0000, v / 0x100_0000;
    assert q2 == q1 / 0x100 && q3 == q2 / 0x100;
    assert v == 0x100 * q1 + v % 0x100 && q1 == 0x100 * q2 + q1 % 0x100;
    assert q2 == 0x100 * q3 + q2 % 0x100 && q3 == 0x100 * (q3 / 0x100) + q3 % 0x100;
  }

  /** The reader takes the headers that the writer makes, and finds the same
      sizes in them. */
  lemma HeaderRoundTrip(out: Bytes, width: nat, height: nat)
    requires width < TWO32 && height < 0x8000_0000
    requires |out| >= HEADER_SIZE && out[..HEADER_SIZE] == Header(width, height)
    ensures Accepted(out)
    ensures LayoutOf(out) == Layout(width, height, 4, HEADER_SIZE, false)
  {
    hide Field32;
    var h := out[..HEADER_SIZE];
    assert forall k | 0 <= k < HEADER_SIZE :: out[k] == h[k];
    assert out[18..22] == h[18..22] == Field32(width);
    assert out[22..26] == h[22..26] == Field32(0 - height);
    FieldReadsBack(out, 18, width);
    FieldReadsBack(out, 22, 0 - height);
    NegatedTwice(height);
  }

  /** The other fields of the header: the size of the whole file, where the pixels
      begin, the size of the second header, one plane, and no compression. */
  lemma HeaderFields(out: Bytes, width: nat, height: nat, pixels: seq<Pixel>)
    requires Encodes(out, width, height, pixels) && |pixels| == width * height
    ensures U32(out, 2) == |out| % TWO32 && U32(out, 10) == HEADER_SIZE && U32(out, 14) == 40
    ensures U16(out, 26) == 1 && U16(out, 28) == 32 && U32(out, 30) == 0
  {
    hide Field32;
    var h := out[..HEADER_SIZE];
    assert forall k | 0 <= k < HEADER_SIZE :: out[k] == h[k];
    assert out[2..6] == h[2..6] == Field32(HEADER_SIZE + width * height * 4);
    FieldReadsBack(out, 2, HEADER_SIZE + width * height * 4);
  }

  /** Within one turn of the modulus the remainder is the number itself. */
  lemma InTurn(a: nat)
    requires a < TWO32
    ensures a % TWO32 == a && (TWO32 + a) % TWO32 == a && (a - TWO32) % TWO32 == a
  {
  }

  lemma NegatedIs(h: nat)
    requires h < TWO32
    ensures Negated(h) == if h == 0 then 0 else TWO32 - h
  {
    if h == 0 {
      InTurn(0);
    } else {
      InTurn(TWO32 - h);
    }
  }

  lemma NegatedTwice(h: nat)
    requires h < 0x8000_0000
    ensures (0 - h) % TWO32 == Negated(h) && Negated(Negated(h)) == h
    ensures h > 0 ==> Negated(h) > 0x8000_0000
  {
    hide Negated;
    NegatedIs(h);
    NegatedIs(Negated(h));
    if h > 0 {
      InTurn(TWO32 - h);
    }
  }

  /** In a top-down 32-bit picture, pixel (x, y) is entry y * width + x. */
  lemma PlainSource(width: nat, height: nat, x: nat, y: nat)
    requires x < width && y < height
    ensures var l := Layout(width, height, 4, HEADER_SIZE, false);
      Source(l, x, y) == HEADER_SIZE + 4 * (y * width + x) && Target(l, x, y) == y * width + x < width * height
  {
    hide Padding;
    RowEnd(width, height, y, x);
    FourTimes(width, y, x);
    NoPadding(width);
  }

  lemma NoPadding(width: nat)
    ensures Padding(width, 4) == 0
  {
  }

  lemma FourTimes(width: nat, y: nat, x: nat)
    ensures y * (width * 4) + x * 4 == 4 * (y * width + x)
  {
  }

  /** Reading what was written gives back the picture with full alpha. */
  lemma RoundTrip(out: Bytes, width: nat, height: nat, pixels: seq<Pixel>, decoded: seq<nat>)
    requires width < TWO32 && height < 0x8000_0000 && width * height * 4 < TWO32
    requires |pixels| == width * height && Encodes(out, width, height, pixels)
    ensures Accepted(out) && Fits(out) && LayoutOf(out) == Layout(width, height, 4, HEADER_SIZE, false)
    ensures Done(out, LayoutOf(out), decoded, 0, height) ==>
      && |decoded| == |pixels|
      && forall i | 0 <= i < |pixels| :: decoded[i] == Argb(pixels[i].r, pixels[i].g, pixels[i].b)
  {
    hide Accepted, LayoutOf, Source, Target, Header, Argb;
    HeaderRoundTrip(out, width, height);
    var l := LayoutOf(out);
    forall x, y | 0 <= x < l.width && 0 <= y < l.height
      ensures Source(l, x, y) + l.bpp <= |out|
    {
      PlainSource(width, height, x, y);
    }
    if Done(out, l, decoded, 0, height) {
      forall i | 0 <= i < |pixels|
        ensures decoded[i] == Argb(pixels[i].r, pixels[i].g, pixels[i].b)
      {
        var x, y := TargetReached(l, i);
        PlainSource(width, height, x, y);
        assert PixelBytes(out, HEADER_SIZE + 4 * i, pixels[i]);
      }
    }
  }
}
