/** Every format that the reader takes (kernel/GPU/bmp.c:10-62): 24 or 32 bits a pixel,
    rows stored from the top down or from the bottom up, pixels at any offset. */
module BmpFormats {
  import opened Bmp
  import opened Machine
  import opened Sectors
  import opened Strings

  /** Blue, green, red, and with 32 bits a fourth byte. */
  function PixelText(c: Pixel, bpp: nat): (b: Bytes)
    requires bpp == 3 || bpp == 4
    ensures |b| == bpp
  {
    if bpp == 4 then [c.b, c.g, c.r, c.a] else [c.b, c.g, c.r]
  }

  function RowText(row: seq<Pixel>, bpp: nat): (b: Bytes)
    requires bpp == 3 || bpp == 4
    ensures |b| == |row| * bpp
  {
    if row == [] then [] else PixelText(row[0], bpp) + RowText(row[1..], bpp)
  }

  /** A row filled up to a multiple of 4 bytes. */
  function PaddedRow(row: seq<Pixel>, bpp: nat): Bytes
    requires bpp == 3 || bpp == 4
  {
    RowText(row, bpp) + Zeros((4 - |RowText(row, bpp)| % 4) % 4)
  }

  /** Rows one after the other. */
  function RowsText(rows: seq<seq<Pixel>>, bpp: nat): Bytes
    requires bpp == 3 || bpp == 4
  {
    if rows == [] then [] else PaddedRow(rows[0], bpp) + RowsText(rows[1..], bpp)
  }

  function Upside(rows: seq<seq<Pixel>>): (r: seq<seq<Pixel>>)
    ensures |r| == |rows| && forall i | 0 <= i < |r| :: r[i] == rows[|rows| - 1 - i]
  {
    seq(|rows|, i requires 0 <= i < |rows| => rows[|rows| - 1 - i])
  }

  /** The rows in the order in which they are stored. */
  function StoredRows(rows: seq<seq<Pixel>>, bottomUp: bool): (stored: seq<seq<Pixel>>)
    ensures |stored| == |rows|
  {
    if bottomUp then Upside(rows) else rows
  }

  predicate Rectangle(rows: seq<seq<Pixel>>, width: nat) {
    forall row | row in rows :: |row| == width
  }

  /** Bytes per stored row. */
  function RowSize(width: nat, bpp: nat): nat {
    width * bpp + Padding(width, bpp)
  }

  lemma PaddedRowSize(row: seq<Pixel>, bpp: nat)
    requires bpp == 3 || bpp == 4
    ensures |PaddedRow(row, bpp)| == RowSize(|row|, bpp)
  {
  }

  lemma Times(n: nat, a: nat)
    ensures (n + 1) * a == n * a + a
  {
  }

  lemma {:induction false} PixelIn(row: seq<Pixel>, bpp: nat, x: nat, j: nat)
    requires (bpp == 3 || bpp == 4) && x < |row| && j < bpp
    ensures x * bpp + j < |row| * bpp && RowText(row, bpp)[x * bpp + j] == PixelText(row[x], bpp)[j]
  {
    Times(x, bpp);
    Monotone(x + 1, |row|, bpp);
    if x > 0 {
      Times(x - 1, bpp);
      PixelIn(row[1..], bpp, x - 1, j);
    }
  }

  lemma PixelInPadded(row: seq<Pixel>, bpp: nat, x: nat, j: nat)
    requires (bpp == 3 || bpp == 4) && x < |row| && j < bpp
    ensures x * bpp + j < |PaddedRow(row, bpp)| && PaddedRow(row, bpp)[x * bpp + j] == PixelText(row[x], bpp)[j]
  {
    hide RowText, PixelText;
    PixelIn(row, bpp, x, j);
  }

  /** Byte `i` of stored row `y` lies at `p` when all rows have `size` bytes. */
  lemma {:induction false} RowAt(rows: seq<seq<Pixel>>, bpp: nat, size: nat, y: nat, i: nat, p: nat)
    requires (bpp == 3 || bpp == 4) && forall row | row in rows :: |PaddedRow(row, bpp)| == size
    requires y < |rows| && i < size && p == y * size + i
    ensures i < |PaddedRow(rows[y], bpp)| && p < |RowsText(rows, bpp)|
    ensures RowsText(rows, bpp)[p] == PaddedRow(rows[y], bpp)[i]
  {
    hide PaddedRow;
    assert rows[0] in rows && rows[y] in rows;
    if y > 0 {
      Times(y - 1, size);
      RowAt(rows[1..], bpp, size, y - 1, i, p - size);
    }
  }

  /** Byte `j` of a pixel among the rows. */
  lemma PixelAt(rows: seq<seq<Pixel>>, width: nat, bpp: nat, x: nat, y: nat, j: nat)
    requires (bpp == 3 || bpp == 4) && Rectangle(rows, width) && y < |rows| && x < width && j < bpp
    ensures |rows[y]| == width
    ensures Place(width, bpp, x, y) + j < |RowsText(rows, bpp)|
    ensures RowsText(rows, bpp)[Place(width, bpp, x, y) + j] == PixelText(rows[y][x], bpp)[j]
  {
    hide PaddedRow, PixelText, RowsText, RowSize;
    assert rows[y] in rows;
    forall row | row in rows
      ensures |PaddedRow(row, bpp)| == RowSize(width, bpp)
    {
      PaddedRowSize(row, bpp);
    }
    PixelInPadded(rows[y], bpp, x, j);
    RowAt(rows, bpp, RowSize(width, bpp), y, x * bpp + j, Place(width, bpp, x, y) + j);
  }

  /** Where stored row `y` holds column `x`, from the first row on. */
  function Place(width: nat, bpp: nat, x: nat, y: nat): nat {
    y * RowSize(width, bpp) + x * bpp
  }

  /** A file whose headers give that format and size, with the rows at `offset`. */
  ghost predicate FileOf(data: Bytes, rows: seq<seq<Pixel>>, width: nat, bpp: nat, bottomUp: bool, offset: nat) {
    && |data| >= HEADER_SIZE && (bpp == 3 || bpp == 4) && Rectangle(rows, width)
    && |rows| < 0x8000_0000 && (bottomUp ==> |rows| > 0) && width * |rows| * 4 < TWO32
    && data[0] == 0x42 && data[1] == 0x4D && data[28] == (if bpp == 3 then 24 else 32) && data[29] == 0
    && data[30] == 0 && data[31] == 0 && data[32] == 0 && data[33] == 0
    && U32(data, 10) == offset && U32(data, 18) == width
    && U32(data, 22) == (if bottomUp || rows == [] then |rows| else TWO32 - |rows|)
    && var text := RowsText(StoredRows(rows, bottomUp), bpp);
    && offset + |text| <= |data| && data[offset..offset + |text|] == text
  }

  /** A file is taken exactly if it begins with "BM", has 24 or 32 bits a pixel and is
      not compressed. */
  lemma AcceptedBytes(data: Bytes)
    requires |data| >= HEADER_SIZE
    ensures Accepted(data)
            <==> data[0] == 0x42 && data[1] == 0x4D && (data[28] == 24 || data[28] == 32) && data[29] == 0
                 && data[30] == 0 && data[31] == 0 && data[32] == 0 && data[33] == 0
  {
  }

  /** The reader finds format and size, and the pixels lie within the data. */
  lemma FormatFound(data: Bytes, rows: seq<seq<Pixel>>, width: nat, bpp: nat, bottomUp: bool, offset: nat)
    requires FileOf(data, rows, width, bpp, bottomUp, offset)
    ensures Accepted(data) && Fits(data) && LayoutOf(data) == Layout(width, |rows|, bpp, offset, bottomUp)
  {
    hide U32, RowsText, Place, Source;
    FormatIs(data, rows, width, bpp, bottomUp, offset);
    var l := LayoutOf(data);
    forall x, y | 0 <= x < l.width && 0 <= y < l.height
      ensures Source(l, x, y) + l.bpp <= |data|
    {
      StoredRectangle(rows, width, bottomUp);
      PixelAt(StoredRows(rows, bottomUp), width, bpp, x, y, bpp - 1);
      SourceIs(l, x, y);
    }
  }

  lemma FormatIs(data: Bytes, rows: seq<seq<Pixel>>, width: nat, bpp: nat, bottomUp: bool, offset: nat)
    requires FileOf(data, rows, width, bpp, bottomUp, offset)
    ensures Accepted(data) && LayoutOf(data) == Layout(width, |rows|, bpp, offset, bottomUp)
  {
    hide RowsText, U32;
    AcceptedBytes(data);
    HeightFound(data, |rows|, bottomUp);
  }

  lemma HeightFound(data: Bytes, height: nat, bottomUp: bool)
    requires |data| >= HEADER_SIZE && height < 0x8000_0000 && (bottomUp ==> height > 0)
    requires U32(data, 22) == if bottomUp || height == 0 then height else TWO32 - height
    ensures LayoutOf(data).height == height && LayoutOf(data).bottomUp == bottomUp
  {
    hide U32, U16;
    NegatedTwice(height);
    NegatedIs(height);
  }

  lemma StoredRectangle(rows: seq<seq<Pixel>>, width: nat, bottomUp: bool)
    requires Rectangle(rows, width)
    ensures Rectangle(StoredRows(rows, bottomUp), width)
  {
  }

  lemma SourceIs(l: Layout, x: nat, y: nat)
    ensures Source(l, x, y) == l.offset + Place(l.width, l.bpp, x, y)
  {
  }

  /** What the reader leaves in the picture, when it takes the file. */
  ghost predicate Decodes(data: Bytes, decoded: seq<nat>) {
    && |data| >= HEADER_SIZE && Accepted(data) && Fits(data)
    && Done(data, LayoutOf(data), decoded, 0, LayoutOf(data).height)
  }

  /** Blue, green and red in the three low bytes, 255 in the fourth. */
  function Opaque(c: Pixel): nat {
    var r: nat, g: nat, b: nat := c.r, c.g, c.b;
    ((255 * 0x100 + r) * 0x100 + g) * 0x100 + b
  }

  /** Decoding any such file gives the picture: the colour of row `y` and column `x` at
      entry y * width + x, with full alpha. */
  lemma FormatRoundTrip(data: Bytes, rows: seq<seq<Pixel>>, width: nat, bpp: nat, bottomUp: bool, offset: nat,
                        decoded: seq<nat>, x: nat, y: nat, i: nat)
    requires x < width && y < |rows| && |rows[y]| == width && i == y * width + x
    requires FileOf(data, rows, width, bpp, bottomUp, offset) && Decodes(data, decoded)
    ensures i < |decoded| && decoded[i] == Opaque(rows[y][x])
  {
    hide Decodes, RowsText, RowSize, Accepted, Fits, LayoutOf, FileOf, Source, Target, Opaque, Decoded, StoredRows,
      Rectangle;
    FormatFound(data, rows, width, bpp, bottomUp, offset);
    TextThere(data, rows, width, bpp, bottomUp, offset);
    var stored := if bottomUp then |rows| - 1 - y else y;
    var l := Layout(width, |rows|, bpp, offset, bottomUp);
    PixelStored(data, l, StoredRows(rows, bottomUp), x, stored);
    DecodedPixel(data, l, decoded, x, stored);
    TargetFor(l, x, stored, y, i);
    StoredRow(rows, bottomUp, stored);
  }

  lemma TargetFor(l: Layout, x: nat, stored: nat, y: nat, i: nat)
    requires stored < l.height && y == (if l.bottomUp then l.height - 1 - stored else stored) && i == y * l.width + x
    ensures Target(l, x, stored) == i
  {
  }

  lemma StoredRow(rows: seq<seq<Pixel>>, bottomUp: bool, y: nat)
    requires y < |rows|
    ensures StoredRows(rows, bottomUp)[y] == rows[if bottomUp then |rows| - 1 - y else y]
  {
  }

  lemma DecodedPixel(data: Bytes, l: Layout, decoded: seq<nat>, x: nat, y: nat)
    requires Decodes(data, decoded) && l == LayoutOf(data) && x < l.width && y < l.height
    requires Source(l, x, y) + 3 <= |data|
    ensures Target(l, x, y) < |decoded| && decoded[Target(l, x, y)] == Decoded(data, l, x, y)
  {
    hide Accepted, Fits, LayoutOf, Source, Target, Decoded;
  }

  /** What stored row `y` holds for column `x`. */
  lemma PixelStored(data: Bytes, l: Layout, stored: seq<seq<Pixel>>, x: nat, y: nat)
    requires (l.bpp == 3 || l.bpp == 4) && Rectangle(stored, l.width) && x < l.width && y < |stored|
    requires var text := RowsText(stored, l.bpp);
      l.offset + |text| <= |data| && data[l.offset..l.offset + |text|] == text
    ensures |stored[y]| == l.width
    ensures Source(l, x, y) + 3 <= |data| && Decoded(data, l, x, y) == Opaque(stored[y][x])
  {
    hide RowsText, Place, Source, Opaque, Argb, Decoded, RowSize;
    SourceIs(l, x, y);
    ColourAt(data, stored, l.width, l.bpp, l.offset, x, y);
    DecodedIs(data, l, x, y);
    OpaqueIs(stored[y][x]);
  }

  lemma OpaqueIs(c: Pixel)
    ensures Argb(c.r, c.g, c.b) == Opaque(c)
  {
  }

  /** The first three bytes of the pixel in the data. */
  lemma ColourAt(data: Bytes, stored: seq<seq<Pixel>>, width: nat, bpp: nat, offset: nat, x: nat, y: nat)
    requires (bpp == 3 || bpp == 4) && Rectangle(stored, width) && x < width && y < |stored|
    requires var text := RowsText(stored, bpp); offset + |text| <= |data| && data[offset..offset + |text|] == text
    ensures |stored[y]| == width
    ensures var p, c := offset + Place(width, bpp, x, y), stored[y][x];
      p + 3 <= |data| && data[p] == c.b && data[p + 1] == c.g && data[p + 2] == c.r
  {
    hide RowsText, Place;
    var p := Place(width, bpp, x, y);
    PixelAt(stored, width, bpp, x, y, 0);
    PixelAt(stored, width, bpp, x, y, 1);
    PixelAt(stored, width, bpp, x, y, 2);
    PartAt(data, offset, RowsText(stored, bpp), p);
    PartAt(data, offset, RowsText(stored, bpp), p + 1);
    PartAt(data, offset, RowsText(stored, bpp), p + 2);
  }

  lemma TextThere(data: Bytes, rows: seq<seq<Pixel>>, width: nat, bpp: nat, bottomUp: bool, offset: nat)
    requires FileOf(data, rows, width, bpp, bottomUp, offset)
    ensures (bpp == 3 || bpp == 4) && Rectangle(StoredRows(rows, bottomUp), width)
    ensures var text := RowsText(StoredRows(rows, bottomUp), bpp);
      offset + |text| <= |data| && data[offset..offset + |text|] == text
  {
    hide U32, RowsText;
    StoredRectangle(rows, width, bottomUp);
  }

  lemma PartAt(data: Bytes, offset: nat, text: Bytes, p: nat)
    requires offset + |text| <= |data| && data[offset..offset + |text|] == text && p < |text|
    ensures data[offset + p] == text[p]
  {
    assert data[offset + p] == data[offset..offset + |text|][p];
  }
}
