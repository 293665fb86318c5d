/**
 * Clipboard images: the header and pixel loops of ReadImagePNG and WriteImagePNG in
 * internal/clipboard/clipboard.go. PNG coding and the clipboard itself are outside.
 */
module Clipboard {
  import opened Bits
  import opened Integers
  import opened Wrappers

  const HEADER_SIZE := 40
  const BI_RGB := 0
  const BI_BITFIELDS := 3

  /** Three fields of a structure, with their sizes. */
  function Fields(n: nat, v: nat, n': nat, v': nat, n'': nat, v'': nat): (s: seq<byte>)
    ensures |s| == n + n' + n''
  {
    LittleEndian(n, v) + LittleEndian(n', v') + LittleEndian(n'', v'')
  }

  /** BITMAPINFOHEADER. */
  datatype Header = Header(
    size: uint32, width: int32, height: int32, planes: uint16, bitCount: uint16, compression: uint32,
    sizeImage: uint32, xPels: int32, yPels: int32, clrUsed: uint32, clrImportant: uint32) {

    function Bytes(): (s: seq<byte>)
      ensures |s| == HEADER_SIZE
    {
      Fields(4, size, 4, Bits32(width), 4, Bits32(height))
      + Fields(2, planes, 2, bitCount, 4, compression)
      + Fields(4, sizeImage, 4, Bits32(xPels), 4, Bits32(yPels))
      + Fields(4, clrUsed, 4, clrImportant, 0, 0)
    }
  }

  function Unsigned32(s: seq<byte>, at: nat): uint32
    requires at + 4 <= |s|
  {
    ByteCapacities();
    FromLittleEndian(s[at..at + 4])
  }

  function Unsigned16(s: seq<byte>, at: nat): uint16
    requires at + 2 <= |s|
  {
    ByteCapacities();
    FromLittleEndian(s[at..at + 2])
  }

  function ReadHeader(s: seq<byte>): Header
    requires |s| >= HEADER_SIZE
  {
    Header(Unsigned32(s, 0), Wrap32(Unsigned32(s, 4)), Wrap32(Unsigned32(s, 8)), Unsigned16(s, 12), Unsigned16(s, 14),
           Unsigned32(s, 16), Unsigned32(s, 20), Wrap32(Unsigned32(s, 24)), Wrap32(Unsigned32(s, 28)),
           Unsigned32(s, 32), Unsigned32(s, 36))
  }

  lemma SliceOfSlice(s: seq<byte>, i: nat, j: nat, k: nat, l: nat)
    requires i <= j <= |s| && k <= l <= j - i
    ensures s[i..j][k..l] == s[i + k..i + l]
  {
    var a, b := s[i..j][k..l], s[i + k..i + l];
    assert |a| == |b| && forall m | 0 <= m < |a| :: a[m] == b[m];
  }

  /** Fields read back from what they were written to. */
  lemma {:induction false} PartReads(s: seq<byte>, n: nat, v: nat, n': nat, v': nat, n'': nat, v'': nat)
    requires |s| == n + n' + n'' && s == Fields(n, v, n', v', n'', v'')
    requires v < Pow256(n) && v' < Pow256(n') && v'' < Pow256(n'')
    ensures FromLittleEndian(s[0..n]) == v
    ensures FromLittleEndian(s[n..n + n']) == v'
    ensures FromLittleEndian(s[n + n'..|s|]) == v''
  {
    assert s[0..n] == LittleEndian(n, v);
    assert s[n..n + n'] == LittleEndian(n', v');
    assert s[n + n'..|s|] == LittleEndian(n'', v'');
    LittleEndianReads(n, v);
    LittleEndianReads(n', v');
    LittleEndianReads(n'', v'');
  }

  lemma {:induction false} FieldsRead(s: seq<byte>, from: nat, to: nat, n: nat, v: nat, n': nat, v': nat, n'': nat,
      v'': nat)
    requires from <= to <= |s| && to - from == n + n' + n'' && s[from..to] == Fields(n, v, n', v', n'', v'')
    requires v < Pow256(n) && v' < Pow256(n') && v'' < Pow256(n'')
    ensures FromLittleEndian(s[from..from + n]) == v
    ensures FromLittleEndian(s[from + n..from + n + n']) == v'
    ensures FromLittleEndian(s[from + n + n'..to]) == v''
  {
    PartReads(s[from..to], n, v, n', v', n'', v'');
    SliceOfSlice(s, from, to, 0, n);
    SliceOfSlice(s, from, to, n, n + n');
    SliceOfSlice(s, from, to, n + n', n + n' + n'');
  }

  lemma {:induction false} PartsRead(h: Header, s: seq<byte>)
    requires |s| >= HEADER_SIZE
    requires s[0..12] == Fields(4, h.size, 4, Bits32(h.width), 4, Bits32(h.height))
    requires s[12..20] == Fields(2, h.planes, 2, h.bitCount, 4, h.compression)
    requires s[20..32] == Fields(4, h.sizeImage, 4, Bits32(h.xPels), 4, Bits32(h.yPels))
    requires s[32..40] == Fields(4, h.clrUsed, 4, h.clrImportant, 0, 0)
    ensures ReadHeader(s) == h
  {
    ByteCapacities();
    FieldsRead(s, 0, 12, 4, h.size, 4, Bits32(h.width), 4, Bits32(h.height));
    FieldsRead(s, 12, 20, 2, h.planes, 2, h.bitCount, 4, h.compression);
    FieldsRead(s, 20, 32, 4, h.sizeImage, 4, Bits32(h.xPels), 4, Bits32(h.yPels));
    FieldsRead(s, 32, 40, 4, h.clrUsed, 4, h.clrImportant, 0, 0);
  }

  lemma FourParts(a: seq<byte>, b: seq<byte>, c: seq<byte>, d: seq<byte>, rest: seq<byte>)
    requires |a| == 12 && |b| == 8 && |c| == 12 && |d| == 8
    ensures var s := a + b + c + d + rest; s[0..12] == a && s[12..20] == b && s[20..32] == c && s[32..40] == d
  {
  }

  lemma {:induction false} HeaderReads(h: Header, rest: seq<byte>)
    ensures ReadHeader(h.Bytes() + rest) == h
  {
    FourParts(Fields(4, h.size, 4, Bits32(h.width), 4, Bits32(h.height)),
              Fields(2, h.planes, 2, h.bitCount, 4, h.compression),
              Fields(4, h.sizeImage, 4, Bits32(h.xPels), 4, Bits32(h.yPels)),
              Fields(4, h.clrUsed, 4, h.clrImportant, 0, 0), rest);
    PartsRead(h, h.Bytes() + rest);
  }

  // ---------------------------------------------------------------- layouts

  datatype Rgb = Rgb(r: byte, g: byte, b: byte)

  datatype Refusal = UnsupportedCompression | UnsupportedDepth | BitfieldsDepth | InvalidSize

  /** Where and how the pixels of an accepted bitmap lie. */
  datatype Layout = Layout(width: nat, height: nat, topDown: bool, pixelOffset: nat, bytesPerPixel: nat,
                           rMask: uint32, gMask: uint32, bMask: uint32) {
    predicate Sound() {
      width > 0 && height > 0 && (bytesPerPixel == 3 || bytesPerPixel == 4)
    }

    /** Rows are padded to whole double words. */
    function RowSize(): nat {
      (width * bytesPerPixel + 3) / 4 * 4
    }

    /** The offset of a row in the pixel data, row by row. */
    function RowStart(row: nat): nat {
      if row == 0 then 0 else RowStart(row - 1) + RowSize()
    }

    /** The code multiplies. */
    lemma {:induction false} RowStartIsProduct(row: nat)
      ensures RowStart(row) == row * RowSize()
    {
      if row > 0 {
        RowStartIsProduct(row - 1);
      }
    }

    lemma {:induction false} RowBefore(row: nat, row': nat)
      requires row < row'
      ensures RowStart(row) + RowSize() <= RowStart(row')
    {
      if row + 1 < row' {
        RowBefore(row, row' - 1);
      }
    }

    function DataSize(): nat {
      RowStart(height)
    }

    predicate Inside(x: int, y: int) {
      0 <= x < width && 0 <= y < height
    }

    /** The offset of a pixel's first byte in the pixel data. */
    function PixelStart(x: nat, y: nat): nat
      requires Inside(x, y)
    {
      RowStart(Row(y)) + x * bytesPerPixel
    }

    function Row(y: nat): nat
      requires y < height
    {
      if topDown then y else height - 1 - y
    }

    /** The pixel whose first byte is at offset i. */
    function Extract(data: seq<byte>, i: nat): Rgb
      requires Sound() && i + bytesPerPixel <= |data|
    {
      if bytesPerPixel == 4 then
        var v := Unsigned32(data, i);
        Rgb(Channel(v, rMask), Channel(v, gMask), Channel(v, bMask))
      else
        Rgb(data[i + 2], data[i + 1], data[i])
    }

    /** The pixel the reader extracts for column x of row y. */
    function Decode(data: seq<byte>, x: nat, y: nat): Rgb
      requires Sound() && Inside(x, y) && |data| >= DataSize()
    {
      PixelInData(x, y);
      Extract(data, PixelStart(x, y))
    }

    lemma ColumnFits(x: nat, x': nat)
      requires Sound() && x < width
      ensures x * bytesPerPixel + bytesPerPixel <= RowSize()
      ensures x < x' ==> x * bytesPerPixel + bytesPerPixel <= x' * bytesPerPixel
    {
      if bytesPerPixel == 3 {
        assert x * bytesPerPixel == x * 3 && x' * bytesPerPixel == x' * 3 && width * bytesPerPixel == width * 3;
      } else {
        assert x * bytesPerPixel == x * 4 && x' * bytesPerPixel == x' * 4 && width * bytesPerPixel == width * 4;
      }
    }

    /** Every byte of a pixel lies in the pixel data. */
    lemma PixelInData(x: nat, y: nat)
      requires Sound() && Inside(x, y)
      ensures PixelStart(x, y) + bytesPerPixel <= DataSize()
    {
      ColumnFits(x, x);
      RowBefore(Row(y), height);
    }

    /** Distinct pixels have no byte in common. */
    lemma PixelsAreDisjoint(x: nat, y: nat, x': nat, y': nat)
      requires Sound() && Inside(x, y) && Inside(x', y') && (x, y) != (x', y')
      ensures || PixelStart(x, y) + bytesPerPixel <= PixelStart(x', y')
              || PixelStart(x', y') + bytesPerPixel <= PixelStart(x, y)
    {
      ColumnFits(x, x');
      ColumnFits(x', x);
      if Row(y) < Row(y') {
        RowBefore(Row(y), Row(y'));
      } else if Row(y') < Row(y) {
        RowBefore(Row(y'), Row(y));
      }
    }
  }

  const STANDARD_R: uint32 := 0x00FF0000
  const STANDARD_G: uint32 := 0x0000FF00
  const STANDARD_B: uint32 := 0x000000FF

  function Refused(h: Header): Option<Refusal> {
    if h.compression != BI_RGB && h.compression != BI_BITFIELDS then Some(UnsupportedCompression)
    else if h.bitCount != 24 && h.bitCount != 32 then Some(UnsupportedDepth)
    else if h.compression == BI_BITFIELDS && h.bitCount != 32 then Some(BitfieldsDepth)
    else if h.width <= 0 || h.height == 0 then Some(InvalidSize)
    else None
  }

  function LayoutOf(mem: seq<byte>): (l: Layout)
    requires |mem| >= HEADER_SIZE && Refused(ReadHeader(mem)).None?
    requires ReadHeader(mem).compression == BI_BITFIELDS ==> |mem| >= HEADER_SIZE + 12
    ensures l.Sound()
  {
    var h := ReadHeader(mem);
    var masked := h.compression == BI_BITFIELDS;
    var height: int := h.height;
    Layout(h.width, if height < 0 then -height else height, height < 0,
           if masked then HEADER_SIZE + 12 else HEADER_SIZE, h.bitCount / 8,
           if masked then Unsigned32(mem, 40) else STANDARD_R,
           if masked then Unsigned32(mem, 44) else STANDARD_G,
           if masked then Unsigned32(mem, 48) else STANDARD_B)
  }

  /** The memory block holds what its own header announces; the code reads it without a bound. */
  predicate Complete(mem: seq<byte>) {
    && |mem| >= HEADER_SIZE
    && (Refused(ReadHeader(mem)).None? ==>
          && (ReadHeader(mem).compression == BI_BITFIELDS ==> |mem| >= HEADER_SIZE + 12)
          && |mem| >= LayoutOf(mem).pixelOffset + LayoutOf(mem).DataSize())
  }

  /** The pixel loops of ReadImagePNG: an image by column and row. */
  method ReadPixels(l: Layout, pixels: seq<byte>) returns (img: array2<Rgb>)
    requires l.Sound() && |pixels| >= l.DataSize()
    ensures fresh(img) && img.Length0 == l.width && img.Length1 == l.height
    ensures forall x, y | l.Inside(x, y) :: img[x, y] == l.Decode(pixels, x, y)
  {
    img := new Rgb[l.width, l.height]((_, _) => Rgb(0, 0, 0));
    for y := 0 to l.height
      invariant forall x', y' | l.Inside(x', y') && y' < y :: img[x', y'] == l.Decode(pixels, x', y')
    {
      var srcY := y;
      if !l.topDown {
        srcY := l.height - 1 - y;
      }
      var rowStart := srcY * l.RowSize();
      l.RowStartIsProduct(srcY);
      for x := 0 to l.width
        invariant forall x', y' | l.Inside(x', y') && (y' < y || (y' == y && x' < x)) ::
                  img[x', y'] == l.Decode(pixels, x', y')
      {
        l.PixelInData(x, y);
        var i := rowStart + x * l.bytesPerPixel;
        img[x, y] := l.Extract(pixels, i);
      }
    }
  }

  /** ReadImagePNG up to the PNG encoder: the pixels, or why the bitmap is refused. */
  method ReadImage(mem: seq<byte>) returns (img: Result<array2<Rgb>, Refusal>)
    requires Complete(mem)
    ensures match Refused(ReadHeader(mem))
            case Some(e) => img == Failure(e)
            case None =>
              && img.Success? && fresh(img.value)
              && var l, a := LayoutOf(mem), img.value;
                 && a.Length0 == l.width && a.Length1 == l.height
                 && forall x, y | l.Inside(x, y) :: a[x, y] == l.Decode(mem[l.pixelOffset..], x, y)
  {
    var h := ReadHeader(mem);
    if h.compression != BI_RGB && h.compression != BI_BITFIELDS {
      return Failure(UnsupportedCompression);
    }
    if h.bitCount != 24 && h.bitCount != 32 {
      return Failure(UnsupportedDepth);
    }
    if h.compression == BI_BITFIELDS && h.bitCount != 32 {
      return Failure(BitfieldsDepth);
    }
    var width: int, height: int := h.width, h.height;
    var topDown := height < 0;
    if topDown {
      height := -height;
    }
    if width <= 0 || height <= 0 {
      return Failure(InvalidSize);
    }
    var pixelOffset := HEADER_SIZE;
    var rMask, gMask, bMask := STANDARD_R, STANDARD_G, STANDARD_B;
    if h.compression == BI_BITFIELDS {
      rMask, gMask, bMask := Unsigned32(mem, 40), Unsigned32(mem, 44), Unsigned32(mem, 48);
      pixelOffset := pixelOffset + 12;
    }
    var l := Layout(width, height, topDown, pixelOffset, h.bitCount / 8, rMask, gMask, bMask);
    assert l == LayoutOf(mem);
    var a := ReadPixels(l, mem[pixelOffset..]);
    img := Success(a);
  }

  // ---------------------------------------------------------------- writing

  /** A decoded PNG's pixel: image/color's 16-bit premultiplied channels. */
  datatype Color = Color(r: uint16, g: uint16, b: uint16, a: uint16) {
    /** The high bytes, which is what a bitmap keeps. */
    function High(): Rgb {
      Rgb(r / 256, g / 256, b / 256)
    }
  }

  /** The 16-bit colour of an opaque 8-bit pixel. */
  function Opaque(c: Rgb): Color {
    Color(c.r * 0x101, c.g * 0x101, c.b * 0x101, 0xFFFF)
  }

  /** A decoded PNG. Its bounds need not start at the origin; PNG dimensions fit an int32. */
  datatype Picture = Picture(minX: int, minY: int, width: nat, height: nat, rows: seq<seq<Color>>) {
    predicate Valid() {
      && width <= MAX_INT32 && height <= MAX_INT32
      && |rows| == height && forall row | row in rows :: |row| == width
    }

    function At(x: int, y: int): Color
      requires Valid() && minX <= x < minX + width && minY <= y < minY + height
    {
      rows[y - minY][x - minX]
    }
  }

  function WrittenHeader(width: int32, height: int32): Header {
    Header(40, width, height, 1, 32, BI_RGB, width * 4 * height % TWO32, 0, 0, 0, 0)
  }

  /** Bottom-up, 32 bits a pixel, standard byte order. */
  function WrittenLayout(width: nat, height: nat): Layout {
    Layout(width, height, false, HEADER_SIZE, 4, STANDARD_R, STANDARD_G, STANDARD_B)
  }

  /** The four bytes of a pixel are blue, green, red and zero. */
  predicate PixelWritten(data: seq<byte>, i: nat, c: Rgb) {
    i + 4 <= |data| && data[i..i + 4] == [c.b, c.g, c.r, 0]
  }

  method PutPixel(dst: array<byte>, i: nat, c: Color)
    requires i + 4 <= dst.Length
    modifies dst
    ensures PixelWritten(dst[..], i, c.High())
    ensures forall k | 0 <= k < dst.Length && !(i <= k < i + 4) :: dst[k] == old(dst[k])
  {
    dst[i] := c.b / 256;
    dst[i + 1] := c.g / 256;
    dst[i + 2] := c.r / 256;
    dst[i + 3] := 0;
  }

  /** A pixel of the picture is where the layout has it. */
  predicate HasPixel(p: Picture, data: seq<byte>, x: nat, y: nat)
    requires p.Valid() && x < p.width && y < p.height
  {
    PixelWritten(data, HEADER_SIZE + WrittenLayout(p.width, p.height).PixelStart(x, y),
        p.At(p.minX + x, p.minY + y).High())
  }

  /** Writing one pixel leaves the others alone. */
  lemma OtherPixelKept(p: Picture, before: seq<byte>, after: seq<byte>, x: nat, y: nat, x': nat, y': nat)
    requires p.Valid() && x < p.width && y < p.height && x' < p.width && y' < p.height && (x, y) != (x', y')
    requires HasPixel(p, before, x', y') && |before| == |after|
    requires var i := HEADER_SIZE + WrittenLayout(p.width, p.height).PixelStart(x, y);
             forall k | 0 <= k < |before| && !(i <= k < i + 4) :: after[k] == before[k]
    ensures HasPixel(p, after, x', y')
  {
    var l := WrittenLayout(p.width, p.height);
    l.PixelsAreDisjoint(x, y, x', y');
    var j := HEADER_SIZE + l.PixelStart(x', y');
    assert after[j..j + 4] == before[j..j + 4];
  }

  /** Every pixel up to column x of row y has been written. */
  ghost predicate WrittenUpTo(p: Picture, data: seq<byte>, x: nat, y: nat)
    requires p.Valid()
  {
    forall x', y' | 0 <= x' < p.width && 0 <= y' < p.height && (y' < y || (y' == y && x' < x)) ::
        HasPixel(p, data, x', y')
  }

  /** The header is in place, and every pixel up to column x of row y. */
  ghost predicate BufferAt(p: Picture, header: seq<byte>, data: seq<byte>, x: nat, y: nat)
    requires p.Valid()
  {
    && |data| == HEADER_SIZE + WrittenLayout(p.width, p.height).DataSize()
    && data[..HEADER_SIZE] == header
    && WrittenUpTo(p, data, x, y)
  }

  /** The memory block written for a picture. */
  ghost predicate BitmapOf(p: Picture, data: seq<byte>)
    requires p.Valid()
  {
    BufferAt(p, WrittenHeader(p.width, p.height).Bytes(), data, 0, p.height)
  }

  /** The body of the pixel loops. */
  method WritePixel(img: Picture, ghost header: seq<byte>, dst: array<byte>, rowStart: nat, x: nat, y: nat)
    requires img.Valid() && x < img.width && y < img.height
    requires rowStart == WrittenLayout(img.width, img.height).PixelStart(0, y)
    requires BufferAt(img, header, dst[..], x, y)
    modifies dst
    ensures BufferAt(img, header, dst[..], x + 1, y)
  {
    ghost var before := dst[..];
    WrittenLayout(img.width, img.height).PixelInData(x, y);
    var i := HEADER_SIZE + rowStart + x * 4;
    PutPixel(dst, i, img.At(img.minX + x, img.minY + y));
    assert dst[..HEADER_SIZE] == before[..HEADER_SIZE];
    OneMoreWritten(img, before, dst[..], x, y);
  }

  lemma RowWritten(p: Picture, data: seq<byte>, y: nat)
    requires p.Valid() && WrittenUpTo(p, data, p.width, y)
    ensures WrittenUpTo(p, data, 0, y + 1)
  {
  }

  lemma FourByteRows(l: Layout)
    requires l.bytesPerPixel == 4
    ensures l.RowSize() == l.width * 4
  {
  }

  /** A block that starts with the header. */
  method NewBuffer(header: seq<byte>, size: nat) returns (dst: array<byte>)
    requires |header| <= size
    ensures fresh(dst) && dst.Length == size && dst[..|header|] == header
  {
    dst := new byte[size];
    forall k | 0 <= k < |header| {
      dst[k] := header[k];
    }
  }

  method WritePixels(img: Picture, ghost header: seq<byte>, dst: array<byte>, rowSize: nat)
    requires img.Valid() && rowSize == WrittenLayout(img.width, img.height).RowSize()
    requires BufferAt(img, header, dst[..], 0, 0)
    modifies dst
    ensures BufferAt(img, header, dst[..], 0, img.height)
  {
    for y := 0 to img.height
      invariant BufferAt(img, header, dst[..], 0, y)
    {
      var rowStart := (img.height - 1 - y) * rowSize;
      WrittenLayout(img.width, img.height).RowStartIsProduct(img.height - 1 - y);
      for x := 0 to img.width
        invariant BufferAt(img, header, dst[..], x, y)
      {
        WritePixel(img, header, dst, rowStart, x, y);
      }
      RowWritten(img, dst[..], y);
    }
  }

  /** WriteImagePNG from the decoded PNG on: the memory block it hands to the clipboard. */
  method WriteImage(img: Picture) returns (mem: Option<array<byte>>)
    requires img.Valid()
    ensures mem.None? <==> img.width == 0 || img.height == 0
    ensures mem.Some? ==> fresh(mem.value) && BitmapOf(img, mem.value[..])
  {
    if img.width <= 0 || img.height <= 0 {
      return None;
    }
    var rowSize := img.width * 4;
    FourByteRows(WrittenLayout(img.width, img.height));
    WrittenLayout(img.width, img.height).RowStartIsProduct(img.height);
    var header := WrittenHeader(img.width, img.height).Bytes();
    var dst := NewBuffer(header, HEADER_SIZE + rowSize * img.height);
    WritePixels(img, header, dst, rowSize);
    mem := Some(dst);
  }

  lemma OneMoreWritten(p: Picture, before: seq<byte>, after: seq<byte>, x: nat, y: nat)
    requires p.Valid() && x < p.width && y < p.height && |before| == |after|
    requires WrittenUpTo(p, before, x, y) && HasPixel(p, after, x, y)
    requires var i := HEADER_SIZE + WrittenLayout(p.width, p.height).PixelStart(x, y);
             forall k | 0 <= k < |before| && !(i <= k < i + 4) :: after[k] == before[k]
    ensures WrittenUpTo(p, after, x + 1, y)
  {
    forall x', y' | 0 <= x' < p.width && 0 <= y' < p.height && (y' < y || (y' == y && x' < x))
      ensures HasPixel(p, after, x', y')
    {
      OtherPixelKept(p, before, after, x, y, x', y');
    }
  }

  // ---------------------------------------------------------------- what a bitmap shows

  /** The pixel at offset i stands for c: three bytes in blue-green-red order, or a word that has each
      channel's byte at the place of its mask. */
  predicate Stands(l: Layout, data: seq<byte>, i: nat, c: Rgb)
    requires i + l.bytesPerPixel <= |data|
  {
    if l.bytesPerPixel == 3 then data[i..i + 3] == [c.b, c.g, c.r]
    else if l.bytesPerPixel != 4 then false
    else exists rs, gs, bs | 0 <= rs <= 24 && 0 <= gs <= 24 && 0 <= bs <= 24 ::
        StandsInWord(l, Unsigned32(data, i), c, rs, gs, bs)
  }

  predicate StandsInWord(l: Layout, v: uint32, c: Rgb, rs: nat, gs: nat, bs: nat) {
    && (l.rMask, l.gMask, l.bMask) == (ByteMask(rs), ByteMask(gs), ByteMask(bs))
    && c == Rgb(ByteAt(v, rs), ByteAt(v, gs), ByteAt(v, bs))
  }

  /** The pixel data of a layout shows an image, given by column and row; the padding and the bits
      outside the masks may be anything. */
  ghost predicate Shows(l: Layout, data: seq<byte>, image: (nat, nat) -> Rgb) {
    && l.Sound() && |data| >= l.DataSize()
    && forall x, y | l.Inside(x, y) ::
        l.PixelStart(x, y) + l.bytesPerPixel <= |data| && Stands(l, data, l.PixelStart(x, y), image(x, y))
  }

  lemma StandsExtracts(l: Layout, data: seq<byte>, i: nat, c: Rgb)
    requires l.Sound() && i + l.bytesPerPixel <= |data| && Stands(l, data, i, c)
    ensures l.Extract(data, i) == c
  {
    if l.bytesPerPixel == 3 {
      assert data[i..i + 3][0] == data[i] && data[i..i + 3][1] == data[i + 1] && data[i..i + 3][2] == data[i + 2];
    } else {
      var v := Unsigned32(data, i);
      var rs, gs, bs :| 0 <= rs <= 24 && 0 <= gs <= 24 && 0 <= bs <= 24 && StandsInWord(l, v, c, rs, gs, bs);
      ChannelOfByteMask(v, rs);
      ChannelOfByteMask(v, gs);
      ChannelOfByteMask(v, bs);
    }
  }

  /**
   * Whatever its layout - bottom-up or top-down, 24 or 32 bits, any three contiguous 8-bit masks - a
   * bitmap that shows an image decodes to it.
   */
  lemma EveryLayoutDecodes(l: Layout, data: seq<byte>, image: (nat, nat) -> Rgb, x: nat, y: nat)
    requires Shows(l, data, image) && l.Inside(x, y)
    ensures l.Decode(data, x, y) == image(x, y)
  {
    StandsExtracts(l, data, l.PixelStart(x, y), image(x, y));
  }

  /** A written pixel stands for the colour it was written from. */
  lemma WrittenStands(l: Layout, data: seq<byte>, i: nat, c: Rgb)
    requires l.bytesPerPixel == 4 && (l.rMask, l.gMask, l.bMask) == (STANDARD_R, STANDARD_G, STANDARD_B)
    requires PixelWritten(data, i, c)
    ensures Stands(l, data, i, c)
  {
    StandardMasks();
    WordIsLittleEndian(data[i..i + 4]);
    BytesOfWord(c.b, c.g, c.r, 0);
    assert StandsInWord(l, Unsigned32(data, i), c, 16, 8, 0);
  }

  lemma WrittenIsAccepted(img: Picture, mem: seq<byte>)
    requires img.Valid() && img.width > 0 && img.height > 0 && BitmapOf(img, mem)
    ensures Refused(ReadHeader(mem)).None? && Complete(mem) && LayoutOf(mem) == WrittenLayout(img.width, img.height)
  {
    assert mem == WrittenHeader(img.width, img.height).Bytes() + mem[HEADER_SIZE..];
    HeaderReads(WrittenHeader(img.width, img.height), mem[HEADER_SIZE..]);
  }

  /** What a picture becomes: its top left corner at the origin, eight bits a channel. */
  function Flattened(img: Picture): (nat, nat) -> Rgb {
    (x: nat, y: nat) =>
      if img.Valid() && x < img.width && y < img.height then img.At(img.minX + x, img.minY + y).High()
      else Rgb(0, 0, 0)
  }

  lemma WrittenPixelStands(img: Picture, mem: seq<byte>, x: nat, y: nat)
    requires img.Valid() && x < img.width && y < img.height && HasPixel(img, mem, x, y)
    ensures var l, data := WrittenLayout(img.width, img.height), mem[HEADER_SIZE..];
            l.PixelStart(x, y) + 4 <= |data| && Stands(l, data, l.PixelStart(x, y), Flattened(img)(x, y))
  {
    var l := WrittenLayout(img.width, img.height);
    PixelWrittenInData(mem, l.PixelStart(x, y), Flattened(img)(x, y));
    WrittenStands(l, mem[HEADER_SIZE..], l.PixelStart(x, y), Flattened(img)(x, y));
  }

  lemma WrittenShows(img: Picture, mem: seq<byte>)
    requires img.Valid() && img.width > 0 && img.height > 0 && BitmapOf(img, mem)
    ensures Shows(WrittenLayout(img.width, img.height), mem[HEADER_SIZE..], Flattened(img))
  {
    var l, data := WrittenLayout(img.width, img.height), mem[HEADER_SIZE..];
    forall x, y | l.Inside(x, y)
      ensures l.PixelStart(x, y) + 4 <= |data| && Stands(l, data, l.PixelStart(x, y), Flattened(img)(x, y))
    {
      WrittenPixelStands(img, mem, x, y);
    }
  }

  lemma ShownDecodes(img: Picture, l: Layout, data: seq<byte>, x: nat, y: nat)
    requires img.Valid() && x < img.width && y < img.height && (l.width, l.height) == (img.width, img.height)
    requires Shows(l, data, Flattened(img))
    ensures var c := img.At(img.minX + x, img.minY + y);
            && l.Decode(data, x, y) == c.High()
            && forall o | c == Opaque(o) :: l.Decode(data, x, y) == o
  {
    EveryLayoutDecodes(l, data, Flattened(img), x, y);
    OpaqueIsExact();
  }

  lemma OpaqueIsExact()
    ensures forall o :: Opaque(o).High() == o
  {
  }

  lemma PixelWrittenInData(mem: seq<byte>, i: nat, c: Rgb)
    requires PixelWritten(mem, HEADER_SIZE + i, c)
    ensures PixelWritten(mem[HEADER_SIZE..], i, c)
  {
    assert mem[HEADER_SIZE..][i..i + 4] == mem[HEADER_SIZE + i..HEADER_SIZE + i + 4];
  }

  /**
   * Reading back what was written gives, at every column and row, the high byte of each channel of the
   * picture: the same pixels, if it came from an opaque 8-bit image.
   */
  lemma WrittenReadsBack(img: Picture, mem: seq<byte>, x: nat, y: nat)
    requires img.Valid() && x < img.width && y < img.height && BitmapOf(img, mem)
    ensures Refused(ReadHeader(mem)).None? && Complete(mem)
    ensures var l, c := LayoutOf(mem), img.At(img.minX + x, img.minY + y);
            && (l.width, l.height) == (img.width, img.height)
            && l.Decode(mem[l.pixelOffset..], x, y) == c.High()
            && forall o | c == Opaque(o) :: l.Decode(mem[l.pixelOffset..], x, y) == o
  {
    WrittenIsAccepted(img, mem);
    WrittenShows(img, mem);
    ShownDecodes(img, WrittenLayout(img.width, img.height), mem[HEADER_SIZE..], x, y);
  }
}
