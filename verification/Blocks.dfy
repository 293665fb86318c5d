/**
 * Device-independent bitmaps byte by byte: what the reader makes of every one, whoever wrote it, and what
 * the writer leaves for others to read.
 */
module Blocks {
  import opened Bits
  import opened Clipboard
  import opened Integers
  import opened Wrappers

  /** The channel masks, as a bitmap with BI_BITFIELDS gives them after its header. */
  datatype Masks = Masks(r: uint32, g: uint32, b: uint32)

  /** A packed bitmap in memory: the header, the masks if it has any, and the pixels. */
  function Block(h: Header, m: Masks, data: seq<byte>): seq<byte> {
    h.Bytes()
    + (if h.compression == 3 then LittleEndian(4, m.r) + LittleEndian(4, m.g) + LittleEndian(4, m.b) else [])
    + data
  }

  /** Uncompressed, 24 or 32 bits a pixel, masks only with 32, and at least one pixel. */
  predicate Readable(h: Header) {
    && (h.compression == 0 || h.compression == 3)
    && (h.bitCount == 24 || h.bitCount == 32) && (h.compression == 3 ==> h.bitCount == 32)
    && h.width >= 1 && h.height != 0
  }

  lemma RefusedExactly(h: Header)
    ensures Refused(h).None? <==> Readable(h)
    ensures Refused(h) == Some(UnsupportedCompression) <==> h.compression !in {0, 3}
    ensures Refused(h) == Some(UnsupportedDepth) <==> h.compression in {0, 3} && h.bitCount !in {24, 32}
    ensures Refused(h) == Some(BitfieldsDepth) <==> h.compression == 3 && h.bitCount == 24
  {
  }

  function Rows(h: Header): nat {
    var height: int := h.height;
    if height < 0 then -height else height
  }

  /** A row takes whole double words. */
  function RowBytes(h: Header): int {
    (h.width * h.bitCount + 31) / 32 * 4
  }

  /** Where the pixel in column x of row y from the top starts: rows go downwards if the height is negative,
      and upwards if it is positive. */
  function Offset(h: Header, x: nat, y: nat): int {
    (if h.height < 0 then y else Rows(h) - 1 - y) * RowBytes(h) + x * (h.bitCount / 8)
  }

  function MasksOf(h: Header, m: Masks): Masks {
    if h.compression == 3 then m else Masks(0xFF0000, 0xFF00, 0xFF)
  }

  /** A channel's value in a word: the number in the contiguous bits of its mask, if that has any. */
  predicate Holds(v: nat, mask: uint32, c: byte) {
    if mask == 0 then c == 0
    else exists n, s | 1 <= n <= 32 && 0 <= s <= 31 :: HoldsAt(v, mask, c, n, s)
  }

  predicate HoldsAt(v: nat, mask: uint32, c: byte, n: nat, s: nat) {
    LowIsRemainder(0, n);
    mask == MaskOf(n, s) && c == ShiftRight(v, s) % ShiftLeft(1, n) % 256
  }

  /** The bytes stand for the colour: blue, green and red, or a little-endian word that has each channel in
      the bits of its mask. */
  predicate StandsFor(h: Header, m: Masks, bytes: seq<byte>, c: Rgb) {
    if h.bitCount == 24 then bytes == [c.b, c.g, c.r]
    else
      && |bytes| == 4
      && var v, masks := Word(bytes[0], bytes[1], bytes[2], bytes[3]), MasksOf(h, m);
         Holds(v, masks.r, c.r) && Holds(v, masks.g, c.g) && Holds(v, masks.b, c.b)
  }

  predicate InImage(h: Header, x: int, y: int) {
    0 <= x < h.width && 0 <= y < Rows(h)
  }

  predicate ShowsAt(h: Header, m: Masks, data: seq<byte>, x: nat, y: nat, c: Rgb)
    requires InImage(h, x, y)
  {
    var i := Offset(h, x, y);
    0 <= i && i + h.bitCount / 8 <= |data| && StandsFor(h, m, data[i..i + h.bitCount / 8], c)
  }

  /** The block's pixel bytes show this image, by column and by row from the top. */
  ghost predicate Shows(h: Header, m: Masks, data: seq<byte>, image: (nat, nat) -> Rgb) {
    forall x, y | InImage(h, x, y) :: ShowsAt(h, m, data, x, y, image(x, y))
  }

  // ---------------------------------------------------------------- the reader's layout

  /** The layout that header and masks announce. */
  function Announced(h: Header, m: Masks): Layout
    requires Readable(h)
  {
    var masks := MasksOf(h, m);
    Layout(h.width, Rows(h), h.height < 0, if h.compression == 3 then 52 else 40, h.bitCount / 8,
           masks.r, masks.g, masks.b)
  }

  lemma RowsAreAsLong(h: Header, m: Masks)
    requires Readable(h)
    ensures Announced(h, m).RowSize() == RowBytes(h)
  {
    if h.bitCount == 24 {
      assert h.width * h.bitCount == h.width * 24 && h.width * (h.bitCount / 8) == h.width * 3;
    } else {
      assert h.width * h.bitCount == h.width * 32 && h.width * (h.bitCount / 8) == h.width * 4;
    }
  }

  lemma StartsThere(h: Header, m: Masks, x: nat, y: nat)
    requires Readable(h) && InImage(h, x, y)
    ensures Announced(h, m).Inside(x, y) && Announced(h, m).PixelStart(x, y) == Offset(h, x, y)
  {
    var l := Announced(h, m);
    RowsAreAsLong(h, m);
    l.RowStartIsProduct(l.Row(y));
  }

  lemma {:induction false} MasksRead(h: Header, m: Masks, data: seq<byte>)
    requires h.compression == 3
    ensures var mem := Block(h, m, data);
            |mem| >= 52 && (Unsigned32(mem, 40), Unsigned32(mem, 44), Unsigned32(mem, 48)) == (m.r, m.g, m.b)
  {
    var mem := Block(h, m, data);
    ByteCapacities();
    assert mem[40..52] == Fields(4, m.r, 4, m.g, 4, m.b);
    FieldsRead(mem, 40, 52, 4, m.r, 4, m.g, 4, m.b);
  }

  lemma {:induction false} BlockHeader(h: Header, m: Masks, data: seq<byte>)
    ensures |Block(h, m, data)| >= HEADER_SIZE && ReadHeader(Block(h, m, data)) == h
  {
    var mem := Block(h, m, data);
    assert mem == h.Bytes() + mem[HEADER_SIZE..];
    HeaderReads(h, mem[HEADER_SIZE..]);
  }

  lemma {:induction false} BlockIs(h: Header, m: Masks, data: seq<byte>)
    requires Readable(h)
    ensures var mem, l := Block(h, m, data), Announced(h, m);
            |mem| == l.pixelOffset + |data| && mem[l.pixelOffset..] == data
    ensures var mem := Block(h, m, data);
            |mem| >= HEADER_SIZE && ReadHeader(mem) == h && (h.compression == 3 ==> |mem| >= HEADER_SIZE + 12)
  {
    BlockHeader(h, m, data);
    assert Block(h, m, data)[Announced(h, m).pixelOffset..] == data;
  }

  lemma {:induction false} BlockLayout(h: Header, m: Masks, data: seq<byte>)
    requires Readable(h) && |data| >= Rows(h) * RowBytes(h)
    ensures var mem := Block(h, m, data);
            && Complete(mem) && Refused(ReadHeader(mem)).None?
            && LayoutOf(mem) == Announced(h, m) && mem[LayoutOf(mem).pixelOffset..] == data
  {
    var l := Announced(h, m);
    BlockIs(h, m, data);
    if h.compression == 3 {
      MasksRead(h, m, data);
    }
    RowsAreAsLong(h, m);
    l.RowStartIsProduct(l.height);
    assert LayoutOf(Block(h, m, data)) == l;
  }

  lemma {:induction false} HeldIsChannel(v: uint32, mask: uint32, c: byte)
    requires Holds(v, mask, c)
    ensures Channel(v, mask) == c
  {
    if mask == 0 {
      ZeroChannel(v);
    } else {
      var n, s :| 1 <= n <= 32 && 0 <= s <= 31 && HoldsAt(v, mask, c, n, s);
      ChannelOfMask(v, n, s);
    }
  }

  lemma {:induction false} NothingShifted(n: nat)
    ensures ShiftRight(0, n) == 0
  {
    if n > 0 {
      NothingShifted(n - 1);
    }
  }

  lemma ZeroChannel(v: uint32)
    ensures Channel(v, 0) == 0
  {
    NothingShifted(32);
  }

  lemma {:induction false} WordIsExtracted(masks: Masks, v: uint32, c: Rgb)
    requires Holds(v, masks.r, c.r) && Holds(v, masks.g, c.g) && Holds(v, masks.b, c.b)
    ensures Rgb(Channel(v, masks.r), Channel(v, masks.g), Channel(v, masks.b)) == c
  {
    HeldIsChannel(v, masks.r, c.r);
    HeldIsChannel(v, masks.g, c.g);
    HeldIsChannel(v, masks.b, c.b);
  }

  lemma {:induction false} ShownIsExtracted(h: Header, m: Masks, data: seq<byte>, i: nat, c: Rgb, bytes: seq<byte>)
    requires Readable(h) && i + h.bitCount / 8 <= |data| && bytes == data[i..i + h.bitCount / 8]
    requires StandsFor(h, m, bytes, c)
    ensures Announced(h, m).Extract(data, i) == c
  {
    if h.bitCount == 32 {
      WordIsLittleEndian(bytes);
      WordIsExtracted(MasksOf(h, m), Word(bytes[0], bytes[1], bytes[2], bytes[3]), c);
    } else {
      assert bytes[0] == data[i] && bytes[1] == data[i + 1] && bytes[2] == data[i + 2];
    }
  }

  /** Where the block shows a colour, the reader's layout has that colour. */
  lemma {:induction false} ShownIsDecoded(h: Header, m: Masks, data: seq<byte>, x: nat, y: nat, c: Rgb)
    requires Readable(h) && InImage(h, x, y) && ShowsAt(h, m, data, x, y, c) && |data| >= Rows(h) * RowBytes(h)
    ensures var l := Announced(h, m); |data| >= l.DataSize() && l.Inside(x, y) && l.Decode(data, x, y) == c
  {
    var l := Announced(h, m);
    StartsThere(h, m, x, y);
    var i := l.PixelStart(x, y);
    ShownIsExtracted(h, m, data, i, c, data[i..i + h.bitCount / 8]);
    RowsAreAsLong(h, m);
    l.RowStartIsProduct(l.height);
  }

  /**
   * ReadImagePNG on any block whose pixel bytes are all there: it is refused exactly if its header is not
   * readable, and whatever image the pixel bytes show, in the row order, depth and masks that the header
   * announces, is the image read.
   */
  method ReadBlock(h: Header, m: Masks, data: seq<byte>, ghost image: (nat, nat) -> Rgb)
    returns (img: Result<array2<Rgb>, Refusal>)
    requires Readable(h) ==> |data| >= Rows(h) * RowBytes(h)
    ensures img.Success? <==> Readable(h)
    ensures img.Success? ==> (img.value.Length0, img.value.Length1) == (h.width, Rows(h))
    ensures img.Success? && Shows(h, m, data, image) ==>
              forall x, y | InImage(h, x, y) :: img.value[x, y] == image(x, y)
  {
    RefusedExactly(h);
    BlockHeader(h, m, data);
    if Readable(h) {
      BlockLayout(h, m, data);
    }
    img := ReadImage(Block(h, m, data));
    if Readable(h) && Shows(h, m, data, image) {
      forall x, y | InImage(h, x, y)
        ensures img.value[x, y] == image(x, y)
      {
        assert ShowsAt(h, m, data, x, y, image(x, y));
        ShownIsDecoded(h, m, data, x, y, image(x, y));
      }
    }
  }

  // ---------------------------------------------------------------- what is written

  function TwoBytes(v: int): seq<byte> {
    [v % 256, v / 0x100 % 256]
  }

  lemma WordFields(a: nat, b: nat, c: nat)
    requires a < TWO32 && b < TWO32 && c < TWO32
    ensures Fields(4, a, 4, b, 4, c) == FourBytes(a) + FourBytes(b) + FourBytes(c)
    ensures Fields(4, a, 4, b, 0, 0) == FourBytes(a) + FourBytes(b)
  {
    LittleEndianBytes(a);
    LittleEndianBytes(b);
    LittleEndianBytes(c);
    assert FourBytes(b) + LittleEndian(0, 0) == FourBytes(b);
  }

  lemma HalfWordFields(a: uint16, b: uint16, c: uint32)
    ensures Fields(2, a, 2, b, 4, c) == TwoBytes(a) + TwoBytes(b) + FourBytes(c)
  {
    LittleEndianBytes(c);
    assert LittleEndian(2, a) == TwoBytes(a) && LittleEndian(2, b) == TwoBytes(b);
  }

  /** The forty bytes of a header, in the order of BITMAPINFOHEADER. */
  lemma {:induction false} HeaderBytes(h: Header)
    ensures h.Bytes() ==
            (FourBytes(h.size) + FourBytes(Bits32(h.width)) + FourBytes(Bits32(h.height)))
            + (TwoBytes(h.planes) + TwoBytes(h.bitCount) + FourBytes(h.compression))
            + (FourBytes(h.sizeImage) + FourBytes(Bits32(h.xPels)) + FourBytes(Bits32(h.yPels)))
            + (FourBytes(h.clrUsed) + FourBytes(h.clrImportant))
  {
    WordFields(h.size, Bits32(h.width), Bits32(h.height));
    HalfWordFields(h.planes, h.bitCount, h.compression);
    WordFields(h.sizeImage, Bits32(h.xPels), Bits32(h.yPels));
    WordFields(h.clrUsed, h.clrImportant, 0);
  }

  /** The header that an application finds before a picture: forty bytes, one plane of 32 bits a pixel,
      uncompressed, and as many bytes of pixels as there are, modulo 2^32. */
  lemma WrittenHeaderIs(width: int32, height: int32)
    ensures WrittenHeader(width, height) == Header(40, width, height, 1, 32, 0, 4 * width * height % TWO32, 0, 0, 0, 0)
  {
    assert width * 4 * height == 4 * width * height;
  }

  lemma FourTimes(a: nat, w: nat, x: nat)
    ensures a * (w * 4) + x * 4 == (a * w + x) * 4
  {
  }

  lemma PixelPlace(l: Layout, x: nat, y: nat)
    requires l.Sound() && l.Inside(x, y) && l.bytesPerPixel == 4 && !l.topDown
    ensures l.PixelStart(x, y) == ((l.height - 1 - y) * l.width + x) * 4
    ensures l.DataSize() == l.height * l.width * 4
  {
    FourByteRows(l);
    l.RowStartIsProduct(l.height - 1 - y);
    l.RowStartIsProduct(l.height);
    FourTimes(l.height - 1 - y, l.width, x);
    FourTimes(l.height, l.width, 0);
  }

  lemma PixelBytes(img: Picture, mem: seq<byte>, x: nat, y: nat, start: nat, c: Color)
    requires img.Valid() && x < img.width && y < img.height && HasPixel(img, mem, x, y)
    requires start == WrittenLayout(img.width, img.height).PixelStart(x, y) && c == img.rows[y][x]
    ensures 40 + start + 4 <= |mem| && mem[40 + start..40 + start + 4] == [c.b / 256, c.g / 256, c.r / 256, 0]
  {
    assert img.At(img.minX + x, img.minY + y) == c;
  }

  lemma {:induction false} PixelIsThere(img: Picture, mem: seq<byte>, x: nat, y: nat)
    requires img.Valid() && x < img.width && y < img.height && BitmapOf(img, mem)
    ensures HasPixel(img, mem, x, y) && |mem| == 40 + WrittenLayout(img.width, img.height).DataSize()
  {
  }

  /** The bytes that an application finds for the pixel in column x of row y: bottom row first, blue, green,
      red and zero, each the high byte of its channel. */
  lemma {:induction false} WrittenPixelBytes(img: Picture, mem: seq<byte>, x: nat, y: nat, start: nat, size: nat,
                                             c: Color)
    requires img.Valid() && x < img.width && y < img.height && BitmapOf(img, mem) && c == img.rows[y][x]
    requires start == ((img.height - 1 - y) * img.width + x) * 4 && size == img.height * img.width * 4
    ensures |mem| == 40 + size && start + 4 <= size
    ensures mem[40 + start..40 + start + 4] == [c.b / 256, c.g / 256, c.r / 256, 0]
  {
    PixelPlace(WrittenLayout(img.width, img.height), x, y);
    PixelIsThere(img, mem, x, y);
    PixelBytes(img, mem, x, y, start, c);
  }
}
