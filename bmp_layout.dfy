/**
 * The byte layout BitmapConverter produces: a BITMAPFILEHEADER (14 bytes), a
 * BITMAPINFOHEADER (40 bytes), a grayscale colour table for palette formats,
 * then the pixel rows, last source row first, each followed by its padding.
 *
 * Every function here specifies one piece of that layout; the lemmas say
 * where each field sits in the file and what it holds.
 */
module BmpLayout {
  import opened LittleEndian
  import opened BitmapFormat

  const WidthMultiple: nat := 4            // each stored row is a multiple of 4 bytes
  const FileHeaderSize: nat := 0xE
  const InfoHeaderSize: nat := 0x28
  const SignatureB: Byte := 0x42           // 'B'
  const SignatureM: Byte := 0x4D           // 'M'
  const PixelsPerMeter: Int32 := 0x0B13    // horizontal and vertical resolution
  const PaddingByte: Byte := 0xFF

  // ---------------------------------------------------------------------------
  // Products

  /**
   * a * b, by repeated addition. Sizes and positions that multiply two
   * quantities are written with Mul, so proofs about them use the lemmas
   * below rather than nonlinear arithmetic.
   */
  function Mul(a: nat, b: nat): nat {
    if a == 0 then 0 else Mul(a - 1, b) + b
  }

  lemma {:induction false} MulIsProduct(a: nat, b: nat)
    ensures Mul(a, b) == a * b
  {
    if a > 0 {
      MulIsProduct(a - 1, b);
    }
  }

  lemma MulComm(a: nat, b: nat)
    ensures Mul(a, b) == Mul(b, a)
  {
    MulIsProduct(a, b);
    MulIsProduct(b, a);
  }

  lemma {:induction false} MulMonotoneLeft(a: nat, a': nat, b: nat)
    requires a <= a'
    ensures Mul(a, b) <= Mul(a', b)
    decreases a' - a
  {
    if a < a' {
      MulMonotoneLeft(a, a' - 1, b);
    }
  }

  // ---------------------------------------------------------------------------
  // The source image

  /**
   * The source image: its size and its packed 32-bit pixels in row-major order
   * from the top-left corner, as `Bitmap.getPixels` delivers them.
   */
  datatype Bitmap = Bitmap(width: int, height: int, pixels: seq<Int32>) {
    predicate Valid() {
      0 < width && 0 < height && |pixels| == Mul(height, width)
    }
  }

  // ---------------------------------------------------------------------------
  // Layout parameters derived from the format

  function Pow2(n: nat): (r: nat)
    ensures r > 0
  {
    if n == 0 then 1 else 2 * Pow2(n - 1)
  }

  /** Palette size: 2^bits for formats of at most 8 bits, none otherwise. */
  function NumberOfColors(f: Format): nat {
    if f.Value() > 8 then 0 else Pow2(f.Value())
  }

  /** Where the pixel rows start: both headers plus 4 bytes per palette entry. */
  function ImageDataOffset(f: Format): nat {
    FileHeaderSize + InfoHeaderSize + NumberOfColors(f) * 4
  }

  function BytePerPixel(f: Format): nat {
    f.Value() / 8
  }

  /** The layout parameters of each format. */
  lemma FormatLayout(f: Format)
    ensures NumberOfColors(f) == (if f == Bitmap8BitColor then 256 else 0)
    ensures ImageDataOffset(f) == (if f == Bitmap8BitColor then 1078 else 54)
    ensures BytePerPixel(f) == (if f == Bitmap8BitColor then 1 else 3)
  {
    if f == Bitmap8BitColor {
      assert Pow2(2) == 4;
      assert Pow2(4) == 16 by { assert Pow2(3) == 8; }
      assert Pow2(6) == 64 by { assert Pow2(5) == 32; }
      assert Pow2(8) == 256 by { assert Pow2(7) == 128; }
    }
  }

  // ---------------------------------------------------------------------------
  // Row padding

  /**
   * The padding length a converter holds after sizing a row of
   * `rowWidthInBytes` bytes, having held `previous` before: a misaligned row
   * sets it afresh, an aligned row leaves the old value in place.
   */
  function PaddingAfter(previous: nat, rowWidthInBytes: nat): nat {
    if rowWidthInBytes % WidthMultiple != 0 then
      WidthMultiple - rowWidthInBytes % WidthMultiple
    else
      previous
  }

  /** A misaligned row gets 1 to 3 padding bytes that align it; an aligned row keeps whatever was there. */
  lemma PaddingAligns(previous: nat, rowWidthInBytes: nat)
    ensures rowWidthInBytes % 4 != 0 ==>
              1 <= PaddingAfter(previous, rowWidthInBytes) <= 3 &&
              (rowWidthInBytes + PaddingAfter(previous, rowWidthInBytes)) % 4 == 0
    ensures rowWidthInBytes % 4 == 0 ==> PaddingAfter(previous, rowWidthInBytes) == previous
  {
  }

  /** On a converter that never padded, every padded row is a multiple of 4 bytes. */
  lemma FreshPaddingAligns(rowWidthInBytes: nat)
    ensures (rowWidthInBytes + PaddingAfter(0, rowWidthInBytes)) % 4 == 0
    ensures PaddingAfter(0, rowWidthInBytes) < 4
    ensures PaddingAfter(0, rowWidthInBytes) == 0 <==> rowWidthInBytes % 4 == 0
  {
  }

  /** A converter that padded before keeps padding rows that are already aligned, and misaligns them. */
  lemma StalePaddingMisaligns(previous: nat, rowWidthInBytes: nat)
    requires 1 <= previous <= 3 && rowWidthInBytes % 4 == 0
    ensures PaddingAfter(previous, rowWidthInBytes) == previous
    ensures (rowWidthInBytes + PaddingAfter(previous, rowWidthInBytes)) % 4 != 0
  {
  }

  /** The padding bytes appended to a row. */
  function Padding(n: nat): (p: seq<Byte>)
    ensures |p| == n
    ensures forall i :: 0 <= i < n ==> p[i] == PaddingByte
  {
    seq(n, _ => PaddingByte)
  }

  // ---------------------------------------------------------------------------
  // Sizes

  function RowWidthInBytes(f: Format, width: nat): nat {
    Mul(BytePerPixel(f), width)
  }

  function ImageDataSize(f: Format, width: nat, height: nat, pad: nat): nat {
    Mul(RowWidthInBytes(f, width) + pad, height)
  }

  function FileSize(f: Format, width: nat, height: nat, pad: nat): nat {
    ImageDataSize(f, width, height, pad) + ImageDataOffset(f)
  }

  /** The sizes the conversion computes fit in a Java `int`. */
  predicate Fits(f: Format, bm: Bitmap, pad: nat)
    requires bm.Valid()
  {
    FileSize(f, bm.width, bm.height, pad) <= MaxInt32
  }

  /** The width stored in the info header: one more than the real width when the padding is 3 bytes. */
  function StoredWidth(width: int, pad: nat): int {
    width + (if pad == 3 then 1 else 0)
  }

  /** Every quantity derived from a fitting bitmap is a non-negative Java `int`. */
  lemma SizesFit(f: Format, bm: Bitmap, pad: nat)
    requires bm.Valid() && pad < 4 && Fits(f, bm, pad)
    ensures 0 < RowWidthInBytes(f, bm.width) <= ImageDataSize(f, bm.width, bm.height, pad)
    ensures 0 < StoredWidth(bm.width, pad) <= ImageDataSize(f, bm.width, bm.height, pad)
    ensures bm.height <= ImageDataSize(f, bm.width, bm.height, pad)
    ensures |bm.pixels| <= ImageDataSize(f, bm.width, bm.height, pad)
    ensures ImageDataSize(f, bm.width, bm.height, pad) < FileSize(f, bm.width, bm.height, pad) <= MaxInt32
  {
    var w, h := bm.width, bm.height;
    var rowWidth := RowWidthInBytes(f, w);
    var stride := rowWidth + pad;
    FormatLayout(f);
    MulMonotoneLeft(1, BytePerPixel(f), w);
    assert w <= rowWidth;
    MulComm(stride, h);
    MulMonotoneLeft(1, h, stride);
    assert stride <= ImageDataSize(f, w, h, pad);
    MulMonotoneLeft(1, stride, h);
    MulMonotoneLeft(w, stride, h);
    MulComm(w, h);
  }

  // ---------------------------------------------------------------------------
  // Headers

  /** The BITMAPFILEHEADER. */
  function FileHeader(fileSize: Int32, imageDataOffset: Int32): (h: seq<Byte>)
    ensures |h| == FileHeaderSize
  {
    [SignatureB, SignatureM] + WriteInt(fileSize) + WriteShort(0) + WriteShort(0) + WriteInt(imageDataOffset)
  }

  /** The file header's fields, in order. */
  lemma FileHeaderFields(fileSize: Int32, imageDataOffset: Int32)
    ensures var h := FileHeader(fileSize, imageDataOffset);
      h[0] == 0x42 && h[1] == 0x4D &&
      DecodeInt(h[2..6]) == fileSize &&
      h[6..10] == [0, 0, 0, 0] &&
      DecodeInt(h[10..14]) == imageDataOffset
  {
    var size, zero, offset := WriteInt(fileSize), WriteShort(0), WriteInt(imageDataOffset);
    var h := FileHeader(fileSize, imageDataOffset);
    assert h == [SignatureB, SignatureM] + size + zero + zero + offset;
    assert zero == [0, 0];
    assert h[2..6] == size;
    assert h[6..10] == zero + zero;
    assert h[10..14] == offset;
  }

  /** The 40-byte BITMAPINFOHEADER. */
  function InfoHeader(storedWidth: Int32, height: Int32, bitCount: Int16,
                      imageDataSize: Int32, numberOfColors: Int32): (h: seq<Byte>)
    ensures |h| == InfoHeaderSize
  {
    WriteInt(InfoHeaderSize) + WriteInt(storedWidth) + WriteInt(height)
    + WriteShort(1) + WriteShort(bitCount)
    + WriteInt(0) + WriteInt(imageDataSize)
    + WriteInt(PixelsPerMeter) + WriteInt(PixelsPerMeter)
    + WriteInt(numberOfColors) + WriteInt(0)
  }

  /** The info header's eleven fields, in order. */
  lemma InfoHeaderFields(storedWidth: Int32, height: Int32, bitCount: Int16,
                         imageDataSize: Int32, numberOfColors: Int32)
    ensures var h := InfoHeader(storedWidth, height, bitCount, imageDataSize, numberOfColors);
      DecodeInt(h[0..4]) == 40 &&
      DecodeInt(h[4..8]) == storedWidth &&
      DecodeInt(h[8..12]) == height &&
      DecodeShort(h[12..14]) == 1 &&
      DecodeShort(h[14..16]) == bitCount &&
      DecodeInt(h[16..20]) == 0 &&
      DecodeInt(h[20..24]) == imageDataSize &&
      DecodeInt(h[24..28]) == 0x0B13 &&
      DecodeInt(h[28..32]) == 0x0B13 &&
      DecodeInt(h[32..36]) == numberOfColors &&
      DecodeInt(h[36..40]) == 0
  {
    var h := InfoHeader(storedWidth, height, bitCount, imageDataSize, numberOfColors);
    assert h[0..4] == WriteInt(InfoHeaderSize);
    assert h[4..8] == WriteInt(storedWidth);
    assert h[8..12] == WriteInt(height);
    assert h[12..14] == WriteShort(1);
    assert h[14..16] == WriteShort(bitCount);
    assert h[16..20] == WriteInt(0);
    assert h[20..24] == WriteInt(imageDataSize);
    assert h[24..28] == WriteInt(PixelsPerMeter);
    assert h[28..32] == WriteInt(PixelsPerMeter);
    assert h[32..36] == WriteInt(numberOfColors);
    assert h[36..40] == WriteInt(0);
  }

  /** Appending the info header is appending its fields one after another. */
  lemma InfoHeaderAppended(before: seq<Byte>, storedWidth: Int32, height: Int32, bitCount: Int16,
                           imageDataSize: Int32, numberOfColors: Int32)
    ensures before + InfoHeader(storedWidth, height, bitCount, imageDataSize, numberOfColors)
            == before + WriteInt(InfoHeaderSize) + WriteInt(storedWidth) + WriteInt(height)
               + WriteShort(1) + WriteShort(bitCount)
               + WriteInt(0) + WriteInt(imageDataSize)
               + WriteInt(PixelsPerMeter) + WriteInt(PixelsPerMeter)
               + WriteInt(numberOfColors) + WriteInt(0)
  {
  }

  // ---------------------------------------------------------------------------
  // Colour table

  /** Palette entry `i`: blue, green and red all `(byte)i`, then a zero separator. */
  function GrayEntry(i: nat): seq<Byte> {
    [i % 0x100, i % 0x100, i % 0x100, 0]
  }

  /** The first `n` entries of the grayscale palette. */
  function ColorTable(n: nat): seq<Byte> {
    if n == 0 then [] else ColorTable(n - 1) + GrayEntry(n - 1)
  }

  lemma {:induction false} ColorTableLength(n: nat)
    ensures |ColorTable(n)| == 4 * n
  {
    if n > 0 {
      ColorTableLength(n - 1);
    }
  }

  /** Entry `i` of the palette sits at bytes 4i..4i+3 and is the gray level i. */
  lemma {:induction false} ColorTableEntry(n: nat, i: nat)
    requires i < n
    ensures |ColorTable(n)| == 4 * n
    ensures ColorTable(n)[4 * i .. 4 * i + 4] == [i % 0x100, i % 0x100, i % 0x100, 0]
  {
    ColorTableLength(n);
    ColorTableLength(n - 1);
    if i < n - 1 {
      ColorTableEntry(n - 1, i);
      assert ColorTable(n)[4 * i .. 4 * i + 4] == ColorTable(n - 1)[4 * i .. 4 * i + 4];
    } else {
      assert ColorTable(n)[4 * i .. 4 * i + 4] == GrayEntry(i);
    }
  }

  // ---------------------------------------------------------------------------
  // Pixel data

  /** `(byte)pixel`: the low 8 bits of a packed pixel. */
  function LowByte(pixel: Int32): Byte {
    pixel % 0x100
  }

  /** One pixel: `count` copies of its low byte. */
  function PixelBytes(pixel: Int32, count: nat): seq<Byte> {
    seq(count, _ => LowByte(pixel))
  }

  /** A run of pixels, each written as `bytePerPixel` bytes, left to right. */
  function Row(ps: seq<Int32>, bytePerPixel: nat): seq<Byte>
    decreases |ps|
  {
    if ps == [] then [] else Row(ps[..|ps| - 1], bytePerPixel) + PixelBytes(ps[|ps| - 1], bytePerPixel)
  }

  /** A run of n pixels is n * bytePerPixel bytes. */
  lemma {:induction false} RowLength(ps: seq<Int32>, bytePerPixel: nat)
    ensures |Row(ps, bytePerPixel)| == Mul(|ps|, bytePerPixel)
    decreases |ps|
  {
    if ps != [] {
      RowLength(ps[..|ps| - 1], bytePerPixel);
      MulComm(|ps|, bytePerPixel);
      MulComm(|ps| - 1, bytePerPixel);
    }
  }

  /** A shorter run of pixels gives no more bytes. */
  lemma RowShorter(s: seq<Int32>, t: seq<Int32>, bytePerPixel: nat)
    requires |s| <= |t|
    ensures |Row(s, bytePerPixel)| <= |Row(t, bytePerPixel)|
  {
    RowLength(s, bytePerPixel);
    RowLength(t, bytePerPixel);
    MulMonotoneLeft(|s|, |t|, bytePerPixel);
  }

  /** Byte c of pixel j of a row is that pixel's low byte. */
  lemma {:induction false} RowAt(ps: seq<Int32>, bytePerPixel: nat, j: nat, c: nat)
    requires j < |ps| && c < bytePerPixel
    ensures Mul(j, bytePerPixel) + c < |Row(ps, bytePerPixel)|
    ensures Row(ps, bytePerPixel)[Mul(j, bytePerPixel) + c] == LowByte(ps[j])
    decreases |ps|
  {
    var init := ps[..|ps| - 1];
    RowLength(init, bytePerPixel);
    if j < |ps| - 1 {
      RowAt(init, bytePerPixel, j, c);
      assert ps[j] == init[j];
    }
  }

  /** Extending a written run by the next pixel's bytes gives the longer run. */
  lemma RowExtend(before: seq<Byte>, pixels: seq<Int32>, start: nat, i: nat, bytePerPixel: nat)
    requires start <= i < |pixels|
    ensures before + Row(pixels[start .. i], bytePerPixel) + PixelBytes(pixels[i], bytePerPixel)
            == before + Row(pixels[start .. i + 1], bytePerPixel)
  {
    var ps := pixels[start .. i + 1];
    assert ps[..|ps| - 1] == pixels[start .. i];
    assert before + Row(pixels[start .. i], bytePerPixel) + PixelBytes(pixels[i], bytePerPixel)
           == before + (Row(pixels[start .. i], bytePerPixel) + PixelBytes(pixels[i], bytePerPixel));
  }

  /**
   * The pixel data: the rows of `pixels`, `width` pixels each, from the last
   * row back to the first, each row followed by `pad`.
   */
  function ImageData(pixels: seq<Int32>, width: nat, bytePerPixel: nat, pad: seq<Byte>): seq<Byte>
    decreases |pixels|
  {
    if width == 0 || |pixels| < width then []
    else ImageData(pixels[width..], width, bytePerPixel, pad) + Row(pixels[..width], bytePerPixel) + pad
  }

  /** n rows of pixels give n padded rows of bytes. */
  lemma {:induction false} ImageDataLength(pixels: seq<Int32>, width: nat, n: nat, bytePerPixel: nat, pad: seq<Byte>)
    requires 0 < width && |pixels| == Mul(n, width)
    ensures |ImageData(pixels, width, bytePerPixel, pad)| == Mul(n, Mul(width, bytePerPixel) + |pad|)
  {
    if n > 0 {
      ImageDataLength(pixels[width..], width, n - 1, bytePerPixel, pad);
      RowLength(pixels[..width], bytePerPixel);
    }
  }

  /** Fewer pixels give no more pixel data. */
  lemma {:induction false} ImageDataShorter(s: seq<Int32>, t: seq<Int32>, width: nat, bytePerPixel: nat, pad: seq<Byte>)
    requires |s| <= |t|
    ensures |ImageData(s, width, bytePerPixel, pad)| <= |ImageData(t, width, bytePerPixel, pad)|
    decreases |s|
  {
    if width != 0 && |s| >= width {
      ImageDataShorter(s[width..], t[width..], width, bytePerPixel, pad);
      RowLength(s[..width], bytePerPixel);
      RowLength(t[..width], bytePerPixel);
    }
  }

  /**
   * Writing the row first..last-1 and the padding after the rows from `last`
   * on gives the rows from `first` on.
   */
  lemma ImageDataNext(before: seq<Byte>, pixels: seq<Int32>, width: nat, bytePerPixel: nat, pad: seq<Byte>,
                      first: nat, last: nat)
    requires 0 < width && first + width == last <= |pixels|
    ensures before + ImageData(pixels[last..], width, bytePerPixel, pad) + Row(pixels[first .. last], bytePerPixel) + pad
            == before + ImageData(pixels[first..], width, bytePerPixel, pad)
  {
    var s := pixels[first..];
    assert s[width..] == pixels[last..];
    assert s[..width] == pixels[first .. last];
    var rest := ImageData(pixels[last..], width, bytePerPixel, pad);
    var row := Row(pixels[first .. last], bytePerPixel);
    assert before + rest + row == before + (rest + row);
    assert before + (rest + row) + pad == before + (rest + row + pad);
  }

  /** Mul distributes over a sum on the left. */
  lemma MulAddLeft(a: nat, b: nat, c: nat)
    ensures Mul(a + b, c) == Mul(a, c) + Mul(b, c)
  {
    MulIsProduct(a + b, c);
    MulIsProduct(a, c);
    MulIsProduct(b, c);
  }

  /** Row n-1-k of n rows has n-1-k rows before it and k rows after it. */
  lemma RowsBeforeAndAfter(n: nat, k: nat, width: nat)
    requires k < n
    ensures Mul(n - 1 - k, width) + width + Mul(k, width) == Mul(n, width)
  {
    var m := n - 1 - k;
    assert m + (k + 1) == n;
    MulAddLeft(m, k + 1, width);
    assert Mul(k + 1, width) == width + Mul(k, width);
  }

  /**
   * The pixel data of the first m rows, m > 0, is that of the m-1 rows after
   * the first, then the first row and its padding.
   */
  lemma ImageDataHead(pixels: seq<Int32>, width: nat, m: nat, bytePerPixel: nat, pad: seq<Byte>)
    requires 0 < width && 0 < m && Mul(m, width) <= |pixels|
    ensures width + Mul(m - 1, width) == Mul(m, width)
    ensures ImageData(pixels[..Mul(m, width)], width, bytePerPixel, pad)
            == ImageData(pixels[width..][..Mul(m - 1, width)], width, bytePerPixel, pad)
               + Row(pixels[..width], bytePerPixel) + pad
  {
    var head := pixels[..Mul(m, width)];
    assert head[width..] == pixels[width..][..Mul(m - 1, width)];
    assert head[..width] == pixels[..width];
  }

  /**
   * The pixel data of the first m rows comes last: the rows from row m on
   * are written first, then the rows before it.
   */
  lemma {:induction false} ImageDataSplit(pixels: seq<Int32>, width: nat, m: nat, bytePerPixel: nat, pad: seq<Byte>)
    requires 0 < width && Mul(m, width) <= |pixels|
    ensures ImageData(pixels, width, bytePerPixel, pad)
            == ImageData(pixels[Mul(m, width)..], width, bytePerPixel, pad)
               + ImageData(pixels[..Mul(m, width)], width, bytePerPixel, pad)
  {
    var mw := Mul(m, width);
    if m == 0 {
      assert pixels[0..] == pixels;
      assert pixels[..0] == [];
      assert ImageData(pixels, width, bytePerPixel, pad) + [] == ImageData(pixels, width, bytePerPixel, pad);
    } else {
      var tail := pixels[width..];
      var rw := Mul(m - 1, width);
      ImageDataSplit(tail, width, m - 1, bytePerPixel, pad);
      ImageDataHead(pixels, width, m, bytePerPixel, pad);
      assert tail[rw..] == pixels[mw..];
      var a := ImageData(tail[rw..], width, bytePerPixel, pad);
      var b := ImageData(tail[..rw], width, bytePerPixel, pad);
      var row := Row(pixels[..width], bytePerPixel);
      assert ImageData(pixels, width, bytePerPixel, pad) == ImageData(tail, width, bytePerPixel, pad) + row + pad;
      Regroup(ImageData(tail, width, bytePerPixel, pad), a, b, row, pad);
    }
  }

  /**
   * The pixel data is the rows after row m, then row m and its padding,
   * then the rows before row m.
   */
  lemma ImageDataAround(pixels: seq<Int32>, width: nat, m: nat, bytePerPixel: nat, pad: seq<Byte>)
    requires 0 < width && Mul(m, width) + width <= |pixels|
    ensures ImageData(pixels, width, bytePerPixel, pad)
            == ImageData(pixels[Mul(m, width) + width..], width, bytePerPixel, pad)
               + (Row(pixels[Mul(m, width) .. Mul(m, width) + width], bytePerPixel) + pad)
               + ImageData(pixels[..Mul(m, width)], width, bytePerPixel, pad)
  {
    var src := Mul(m, width);
    var suffix := pixels[src..];
    ImageDataSplit(pixels, width, m, bytePerPixel, pad);
    assert suffix[width..] == pixels[src + width..];
    assert suffix[..width] == pixels[src .. src + width];
  }

  /**
   * Output row k of the pixel data of n rows, counting from its start, is
   * source row n-1-k followed by the padding.
   */
  lemma ImageDataRow(pixels: seq<Int32>, width: nat, n: nat, bytePerPixel: nat,
                     pad: seq<Byte>, stride: nat, k: nat, t: nat)
    requires 0 < width && |pixels| == Mul(n, width) && k < n
    requires stride == Mul(width, bytePerPixel) + |pad| && t < stride
    ensures Mul(n - 1 - k, width) + width <= |pixels|
    ensures |Row(pixels[Mul(n - 1 - k, width) .. Mul(n - 1 - k, width) + width], bytePerPixel)| == Mul(width, bytePerPixel)
    ensures Mul(k, stride) + t < |ImageData(pixels, width, bytePerPixel, pad)|
    ensures ImageData(pixels, width, bytePerPixel, pad)[Mul(k, stride) + t]
            == (Row(pixels[Mul(n - 1 - k, width) .. Mul(n - 1 - k, width) + width], bytePerPixel) + pad)[t]
  {
    var src := Mul(n - 1 - k, width);
    RowsBeforeAndAfter(n, k, width);
    ImageDataAround(pixels, width, n - 1 - k, bytePerPixel, pad);
    ImageDataLength(pixels[src + width..], width, k, bytePerPixel, pad);
    RowLength(pixels[src .. src + width], bytePerPixel);
    MiddleAt(ImageData(pixels, width, bytePerPixel, pad),
             ImageData(pixels[src + width..], width, bytePerPixel, pad),
             Row(pixels[src .. src + width], bytePerPixel) + pad,
             ImageData(pixels[..src], width, bytePerPixel, pad), t);
  }

  /** Byte c of pixel j in output row k is the low byte of source pixel (height-1-k, j). */
  lemma ImageDataPixel(pixels: seq<Int32>, width: nat, height: nat, bytePerPixel: nat,
                       pad: seq<Byte>, k: nat, j: nat, c: nat)
    requires |pixels| == Mul(height, width)
    requires k < height && j < width && c < bytePerPixel
    ensures var stride := Mul(width, bytePerPixel) + |pad|;
      var at := Mul(k, stride) + Mul(j, bytePerPixel) + c;
      at < |ImageData(pixels, width, bytePerPixel, pad)| &&
      Mul(height - 1 - k, width) + j < |pixels| &&
      ImageData(pixels, width, bytePerPixel, pad)[at]
        == LowByte(pixels[Mul(height - 1 - k, width) + j])
  {
    var src := Mul(height - 1 - k, width);
    var t := Mul(j, bytePerPixel) + c;
    var stride := Mul(width, bytePerPixel) + |pad|;
    ImageDataRow(pixels, width, height, bytePerPixel, pad, stride, k, 0);
    var row := pixels[src .. src + width];
    assert row[j] == pixels[src + j];
    RowAt(row, bytePerPixel, j, c);
    RowLength(row, bytePerPixel);
    ImageDataRow(pixels, width, height, bytePerPixel, pad, stride, k, t);
    assert (Row(row, bytePerPixel) + pad)[t] == Row(row, bytePerPixel)[t];
  }

  /** Byte t of the padding in output row k is the padding's byte t. */
  lemma ImageDataPadding(pixels: seq<Int32>, width: nat, height: nat, bytePerPixel: nat,
                         pad: seq<Byte>, k: nat, t: nat)
    requires 0 < width && |pixels| == Mul(height, width)
    requires k < height && t < |pad|
    ensures var stride := Mul(width, bytePerPixel) + |pad|;
      var at := Mul(k, stride) + Mul(width, bytePerPixel) + t;
      at < |ImageData(pixels, width, bytePerPixel, pad)| &&
      ImageData(pixels, width, bytePerPixel, pad)[at] == pad[t]
  {
    var stride := Mul(width, bytePerPixel) + |pad|;
    ImageDataRow(pixels, width, height, bytePerPixel, pad, stride, k, Mul(width, bytePerPixel) + t);
    var src := Mul(height - 1 - k, width);
    RowLength(pixels[src .. src + width], bytePerPixel);
  }

  // ---------------------------------------------------------------------------
  // Slices

  /** A byte value is its own low byte. */
  lemma SmallByte(i: nat)
    requires i < 0x100
    ensures i % 0x100 == i
  {
  }

  /** A slice taken out of a slice is a slice of the original. */
  lemma SliceOfSlice<T>(s: seq<T>, a: nat, b: nat, i: nat, j: nat)
    requires a <= b <= |s| && i <= j <= b - a
    ensures s[a..b][i..j] == s[a + i .. a + j]
  {
    forall n | 0 <= n < j - i
      ensures s[a..b][i..j][n] == s[a + i .. a + j][n]
    {
      assert s[a..b][i..j][n] == s[a..b][i + n] == s[a + i + n];
    }
  }

  /** Appending to a concatenation of two parts appends to its second part. */
  lemma Regroup<T>(x: seq<T>, a: seq<T>, b: seq<T>, r: seq<T>, p: seq<T>)
    requires x == a + b
    ensures x + r + p == a + (b + r + p)
  {
  }

  /** An element of the middle part of a concatenation. */
  lemma MiddleAt<T>(whole: seq<T>, a: seq<T>, r: seq<T>, b: seq<T>, t: nat)
    requires whole == a + r + b && t < |r|
    ensures |a| + t < |whole| && whole[|a| + t] == r[t]
  {
  }

  /** An element of a suffix is the element at the shifted position of the whole. */
  lemma SuffixAt<T>(e: seq<T>, off: nat, s: seq<T>, at: nat)
    requires off <= |e| && e[off..] == s && at < |s|
    ensures off + at < |e| && e[off + at] == s[at]
  {
  }

  /** The pieces of `parts`, back to back. */
  function Concat<T>(parts: seq<seq<T>>): seq<T> {
    if parts == [] then [] else Concat(parts[..|parts| - 1]) + parts[|parts| - 1]
  }

  /** Four pieces put back to back, each of which can be sliced back out. */
  lemma FourParts<T>(a: seq<T>, b: seq<T>, c: seq<T>, d: seq<T>)
    ensures Concat([a, b, c, d]) == a + b + c + d
    ensures Concat([a, b, c, d])[..|a|] == a
    ensures Concat([a, b, c, d])[|a| .. |a| + |b|] == b
    ensures Concat([a, b, c, d])[|a| + |b| .. |a| + |b| + |c|] == c
    ensures Concat([a, b, c, d])[|a| + |b| + |c| ..] == d
  {
    assert [a][..0] == [];
    assert Concat([a]) == a;
    assert [a, b][..1] == [a];
    assert Concat([a, b]) == a + b;
    assert [a, b, c][..2] == [a, b];
    assert Concat([a, b, c]) == a + b + c;
    assert [a, b, c, d][..3] == [a, b, c];
    var s := a + b + c + d;
    assert Concat([a, b, c, d]) == s;
    assert s == ((a + b) + c) + d;
    assert s[..|a| + |b| + |c|] == (a + b) + c;
    assert s[..|a| + |b|] == a + b;
    assert s[|a| .. |a| + |b|] == s[..|a| + |b|][|a|..];
    assert s[|a| + |b| .. |a| + |b| + |c|] == s[..|a| + |b| + |c|][|a| + |b|..];
  }

  /** Reading the fields of a file header found at the start of `e`. */
  lemma FileHeaderAtStart(e: seq<Byte>, fileSize: Int32, imageDataOffset: Int32)
    requires 14 <= |e| && e[..14] == FileHeader(fileSize, imageDataOffset)
    ensures e[0] == 0x42 && e[1] == 0x4D
    ensures IntAt(e, 2) == fileSize
    ensures ShortAt(e, 6) == 0 && ShortAt(e, 8) == 0
    ensures IntAt(e, 10) == imageDataOffset
  {
    FileHeaderFields(fileSize, imageDataOffset);
    var h := e[..14];
    assert e[0] == h[0] && e[1] == h[1];
    SliceOfSlice(e, 0, 14, 2, 6);
    SliceOfSlice(e, 0, 14, 6, 10);
    SliceOfSlice(e, 0, 14, 10, 14);
    assert e[6..8] == h[6..10][0..2] && e[8..10] == h[6..10][2..4];
  }

  /** Reading the fields of an info header found at bytes 14..54 of `e`. */
  lemma InfoHeaderAt14(e: seq<Byte>, storedWidth: Int32, height: Int32, bitCount: Int16,
                       imageDataSize: Int32, numberOfColors: Int32)
    requires 54 <= |e| && e[14..54] == InfoHeader(storedWidth, height, bitCount, imageDataSize, numberOfColors)
    ensures IntAt(e, 14) == 40
    ensures IntAt(e, 18) == storedWidth
    ensures IntAt(e, 22) == height
    ensures ShortAt(e, 26) == 1
    ensures ShortAt(e, 28) == bitCount
    ensures IntAt(e, 30) == 0
    ensures IntAt(e, 34) == imageDataSize
    ensures IntAt(e, 38) == 0x0B13
    ensures IntAt(e, 42) == 0x0B13
    ensures IntAt(e, 46) == numberOfColors
    ensures IntAt(e, 50) == 0
  {
    InfoHeaderFields(storedWidth, height, bitCount, imageDataSize, numberOfColors);
    SliceOfSlice(e, 14, 54, 0, 4);
    SliceOfSlice(e, 14, 54, 4, 8);
    SliceOfSlice(e, 14, 54, 8, 12);
    SliceOfSlice(e, 14, 54, 12, 14);
    SliceOfSlice(e, 14, 54, 14, 16);
    SliceOfSlice(e, 14, 54, 16, 20);
    SliceOfSlice(e, 14, 54, 20, 24);
    SliceOfSlice(e, 14, 54, 24, 28);
    SliceOfSlice(e, 14, 54, 28, 32);
    SliceOfSlice(e, 14, 54, 32, 36);
    SliceOfSlice(e, 14, 54, 36, 40);
  }

  /**
   * Reading a pixel byte out of a file `e` whose pixel data starts at the
   * offset of format `f`.
   */
  lemma PixelInFile(e: seq<Byte>, f: Format, bm: Bitmap, pad: nat, k: nat, j: nat, c: nat)
    requires bm.Valid()
    requires k < bm.height && j < bm.width && c < BytePerPixel(f)
    requires ImageDataOffset(f) <= |e|
    requires e[ImageDataOffset(f)..] == ImageData(bm.pixels, bm.width, BytePerPixel(f), Padding(pad))
    ensures Mul(bm.height - 1 - k, bm.width) + j < |bm.pixels|
    ensures ImageDataOffset(f) + Mul(k, RowWidthInBytes(f, bm.width) + pad) + Mul(j, BytePerPixel(f)) + c < |e|
    ensures e[ImageDataOffset(f) + Mul(k, RowWidthInBytes(f, bm.width) + pad) + Mul(j, BytePerPixel(f)) + c]
            == LowByte(bm.pixels[Mul(bm.height - 1 - k, bm.width) + j])
  {
    var bpp := BytePerPixel(f);
    var stride := RowWidthInBytes(f, bm.width) + pad;
    MulComm(bm.width, bpp);
    assert stride == Mul(bm.width, bpp) + |Padding(pad)|;
    ImageDataPixel(bm.pixels, bm.width, bm.height, bpp, Padding(pad), k, j, c);
    SuffixAt(e, ImageDataOffset(f), ImageData(bm.pixels, bm.width, bpp, Padding(pad)),
             Mul(k, stride) + Mul(j, bpp) + c);
  }

  /**
   * Reading a padding byte out of a file `e` whose pixel data starts at the
   * offset of format `f`.
   */
  lemma PaddingInFile(e: seq<Byte>, f: Format, bm: Bitmap, pad: nat, k: nat, t: nat)
    requires bm.Valid()
    requires k < bm.height && t < pad
    requires ImageDataOffset(f) <= |e|
    requires e[ImageDataOffset(f)..] == ImageData(bm.pixels, bm.width, BytePerPixel(f), Padding(pad))
    ensures ImageDataOffset(f) + Mul(k, RowWidthInBytes(f, bm.width) + pad) + RowWidthInBytes(f, bm.width) + t < |e|
    ensures e[ImageDataOffset(f) + Mul(k, RowWidthInBytes(f, bm.width) + pad) + RowWidthInBytes(f, bm.width) + t]
            == PaddingByte
  {
    var bpp := BytePerPixel(f);
    var rowWidth := RowWidthInBytes(f, bm.width);
    MulComm(bm.width, bpp);
    assert rowWidth == Mul(bm.width, bpp);
    assert rowWidth + pad == Mul(bm.width, bpp) + |Padding(pad)|;
    ImageDataPadding(bm.pixels, bm.width, bm.height, bpp, Padding(pad), k, t);
    SuffixAt(e, ImageDataOffset(f), ImageData(bm.pixels, bm.width, bpp, Padding(pad)),
             Mul(k, rowWidth + pad) + rowWidth + t);
  }

  // ---------------------------------------------------------------------------
  // The whole file

  /** The pixel data is exactly `imageDataSize` bytes long. */
  lemma ImageDataSizeIs(f: Format, bm: Bitmap, pad: nat)
    requires bm.Valid()
    ensures |ImageData(bm.pixels, bm.width, BytePerPixel(f), Padding(pad))|
            == ImageDataSize(f, bm.width, bm.height, pad)
  {
    var bpp := BytePerPixel(f);
    ImageDataLength(bm.pixels, bm.width, bm.height, bpp, Padding(pad));
    MulComm(bm.width, bpp);
    MulComm(bm.height, Mul(bm.width, bpp) + pad);
  }

  /**
   * The bytes `convert` returns for bitmap `bm` in format `f` when the
   * converter pads each row with `pad` bytes.
   */
  function Encode(f: Format, bm: Bitmap, pad: nat): (bytes: seq<Byte>)
    requires bm.Valid() && pad < 4 && Fits(f, bm, pad)
    ensures |bytes| == FileSize(f, bm.width, bm.height, pad)
  {
    SizesFit(f, bm, pad);
    FormatLayout(f);
    ImageDataSizeIs(f, bm, pad);
    var colors := NumberOfColors(f);
    ColorTableLength(colors);
    var fileHeader := FileHeader(FileSize(f, bm.width, bm.height, pad), ImageDataOffset(f));
    var infoHeader := InfoHeader(StoredWidth(bm.width, pad), bm.height, f.Value(),
                                 ImageDataSize(f, bm.width, bm.height, pad), colors);
    var colorTable := if colors != 0 then ColorTable(colors) else [];
    var imageData := ImageData(bm.pixels, bm.width, BytePerPixel(f), Padding(pad));
    FourParts(fileHeader, infoHeader, colorTable, imageData);
    Concat([fileHeader, infoHeader, colorTable, imageData])
  }

  /** The file is the four parts concatenated. */
  lemma EncodeConcat(f: Format, bm: Bitmap, pad: nat)
    requires bm.Valid() && pad < 4 && Fits(f, bm, pad)
    ensures 0 <= StoredWidth(bm.width, pad) <= MaxInt32 && bm.height <= MaxInt32
    ensures ImageDataSize(f, bm.width, bm.height, pad) <= MaxInt32 && NumberOfColors(f) <= 256
    ensures Encode(f, bm, pad)
            == FileHeader(FileSize(f, bm.width, bm.height, pad), ImageDataOffset(f))
               + InfoHeader(StoredWidth(bm.width, pad), bm.height, f.Value(),
                            ImageDataSize(f, bm.width, bm.height, pad), NumberOfColors(f))
               + (if NumberOfColors(f) != 0 then ColorTable(NumberOfColors(f)) else [])
               + ImageData(bm.pixels, bm.width, BytePerPixel(f), Padding(pad))
  {
    SizesFit(f, bm, pad);
    FormatLayout(f);
    var colors := NumberOfColors(f);
    var fh := FileHeader(FileSize(f, bm.width, bm.height, pad), ImageDataOffset(f));
    var ih := InfoHeader(StoredWidth(bm.width, pad), bm.height, f.Value(),
                         ImageDataSize(f, bm.width, bm.height, pad), colors);
    var ct := if colors != 0 then ColorTable(colors) else [];
    var id := ImageData(bm.pixels, bm.width, BytePerPixel(f), Padding(pad));
    FourParts(fh, ih, ct, id);
  }

  /**
   * The file is the file header, the info header, the colour table (empty for
   * 24-bit) and the pixel data, in that order and back to back.
   */
  lemma EncodeParts(f: Format, bm: Bitmap, pad: nat)
    requires bm.Valid() && pad < 4 && Fits(f, bm, pad)
    ensures 0 <= StoredWidth(bm.width, pad) <= MaxInt32 && bm.height <= MaxInt32
    ensures 54 <= ImageDataOffset(f) <= FileSize(f, bm.width, bm.height, pad) <= MaxInt32
    ensures NumberOfColors(f) <= 256
    ensures Encode(f, bm, pad)[..14] == FileHeader(FileSize(f, bm.width, bm.height, pad), ImageDataOffset(f))
    ensures Encode(f, bm, pad)[14..54]
            == InfoHeader(StoredWidth(bm.width, pad), bm.height, f.Value(),
                          ImageDataSize(f, bm.width, bm.height, pad), NumberOfColors(f))
    ensures Encode(f, bm, pad)[54..ImageDataOffset(f)] == ColorTable(NumberOfColors(f))
    ensures Encode(f, bm, pad)[ImageDataOffset(f)..]
            == ImageData(bm.pixels, bm.width, BytePerPixel(f), Padding(pad))
  {
    SizesFit(f, bm, pad);
    FormatLayout(f);
    var colors := NumberOfColors(f);
    ColorTableLength(colors);
    var fh := FileHeader(FileSize(f, bm.width, bm.height, pad), ImageDataOffset(f));
    var ih := InfoHeader(StoredWidth(bm.width, pad), bm.height, f.Value(),
                         ImageDataSize(f, bm.width, bm.height, pad), colors);
    var ct := if colors != 0 then ColorTable(colors) else [];
    var id := ImageData(bm.pixels, bm.width, BytePerPixel(f), Padding(pad));
    assert ct == ColorTable(colors);
    FourParts(fh, ih, ct, id);
  }

  /** The pixel data fills the file from the pixel data offset on. */
  lemma EncodeImageDataPart(f: Format, bm: Bitmap, pad: nat)
    requires bm.Valid() && pad < 4 && Fits(f, bm, pad)
    ensures ImageDataOffset(f) <= |Encode(f, bm, pad)|
    ensures Encode(f, bm, pad)[ImageDataOffset(f)..]
            == ImageData(bm.pixels, bm.width, BytePerPixel(f), Padding(pad))
  {
    EncodeParts(f, bm, pad);
  }

  /** The file is exactly as long as its header says: offset plus image data. */
  lemma EncodeSize(f: Format, bm: Bitmap, pad: nat)
    requires bm.Valid() && pad < 4 && Fits(f, bm, pad)
    ensures |Encode(f, bm, pad)| == ImageDataOffset(f) + ImageDataSize(f, bm.width, bm.height, pad)
    ensures IntAt(Encode(f, bm, pad), 2) == |Encode(f, bm, pad)|
  {
    EncodeParts(f, bm, pad);
    FileHeaderAtStart(Encode(f, bm, pad), FileSize(f, bm.width, bm.height, pad), ImageDataOffset(f));
  }

  /** The file header of the encoded file: signature, size, two reserved zeros, pixel data offset. */
  lemma EncodeFileHeader(f: Format, bm: Bitmap, pad: nat)
    requires bm.Valid() && pad < 4 && Fits(f, bm, pad)
    ensures 14 <= |Encode(f, bm, pad)|
    ensures Encode(f, bm, pad)[0] == 0x42 && Encode(f, bm, pad)[1] == 0x4D
    ensures IntAt(Encode(f, bm, pad), 2) == FileSize(f, bm.width, bm.height, pad)
    ensures ShortAt(Encode(f, bm, pad), 6) == 0 && ShortAt(Encode(f, bm, pad), 8) == 0
    ensures IntAt(Encode(f, bm, pad), 10) == ImageDataOffset(f)
  {
    EncodeParts(f, bm, pad);
    FileHeaderAtStart(Encode(f, bm, pad), FileSize(f, bm.width, bm.height, pad), ImageDataOffset(f));
  }

  /** The info header of the encoded file; the width field is one larger exactly when the padding is 3. */
  lemma EncodeInfoHeader(f: Format, bm: Bitmap, pad: nat)
    requires bm.Valid() && pad < 4 && Fits(f, bm, pad)
    ensures 54 <= |Encode(f, bm, pad)|
    ensures IntAt(Encode(f, bm, pad), 14) == 40
    ensures IntAt(Encode(f, bm, pad), 18) == (if pad == 3 then bm.width + 1 else bm.width)
    ensures IntAt(Encode(f, bm, pad), 22) == bm.height
    ensures ShortAt(Encode(f, bm, pad), 26) == 1
    ensures ShortAt(Encode(f, bm, pad), 28) == f.Value()
    ensures IntAt(Encode(f, bm, pad), 30) == 0
    ensures IntAt(Encode(f, bm, pad), 34) == ImageDataSize(f, bm.width, bm.height, pad)
    ensures IntAt(Encode(f, bm, pad), 38) == 0x0B13
    ensures IntAt(Encode(f, bm, pad), 42) == 0x0B13
    ensures IntAt(Encode(f, bm, pad), 46) == NumberOfColors(f)
    ensures IntAt(Encode(f, bm, pad), 50) == 0
  {
    EncodeParts(f, bm, pad);
    InfoHeaderAt14(Encode(f, bm, pad), StoredWidth(bm.width, pad), bm.height, f.Value(),
                   ImageDataSize(f, bm.width, bm.height, pad), NumberOfColors(f));
  }

  /** In the 8-bit format, palette entry i sits at offset 54 + 4i and holds (i, i, i, 0). */
  lemma EncodePalette(bm: Bitmap, pad: nat, i: nat)
    requires bm.Valid() && pad < 4 && Fits(Bitmap8BitColor, bm, pad)
    requires i < 256
    ensures 1078 <= |Encode(Bitmap8BitColor, bm, pad)|
    ensures Encode(Bitmap8BitColor, bm, pad)[54 + 4 * i] == i
    ensures Encode(Bitmap8BitColor, bm, pad)[55 + 4 * i] == i
    ensures Encode(Bitmap8BitColor, bm, pad)[56 + 4 * i] == i
    ensures Encode(Bitmap8BitColor, bm, pad)[57 + 4 * i] == 0
  {
    EncodeParts(Bitmap8BitColor, bm, pad);
    FormatLayout(Bitmap8BitColor);
    var e := Encode(Bitmap8BitColor, bm, pad);
    var n := NumberOfColors(Bitmap8BitColor);
    ColorTableEntry(n, i);
    SliceOfSlice(e, 54, 1078, 4 * i, 4 * i + 4);
    SmallByte(i);
    assert e[54 + 4 * i .. 58 + 4 * i] == [i, i, i, 0];
    assert e[54 + 4 * i] == e[54 + 4 * i .. 58 + 4 * i][0];
    assert e[55 + 4 * i] == e[54 + 4 * i .. 58 + 4 * i][1];
    assert e[56 + 4 * i] == e[54 + 4 * i .. 58 + 4 * i][2];
    assert e[57 + 4 * i] == e[54 + 4 * i .. 58 + 4 * i][3];
  }

  /**
   * Byte c of pixel j in output row k sits at offset + k*stride + j*bytePerPixel + c
   * and is the low byte of source pixel (height-1-k, j): rows go bottom-up,
   * pixels left to right, each pixel as bytePerPixel copies of its low byte.
   */
  lemma EncodePixel(f: Format, bm: Bitmap, pad: nat, k: nat, j: nat, c: nat)
    requires bm.Valid() && pad < 4 && Fits(f, bm, pad)
    requires k < bm.height && j < bm.width && c < BytePerPixel(f)
    ensures Mul(bm.height - 1 - k, bm.width) + j < |bm.pixels|
    ensures ImageDataOffset(f) + Mul(k, RowWidthInBytes(f, bm.width) + pad) + Mul(j, BytePerPixel(f)) + c
            < |Encode(f, bm, pad)|
    ensures Encode(f, bm, pad)[ImageDataOffset(f) + Mul(k, RowWidthInBytes(f, bm.width) + pad)
                               + Mul(j, BytePerPixel(f)) + c]
            == LowByte(bm.pixels[Mul(bm.height - 1 - k, bm.width) + j])
  {
    EncodeImageDataPart(f, bm, pad);
    PixelInFile(Encode(f, bm, pad), f, bm, pad, k, j, c);
  }

  /** Row k's padding follows its pixels, and every padding byte is 0xFF. */
  lemma EncodePadding(f: Format, bm: Bitmap, pad: nat, k: nat, t: nat)
    requires bm.Valid() && pad < 4 && Fits(f, bm, pad)
    requires k < bm.height && t < pad
    ensures ImageDataOffset(f) + Mul(k, RowWidthInBytes(f, bm.width) + pad) + RowWidthInBytes(f, bm.width) + t
            < |Encode(f, bm, pad)|
    ensures Encode(f, bm, pad)[ImageDataOffset(f) + Mul(k, RowWidthInBytes(f, bm.width) + pad)
                               + RowWidthInBytes(f, bm.width) + t] == 0xFF
  {
    EncodeImageDataPart(f, bm, pad);
    PaddingInFile(Encode(f, bm, pad), f, bm, pad, k, t);
  }

  /** The sizes as the source computes them: ordinary products of the format, width, height and padding. */
  lemma SizeFormulas(f: Format, width: nat, height: nat, pad: nat)
    ensures RowWidthInBytes(f, width) == BytePerPixel(f) * width
    ensures ImageDataSize(f, width, height, pad) == (BytePerPixel(f) * width + pad) * height
    ensures FileSize(f, width, height, pad) == (BytePerPixel(f) * width + pad) * height + ImageDataOffset(f)
  {
    MulIsProduct(BytePerPixel(f), width);
    MulIsProduct(RowWidthInBytes(f, width) + pad, height);
  }

  /**
   * A single gray pixel on a converter that never padded: one byte per row,
   * three bytes of padding, four bytes of pixel data, a 1082-byte file whose
   * info header stores width 2.
   */
  lemma EncodeOnePixel8Bit(p: Int32)
    ensures Bitmap(1, 1, [p]).Valid()
    ensures PaddingAfter(0, RowWidthInBytes(Bitmap8BitColor, 1)) == 3
    ensures Fits(Bitmap8BitColor, Bitmap(1, 1, [p]), 3)
    ensures |Encode(Bitmap8BitColor, Bitmap(1, 1, [p]), 3)| == 1082
    ensures IntAt(Encode(Bitmap8BitColor, Bitmap(1, 1, [p]), 3), 18) == 2
    ensures IntAt(Encode(Bitmap8BitColor, Bitmap(1, 1, [p]), 3), 34) == 4
  {
    FormatLayout(Bitmap8BitColor);
    assert Mul(1, 1) == 1;
    assert RowWidthInBytes(Bitmap8BitColor, 1) == 1;
    assert Mul(4, 1) == 4;
    assert ImageDataSize(Bitmap8BitColor, 1, 1, 3) == 4;
    EncodeInfoHeader(Bitmap8BitColor, Bitmap(1, 1, [p]), 3);
  }
}
