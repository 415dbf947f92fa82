/**
 * BitmapConverter: an object that turns a bitmap into the bytes of a .bmp
 * file. `convert` sizes the file from the format and the image, allocates a
 * buffer of exactly that size and fills it front to back: file header, info
 * header, colour table (palette formats only), pixel rows.
 *
 * The fields are those of the Java class and are updated in the same order.
 * `buffer` with `position` is the ByteBuffer: `put` stores at the position
 * and advances it.
 */
module Converter {
  import opened LittleEndian
  import opened BitmapFormat
  import opened BmpLayout

  const DefaultFormat: Format := Bitmap24BitColor

  class BitmapConverter {
    var buffer: array<Byte>
    var position: nat

    var numberOfColors: Int32
    var imageDataOffset: Int32
    var bytePerPixel: Int32
    var width: Int32
    var height: Int32
    var rowWidthInBytes: Int32
    var imageDataSize: Int32
    var fileSize: Int32
    var pixels: seq<Int32>
    var dummyBytesPerRow: array<Byte>
    var needPadding: bool

    /** The bytes put into the buffer so far. */
    ghost var written: seq<Byte>

    /**
     * The buffer has not overrun and holds `written` below the position; the
     * padding is distinct from it and, once in use, is 1 to 3 bytes of 0xFF.
     */
    ghost predicate Valid()
      reads this`buffer, this`position, this`written, this`needPadding, this`dummyBytesPerRow
      reads buffer, dummyBytesPerRow
    {
      position <= buffer.Length && |written| == position && buffer[..position] == written &&
      buffer != dummyBytesPerRow &&
      PaddingValid()
    }

    /** Once padding is on, the padding array is 1 to 3 bytes of 0xFF. */
    ghost predicate PaddingValid()
      reads this`needPadding, this`dummyBytesPerRow, dummyBytesPerRow
    {
      needPadding ==> 1 <= dummyBytesPerRow.Length <= 3 && dummyBytesPerRow[..] == Padding(dummyBytesPerRow.Length)
    }

    /** How many padding bytes follow each row: the array's length while padding is on. */
    ghost function PadLength(): nat
      reads this`needPadding, this`dummyBytesPerRow
    {
      if needPadding then dummyBytesPerRow.Length else 0
    }

    /** While padding is on, the padding array holds exactly the row padding. */
    lemma PaddingIsRowPadding()
      requires Valid() && needPadding
      ensures dummyBytesPerRow[..] == Padding(PadLength())
    {
    }

    /** A buffer filled to the end holds exactly what was written. */
    lemma BufferHoldsWritten()
      requires Valid() && position == buffer.Length
      ensures buffer[..] == written
    {
    }

    /** A fresh converter: nothing written and no padding. */
    constructor ()
      ensures Valid() && written == [] && PadLength() == 0
    {
      buffer := new Byte[0];
      position := 0;
      pixels := [];
      written := [];
      dummyBytesPerRow := new Byte[0];
      needPadding := false;
    }

    /** `buffer.put(b)`. */
    method Put(b: Byte)
      requires Valid() && position < buffer.Length
      modifies buffer, this`position, this`written
      ensures Valid() && position == old(position) + 1
      ensures written == old(written) + [b]
    {
      buffer[position] := b;
      position := position + 1;
      written := written + [b];
    }

    /** `buffer.put(bytes)`: the bytes in order. */
    method PutAll(bytes: seq<Byte>)
      requires Valid() && position + |bytes| <= buffer.Length
      modifies buffer, this`position, this`written
      ensures Valid() && position == old(position) + |bytes|
      ensures written == old(written) + bytes
    {
      for i := 0 to |bytes|
        invariant Valid()
        invariant position == old(position) + i
        invariant written == old(written) + bytes[..i]
      {
        Put(bytes[i]);
        assert bytes[..i + 1] == bytes[..i] + [bytes[i]];
      }
      assert bytes[..|bytes|] == bytes;
    }

    /** The format's palette size, pixel data offset and bytes per pixel. */
    method CalculateInfoHeaderDataFromFormat(format: Format)
      modifies this`numberOfColors, this`imageDataOffset, this`bytePerPixel
      ensures numberOfColors == NumberOfColors(format)
      ensures imageDataOffset == ImageDataOffset(format)
      ensures bytePerPixel == BytePerPixel(format)
    {
      FormatLayout(format);
      numberOfColors := if format.Value() > 8 then 0 else Pow2(format.Value());
      var colorTableSize := numberOfColors * 4;
      imageDataOffset := FileHeaderSize + InfoHeaderSize + colorTableSize;
      bytePerPixel := format.Value() / 8;
    }

    /**
     * A row whose byte count is not a multiple of 4 gets a fresh array of
     * 0xFF bytes that makes it one; an aligned row leaves the padding as it was.
     */
    method CalculatePadding()
      requires PaddingValid() && rowWidthInBytes >= 0
      modifies this`needPadding, this`dummyBytesPerRow
      ensures PaddingValid()
      ensures PadLength() == PaddingAfter(old(PadLength()), rowWidthInBytes)
      ensures rowWidthInBytes % WidthMultiple == 0 ==>
                needPadding == old(needPadding) && dummyBytesPerRow == old(dummyBytesPerRow)
    {
      if rowWidthInBytes % WidthMultiple != 0 {
        needPadding := true;
        var dummy := new Byte[WidthMultiple - rowWidthInBytes % WidthMultiple];
        for i := 0 to dummy.Length
          invariant needPadding
          invariant forall j :: 0 <= j < i ==> dummy[j] == PaddingByte
        {
          dummy[i] := PaddingByte;
        }
        dummyBytesPerRow := dummy;
      }
    }

    /** The 14-byte file header: signature, file size, two reserved shorts, pixel data offset. */
    method WriteFileHeader()
      requires Valid() && position + FileHeaderSize <= buffer.Length
      modifies buffer, this`position, this`written
      ensures Valid() && position == old(position) + FileHeaderSize
      ensures written == old(written) + FileHeader(fileSize, imageDataOffset)
    {
      Put(SignatureB);
      Put(SignatureM);
      PutAll(WriteInt(fileSize));
      PutAll(WriteShort(0));
      PutAll(WriteShort(0));
      PutAll(WriteInt(imageDataOffset));
    }

    /**
     * The 40-byte info header. The width field is the image width plus one
     * when the padding in use is 3 bytes long.
     */
    method WriteInfoHeader(format: Format)
      requires Valid() && position + InfoHeaderSize <= buffer.Length
      requires StoredWidth(width, PadLength()) <= MaxInt32
      modifies buffer, this`position, this`written
      ensures Valid() && position == old(position) + InfoHeaderSize
      ensures written == old(written + InfoHeader(StoredWidth(width, PadLength()), height, format.Value(),
                                                  imageDataSize, numberOfColors))
    {
      ghost var w0 := written;
      var storedWidth := width + (if needPadding then (if dummyBytesPerRow.Length == 3 then 1 else 0) else 0);
      assert storedWidth == StoredWidth(width, PadLength());
      PutAll(WriteInt(InfoHeaderSize));
      PutAll(WriteInt(storedWidth));
      PutAll(WriteInt(height));
      PutAll(WriteShort(1));
      PutAll(WriteShort(format.Value()));
      PutAll(WriteInt(0));
      PutAll(WriteInt(imageDataSize));
      PutAll(WriteInt(PixelsPerMeter));
      PutAll(WriteInt(PixelsPerMeter));
      PutAll(WriteInt(numberOfColors));
      PutAll(WriteInt(0x0));
      InfoHeaderAppended(w0, storedWidth, height, format.Value(), imageDataSize, numberOfColors);
    }

    /** The grayscale palette: entry i is (i, i, i, 0). */
    method WriteColorTable()
      requires Valid() && numberOfColors >= 0 && position + 4 * numberOfColors <= buffer.Length
      modifies buffer, this`position, this`written
      ensures Valid() && position == old(position) + 4 * numberOfColors
      ensures written == old(written) + ColorTable(numberOfColors)
    {
      for i := 0 to numberOfColors
        invariant Valid()
        invariant position == old(position) + 4 * i
        invariant written == old(written) + ColorTable(i)
      {
        ColorTableLength(i);
        Put(i % 0x100);
        Put(i % 0x100);
        Put(i % 0x100);
        Put(0x00);
      }
    }

    /** One pixel: its low byte, once per byte of the format's pixel size. */
    method WritePixel(pixel: Int32, format: Format)
      requires Valid() && position + BytePerPixel(format) <= buffer.Length
      modifies buffer, this`position, this`written
      ensures Valid()
      ensures written == old(written) + PixelBytes(pixel, BytePerPixel(format))
    {
      for i := 0 to format.Value() / 8
        invariant Valid()
        invariant position == old(position) + i
        invariant written == old(written) + PixelBytes(pixel, i)
      {
        Put(LowByte(pixel));
        assert PixelBytes(pixel, i + 1) == PixelBytes(pixel, i) + [LowByte(pixel)];
      }
    }

    /**
     * One pass of the row loop of `writeImageData`: the pixels first to
     * last-1, left to right, then the padding while padding is on.
     */
    method WriteRow(first: nat, last: nat, format: Format)
      requires Valid() && first <= last <= |pixels|
      requires position + |Row(pixels[first .. last], BytePerPixel(format))| + PadLength() <= buffer.Length
      modifies buffer, this`position, this`written
      ensures Valid()
      ensures written == old(written + Row(pixels[first .. last], BytePerPixel(format)) + Padding(PadLength()))
    {
      ghost var bpp := BytePerPixel(format);
      ghost var base := written;
      ghost var pad := Padding(PadLength());
      ghost var row := Row(pixels[first .. last], bpp);
      for i := first to last
        invariant Valid()
        invariant |base| + |row| + |pad| <= buffer.Length
        invariant written == base + Row(pixels[first .. i], bpp)
      {
        RowExtend(base, pixels, first, i, bpp);
        RowShorter(pixels[first .. i + 1], pixels[first .. last], bpp);
        WritePixel(pixels[i], format);
      }
      if needPadding {
        PaddingIsRowPadding();
        PutAll(dummyBytesPerRow[..]);
      } else {
        assert base + row + pad == base + row;
      }
    }

    /**
     * The pixel rows, from the last source row up to the first, each row's
     * pixels left to right and followed by the padding while padding is on.
     */
    method WriteImageData(format: Format)
      requires Valid() && 0 < width && 0 < height && |pixels| == Mul(height, width)
      requires position + |ImageData(pixels, width, BytePerPixel(format), Padding(PadLength()))| <= buffer.Length
      modifies buffer, this`position, this`written
      ensures Valid()
      ensures written == old(written + ImageData(pixels, width, BytePerPixel(format), Padding(PadLength())))
    {
      ghost var px, w, h, bpp := pixels, width, height, BytePerPixel(format);
      ghost var pad := Padding(PadLength());
      ghost var w0 := written;
      var row: int := height;
      var col: int := width;
      MulIsProduct(row - 1, col);
      MulIsProduct(row, col);
      var startPosition: int := (row - 1) * col;
      var endPosition: int := row * col;
      assert px[endPosition..] == [];
      while row > 0
        invariant Valid()
        invariant 0 <= row <= h
        invariant endPosition == Mul(row, w) && startPosition == endPosition - w
        invariant endPosition <= |px|
        invariant |w0| + |ImageData(px, w, bpp, pad)| <= buffer.Length
        invariant written == w0 + ImageData(px[endPosition..], w, bpp, pad)
      {
        assert Mul(row, w) == Mul(row - 1, w) + w;
        ImageDataNext(w0, px, w, bpp, pad, startPosition, endPosition);
        ImageDataShorter(px[startPosition..], px, w, bpp, pad);
        WriteRow(startPosition, endPosition, format);
        row := row - 1;
        endPosition := startPosition;
        startPosition := startPosition - col;
      }
      assert px[0..] == px;
    }

    /**
     * The tail of `convert`: file header, info header, colour table when the
     * format has a palette, pixel data, written in that order from the
     * current position.
     */
    method WriteFile(format: Format)
      requires Valid() && position + fileSize <= buffer.Length
      requires 0 < width && 0 < height && |pixels| == Mul(height, width)
      requires 0 <= numberOfColors && imageDataOffset == FileHeaderSize + InfoHeaderSize + 4 * numberOfColors
      requires StoredWidth(width, PadLength()) <= MaxInt32
      requires imageDataSize == |ImageData(pixels, width, BytePerPixel(format), Padding(PadLength()))|
      requires fileSize == imageDataSize + imageDataOffset
      modifies buffer, this`position, this`written
      ensures Valid() && position == old(position) + fileSize
      ensures written == old(written) + FileHeader(fileSize, imageDataOffset)
                + InfoHeader(StoredWidth(width, PadLength()), height, format.Value(), imageDataSize, numberOfColors)
                + (if numberOfColors != 0 then ColorTable(numberOfColors) else [])
                + ImageData(pixels, width, BytePerPixel(format), Padding(PadLength()))
    {
      ColorTableLength(numberOfColors);
      WriteFileHeader();
      WriteInfoHeader(format);
      if numberOfColors != 0 {
        WriteColorTable();
      } else {
        assert written + [] == written;
      }
      WriteImageData(format);
    }

    /**
     * The head of `convert`: the format's layout, the image size, the row
     * width, the padding, the pixel data size and the file size.
     */
    method SizeImage(bitmap: Bitmap, format: Format)
      requires PaddingValid() && bitmap.Valid()
      requires Fits(format, bitmap, PaddingAfter(PadLength(), RowWidthInBytes(format, bitmap.width)))
      modifies this`numberOfColors, this`imageDataOffset, this`bytePerPixel, this`width, this`height, this`pixels
      modifies this`rowWidthInBytes, this`needPadding, this`dummyBytesPerRow, this`imageDataSize, this`fileSize
      ensures PaddingValid()
      ensures PadLength() == PaddingAfter(old(PadLength()), RowWidthInBytes(format, bitmap.width))
      ensures numberOfColors == NumberOfColors(format) && imageDataOffset == ImageDataOffset(format)
      ensures bytePerPixel == BytePerPixel(format)
      ensures width == bitmap.width && height == bitmap.height && pixels == bitmap.pixels
      ensures rowWidthInBytes == RowWidthInBytes(format, bitmap.width)
      ensures imageDataSize == ImageDataSize(format, bitmap.width, bitmap.height, PadLength())
      ensures fileSize == FileSize(format, bitmap.width, bitmap.height, PadLength())
    {
      ghost var rowWidth := RowWidthInBytes(format, bitmap.width);
      ghost var pad := PaddingAfter(PadLength(), rowWidth);
      ghost var dataSize := ImageDataSize(format, bitmap.width, bitmap.height, pad);
      SizesFit(format, bitmap, pad);
      CalculateInfoHeaderDataFromFormat(format);

      width := bitmap.width;
      height := bitmap.height;
      pixels := bitmap.pixels;

      rowWidthInBytes := Mul(bytePerPixel, width);
      assert rowWidthInBytes == rowWidth;

      CalculatePadding();
      assert PadLength() == pad;

      imageDataSize := Mul(rowWidthInBytes + (if needPadding then dummyBytesPerRow.Length else 0), height);
      assert imageDataSize == dataSize;
      fileSize := imageDataSize + imageDataOffset;
    }

    /**
     * `convert(bitmap, format)`: the .bmp bytes of `bitmap` in `format`,
     * padded with what the padding rule leaves after sizing this image's
     * rows: a misaligned row gets fresh padding, an aligned one keeps the
     * padding of the previous conversion.
     */
    method Convert(bitmap: Bitmap, format: Format) returns (result: array<Byte>)
      requires PaddingValid() && bitmap.Valid()
      requires Fits(format, bitmap, PaddingAfter(PadLength(), RowWidthInBytes(format, bitmap.width)))
      modifies this
      ensures Valid() && fresh(result) && result != dummyBytesPerRow
      ensures PadLength() == PaddingAfter(old(PadLength()), RowWidthInBytes(format, bitmap.width))
      ensures result[..] == Encode(format, bitmap, PadLength())
    {
      SizeImage(bitmap, format);
      ghost var pad := PadLength();

      buffer := new Byte[fileSize];
      position := 0;
      written := [];

      SizesFit(format, bitmap, pad);
      FormatLayout(format);
      ImageDataSizeIs(format, bitmap, pad);
      assert [] + FileHeader(fileSize, imageDataOffset) == FileHeader(fileSize, imageDataOffset);
      WriteFile(format);
      EncodeConcat(format, bitmap, pad);
      assert written == Encode(format, bitmap, pad);
      BufferHoldsWritten();
      result := buffer;
    }

    /** `convert(bitmap)`: the conversion in the default, 24-bit format. */
    method ConvertDefault(bitmap: Bitmap) returns (result: array<Byte>)
      requires PaddingValid() && bitmap.Valid()
      requires Fits(DefaultFormat, bitmap, PaddingAfter(PadLength(), RowWidthInBytes(DefaultFormat, bitmap.width)))
      modifies this
      ensures Valid() && fresh(result) && result != dummyBytesPerRow
      ensures PadLength() == PaddingAfter(old(PadLength()), RowWidthInBytes(DefaultFormat, bitmap.width))
      ensures result[..] == Encode(DefaultFormat, bitmap, PadLength())
    {
      result := Convert(bitmap, DefaultFormat);
    }
  }
}
