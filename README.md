# BitmapConverter in Dafny

A model of the BMP encoder of the `bitmapconverter` Android library. Given a
bitmap's width, height and packed 32-bit pixels and one of two formats
(8-bit grayscale with a palette, 24-bit), `BitmapConverter.convert` builds the
bytes of a Windows .bmp file:

- a 14-byte BITMAPFILEHEADER: `BM`, the file size, two reserved zero shorts,
  the pixel data offset;
- a 40-byte BITMAPINFOHEADER, whose width field is the image width plus one
  when the row padding is 3 bytes;
- for the 8-bit format, a 256-entry grayscale colour table, entry i being
  (i, i, i, 0);
- the pixel rows from the last source row up to the first, each pixel as
  `bytePerPixel` copies of its low byte, each row followed by the padding
  (0xFF bytes) that the converter holds.

The project has four modules:

- `LittleEndian` (`little_endian.dfy`): Java's `byte`, `short` and `int` as
  integer subset types, `writeShort` and `writeInt` as pure functions, and
  the decoders that undo them.
- `BitmapFormat` (`bitmap_format.dfy`): the format enum and `getValue`.
- `BmpLayout` (`bmp_layout.dfy`): the file layout as functions (`Encode` and
  its parts), with lemmas that read every header field, every palette entry,
  every pixel byte and every padding byte back out of `Encode`.
- `Converter` (`bitmap_converter.dfy`): the class `BitmapConverter`. It has the
  Java fields, a byte array with a write position standing for the
  `ByteBuffer`, and methods with the source's loops. Each writer is proved to
  append exactly the matching piece of the layout, so `Convert` returns a
  fresh array equal to `Encode`.

The converter never clears `needPadding` or `dummyBytesPerRow`. A converter
that has padded once keeps that padding when it later converts an image whose
rows are already a multiple of 4 bytes. The model keeps that behaviour.
`PaddingAfter(previous, rowWidthInBytes)` is the padding the object holds
after sizing a row, and `Convert` states its result for that padding.
`StalePaddingMisaligns` proves that such rows then become misaligned.
`FreshPaddingAligns` proves that a converter which never padded always
produces aligned rows.

Products are written with `BmpLayout.Mul`, which is multiplication by
repeated addition; `MulIsProduct` proves it equal to `*`, and `SizeFormulas`
restates the three sizes as ordinary products. Sizes and byte offsets are
stated with `Mul`, which keeps the proofs linear: `Mul(k, stride)` reads as
k * stride.

## Model

| member | source | states |
|---|---|---|
| LittleEndian.WriteShort | bitmapconverter/src/main/java/com/ygoular/bitmapconverter/BitmapConverter.java:242-249 | two bytes, low byte first, that decode back to the `short` given |
| LittleEndian.WriteInt | bitmapconverter/src/main/java/com/ygoular/bitmapconverter/BitmapConverter.java:256-265 | four bytes, low byte first, that decode back to the `int` given |
| LittleEndian.ShortBytesRoundTrip | bitmapconverter/src/main/java/com/ygoular/bitmapconverter/BitmapConverter.java:242-249 | every two bytes are the `writeShort` encoding of the value they decode to, so encoding and decoding are inverse bijections |
| LittleEndian.IntBytesRoundTrip | bitmapconverter/src/main/java/com/ygoular/bitmapconverter/BitmapConverter.java:256-265 | every four bytes are the `writeInt` encoding of the value they decode to |
| LittleEndian.NonNegativeIntBytes | bitmapconverter/src/main/java/com/ygoular/bitmapconverter/BitmapConverter.java:256-265 | a non-negative `int` is written as its base-256 digits, with a top byte below 0x80 |
| LittleEndian.SplitInt | bitmapconverter/src/main/java/com/ygoular/bitmapconverter/BitmapConverter.java:259-262 | the four masked and shifted bytes of a 32-bit pattern add back up to the pattern |
| BitmapFormat.Format.Value | bitmapconverter/src/main/java/com/ygoular/bitmapconverter/BitmapFormat.java:10-20 | the bit count is a multiple of 8 between 8 and 24, and is at most 8 exactly for the 8-bit format |
| BitmapFormat.ValueIdentifiesFormat | bitmapconverter/src/main/java/com/ygoular/bitmapconverter/BitmapFormat.java:11-13 | two formats have the same bit count exactly when they are the same format |
| BitmapFormat.WholeBytesPerPixel | bitmapconverter/src/main/java/com/ygoular/bitmapconverter/BitmapFormat.java:11-13 | the 8-bit format carries 8 and the 24-bit one 24, and dividing by 8 is exact, giving 1 or 3 bytes per pixel |
| BmpLayout.MulIsProduct | bitmapconverter/src/main/java/com/ygoular/bitmapconverter/BitmapConverter.java:80 | the repeated-addition product used for sizes is the product |
| BmpLayout.Pow2 | bitmapconverter/src/main/java/com/ygoular/bitmapconverter/BitmapConverter.java:110 | the integer `Math.pow(2, n)`: 1 doubled n times, always positive |
| BmpLayout.NumberOfColors | bitmapconverter/src/main/java/com/ygoular/bitmapconverter/BitmapConverter.java:110 | the palette size: 2^bits for formats of at most 8 bits, 0 otherwise (256 and 0 by FormatLayout) |
| BmpLayout.ImageDataOffset | bitmapconverter/src/main/java/com/ygoular/bitmapconverter/BitmapConverter.java:111-113 | the pixel data offset: 14 + 40 + 4 bytes per palette entry (1078 and 54 by FormatLayout) |
| BmpLayout.BytePerPixel | bitmapconverter/src/main/java/com/ygoular/bitmapconverter/BitmapConverter.java:114 | the bit count divided by 8 (1 and 3 by FormatLayout) |
| BmpLayout.FormatLayout | bitmapconverter/src/main/java/com/ygoular/bitmapconverter/BitmapConverter.java:108-115 | 256 colours, offset 1078 and 1 byte per pixel for 8-bit; no colours, offset 54 and 3 bytes per pixel for 24-bit |
| BmpLayout.PaddingAfter | bitmapconverter/src/main/java/com/ygoular/bitmapconverter/BitmapConverter.java:121-131 | the padding length after sizing a row: 4 - (row bytes mod 4) for a misaligned row, the previous length for an aligned one, since neither padding field is ever cleared (properties in PaddingAligns, FreshPaddingAligns, StalePaddingMisaligns) |
| BmpLayout.PaddingAligns | bitmapconverter/src/main/java/com/ygoular/bitmapconverter/BitmapConverter.java:121-131 | a misaligned row gets 1 to 3 padding bytes that make it a multiple of 4; an aligned row keeps the old padding |
| BmpLayout.FreshPaddingAligns | bitmapconverter/src/main/java/com/ygoular/bitmapconverter/BitmapConverter.java:121-131 | on a converter that never padded, padded rows are multiples of 4, and padding is absent exactly when the row is aligned |
| BmpLayout.StalePaddingMisaligns | bitmapconverter/src/main/java/com/ygoular/bitmapconverter/BitmapConverter.java:121-131 | padding left over from an earlier conversion stays in place on an aligned row and misaligns it |
| BmpLayout.Padding | bitmapconverter/src/main/java/com/ygoular/bitmapconverter/BitmapConverter.java:125-129 | the row padding has the requested length and every byte is 0xFF |
| BmpLayout.RowWidthInBytes | bitmapconverter/src/main/java/com/ygoular/bitmapconverter/BitmapConverter.java:80 | bytes per pixel times width |
| BmpLayout.ImageDataSize | bitmapconverter/src/main/java/com/ygoular/bitmapconverter/BitmapConverter.java:85 | (row bytes + padding length) times height |
| BmpLayout.FileSize | bitmapconverter/src/main/java/com/ygoular/bitmapconverter/BitmapConverter.java:88 | pixel data size plus pixel data offset |
| BmpLayout.SizeFormulas | bitmapconverter/src/main/java/com/ygoular/bitmapconverter/BitmapConverter.java:80-88 | the three sizes written as ordinary products: bytePerPixel*width, (bytePerPixel*width + pad)*height, and that plus the offset |
| BmpLayout.StoredWidth | bitmapconverter/src/main/java/com/ygoular/bitmapconverter/BitmapConverter.java:162 | the width field of the info header: width + 1 when the padding is 3 bytes, width otherwise |
| BmpLayout.SizesFit | bitmapconverter/src/main/java/com/ygoular/bitmapconverter/BitmapConverter.java:80-88 | when the file size fits an `int`, so do the row width, the stored width, the height, the pixel count and the pixel data size, and all are positive |
| BmpLayout.FileHeader | bitmapconverter/src/main/java/com/ygoular/bitmapconverter/BitmapConverter.java:137-151 | the six puts of the file header back to back, 14 bytes in all |
| BmpLayout.FileHeaderFields | bitmapconverter/src/main/java/com/ygoular/bitmapconverter/BitmapConverter.java:137-151 | the file header is `B`, `M`, the file size, four zero bytes, the pixel data offset |
| BmpLayout.InfoHeader | bitmapconverter/src/main/java/com/ygoular/bitmapconverter/BitmapConverter.java:157-188 | the eleven puts of the info header back to back, 40 bytes in all |
| BmpLayout.InfoHeaderFields | bitmapconverter/src/main/java/com/ygoular/bitmapconverter/BitmapConverter.java:157-188 | the info header's eleven fields decode, in order, to 40, the stored width, the height, 1, the bit count, 0, the data size, 0x0B13 twice, the colour count, 0 |
| BmpLayout.GrayEntry | bitmapconverter/src/main/java/com/ygoular/bitmapconverter/BitmapConverter.java:197-200 | palette entry i: `(byte)i` three times, then 0 |
| BmpLayout.ColorTable | bitmapconverter/src/main/java/com/ygoular/bitmapconverter/BitmapConverter.java:194-202 | the first n palette entries in order (length in ColorTableLength, contents in ColorTableEntry) |
| BmpLayout.ColorTableLength | bitmapconverter/src/main/java/com/ygoular/bitmapconverter/BitmapConverter.java:194-202 | n palette entries are 4n bytes |
| BmpLayout.ColorTableEntry | bitmapconverter/src/main/java/com/ygoular/bitmapconverter/BitmapConverter.java:196-201 | bytes 4i..4i+3 of the palette are (i, i, i, 0) taken modulo 256 |
| BmpLayout.LowByte | bitmapconverter/src/main/java/com/ygoular/bitmapconverter/BitmapConverter.java:234 | `(byte)pixel`: the pixel modulo 256 |
| BmpLayout.PixelBytes | bitmapconverter/src/main/java/com/ygoular/bitmapconverter/BitmapConverter.java:232-235 | one pixel: `count` copies of its low byte |
| BmpLayout.Row | bitmapconverter/src/main/java/com/ygoular/bitmapconverter/BitmapConverter.java:214-215 | the pixels of a run left to right, each as its bytes (length in RowLength, contents in RowAt) |
| BmpLayout.RowLength | bitmapconverter/src/main/java/com/ygoular/bitmapconverter/BitmapConverter.java:214-215 | a run of n pixels is n times bytePerPixel bytes |
| BmpLayout.RowAt | bitmapconverter/src/main/java/com/ygoular/bitmapconverter/BitmapConverter.java:232-235 | byte c of pixel j of a run is that pixel's low byte |
| BmpLayout.ImageData | bitmapconverter/src/main/java/com/ygoular/bitmapconverter/BitmapConverter.java:208-223 | the rows of the pixels from the last up to the first, each followed by the padding (length in ImageDataLength, contents in ImageDataRow, ImageDataPixel, ImageDataPadding) |
| BmpLayout.ImageDataLength | bitmapconverter/src/main/java/com/ygoular/bitmapconverter/BitmapConverter.java:208-223 | n rows of pixels give n rows of (row bytes + padding) bytes |
| BmpLayout.ImageDataSplit | bitmapconverter/src/main/java/com/ygoular/bitmapconverter/BitmapConverter.java:208-223 | the rows from row m on are written before the first m rows |
| BmpLayout.ImageDataRow | bitmapconverter/src/main/java/com/ygoular/bitmapconverter/BitmapConverter.java:208-223 | output row k is source row n-1-k followed by the padding |
| BmpLayout.ImageDataPixel | bitmapconverter/src/main/java/com/ygoular/bitmapconverter/BitmapConverter.java:208-235 | byte c of pixel j in output row k is the low byte of source pixel (height-1-k, j) |
| BmpLayout.ImageDataPadding | bitmapconverter/src/main/java/com/ygoular/bitmapconverter/BitmapConverter.java:216-217 | the bytes after each output row's pixels are the padding |
| BmpLayout.ImageDataSizeIs | bitmapconverter/src/main/java/com/ygoular/bitmapconverter/BitmapConverter.java:85 | the pixel data is exactly `imageDataSize` = (row width + padding) times height bytes |
| BmpLayout.Encode | bitmapconverter/src/main/java/com/ygoular/bitmapconverter/BitmapConverter.java:85-101 | the file is exactly `fileSize` = pixel data size + pixel data offset bytes long |
| BmpLayout.EncodeConcat | bitmapconverter/src/main/java/com/ygoular/bitmapconverter/BitmapConverter.java:96-99 | the file is file header, info header, colour table when there are colours, pixel data, back to back |
| BmpLayout.EncodeParts | bitmapconverter/src/main/java/com/ygoular/bitmapconverter/BitmapConverter.java:94-99 | the file header fills bytes 0..14, the info header 14..54, the palette 54..offset, the pixel data the rest |
| BmpLayout.EncodeSize | bitmapconverter/src/main/java/com/ygoular/bitmapconverter/BitmapConverter.java:85-94 | the file is offset plus data size bytes, and the size field in its header equals its length |
| BmpLayout.EncodeFileHeader | bitmapconverter/src/main/java/com/ygoular/bitmapconverter/BitmapConverter.java:137-151 | the encoded file starts with `BM`, the file size, two zero shorts and the pixel data offset |
| BmpLayout.EncodeInfoHeader | bitmapconverter/src/main/java/com/ygoular/bitmapconverter/BitmapConverter.java:157-188 | the info header fields at offsets 14..50 of the file, the width field being width + 1 exactly when the padding is 3 |
| BmpLayout.EncodePalette | bitmapconverter/src/main/java/com/ygoular/bitmapconverter/BitmapConverter.java:194-202 | in the 8-bit format, offset 54 + 4i holds i, i, i, 0 for every i below 256 |
| BmpLayout.EncodePixel | bitmapconverter/src/main/java/com/ygoular/bitmapconverter/BitmapConverter.java:208-235 | the byte at offset + k*stride + j*bytePerPixel + c is the low byte of source pixel (height-1-k, j) |
| BmpLayout.EncodePadding | bitmapconverter/src/main/java/com/ygoular/bitmapconverter/BitmapConverter.java:216-217 | the padding bytes after each row's pixels are 0xFF |
| BmpLayout.EncodeOnePixel8Bit | bitmapconverter/src/main/java/com/ygoular/bitmapconverter/BitmapConverter.java:80-88 | a 1x1 8-bit image on a fresh converter has 3 bytes of padding, 4 bytes of pixel data, a 1082-byte file and stored width 2 |
| Converter.BitmapConverter.constructor | bitmapconverter/src/main/java/com/ygoular/bitmapconverter/BitmapConverter.java:49 | a new converter has written nothing and holds no padding |
| Converter.BitmapConverter.Put | bitmapconverter/src/main/java/com/ygoular/bitmapconverter/BitmapConverter.java:139-140 | storing one byte at the position appends it to what was written |
| Converter.BitmapConverter.PutAll | bitmapconverter/src/main/java/com/ygoular/bitmapconverter/BitmapConverter.java:143 | storing a byte array appends its bytes in order |
| Converter.BitmapConverter.CalculateInfoHeaderDataFromFormat | bitmapconverter/src/main/java/com/ygoular/bitmapconverter/BitmapConverter.java:108-115 | sets the colour count, the pixel data offset and the bytes per pixel of the format |
| Converter.BitmapConverter.CalculatePadding | bitmapconverter/src/main/java/com/ygoular/bitmapconverter/BitmapConverter.java:121-131 | the padding becomes `PaddingAfter(old padding, rowWidthInBytes)`, all 0xFF bytes; an aligned row leaves both padding fields untouched |
| Converter.BitmapConverter.WriteFileHeader | bitmapconverter/src/main/java/com/ygoular/bitmapconverter/BitmapConverter.java:137-151 | appends exactly the 14-byte file header of the current sizes |
| Converter.BitmapConverter.WriteInfoHeader | bitmapconverter/src/main/java/com/ygoular/bitmapconverter/BitmapConverter.java:157-188 | appends exactly the 40-byte info header, with the stored width of the padding in use |
| Converter.BitmapConverter.WriteColorTable | bitmapconverter/src/main/java/com/ygoular/bitmapconverter/BitmapConverter.java:194-202 | appends exactly the first `numberOfColors` palette entries |
| Converter.BitmapConverter.WritePixel | bitmapconverter/src/main/java/com/ygoular/bitmapconverter/BitmapConverter.java:232-235 | appends bytePerPixel copies of the pixel's low byte |
| Converter.BitmapConverter.WriteRow | bitmapconverter/src/main/java/com/ygoular/bitmapconverter/BitmapConverter.java:214-217 | appends the pixels first..last-1 and then the padding in use |
| Converter.BitmapConverter.WriteImageData | bitmapconverter/src/main/java/com/ygoular/bitmapconverter/BitmapConverter.java:208-223 | appends exactly the pixel data: rows from last to first, each padded; the loop keeps endPosition = row*width and startPosition = endPosition - width |
| Converter.BitmapConverter.WriteFile | bitmapconverter/src/main/java/com/ygoular/bitmapconverter/BitmapConverter.java:96-99 | appends file header, info header, colour table when there are colours, and pixel data, `fileSize` bytes in all |
| Converter.BitmapConverter.SizeImage | bitmapconverter/src/main/java/com/ygoular/bitmapconverter/BitmapConverter.java:70-88 | sets every size field to its layout value, and the padding to `PaddingAfter(old padding, row width)` |
| Converter.BitmapConverter.Convert | bitmapconverter/src/main/java/com/ygoular/bitmapconverter/BitmapConverter.java:68-102 | needs only the padding invariant, so a converter can be reused whatever its caller did with earlier results; returns a fresh array, distinct from the padding array, exactly filled, equal to `Encode` of the bitmap, the format and the padding the converter holds afterwards |
| Converter.BitmapConverter.ConvertDefault | bitmapconverter/src/main/java/com/ygoular/bitmapconverter/BitmapConverter.java:56-58 | the same as `Convert` in `DefaultFormat`, the 24-bit format of line 28 |

## Left out

- `Bitmap.getPixels` is an Android platform call. The model takes the
  bitmap as its width, its height and its pixels in row-major order from the
  top-left; `Bitmap.Valid` requires a positive width, a positive height and
  a pixel count of width times height, as Android guarantees for every bitmap.
- `java.nio.ByteBuffer` is modelled as a byte array with a write position.
  `ByteBuffer.allocate` becomes a new array of `fileSize` bytes. `put` past the end is
  excluded by preconditions, and `Convert` proves that the writes fill the
  array exactly.
- `Math.pow(2, bits)` is the integer power `Pow2`. The floating-point path is
  not modelled; for 8 bits it is exact.
- Converter.BitmapConverter.Convert: requires the file size to fit in a Java `int` (`Fits`). When it
  does not, the Java products wrap around or `ByteBuffer.allocate` throws;
  neither the wrap-around nor the exception is modelled.
- The Java fields `pixels` and `dummyBytesPerRow` start out null. The
  constructor sets them to an empty sequence and an empty array. Neither is
  read before it is set, because `needPadding` starts out false.
- `WriteRow`, `SizeImage` and `WriteFile` are not separate methods in the
  source. `WriteRow` is the body of the row loop of `writeImageData`.
  `SizeImage` is lines 70-88 of `convert` and `WriteFile` is lines 96-99.
  They are split out so that each proof stays small.
- `pixels = new int[width * height]` followed by `getPixels` becomes one
  assignment of the bitmap's pixels.
- The sample application (`MainActivity`), BMP decoding, compression, other
  bit depths and colour-channel extraction are not modelled, because the
  library does not implement them.
