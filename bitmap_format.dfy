/**
 * The output formats a bitmap can be converted to. Each carries its bit count,
 * fixed when the constant is declared and never changed; 16-bit and 32-bit
 * formats are not supported.
 */
module BitmapFormat {

  datatype Format = Bitmap8BitColor | Bitmap24BitColor {

    /** `getValue`: the number of bits that encode one pixel. */
    function Value(): (bits: int)
      ensures bits % 8 == 0
      ensures 8 <= bits <= 24
      ensures bits <= 8 <==> this == Bitmap8BitColor
    {
      match this
      case Bitmap8BitColor => 8
      case Bitmap24BitColor => 24
    }
  }

  /** The bit count identifies the format: no two constants share one. */
  lemma ValueIdentifiesFormat(f: Format, g: Format)
    ensures f.Value() == g.Value() <==> f == g
  {
  }

  /**
   * The 8-bit format carries 8 and the 24-bit one 24; dividing by 8 is exact
   * and gives 1 or 3 bytes per pixel.
   */
  lemma WholeBytesPerPixel(f: Format)
    ensures f.Value() == (if f == Bitmap8BitColor then 8 else 24)
    ensures (f.Value() / 8) * 8 == f.Value()
    ensures f.Value() / 8 == (if f == Bitmap8BitColor then 1 else 3)
  {
  }
}
