/**
 * The colour-packing macros of the public app header. A colour is a 32-bit
 * value; NK_COLOR_RGBA_UINT puts red in the lowest byte and alpha in the
 * highest, and NK_COLOR_UINT turns a 0xRRGGBBAA literal into that layout by
 * reversing the four bytes.
 */
module Colors {
  /** Byte k of c, counted from the least significant. */
  function Byte(c: bv32, k: nat): bv32
    requires k < 4
  {
    if k == 0 then c & 0xff
    else if k == 1 then (c >> 8) & 0xff
    else if k == 2 then (c >> 16) & 0xff
    else c >> 24
  }

  /** NK_COLOR_UINT: byte k of the result is byte 3 - k of the argument. */
  function ColorUint(c: bv32): (r: bv32)
    ensures Byte(r, 0) == Byte(c, 3) && Byte(r, 1) == Byte(c, 2)
    ensures Byte(r, 2) == Byte(c, 1) && Byte(r, 3) == Byte(c, 0)
  {
    ((c & 0xff) << 24) | (((c >> 8) & 0xff) << 16) | (((c >> 16) & 0xff) << 8) | (c >> 24)
  }

  /** A value is determined by its four bytes. */
  lemma BytesDetermine(c: bv32, d: bv32)
    requires Byte(c, 0) == Byte(d, 0) && Byte(c, 1) == Byte(d, 1)
    requires Byte(c, 2) == Byte(d, 2) && Byte(c, 3) == Byte(d, 3)
    ensures c == d
  {
  }

  /** Reversing the bytes twice gives the original colour back. */
  lemma ColorUintInvolution(c: bv32)
    ensures ColorUint(ColorUint(c)) == c
  {
    BytesDetermine(ColorUint(ColorUint(c)), c);
  }

  /**
   * NK_COLOR_RGBA_UINT: r | g << 8 | b << 16 | a << 24 on 32-bit values (bits
   * shifted past bit 31 are lost). When every channel fits in a byte, each
   * channel lands in its own byte.
   */
  function RgbaUint(r: bv32, g: bv32, b: bv32, a: bv32): (c: bv32)
    ensures r < 0x100 && g < 0x100 && b < 0x100 && a < 0x100 ==>
      Byte(c, 0) == r && Byte(c, 1) == g && Byte(c, 2) == b && Byte(c, 3) == a
  {
    r | (g << 8) | (b << 16) | (a << 24)
  }

  /** NK_COLOR_RGB_UINT: an opaque colour. */
  function RgbUint(r: bv32, g: bv32, b: bv32): (c: bv32)
    ensures Byte(c, 3) == 0xff
  {
    RgbaUint(r, g, b, 0xff)
  }

  /** A 0xRRGGBBAA literal passed through NK_COLOR_UINT is the colour with those channels. */
  lemma ColorUintOfLiteral(c: bv32)
    ensures ColorUint(c) == RgbaUint(Byte(c, 3), Byte(c, 2), Byte(c, 1), Byte(c, 0))
  {
    BytesDetermine(ColorUint(c), RgbaUint(Byte(c, 3), Byte(c, 2), Byte(c, 1), Byte(c, 0)));
  }

  /** Packing is one-to-one on byte-sized channels: the channels can be read back. */
  lemma RgbaUintInjective(r: bv32, g: bv32, b: bv32, a: bv32, r': bv32, g': bv32, b': bv32, a': bv32)
    requires r < 0x100 && g < 0x100 && b < 0x100 && a < 0x100
    requires r' < 0x100 && g' < 0x100 && b' < 0x100 && a' < 0x100
    requires RgbaUint(r, g, b, a) == RgbaUint(r', g', b', a')
    ensures r == r' && g == g' && b == b' && a == a'
  {
  }

  /** The white used for untinted images: 0xffffffff. */
  lemma WhiteIsAllOnes()
    ensures ColorUint(0xffffffff) == 0xffffffff && RgbaUint(0xff, 0xff, 0xff, 0xff) == 0xffffffff
  {
  }
}
