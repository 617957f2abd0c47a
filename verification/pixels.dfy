/**
 The RGBA pixel buffer the greyscale pass works on: the `data` array of a
 canvas `ImageData`, a flat run of bytes laid out as repeating
 (red, green, blue, alpha) quadruples in row-major order.
 */
module Pixels {

  /** One element of a `Uint8ClampedArray`. */
  type Byte = x: int | 0 <= x < 256

  /** The flat byte store of an image. */
  type Buffer = seq<Byte>

  /** One pixel, as four consecutive bytes of a buffer. */
  datatype Rgba = Rgba(red: Byte, green: Byte, blue: Byte, alpha: Byte)

  /**
   The grey value a pixel's red, green and blue bytes turn into: the weighted
   luminance sum followed by the clamped store into the byte array. The
   weights are a parameter of the model; see module Luminance for one instance.
   */
  type Luminance = (Byte, Byte, Byte) -> Byte

  /** The number of complete pixels in a buffer. */
  function PixelCount(buf: Buffer): nat
  {
    |buf| / 4
  }

  /** Pixel `p` (the bytes at 4p .. 4p+3). */
  function PixelAt(buf: Buffer, p: nat): Rgba
    requires p < PixelCount(buf)
  {
    Rgba(buf[4 * p], buf[4 * p + 1], buf[4 * p + 2], buf[4 * p + 3])
  }

  /** A pixel whose three colour channels agree. */
  predicate IsGrey(px: Rgba)
  {
    px.red == px.green == px.blue
  }

  /** The pixel a greyscale conversion makes of `px`: one grey value in all three colours, alpha kept. */
  function GreyPixel(lum: Luminance, px: Rgba): Rgba
  {
    var grey := lum(px.red, px.green, px.blue);
    Rgba(grey, grey, grey, px.alpha)
  }

  /** A luminance that maps every grey colour to its own level. */
  predicate FixesGrey(lum: Luminance)
  {
    forall v: Byte :: lum(v, v, v) == v
  }
}
