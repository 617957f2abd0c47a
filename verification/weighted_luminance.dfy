/**
 One concrete luminance: a weighted sum of the red, green and blue bytes
 with three non-negative coefficients, stored into a `Uint8ClampedArray`.

 `GreyscaleConverter` takes its coefficients from `utils/constants`, which is
 not part of this model, so they are a parameter here. The sum is computed exactly
 over `real`; a stored value is converted the way the ToUint8Clamp operation
 of the ECMAScript specification converts a number: clamp to 0..255, then
 round to the nearest integer, ties to even.
 */
module WeightedLuminance {
  import opened Pixels
  import Greyscale

  /** The three luminance weights. */
  datatype Coefficients = Coefficients(red: real, green: real, blue: real)

  /** Non-negative weights that sum to one. */
  predicate Normalised(c: Coefficients)
  {
    0.0 <= c.red && 0.0 <= c.green && 0.0 <= c.blue && c.red + c.green + c.blue == 1.0
  }

  /** The conversion of a stored number into a clamped byte. */
  function ToUint8Clamp(x: real): (r: Byte)
    ensures x <= 0.0 ==> r == 0
    ensures 255.0 <= x ==> r == 255
    ensures 0.0 <= x <= 255.0 ==> -0.5 <= r as real - x <= 0.5
    ensures 0.0 <= x <= 255.0 && (r as real - x == 0.5 || x - r as real == 0.5) ==> r % 2 == 0
  {
    if x <= 0.0 then 0
    else if 255.0 <= x then 255
    else
      var f := x.Floor;
      if f as real + 0.5 < x then f + 1
      else if x < f as real + 0.5 then f
      else if f % 2 == 0 then f
      else f + 1
  }

  /**
   The grey value before the store: the weighted sum of the three colours.
   With normalised coefficients it already lies in 0..255, so the clamp of
   the store never engages, and a grey colour sums to its own level.
   */
  function WeightedSum(c: Coefficients, r: Byte, g: Byte, b: Byte): (s: real)
    ensures Normalised(c) ==> 0.0 <= s <= 255.0
    ensures Normalised(c) && r == g == b ==> s == r as real
  {
    var x, y, z := r as real, g as real, b as real;
    if Normalised(c) then
      ConvexLower(x, y, z, c.red, c.green, c.blue);
      ConvexUpper(x, y, z, c.red, c.green, c.blue);
      ConvexOfEqual(x, c.red, c.green, c.blue);
      x * c.red + y * c.green + z * c.blue
    else
      x * c.red + y * c.green + z * c.blue
  }

  /**
   The luminance of `convertToGreyscale` for coefficients `c`: the weighted
   sum, stored. With normalised coefficients it maps every grey colour to
   its own level.
   */
  function Weighted(c: Coefficients): (lum: Luminance)
    ensures Normalised(c) ==> FixesGrey(lum)
  {
    var lum := (r: Byte, g: Byte, b: Byte) => ToUint8Clamp(WeightedSum(c, r, g, b));
    assert Normalised(c) ==> FixesGrey(lum) by {
      if Normalised(c) {
        forall v: Byte
          ensures lum(v, v, v) == v
        {
          StoreWholeNumber(v);
        }
      }
    }
    lum
  }

  /** Storing a whole number in range keeps it. */
  lemma StoreWholeNumber(v: Byte)
    ensures ToUint8Clamp(v as real) == v
  {
    assert (v as real).Floor == v;
  }

  /** A non-negatively weighted sum of non-negative terms is non-negative. */
  lemma ConvexLower(x: real, y: real, z: real, wr: real, wg: real, wb: real)
    requires 0.0 <= x && 0.0 <= y && 0.0 <= z
    requires 0.0 <= wr && 0.0 <= wg && 0.0 <= wb
    ensures 0.0 <= x * wr + y * wg + z * wb
  {
    NonNegProduct(x, wr);
    NonNegProduct(y, wg);
    NonNegProduct(z, wb);
  }

  /** A weighted sum with weights summing to one of terms up to 255 is at most 255. */
  lemma ConvexUpper(x: real, y: real, z: real, wr: real, wg: real, wb: real)
    requires x <= 255.0 && y <= 255.0 && z <= 255.0
    requires 0.0 <= wr && 0.0 <= wg && 0.0 <= wb && wr + wg + wb == 1.0
    ensures x * wr + y * wg + z * wb <= 255.0
  {
    NonNegProduct(255.0 - x, wr);
    NonNegProduct(255.0 - y, wg);
    NonNegProduct(255.0 - z, wb);
    assert 255.0 - (x * wr + y * wg + z * wb)
        == (255.0 - x) * wr + (255.0 - y) * wg + (255.0 - z) * wb;
  }

  /** The product of two non-negative reals is non-negative. */
  lemma NonNegProduct(x: real, y: real)
    requires 0.0 <= x && 0.0 <= y
    ensures 0.0 <= x * y
  {
  }

  /** Weights summing to one average three equal terms to that term. */
  lemma ConvexOfEqual(x: real, wr: real, wg: real, wb: real)
    requires wr + wg + wb == 1.0
    ensures x * wr + x * wg + x * wb == x
  {
    assert x * wr + x * wg + x * wb == x * (wr + wg + wb);
  }

  /** With normalised coefficients converting an already converted buffer changes nothing. */
  lemma {:induction false} WeightedIdempotent(c: Coefficients, a: Buffer)
    requires Normalised(c)
    ensures Greyscale.Greyscale(Weighted(c), Greyscale.Greyscale(Weighted(c), a))
            == Greyscale.Greyscale(Weighted(c), a)
  {
    Greyscale.Idempotent(Weighted(c), a);
  }

  /** The ITU-R BT.601 weights, used for the worked examples below. */
  const Rec601: Coefficients := Coefficients(0.299, 0.587, 0.114)

  /**
   Worked examples with the BT.601 weights: pure red becomes 76
   (255 * 0.299 = 76.245), black stays 0, white stays 255.
   */
  lemma Rec601Examples()
    ensures Normalised(Rec601)
    ensures Weighted(Rec601)(255, 0, 0) == 76
    ensures Weighted(Rec601)(0, 0, 0) == 0
    ensures Weighted(Rec601)(255, 255, 255) == 255
  {
    assert WeightedSum(Rec601, 255, 0, 0) == 76.245;
    assert 76.245.Floor == 76;
    assert WeightedSum(Rec601, 255, 255, 255) == 255.0;
  }
}
