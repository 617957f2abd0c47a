/**
 The greyscale pass of `GreyscaleConverter.convertToGreyscale`: a loop that
 steps through the byte array four bytes at a time, computes one grey value
 from the pixel's red, green and blue bytes, and writes it back into those
 three bytes, leaving alpha alone.

 The model follows JavaScript's typed-array semantics for every buffer length:
 a read past the end yields `undefined` (so the grey value becomes NaN), a NaN
 stored into a `Uint8ClampedArray` becomes 0, and a write past the end is
 dropped. Buffers from `getImageData` always have a length that is a multiple
 of four; the lemmas at the end state the clean per-pixel result for those.
 */
module Greyscale {
  import opened Wrappers
  import opened Pixels

  /** The grey value of one iteration: a byte, or None for NaN. */
  type Grey = Option<Byte>

  /** Indexing a typed array: `undefined` past the end. */
  function Read(buf: Buffer, j: nat): (v: Option<Byte>)
    ensures v.Some? <==> j < |buf|
    ensures v.Some? ==> v.value == buf[j]
  {
    if j < |buf| then Some(buf[j]) else None
  }

  /**
   The grey value computed at pixel start `i` from the three colour reads;
   NaN as soon as one read is `undefined`.
   */
  function Sample(lum: Luminance, buf: Buffer, i: nat): (g: Grey)
    ensures g.Some? <==> i + 2 < |buf|
    ensures g.Some? ==> g.value == lum(buf[i], buf[i + 1], buf[i + 2])
  {
    match (Read(buf, i), Read(buf, i + 1), Read(buf, i + 2))
    case (Some(r), Some(g), Some(b)) => Some(lum(r, g, b))
    case _ => None
  }

  /** The byte a `Uint8ClampedArray` keeps when a grey value is stored: NaN becomes 0. */
  function Stored(g: Grey): Byte
  {
    match g
    case Some(b) => b
    case None => 0
  }

  /** Storing into a typed array: index `j` changes when it is in range, nothing else ever does. */
  function Write(buf: Buffer, j: nat, g: Grey): (r: Buffer)
    ensures |r| == |buf|
    ensures forall k :: 0 <= k < |buf| ==> r[k] == (if k == j then Stored(g) else buf[k])
  {
    if j < |buf| then buf[j := Stored(g)] else buf
  }

  /**
   The value byte `c` (0 red, 1 green, 2 blue, 3 alpha) of pixel `p` holds
   after the whole pass: alpha keeps its value; a colour byte takes the
   luminance of the pixel's original colours when all three exist, and 0
   otherwise.
   */
  function ByteAfter(lum: Luminance, a: Buffer, p: nat, c: nat): Byte
    requires c < 4 && 4 * p + c < |a|
  {
    if c == 3 then a[4 * p + 3]
    else if 4 * p + 2 < |a| then lum(a[4 * p], a[4 * p + 1], a[4 * p + 2])
    else 0
  }

  /** The same, for byte index `k` of the buffer. */
  function GreyAt(lum: Luminance, a: Buffer, k: nat): Byte
    requires k < |a|
  {
    ByteAfter(lum, a, k / 4, k % 4)
  }

  /** What the pass leaves of a trailing run of fewer than four bytes. */
  function GreyTail(lum: Luminance, a: Buffer): (r: Buffer)
    requires |a| < 4
    ensures |r| == |a|
  {
    if |a| == 3 then
      var grey := lum(a[0], a[1], a[2]);
      [grey, grey, grey]
    else if |a| == 2 then [0, 0]
    else if |a| == 1 then [0]
    else []
  }

  /** The bytes of one pixel. */
  function Bytes(px: Rgba): Buffer
  {
    [px.red, px.green, px.blue, px.alpha]
  }

  /** The pass as a function: the buffer converted one pixel at a time, front to back. */
  function Greyscale(lum: Luminance, a: Buffer): (r: Buffer)
    ensures |r| == |a|
    decreases |a|
  {
    if |a| < 4 then GreyTail(lum, a)
    else Bytes(GreyPixel(lum, Rgba(a[0], a[1], a[2], a[3]))) + Greyscale(lum, a[4..])
  }

  /** The pixel-by-pixel function and the per-pixel description agree on every byte. */
  lemma {:induction false} ByteAfterPass(lum: Luminance, a: Buffer, p: nat, c: nat)
    requires c < 4 && 4 * p + c < |a|
    ensures Greyscale(lum, a)[4 * p + c] == ByteAfter(lum, a, p, c)
    decreases p
  {
    if p > 0 {
      ByteAfterPass(lum, a[4..], p - 1, c);
    }
  }

  /** The pixel-by-pixel function and the per-index description agree everywhere. */
  lemma {:induction false} GreyscaleAt(lum: Luminance, a: Buffer)
    ensures forall k :: 0 <= k < |a| ==> Greyscale(lum, a)[k] == GreyAt(lum, a, k)
  {
    forall k | 0 <= k < |a|
      ensures Greyscale(lum, a)[k] == GreyAt(lum, a, k)
    {
      ByteAfterPass(lum, a, k / 4, k % 4);
    }
  }

  /**
   The loop of `convertToGreyscale` on a buffer value. `visited` lists the
   pixel start index of every iteration, in the order the loop runs them.
   */
  method ConvertToGreyscale(lum: Luminance, data: Buffer) returns (out: Buffer, visited: seq<nat>)
    ensures out == Greyscale(lum, data)
    ensures |visited| == (|data| + 3) / 4
    ensures forall j :: 0 <= j < |visited| ==> visited[j] == 4 * j
  {
    out := data;
    visited := [];
    var i := 0;
    while i < |out|
      invariant |out| == |data|
      invariant i == 4 * |visited| && i <= |data| + 3
      invariant forall j :: 0 <= j < |visited| ==> visited[j] == 4 * j
      invariant forall q, c :: 0 <= q < |visited| && 0 <= c < 4 && 4 * q + c < |data| ==>
                  out[4 * q + c] == ByteAfter(lum, data, q, c)
      invariant forall k :: i <= k < |data| ==> out[k] == data[k]
    {
      var grey := Sample(lum, out, i);
      out := Write(out, i, grey);
      out := Write(out, i + 1, grey);
      out := Write(out, i + 2, grey);
      visited := visited + [i];
      i := i + 4;
    }
    forall k | 0 <= k < |data|
      ensures out[k] == Greyscale(lum, data)[k]
    {
      ByteAfterPass(lum, data, k / 4, k % 4);
    }
  }

  /** The same loop mutating the byte array in place, as `convertToGreyscale` does. */
  method ConvertInPlace(lum: Luminance, data: array<Byte>)
    modifies data
    ensures data[..] == Greyscale(lum, old(data[..]))
  {
    ghost var orig := data[..];
    ghost var n := 0;
    var i := 0;
    while i < data.Length
      invariant i == 4 * n && i <= data.Length + 3
      invariant forall q, c :: 0 <= q < n && 0 <= c < 4 && 4 * q + c < data.Length ==>
                  data[4 * q + c] == ByteAfter(lum, orig, q, c)
      invariant forall k :: i <= k < data.Length ==> data[k] == orig[k]
    {
      var grey := Sample(lum, data[..], i);
      data[i] := Stored(grey);
      if i + 1 < data.Length {
        data[i + 1] := Stored(grey);
      }
      if i + 2 < data.Length {
        data[i + 2] := Stored(grey);
      }
      i := i + 4;
      n := n + 1;
    }
    forall k | 0 <= k < data.Length
      ensures data[k] == Greyscale(lum, orig)[k]
    {
      ByteAfterPass(lum, orig, k / 4, k % 4);
    }
  }

  /** No alpha byte (index 3 modulo 4) is ever changed, whatever the buffer length. */
  lemma {:induction false} AlphaUnchanged(lum: Luminance, a: Buffer)
    ensures forall k :: 0 <= k < |a| && k % 4 == 3 ==> Greyscale(lum, a)[k] == a[k]
  {
    GreyscaleAt(lum, a);
  }

  /**
   On a well-formed buffer every pixel becomes the grey pixel of its own
   original colours: red, green and blue all equal the one luminance value,
   alpha is kept.
   */
  lemma {:induction false} PixelsBecomeGrey(lum: Luminance, a: Buffer)
    requires |a| % 4 == 0
    ensures PixelCount(Greyscale(lum, a)) == PixelCount(a)
    ensures forall p :: 0 <= p < PixelCount(a) ==>
              PixelAt(Greyscale(lum, a), p) == GreyPixel(lum, PixelAt(a, p))
    ensures forall p :: 0 <= p < PixelCount(a) ==> IsGrey(PixelAt(Greyscale(lum, a), p))
  {
    forall p | 0 <= p < PixelCount(a)
      ensures PixelAt(Greyscale(lum, a), p) == GreyPixel(lum, PixelAt(a, p))
    {
      ByteAfterPass(lum, a, p, 0);
      ByteAfterPass(lum, a, p, 1);
      ByteAfterPass(lum, a, p, 2);
      ByteAfterPass(lum, a, p, 3);
    }
  }

  /**
   A trailing partial pixel of one or two bytes has its colour bytes stored
   as 0 (the grey value is NaN); one of three bytes is converted normally.
   */
  lemma {:induction false} PartialPixel(lum: Luminance, a: Buffer)
    requires |a| % 4 != 0
    ensures var start := |a| - |a| % 4;
            |a| % 4 < 3 ==> forall k :: start <= k < |a| ==> Greyscale(lum, a)[k] == 0
    ensures var start := |a| - |a| % 4;
            |a| % 4 == 3 ==> forall k :: start <= k < |a| ==>
              Greyscale(lum, a)[k] == lum(a[start], a[start + 1], a[start + 2])
  {
    var start := |a| - |a| % 4;
    forall k | start <= k < |a|
      ensures Greyscale(lum, a)[k]
              == if start + 2 < |a| then lum(a[start], a[start + 1], a[start + 2]) else 0
    {
      assert start == 4 * (|a| / 4);
      ByteAfterPass(lum, a, |a| / 4, k - start);
    }
  }

  /**
   The colours of a pixel after the pass depend on nothing but that pixel's
   original red, green and blue bytes: two buffers that agree there agree
   on the result there, whatever the other bytes are.
   */
  lemma PixelDependsOnlyOnItsColours(lum: Luminance, a: Buffer, b: Buffer, p: nat)
    requires p < PixelCount(a) && p < PixelCount(b)
    requires PixelAt(a, p).red == PixelAt(b, p).red
    requires PixelAt(a, p).green == PixelAt(b, p).green
    requires PixelAt(a, p).blue == PixelAt(b, p).blue
    ensures Greyscale(lum, a)[4 * p] == Greyscale(lum, b)[4 * p]
    ensures Greyscale(lum, a)[4 * p + 1] == Greyscale(lum, b)[4 * p + 1]
    ensures Greyscale(lum, a)[4 * p + 2] == Greyscale(lum, b)[4 * p + 2]
  {
    ByteAfterPass(lum, a, p, 0);
    ByteAfterPass(lum, a, p, 1);
    ByteAfterPass(lum, a, p, 2);
    ByteAfterPass(lum, b, p, 0);
    ByteAfterPass(lum, b, p, 1);
    ByteAfterPass(lum, b, p, 2);
  }

  /**
   Converting a buffer made of two pieces, the first ending on a pixel
   boundary, converts each piece on its own: no pixel's bytes reach across
   into another pixel.
   */
  lemma {:induction false} ConvertPiecewise(lum: Luminance, a: Buffer, b: Buffer)
    requires |a| % 4 == 0
    ensures Greyscale(lum, a + b) == Greyscale(lum, a) + Greyscale(lum, b)
    decreases |a|
  {
    if |a| == 0 {
      assert a + b == b;
    } else {
      assert (a + b)[4..] == a[4..] + b;
      ConvertPiecewise(lum, a[4..], b);
    }
  }

  /**
   When the luminance maps every grey colour to itself, a second pass
   changes nothing.
   */
  lemma {:induction false} Idempotent(lum: Luminance, a: Buffer)
    requires FixesGrey(lum)
    ensures Greyscale(lum, Greyscale(lum, a)) == Greyscale(lum, a)
  {
    var once := Greyscale(lum, a);
    forall k | 0 <= k < |a|
      ensures Greyscale(lum, once)[k] == once[k]
    {
      var p, c := k / 4, k % 4;
      ByteAfterPass(lum, a, p, c);
      ByteAfterPass(lum, once, p, c);
      if c < 3 && 4 * p + 2 < |a| {
        ByteAfterPass(lum, a, p, 0);
        ByteAfterPass(lum, a, p, 1);
        ByteAfterPass(lum, a, p, 2);
      }
    }
  }
}
