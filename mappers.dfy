/**
 * The per-pixel mappers of the viewer: luminance grayscale, the 1-bit
 * threshold, the N-bit luminance and per-channel quantisers, and the
 * nearest-colour search over a five-entry palette. Each is a pure
 * function `Color -> Color`, so any of them can be handed to the raster
 * stages and to the ditherer.
 */
module Mappers {
  import opened Pixels
  import opened Arith

  // ---------------------------------------------------------------------
  // Luminance grayscale
  // ---------------------------------------------------------------------

  /**
   * The weighted sum 0.2162 r + 0.7152 g + 0.0722 b, with the weights as exact
   * ten-thousandths, truncated toward zero as the conversion to `unsigned char`
   * does. The weights add up to 1.0036, so the sum never reaches 256.
   */
  function GrayLevel(c: Color): (v: Byte)
  {
    (2162 * c.r + 7152 * c.g + 722 * c.b) / 10000
  }

  /** `convertRGBPixToGrayscale`. */
  function Grayscale(c: Color): (r: Color)
    ensures IsGray(r) && r.a == c.a
    ensures IsGray(c) ==> r == c
  {
    var v := GrayLevel(c);
    Color(v, v, v, c.a)
  }

  /** Converting a pixel twice gives what converting it once gave. */
  lemma GrayscaleIdempotent(c: Color)
    ensures Grayscale(Grayscale(c)) == Grayscale(c)
  {
  }

  // ---------------------------------------------------------------------
  // 1-bit threshold
  // ---------------------------------------------------------------------

  /** `Quantize_Grayscale_1Bit`: only the red channel decides. */
  function OneBit(c: Color): (r: Color)
    ensures r == BLACK || r == WHITE
    ensures r == BLACK <==> c.r < 128
  {
    if c.r < 128 then BLACK else WHITE
  }

  // ---------------------------------------------------------------------
  // N-bit uniform quantisation
  // ---------------------------------------------------------------------

  /** The bit depths the viewer offers (keys 1 to 8). */
  type BitDepth = n: nat | 1 <= n <= 8 witness 1

  function Pow2(n: nat): (p: nat)
    ensures 1 <= p
  {
    if n == 0 then 1 else 2 * Pow2(n - 1)
  }

  lemma {:induction false} Pow2Monotone(m: nat, n: nat)
    requires m <= n
    ensures Pow2(m) <= Pow2(n)
    decreases n
  {
    if m < n {
      Pow2Monotone(m, n - 1);
    }
  }

  /** `(1 << bits) - 1`: the index of the brightest level. */
  function Levels(bits: BitDepth): (l: nat)
    ensures 1 <= l <= 255
  {
    Pow2Monotone(1, bits);
    Pow2Monotone(bits, 8);
    Pow2(bits) - 1
  }

  /**
   * `round(v / 255 * l)` for a channel value v: the index of the nearest level.
   * A half never occurs (2 v l is even, 255 times an odd number is odd), so
   * rounding half away from zero is plain rounding here.
   */
  function LevelIndex(v: Byte, l: nat): (k: nat)
    requires 1 <= l <= 255
    ensures k <= l
  {
    MulMonotone(v, 255, l);
    (2 * (v * l) + 255) / 510
  }

  /** `k / l * 255`, truncated toward zero by the cast to `unsigned char`. */
  function LevelValue(k: nat, l: nat): (q: Byte)
    requires 1 <= l <= 255 && k <= l
  {
    MulMonotone(k, l, 255);
    DivBelow(k * 255, l, 255);
    (k * 255) / l
  }

  /** One channel of the N-bit quantisers. */
  function QuantizeChannel(v: Byte, bits: BitDepth): (q: Byte)
  {
    var l := Levels(bits);
    LevelValue(LevelIndex(v, l), l)
  }

  /** `Quantize_Grayscale_NBit`: quantises the red channel and copies it to all three. */
  function LumaNBit(bits: BitDepth, c: Color): (r: Color)
    ensures IsGray(r) && r.a == c.a
  {
    var q := QuantizeChannel(c.r, bits);
    Color(q, q, q, c.a)
  }

  /** `Quantize_RGB_NBit`: quantises r, g and b independently. */
  function RgbNBit(bits: BitDepth, c: Color): (r: Color)
    ensures r.a == c.a
  {
    Color(QuantizeChannel(c.r, bits), QuantizeChannel(c.g, bits), QuantizeChannel(c.b, bits), c.a)
  }

  /** A channel value the quantiser of this depth can produce. */
  ghost predicate IsLevel(q: int, bits: BitDepth)
  {
    exists k :: 0 <= k <= Levels(bits) && q == LevelValue(k, Levels(bits))
  }

  /** The L + 1 levels are pairwise distinct and run from 0 to 255. */
  lemma LevelsStrictlyIncrease(j: nat, k: nat, l: nat)
    requires 1 <= l <= 255 && j < k <= l
    ensures LevelValue(0, l) == 0 && LevelValue(l, l) == 255
    ensures LevelValue(j, l) < LevelValue(k, l)
  {
    DivExact(255, l);
    var qj: nat, qk: nat := LevelValue(j, l), LevelValue(k, l);
    var rj, rk := (j * 255) % l, (k * 255) % l;
    DivMod(j * 255, l);
    DivMod(k * 255, l);
    assert qj * l + rj == j * 255 && qk * l + rk == k * 255;
    MulMonotone(j + 1, k, 255);
    // qj * l <= 255 j, and qk * l > 255 k - l >= 255 j + 255 - l >= 255 j
    if qk <= qj {
      MulMonotone(qk, qj, l);
      assert false;
    }
  }

  /** Every output channel of both N-bit quantisers is one of the levels. */
  lemma NBitOutputsAreLevels(bits: BitDepth, c: Color)
    ensures IsLevel(RgbNBit(bits, c).r, bits) && IsLevel(RgbNBit(bits, c).g, bits)
    ensures IsLevel(RgbNBit(bits, c).b, bits) && IsLevel(LumaNBit(bits, c).r, bits)
  {
    var l := Levels(bits);
    assert RgbNBit(bits, c).r == LevelValue(LevelIndex(c.r, l), l);
    assert RgbNBit(bits, c).g == LevelValue(LevelIndex(c.g, l), l);
    assert RgbNBit(bits, c).b == LevelValue(LevelIndex(c.b, l), l);
  }

  /** Quantising an already quantised channel leaves it where it is. */
  lemma QuantizeChannelIdempotent(v: Byte, bits: BitDepth)
    ensures QuantizeChannel(QuantizeChannel(v, bits), bits) == QuantizeChannel(v, bits)
  {
    var l := Levels(bits);
    var k := LevelIndex(v, l);
    var q := LevelValue(k, l);
    var rem := (k * 255) % l;
    DivMod(k * 255, l);
    assert q * l + rem == k * 255;
    if l == 255 {
      DivExact(k, 255);
      assert rem == 0;
    } else {
      Pow2Monotone(bits, 7);
      assert l <= 127;
    }
    // 2 q l + 255 == 510 k + 255 - 2 rem lies in [510 k, 510 k + 510)
    assert 0 <= 2 * rem <= 254;
    assert 2 * (q * l) + 255 == 510 * k + 255 - 2 * rem;
    assert LevelIndex(q, l) == k;
  }

  /** Both N-bit mappers are idempotent as pixel mappers. */
  lemma NBitIdempotent(bits: BitDepth, c: Color)
    ensures RgbNBit(bits, RgbNBit(bits, c)) == RgbNBit(bits, c)
    ensures LumaNBit(bits, LumaNBit(bits, c)) == LumaNBit(bits, c)
  {
    QuantizeChannelIdempotent(c.r, bits);
    QuantizeChannelIdempotent(c.g, bits);
    QuantizeChannelIdempotent(c.b, bits);
  }

  /** A brighter channel never quantises to a darker level. */
  lemma QuantizeChannelMonotone(u: Byte, v: Byte, bits: BitDepth)
    requires u <= v
    ensures QuantizeChannel(u, bits) <= QuantizeChannel(v, bits)
  {
    var l := Levels(bits);
    MulMonotone(u, v, l);
    var j, k := LevelIndex(u, l), LevelIndex(v, l);
    assert j <= k;
    if j < k {
      LevelsStrictlyIncrease(j, k, l);
    }
  }

  /**
   * At one bit the luminance quantiser cuts at the same red value as the
   * 1-bit threshold; it only keeps the pixel's alpha where the threshold
   * returns an opaque colour.
   */
  lemma OneBitDepthIsThreshold(c: Color)
    ensures LumaNBit(1, c) == OneBit(c).(a := c.a)
  {
    assert Levels(1) == 1;
  }

  // ---------------------------------------------------------------------
  // Nearest colour from a palette
  // ---------------------------------------------------------------------

  /** The palette of `Quantize_RGB_CustomPalette`, in its order. */
  const Shades: seq<Color> := [BLACK, WHITE, YELLOW, MAGENTA, CYAN]

  /**
   * Squared Euclidean distance over r, g and b; alpha is ignored. The source
   * compares square roots of these integers, which orders them the same way.
   */
  function Dist2(p: Color, c: Color): (d: nat)
  {
    (p.r - c.r) * (p.r - c.r) + (p.g - c.g) * (p.g - c.g) + (p.b - c.b) * (p.b - c.b)
  }

  /**
   * The index the palette loop ends on: the first entry at minimal distance,
   * since a later entry replaces the current one only when strictly closer.
   */
  function NearestIndex(palette: seq<Color>, c: Color): (k: nat)
    requires |palette| > 0
    ensures k < |palette|
    ensures forall j :: 0 <= j < |palette| ==> Dist2(palette[k], c) <= Dist2(palette[j], c)
    ensures forall j :: 0 <= j < k ==> Dist2(palette[k], c) < Dist2(palette[j], c)
    decreases |palette|
  {
    if |palette| == 1 then 0
    else
      var prefix := palette[..|palette| - 1];
      var k := NearestIndex(prefix, c);
      assert forall j :: 0 <= j < |prefix| ==> prefix[j] == palette[j];
      if Dist2(palette[|palette| - 1], c) < Dist2(palette[k], c) then |palette| - 1 else k
  }

  /** The lambda as a mapper: the chosen entry is returned verbatim, alpha included. */
  function CustomPalette(c: Color): (r: Color)
    ensures r in Shades
  {
    Shades[NearestIndex(Shades, c)]
  }

  /** A distance or the `INFINITY` the search starts from. */
  datatype Distance = Infinite | Finite(d: nat)
  {
    predicate Above(d': nat)
    {
      Infinite? || d' < d
    }
  }

  /**
   * The loop of `Quantize_RGB_CustomPalette` over any non-empty palette:
   * `fClosest` starts at infinity and the entry is replaced only on a strictly
   * smaller distance.
   */
  method NearestColor(palette: seq<Color>, pix: Color) returns (closest: Color)
    requires |palette| > 0
    ensures closest == palette[NearestIndex(palette, pix)]
    ensures closest in palette
    ensures forall j :: 0 <= j < |palette| ==> Dist2(closest, pix) <= Dist2(palette[j], pix)
  {
    var fClosest := Infinite;
    // the source leaves `pClosest` unset; the first iteration always overwrites it
    closest := palette[0];
    var i := 0;
    while i < |palette|
      invariant 0 <= i <= |palette|
      invariant i == 0 <==> fClosest == Infinite
      invariant 0 < i ==> closest == palette[NearestIndex(palette[..i], pix)]
      invariant 0 < i ==> fClosest == Finite(Dist2(closest, pix))
    {
      var c := palette[i];
      var fDistance := Dist2(c, pix);
      assert palette[..i + 1][..i] == palette[..i];
      if fClosest.Above(fDistance) {
        fClosest := Finite(fDistance);
        closest := c;
      }
      i := i + 1;
    }
    assert palette[..i] == palette;
  }
}
