/**
 * What the ditherer guarantees: which cells one visit
 * may change and how, that a visited pixel is final, that alpha is never
 * diffused, how much error leaves a pixel, and what the output looks like
 * for mappers with a known range.
 */
module DitherProperties {
  import opened Pixels
  import opened Mappers
  import opened Raster
  import opened Dither

  // ---------------------------------------------------------------------
  // One visit
  // ---------------------------------------------------------------------

  /**
   * The cell that `updatePixel` with offset (dRow, dCol) writes when visiting
   * (row, col), or -1 when that neighbour lies outside the raster and is
   * skipped: there is no wrap-around to another row or the other edge.
   */
  function Target(width: nat, height: nat, row: nat, col: nat, dRow: int, dCol: int): (t: int)
    requires row < height && col < width
    ensures -1 <= t < width * height
  {
    var nRow, nCol := row + dRow, col + dCol;
    if 0 <= nRow < height && 0 <= nCol < width then Idx(nRow, nCol, width, height) else -1
  }

  /** The weight with which the visit of (row, col) diffuses into cell p; 0 for no neighbour. */
  function TargetWeight(width: nat, height: nat, row: nat, col: nat, p: nat): (w: nat)
    requires row < height && col < width
  {
    if p == Target(width, height, row, col, 0, 1) then 7
    else if p == Target(width, height, row, col, 1, -1) then 3
    else if p == Target(width, height, row, col, 1, 0) then 5
    else if p == Target(width, height, row, col, 1, 1) then 1
    else 0
  }

  /** One `updatePixel` call nudges its target, if there is one, and nothing else. */
  lemma DiffuseEffect(s: seq<Color>, width: nat, height: nat, row: nat, col: nat,
                      dRow: int, dCol: int, e: ChannelError, weight: nat)
    requires |s| == width * height && row < height && col < width
    ensures var r := Diffuse(s, width, height, row, col, dRow, dCol, e, weight);
            |r| == |s| &&
            forall p :: 0 <= p < |s| ==>
              r[p] == if p == Target(width, height, row, col, dRow, dCol) then Nudge(s[p], e, weight) else s[p]
  {
  }

  /**
   * The four neighbours of a visit are distinct cells, all later than the
   * visited one in row-major order and at most one row further on.
   */
  lemma TargetsAhead(width: nat, height: nat, row: nat, col: nat)
    requires row < height && col < width
    ensures var pos := Idx(row, col, width, height);
            var t1, t2, t3, t4 := Target(width, height, row, col, 0, 1), Target(width, height, row, col, 1, -1),
                                  Target(width, height, row, col, 1, 0), Target(width, height, row, col, 1, 1);
            && (t1 == -1 || pos < t1 <= RowStart(row + 1, width) + col + 1)
            && (t2 == -1 || pos < t2 <= RowStart(row + 1, width) + col + 1)
            && (t3 == -1 || pos < t3 <= RowStart(row + 1, width) + col + 1)
            && (t4 == -1 || pos < t4 <= RowStart(row + 1, width) + col + 1)
            && (t1 == -1 || (t1 != t2 && t1 != t3 && t1 != t4))
            && (t2 == -1 || (t2 != t3 && t2 != t4))
            && (t3 == -1 || t3 != t4)
  {
    assert RowStart(row + 1, width) == RowStart(row, width) + width;
  }

  /**
   * A visit writes the mapper's image of the working value into its own cell,
   * nudges each in-raster neighbour once by its share of the error (with
   * alpha kept), and leaves every other cell alone. All targets come later in
   * row-major order and lie at most one row below.
   */
  lemma ProcessPixelEffect(s: seq<Color>, width: nat, height: nat, f: Color -> Color, row: nat, col: nat)
    requires |s| == width * height && row < height && col < width
    ensures var pos := Idx(row, col, width, height);
            var r := ProcessPixel(s, width, height, f, row, col);
            && r[pos] == f(s[pos])
            && (forall p :: 0 <= p < |s| && p != pos ==>
                  r[p] == if TargetWeight(width, height, row, col, p) == 0 then s[p]
                          else Nudge(s[p], QuantError(s[pos], f(s[pos])), TargetWeight(width, height, row, col, p)))
    ensures forall p: nat :: TargetWeight(width, height, row, col, p) > 0 ==>
              Idx(row, col, width, height) < p <= RowStart(row + 1, width) + col + 1
  {
    var pos := Idx(row, col, width, height);
    var qp := f(s[pos]);
    var s0 := s[pos := qp];
    KernelEffect(s0, width, height, row, col, QuantError(s[pos], qp));
    TargetsAhead(width, height, row, col);
  }

  /** The four kernel taps together nudge each cell by its weight, if it has one. */
  lemma KernelEffect(s: seq<Color>, width: nat, height: nat, row: nat, col: nat, e: ChannelError)
    requires |s| == width * height && row < height && col < width
    ensures var r := Taps(s, width, height, row, col, e, |Kernel|);
            forall p :: 0 <= p < |s| ==>
              r[p] == if TargetWeight(width, height, row, col, p) == 0 then s[p]
                      else Nudge(s[p], e, TargetWeight(width, height, row, col, p))
  {
    DiffuseEffect(Taps(s, width, height, row, col, e, 0), width, height, row, col, 0, 1, e, 7);
    DiffuseEffect(Taps(s, width, height, row, col, e, 1), width, height, row, col, 1, -1, e, 3);
    DiffuseEffect(Taps(s, width, height, row, col, e, 2), width, height, row, col, 1, 0, e, 5);
    DiffuseEffect(Taps(s, width, height, row, col, e, 3), width, height, row, col, 1, 1, e, 1);
    TargetsAhead(width, height, row, col);
  }

  /** The four weights make sixteen sixteenths, and only the right neighbour is on the same row. */
  lemma KernelWeightsSumToOne()
    ensures Kernel[0].weight + Kernel[1].weight + Kernel[2].weight + Kernel[3].weight == 16
    ensures Kernel[0].dRow == 0 && Kernel[1].dRow == Kernel[2].dRow == Kernel[3].dRow == 1
  {
  }

  /**
   * The four truncated shares of an error never exceed it and never flip its
   * sign, and truncation loses less than one unit per share: the four shares
   * add up to all of the error but at most 3 (saturation at the neighbours
   * can then drop more).
   */
  lemma NoErrorAmplification(e: int)
    ensures var total := Share(e, 7) + Share(e, 3) + Share(e, 5) + Share(e, 1);
            && (0 <= e ==> e - 3 <= total <= e)
            && (e < 0 ==> e <= total <= e + 3)
  {
    var s7, s3, s5, s1 := Share(e, 7), Share(e, 3), Share(e, 5), Share(e, 1);
    assert 16 * s7 <= 7 * e < 16 * s7 + 16 || 16 * s7 - 16 < 7 * e <= 16 * s7;
  }

  /**
   * Truncation toward zero treats a surplus and a deficit alike: the share
   * of -e is minus the share of e, which flooring division would not give.
   */
  lemma ShareIsOdd(e: int, weight: nat)
    ensures Share(-e, weight) == -Share(e, weight)
  {
    if e * weight < 0 {
      assert (-e) * weight == -(e * weight);
    } else if e * weight > 0 {
      assert (-e) * weight == -(e * weight);
    }
  }

  // ---------------------------------------------------------------------
  // Visited cells are final
  // ---------------------------------------------------------------------

  lemma ProcessPixelKeepsEarlier(s: seq<Color>, width: nat, height: nat, f: Color -> Color, row: nat, col: nat)
    requires |s| == width * height && row < height && col < width
    ensures forall p :: 0 <= p < Idx(row, col, width, height) ==> ProcessPixel(s, width, height, f, row, col)[p] == s[p]
  {
    ProcessPixelEffect(s, width, height, f, row, col);
  }

  lemma {:induction false} ColsDoneKeepsEarlier(s: seq<Color>, width: nat, height: nat, f: Color -> Color,
                                                row: nat, c1: nat, c2: nat)
    requires |s| == width * height && row < height && c1 <= c2 <= width
    ensures forall p :: 0 <= p < |s| && p < RowStart(row, width) + c1 ==>
              ColsDone(s, width, height, f, row, c2)[p] == ColsDone(s, width, height, f, row, c1)[p]
    decreases c2
  {
    if c1 < c2 {
      var prev := ColsDone(s, width, height, f, row, c2 - 1);
      ColsDoneKeepsEarlier(s, width, height, f, row, c1, c2 - 1);
      ProcessPixelKeepsEarlier(prev, width, height, f, row, c2 - 1);
      assert RowStart(row, width) + c1 <= Idx(row, c2 - 1, width, height);
    }
  }

  lemma {:induction false} RowsDoneKeepsEarlier(src: seq<Color>, width: nat, height: nat, f: Color -> Color,
                                                r1: nat, r2: nat)
    requires |src| == width * height && r1 <= r2 <= height
    ensures forall p :: 0 <= p < |src| && p < RowStart(r1, width) ==>
              RowsDone(src, width, height, f, r2)[p] == RowsDone(src, width, height, f, r1)[p]
    decreases r2
  {
    if r1 < r2 {
      RowsDoneKeepsEarlier(src, width, height, f, r1, r2 - 1);
      RowStartIncreases(r1, r2, width);
      ColsDoneKeepsEarlier(RowsDone(src, width, height, f, r2 - 1), width, height, f, r2 - 1, 0, width);
    }
  }

  /**
   * A finalised pixel is never modified again: every cell before (row, col)
   * in row-major order already holds its value in the final output.
   */
  lemma FinalisedNeverTouched(src: seq<Color>, width: nat, height: nat, f: Color -> Color, row: nat, col: nat)
    requires |src| == width * height && row < height && col <= width
    ensures forall p :: 0 <= p < |src| && p < RowStart(row, width) + col ==>
              Before(src, width, height, f, row, col)[p] == Dithered(src, width, height, f)[p]
  {
    ColsDoneKeepsEarlier(RowsDone(src, width, height, f, row), width, height, f, row, col, width);
    RowsDoneKeepsEarlier(src, width, height, f, row + 1, height);
  }

  /**
   * Each output pixel is the mapper applied to the working value its cell held
   * when the walk reached it, source value plus the error diffused into it.
   */
  lemma DitheredAt(src: seq<Color>, width: nat, height: nat, f: Color -> Color, row: nat, col: nat)
    requires |src| == width * height && row < height && col < width
    ensures var pos := Idx(row, col, width, height);
            Dithered(src, width, height, f)[pos] == f(Before(src, width, height, f, row, col)[pos])
  {
    ProcessPixelEffect(Before(src, width, height, f, row, col), width, height, f, row, col);
    FinalisedNeverTouched(src, width, height, f, row, col + 1);
  }

  /** The first pixel is quantised from its source value: nothing has reached it yet. */
  lemma FirstPixelFromSource(src: seq<Color>, width: nat, height: nat, f: Color -> Color)
    requires |src| == width * height && 0 < width && 0 < height
    ensures Dithered(src, width, height, f)[0] == f(src[0])
  {
    DitheredAt(src, width, height, f, 0, 0);
  }

  // ---------------------------------------------------------------------
  // Alpha is never diffused
  // ---------------------------------------------------------------------

  lemma {:induction false} ColsDoneKeepsAlphaAhead(s: seq<Color>, width: nat, height: nat, f: Color -> Color,
                                                   row: nat, col: nat)
    requires |s| == width * height && row < height && col <= width
    ensures forall p :: RowStart(row, width) + col <= p < |s| ==>
              ColsDone(s, width, height, f, row, col)[p].a == s[p].a
    decreases col
  {
    if col > 0 {
      var prev := ColsDone(s, width, height, f, row, col - 1);
      ColsDoneKeepsAlphaAhead(s, width, height, f, row, col - 1);
      ProcessPixelEffect(prev, width, height, f, row, col - 1);
      assert Idx(row, col - 1, width, height) < RowStart(row, width) + col;
    }
  }

  lemma {:induction false} RowsDoneKeepsAlphaAhead(src: seq<Color>, width: nat, height: nat, f: Color -> Color, row: nat)
    requires |src| == width * height && row <= height
    ensures forall p :: RowStart(row, width) <= p < |src| ==> RowsDone(src, width, height, f, row)[p].a == src[p].a
    decreases row
  {
    if row > 0 {
      RowsDoneKeepsAlphaAhead(src, width, height, f, row - 1);
      ColsDoneKeepsAlphaAhead(RowsDone(src, width, height, f, row - 1), width, height, f, row - 1, width);
    }
  }

  /**
   * Until the walk reaches it, a cell keeps its source alpha; so with an
   * alpha-preserving mapper every output pixel keeps its source alpha.
   */
  lemma AlphaNeverDiffused(src: seq<Color>, width: nat, height: nat, f: Color -> Color, row: nat, col: nat)
    requires |src| == width * height && row < height && col < width
    ensures var pos := Idx(row, col, width, height);
            && Before(src, width, height, f, row, col)[pos].a == src[pos].a
            && Dithered(src, width, height, f)[pos].a == f(Before(src, width, height, f, row, col)[pos]).a
  {
    RowsDoneKeepsAlphaAhead(src, width, height, f, row);
    ColsDoneKeepsAlphaAhead(RowsDone(src, width, height, f, row), width, height, f, row, col);
    DitheredAt(src, width, height, f, row, col);
  }

  /** The per-channel N-bit mapper, dithered, keeps every pixel's source alpha. */
  lemma NBitDitherKeepsAlpha(src: seq<Color>, width: nat, height: nat, bits: BitDepth, row: nat, col: nat)
    requires |src| == width * height && row < height && col < width
    ensures var pos := Idx(row, col, width, height);
            Dithered(src, width, height, c => RgbNBit(bits, c))[pos].a == src[pos].a
  {
    AlphaNeverDiffused(src, width, height, c => RgbNBit(bits, c), row, col);
  }

  // ---------------------------------------------------------------------
  // Output range
  // ---------------------------------------------------------------------

  /** Dithering with the palette mapper only ever outputs palette entries. */
  lemma PaletteDitherStaysInPalette(src: seq<Color>, width: nat, height: nat, row: nat, col: nat)
    requires |src| == width * height && row < height && col < width
    ensures Dithered(src, width, height, CustomPalette)[Idx(row, col, width, height)] in Shades
  {
    DitheredAt(src, width, height, CustomPalette, row, col);
  }

  /** Dithering with the 1-bit threshold outputs only black and white. */
  lemma OneBitDitherIsBlackAndWhite(src: seq<Color>, width: nat, height: nat, row: nat, col: nat)
    requires |src| == width * height && row < height && col < width
    ensures Dithered(src, width, height, OneBit)[Idx(row, col, width, height)] in {BLACK, WHITE}
  {
    DitheredAt(src, width, height, OneBit, row, col);
  }

  /** Dithering with an N-bit mapper outputs only that depth's levels. */
  lemma NBitDitherOutputsLevels(src: seq<Color>, width: nat, height: nat, bits: BitDepth, row: nat, col: nat)
    requires |src| == width * height && row < height && col < width
    ensures var d := Dithered(src, width, height, c => RgbNBit(bits, c))[Idx(row, col, width, height)];
            IsLevel(d.r, bits) && IsLevel(d.g, bits) && IsLevel(d.b, bits)
  {
    var f := c => RgbNBit(bits, c);
    DitheredAt(src, width, height, f, row, col);
    NBitOutputsAreLevels(bits, Before(src, width, height, f, row, col)[Idx(row, col, width, height)]);
  }

  // ---------------------------------------------------------------------
  // An image the mapper already fixes
  // ---------------------------------------------------------------------

  /**
   * A visit whose mapper output matches the working value on r, g and b
   * diffuses nothing: it writes its own cell and no other.
   */
  lemma ErrorFreeVisit(s: seq<Color>, width: nat, height: nat, f: Color -> Color, row: nat, col: nat)
    requires |s| == width * height && row < height && col < width
    requires var pos := Idx(row, col, width, height); QuantError(s[pos], f(s[pos])) == ChannelError(0, 0, 0)
    ensures var pos := Idx(row, col, width, height);
            ProcessPixel(s, width, height, f, row, col) == s[pos := f(s[pos])]
  {
    ProcessPixelEffect(s, width, height, f, row, col);
  }

  /** With no error anywhere, a visit changes nothing. */
  lemma ProcessFixedPixel(s: seq<Color>, width: nat, height: nat, f: Color -> Color, row: nat, col: nat)
    requires |s| == width * height && row < height && col < width
    requires f(s[Idx(row, col, width, height)]) == s[Idx(row, col, width, height)]
    ensures ProcessPixel(s, width, height, f, row, col) == s
  {
    ErrorFreeVisit(s, width, height, f, row, col);
  }

  lemma {:induction false} ColsDoneFixed(s: seq<Color>, width: nat, height: nat, f: Color -> Color, row: nat, col: nat)
    requires |s| == width * height && row < height && col <= width
    requires forall i :: 0 <= i < |s| ==> f(s[i]) == s[i]
    ensures ColsDone(s, width, height, f, row, col) == s
    decreases col
  {
    if col > 0 {
      var pos := Idx(row, col - 1, width, height);
      assert f(s[pos]) == s[pos];
      ColsDoneFixed(s, width, height, f, row, col - 1);
      ProcessFixedPixel(s, width, height, f, row, col - 1);
    }
  }

  lemma {:induction false} RowsDoneFixed(src: seq<Color>, width: nat, height: nat, f: Color -> Color, row: nat)
    requires |src| == width * height && row <= height
    requires forall i :: 0 <= i < |src| ==> f(src[i]) == src[i]
    ensures RowsDone(src, width, height, f, row) == src
    decreases row
  {
    if row > 0 {
      RowsDoneFixed(src, width, height, f, row - 1);
      ColsDoneFixed(src, width, height, f, row - 1, width);
    }
  }

  /**
   * An image every pixel of which the mapper leaves unchanged comes out of the
   * ditherer unchanged, exactly as it comes out of `quantizeImg`.
   */
  lemma DitherOfFixedImage(src: seq<Color>, width: nat, height: nat, f: Color -> Color)
    requires |src| == width * height
    requires forall i :: 0 <= i < |src| ==> f(src[i]) == src[i]
    ensures Dithered(src, width, height, f) == src
  {
    RowsDoneFixed(src, width, height, f, height);
  }

  /** Dithering an image already quantised to N bits gives it back. */
  lemma NBitRedither(src: seq<Color>, width: nat, height: nat, bits: BitDepth)
    requires |src| == width * height
    ensures var q := seq(|src|, i requires 0 <= i < |src| => RgbNBit(bits, src[i]));
            Dithered(q, width, height, c => RgbNBit(bits, c)) == q
  {
    var q := seq(|src|, i requires 0 <= i < |src| => RgbNBit(bits, src[i]));
    forall i | 0 <= i < |q|
      ensures RgbNBit(bits, q[i]) == q[i]
    {
      NBitIdempotent(bits, src[i]);
    }
    DitherOfFixedImage(q, width, height, c => RgbNBit(bits, c));
  }
}
