/**
 * Rasters and the stages that rewrite them pixel by pixel: `quantizeImg`,
 * `convertRGBImgToGrayscale`, `convertImgTo2dArrayPixelVals` and the
 * flattening loop at the start of the ditherer. Every stage allocates a
 * fresh buffer and leaves its input alone.
 */
module Raster {
  import opened Pixels
  import opened Arith

  /**
   * raylib's `Image` as the core sees it once its colours are loaded: a
   * row-major buffer where pixel (row, col) sits at `row * width + col`.
   */
  datatype Image = Image(data: array<Color>, width: nat, height: nat)
  {
    predicate Valid()
    {
      data.Length == width * height
    }
  }

  // ---------------------------------------------------------------------
  // Row-major index arithmetic
  // ---------------------------------------------------------------------

  /**
   * Where row `row` begins: `row * width`, defined by repeated addition so
   * that index reasoning stays linear (see RowStartIsProduct).
   */
  function RowStart(row: nat, width: nat): (s: nat)
  {
    if row == 0 then 0 else RowStart(row - 1, width) + width
  }

  /** `row * width + col`: where pixel (row, col) sits in the buffer. */
  function Idx(row: nat, col: nat, width: nat, height: nat): (k: nat)
    requires row < height && col < width
    ensures RowStart(row, width) <= k < RowStart(row, width) + width <= width * height
  {
    RowInBounds(row, width, height);
    RowStart(row, width) + col
  }

  lemma {:induction false} RowStartIsProduct(row: nat, width: nat)
    ensures RowStart(row, width) == row * width
  {
    if row > 0 {
      RowStartIsProduct(row - 1, width);
    }
  }

  /** Rows occupy disjoint, increasing stretches of the buffer. */
  lemma {:induction false} RowStartIncreases(r: nat, r': nat, width: nat)
    requires r < r'
    ensures RowStart(r, width) + width <= RowStart(r', width)
    decreases r'
  {
    if r + 1 < r' {
      RowStartIncreases(r, r' - 1, width);
    }
  }

  lemma RowsDisjoint(width: nat)
    ensures forall r: nat, r': nat :: r < r' ==> RowStart(r, width) + width <= RowStart(r', width)
  {
    forall r: nat, r': nat | r < r'
      ensures RowStart(r, width) + width <= RowStart(r', width)
    {
      RowStartIncreases(r, r', width);
    }
  }

  /** Every in-range (row, col) falls inside a buffer of `width * height` pixels. */
  lemma RowInBounds(row: nat, width: nat, height: nat)
    requires row < height
    ensures RowStart(row, width) + width <= width * height
  {
    RowStartIsProduct(height, width);
    if row + 1 < height {
      RowStartIncreases(row + 1, height, width);
    }
  }

  lemma DivModOfProduct(row: nat, col: nat, width: nat)
    requires col < width
    ensures (row * width + col) / width == row
    ensures (row * width + col) % width == col
  {
    var k := row * width + col;
    var q, m := k / width, k % width;
    assert q * width + m == row * width + col;
    if q < row {
      MulMonotone(q + 1, row, width);
      assert false;
    } else if row < q {
      MulMonotone(row + 1, q, width);
      assert false;
    }
  }

  /** Row and column are recovered from a row-major index. */
  lemma RowColOfIndex(row: nat, col: nat, width: nat, height: nat)
    requires row < height && col < width
    ensures Idx(row, col, width, height) / width == row
    ensures Idx(row, col, width, height) % width == col
  {
    RowStartIsProduct(row, width);
    DivModOfProduct(row, col, width);
  }

  /** A row-major index splits into an in-range row and column. */
  lemma IndexToRowCol(k: nat, width: nat, height: nat)
    requires k < width * height
    ensures 0 < width && k / width < height && k % width < width
    ensures Idx(k / width, k % width, width, height) == k
  {
    if k / width >= height {
      MulMonotone(height, k / width, width);
      assert false;
    }
    RowStartIsProduct(k / width, width);
  }

  // ---------------------------------------------------------------------
  // Stages
  // ---------------------------------------------------------------------

  /** `malloc` plus `memcpy`: a fresh buffer holding the same pixels. */
  method CopyPixels(src: array<Color>) returns (dst: array<Color>)
    ensures fresh(dst) && dst[..] == src[..]
  {
    dst := new Color[src.Length];
    for i := 0 to src.Length
      invariant dst[..i] == src[..i]
    {
      dst[i] := src[i];
    }
  }

  /**
   * `quantizeImg`: copy the source buffer, then replace every pixel, in
   * row-major order, with the mapper's image of it.
   */
  method QuantizeImg(img: Image, quantizeFunc: Color -> Color) returns (out: Image)
    requires img.Valid()
    ensures out.Valid() && out.width == img.width && out.height == img.height
    ensures fresh(out.data)
    ensures forall i :: 0 <= i < out.data.Length ==> out.data[i] == quantizeFunc(img.data[i])
  {
    var width, height := img.width, img.height;
    var quantizedPixels := CopyPixels(img.data);
    RowStartIsProduct(height, width);
    var row := 0;
    while row < height
      invariant 0 <= row <= height
      invariant RowStart(row, width) <= width * height
      invariant forall i :: 0 <= i < RowStart(row, width) ==> quantizedPixels[i] == quantizeFunc(img.data[i])
      invariant forall i :: RowStart(row, width) <= i < width * height ==> quantizedPixels[i] == img.data[i]
    {
      RowInBounds(row, width, height);
      var col := 0;
      while col < width
        invariant 0 <= col <= width
        invariant forall i :: 0 <= i < RowStart(row, width) + col ==> quantizedPixels[i] == quantizeFunc(img.data[i])
        invariant forall i :: RowStart(row, width) + col <= i < width * height ==> quantizedPixels[i] == img.data[i]
      {
        quantizedPixels[Idx(row, col, width, height)] := quantizeFunc(quantizedPixels[Idx(row, col, width, height)]);
        col := col + 1;
      }
      row := row + 1;
    }
    out := Image(quantizedPixels, width, height);
  }

  /**
   * `convertRGBImgToGrayscale`: the same loop as `quantizeImg`, driven by the
   * grayscale mapper the caller passes in.
   */
  method ConvertRGBImgToGrayscale(img: Image, convertRGBPixToGrayscale: Color -> Color) returns (out: Image)
    requires img.Valid()
    ensures out.Valid() && out.width == img.width && out.height == img.height
    ensures fresh(out.data)
    ensures forall i :: 0 <= i < out.data.Length ==> out.data[i] == convertRGBPixToGrayscale(img.data[i])
  {
    out := QuantizeImg(img, convertRGBPixToGrayscale);
  }

  /** `convertImgTo2dArrayPixelVals`: reshape the flat buffer into rows. */
  method ConvertImgTo2dArrayPixelVals(img: Image) returns (pixels2d: array2<Color>)
    requires img.Valid()
    ensures fresh(pixels2d)
    ensures pixels2d.Length0 == img.height && pixels2d.Length1 == img.width
    ensures forall i: nat, j :: i < img.height && 0 <= j < img.width ==>
      pixels2d[i, j] == img.data[Idx(i, j, img.width, img.height)]
  {
    var height, width := img.height, img.width;
    pixels2d := new Color[height, width];
    var i := 0;
    while i < height
      invariant 0 <= i <= height
      invariant forall i': nat, j :: i' < i && 0 <= j < width ==> pixels2d[i', j] == img.data[Idx(i', j, width, height)]
    {
      RowInBounds(i, width, height);
      var j := 0;
      while j < width
        invariant 0 <= j <= width
        invariant forall i': nat, j' :: i' < i && 0 <= j' < width ==> pixels2d[i', j'] == img.data[Idx(i', j', width, height)]
        invariant forall j' :: 0 <= j' < j ==> pixels2d[i, j'] == img.data[Idx(i, j', width, height)]
      {
        pixels2d[i, j] := img.data[Idx(i, j, width, height)];
        j := j + 1;
      }
      i := i + 1;
    }
  }

  /** The first loop of `Dither_FloydSteinberg`: rows back into one flat buffer. */
  method FlattenPixels(pixels2d: array2<Color>) returns (flat: array<Color>)
    ensures fresh(flat) && flat.Length == pixels2d.Length1 * pixels2d.Length0
    ensures forall i: nat, j :: i < pixels2d.Length0 && 0 <= j < pixels2d.Length1 ==>
      flat[Idx(i, j, pixels2d.Length1, pixels2d.Length0)] == pixels2d[i, j]
  {
    var height, width := pixels2d.Length0, pixels2d.Length1;
    flat := new Color[width * height];
    RowsDisjoint(width);
    var i := 0;
    while i < height
      invariant 0 <= i <= height
      invariant forall i': nat, j :: i' < i && 0 <= j < width ==> flat[Idx(i', j, width, height)] == pixels2d[i', j]
    {
      RowInBounds(i, width, height);
      var j := 0;
      while j < width
        invariant 0 <= j <= width
        invariant forall i': nat, j' :: i' < i && 0 <= j' < width ==> flat[Idx(i', j', width, height)] == pixels2d[i', j']
        invariant forall j' :: 0 <= j' < j ==> flat[Idx(i, j', width, height)] == pixels2d[i, j']
      {
        flat[Idx(i, j, width, height)] := pixels2d[i, j];
        j := j + 1;
      }
      i := i + 1;
    }
  }

  /**
   * Flattening undoes the reshape: a buffer that agrees with the rows at every
   * (row, col) agrees with the source at every index.
   */
  lemma FlattenUndoesReshape(src: seq<Color>, pixels2d: array2<Color>, flat: seq<Color>)
    requires |src| == |flat| == pixels2d.Length1 * pixels2d.Length0
    requires forall i: nat, j :: i < pixels2d.Length0 && 0 <= j < pixels2d.Length1 ==>
      pixels2d[i, j] == src[Idx(i, j, pixels2d.Length1, pixels2d.Length0)]
    requires forall i: nat, j :: i < pixels2d.Length0 && 0 <= j < pixels2d.Length1 ==>
      flat[Idx(i, j, pixels2d.Length1, pixels2d.Length0)] == pixels2d[i, j]
    ensures flat == src
  {
    var width, height := pixels2d.Length1, pixels2d.Length0;
    forall k | 0 <= k < |src|
      ensures flat[k] == src[k]
    {
      IndexToRowCol(k, width, height);
      var i, j := k / width, k % width;
      assert flat[Idx(i, j, width, height)] == pixels2d[i, j];
    }
  }
}
