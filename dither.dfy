/**
 * Floyd-Steinberg error diffusion as `Dither_FloydSteinberg` performs it:
 * strict row-major order, the working value of each pixel replaced by the
 * mapper's image of it, and the error of r, g and b pushed to four later
 * neighbours with weights 7, 3, 5 and 1 sixteenths, truncated toward zero,
 * saturated, and without touching their alpha.
 *
 * The functions give the working buffer after each visit, row by row and
 * column by column as the source's loops go; the methods are those loops,
 * proved to end on the buffer the functions describe.
 */
module Dither {
  import opened Pixels
  import opened Raster
  import opened Arith

  /** Integer division that truncates toward zero, as a cast of a float to `int32_t` does. */
  function TruncDiv(a: int, d: nat): (q: int)
    requires 0 < d
    ensures 0 <= a ==> 0 <= q && d * q <= a < d * q + d
    ensures a < 0 ==> q <= 0 && d * q - d < a <= d * q
  {
    if 0 <= a then
      DivFloor(a, d);
      a / d
    else
      DivFloor(-a, d);
      -((-a) / d)
  }

  /** `int32_t error[3]`: what quantising lost on each colour channel. */
  datatype ChannelError = ChannelError(r: int, g: int, b: int)

  function QuantError(op: Color, qp: Color): (e: ChannelError)
  {
    ChannelError(op.r - qp.r, op.g - qp.g, op.b - qp.b)
  }

  /**
   * `int32_t(float(e) * weight / 16)`. With |e| <= 255 and a weight of at most
   * 7 the float product is exact, so only the truncation remains.
   */
  function Share(e: int, weight: nat): (s: int)
  {
    TruncDiv(e * weight, 16)
  }

  /** A neighbour after one update: each colour channel moved and saturated, alpha kept. */
  function Nudge(pix: Color, e: ChannelError, weight: nat): (r: Color)
  {
    Color(Clamp(pix.r + Share(e.r, weight)), Clamp(pix.g + Share(e.g, weight)),
          Clamp(pix.b + Share(e.b, weight)), pix.a)
  }

  /** One call of the `updatePixel` closure: out-of-raster targets are skipped. */
  function Diffuse(s: seq<Color>, width: nat, height: nat, row: nat, col: nat,
                   dRow: int, dCol: int, e: ChannelError, weight: nat): (r: seq<Color>)
    requires |s| == width * height
  {
    var nRow, nCol := row + dRow, col + dCol;
    if 0 <= nRow < height && 0 <= nCol < width then
      var pos := Idx(nRow, nCol, width, height);
      s[pos := Nudge(s[pos], e, weight)]
    else
      s
  }

  /** One `updatePixel` call of a visit: the neighbour's offset and its weight in sixteenths. */
  datatype Tap = Tap(dRow: int, dCol: int, weight: nat)

  /** The four calls a visit makes, in the source's order: right, below-left, below, below-right. */
  const Kernel: seq<Tap> := [Tap(0, 1, 7), Tap(1, -1, 3), Tap(1, 0, 5), Tap(1, 1, 1)]

  /** The buffer after the first k calls of `updatePixel` for the visit of (row, col). */
  function Taps(s: seq<Color>, width: nat, height: nat, row: nat, col: nat, e: ChannelError, k: nat): (r: seq<Color>)
    requires |s| == width * height && k <= |Kernel|
    ensures |r| == |s|
  {
    if k == 0 then s
    else
      var t := Kernel[k - 1];
      Diffuse(Taps(s, width, height, row, col, e, k - 1), width, height, row, col, t.dRow, t.dCol, e, t.weight)
  }

  /**
   * The body of the inner loop for pixel (row, col): the cell gets the
   * mapper's image of its working value, then the error goes to the kernel.
   */
  function ProcessPixel(s: seq<Color>, width: nat, height: nat, f: Color -> Color,
                        row: nat, col: nat): (r: seq<Color>)
    requires |s| == width * height && row < height && col < width
  {
    var pos := Idx(row, col, width, height);
    var qp := f(s[pos]);
    Taps(s[pos := qp], width, height, row, col, QuantError(s[pos], qp), |Kernel|)
  }

  /** The working buffer once pixels 0 .. col - 1 of row `row` are done, starting from `s`. */
  function ColsDone(s: seq<Color>, width: nat, height: nat, f: Color -> Color, row: nat, col: nat): (r: seq<Color>)
    requires |s| == width * height && row < height && col <= width
    ensures |r| == |s|
  {
    if col == 0 then s
    else ProcessPixel(ColsDone(s, width, height, f, row, col - 1), width, height, f, row, col - 1)
  }

  /** The working buffer once rows 0 .. row - 1 are done. */
  function RowsDone(src: seq<Color>, width: nat, height: nat, f: Color -> Color, row: nat): (r: seq<Color>)
    requires |src| == width * height && row <= height
    ensures |r| == |src|
  {
    if row == 0 then src
    else ColsDone(RowsDone(src, width, height, f, row - 1), width, height, f, row - 1, width)
  }

  /** The working buffer just before pixel (row, col) is visited. */
  function Before(src: seq<Color>, width: nat, height: nat, f: Color -> Color, row: nat, col: nat): (r: seq<Color>)
    requires |src| == width * height && row < height && col <= width
  {
    ColsDone(RowsDone(src, width, height, f, row), width, height, f, row, col)
  }

  /** What `Dither_FloydSteinberg` returns, as a buffer. */
  function Dithered(src: seq<Color>, width: nat, height: nat, f: Color -> Color): (s: seq<Color>)
    requires |src| == width * height
  {
    RowsDone(src, width, height, f, height)
  }

  /** The `updatePixel` closure, on the shared working buffer. */
  method UpdatePixel(ditheredPixels: array<Color>, width: nat, height: nat, row: nat, col: nat,
                     dRow: int, dCol: int, error: ChannelError, weight: nat)
    requires ditheredPixels.Length == width * height
    modifies ditheredPixels
    ensures ditheredPixels[..] == Diffuse(old(ditheredPixels[..]), width, height, row, col, dRow, dCol, error, weight)
  {
    var nRow, nCol := row + dRow, col + dCol;
    if 0 <= nRow < height && 0 <= nCol < width {
      var pos := Idx(nRow, nCol, width, height);
      var pix := ditheredPixels[pos];
      var temp0 := pix.r + Share(error.r, weight);
      var temp1 := pix.g + Share(error.g, weight);
      var temp2 := pix.b + Share(error.b, weight);
      ditheredPixels[pos] := Color(Clamp(temp0), Clamp(temp1), Clamp(temp2), pix.a);
    }
  }

  /** The body of the inner loop of `Dither_FloydSteinberg`, for pixel (row, col). */
  method DitherPixel(ditheredPixels: array<Color>, width: nat, height: nat, funcQuantize: Color -> Color,
                     row: nat, col: nat)
    requires ditheredPixels.Length == width * height && row < height && col < width
    modifies ditheredPixels
    ensures ditheredPixels[..] == ProcessPixel(old(ditheredPixels[..]), width, height, funcQuantize, row, col)
  {
    var pos := Idx(row, col, width, height);
    var op := ditheredPixels[pos];
    var qp := funcQuantize(op);
    var error := QuantError(op, qp);
    ditheredPixels[pos] := qp;
    ghost var s := ditheredPixels[..];
    UpdatePixel(ditheredPixels, width, height, row, col, 0, 1, error, 7);   // right
    assert ditheredPixels[..] == Taps(s, width, height, row, col, error, 1);
    UpdatePixel(ditheredPixels, width, height, row, col, 1, -1, error, 3);  // below-left
    assert ditheredPixels[..] == Taps(s, width, height, row, col, error, 2);
    UpdatePixel(ditheredPixels, width, height, row, col, 1, 0, error, 5);   // below
    assert ditheredPixels[..] == Taps(s, width, height, row, col, error, 3);
    UpdatePixel(ditheredPixels, width, height, row, col, 1, 1, error, 1);   // below-right
  }

  /** The two nested loops of `Dither_FloydSteinberg`, over the working buffer. */
  method DiffuseAll(ditheredPixels: array<Color>, width: nat, height: nat, funcQuantize: Color -> Color)
    requires ditheredPixels.Length == width * height
    modifies ditheredPixels
    ensures ditheredPixels[..] == Dithered(old(ditheredPixels[..]), width, height, funcQuantize)
  {
    ghost var src := ditheredPixels[..];
    var row: nat := 0;
    while row < height
      invariant row <= height
      invariant ditheredPixels[..] == RowsDone(src, width, height, funcQuantize, row)
    {
      var col: nat := 0;
      while col < width
        invariant col <= width
        invariant ditheredPixels[..] == ColsDone(RowsDone(src, width, height, funcQuantize, row), width, height, funcQuantize, row, col)
      {
        DitherPixel(ditheredPixels, width, height, funcQuantize, row, col);
        col := col + 1;
      }
      row := row + 1;
    }
  }

  /** `Dither_FloydSteinberg`. */
  method DitherFloydSteinberg(img: Image, funcQuantize: Color -> Color) returns (out: Image)
    requires img.Valid()
    ensures out.Valid() && out.width == img.width && out.height == img.height
    ensures fresh(out.data)
    ensures out.data[..] == Dithered(img.data[..], img.width, img.height, funcQuantize)
  {
    var pixels := ConvertImgTo2dArrayPixelVals(img);
    var height, width := img.height, img.width;
    var ditheredPixels := FlattenPixels(pixels);
    FlattenUndoesReshape(img.data[..], pixels, ditheredPixels[..]);
    DiffuseAll(ditheredPixels, width, height, funcQuantize);
    out := Image(ditheredPixels, width, height);
  }
}
