# Floyd–Steinberg dithering viewer: the pixel-transform core

This project models the image-processing half of a small raylib viewer
(`main.cpp`). The viewer loads an RGBA image and reduces its colours in one
of several ways:

- a luminance grayscale conversion;
- a 1-bit black/white threshold;
- N-bit uniform quantisation, either of the red channel copied to all three
  (the grayscale variant) or of each channel separately;
- nearest colour from a fixed five-entry palette.

Any of these mappers can be applied pixel by pixel (`quantizeImg`,
`convertRGBImgToGrayscale`) or through Floyd–Steinberg error diffusion
(`Dither_FloydSteinberg`). The ditherer walks the raster in row-major order.
At each pixel it writes the mapper's output and pushes the r, g and b error
to four later neighbours: 7/16 right, 3/16 below-left, 5/16 below, 1/16
below-right. Each share is truncated toward zero, the neighbour is
saturated to 0..255, and the neighbour's alpha is left alone.

The model has six modules.

- `Pixels` holds the `Color` record, the raylib colour constants and the
  saturation `Clamp`.
- `Mappers` holds the five mapper lambdas as pure functions. It also has the
  palette loop as a method, proved against the function.
- `Raster` holds the stages that allocate a fresh buffer and rewrite it:
  `quantizeImg`, `convertRGBImgToGrayscale`, the 2-D reshape and the flatten
  loop. They are methods over `array`/`array2` with loop invariants.
- `Dither` holds the ditherer. Its loops are methods on the working
  `array<Color>`. The buffer after each visit is a function (`ColsDone`,
  `RowsDone`, `Dithered`), and the methods are proved to end on that buffer.
- `DitherProperties` proves what the ditherer guarantees:
  - what one visit changes;
  - that finalised pixels are never touched again;
  - that alpha is never diffused;
  - the range of the output for each mapper;
  - that an image the mapper already fixes passes through unchanged.
- `Arith` holds the multiplication and division facts that the index and
  quantiser proofs use. It models nothing in `main.cpp`.

Two details differ from the textbook formulation, and the model follows the
code:

- The grayscale conversion truncates the weighted sum. It neither rounds
  nor clamps, and its weights add up to 1.0036, not 1.
- The error shares are truncated toward zero (`int32_t(float)`), not rounded.
  `Share` models this and `ShareIsOdd` states it.

## Model

| member | source | states |
|---|---|---|
| Pixels.Clamp | main.cpp:112-116 | `std::clamp` to 0..255: in-range values unchanged, below 0 gives 0, above 255 gives 255 |
| Mappers.Grayscale | main.cpp:166-170 | output has r = g = b and the input's alpha; a pixel that is already gray is returned unchanged |
| Mappers.GrayscaleIdempotent | main.cpp:166-170 | converting a pixel to grayscale twice gives what converting it once gave |
| Mappers.OneBit | main.cpp:173-175 | output is BLACK or WHITE, and BLACK exactly when red < 128 |
| Mappers.LumaNBit | main.cpp:179-183 | output has r = g = b and the input's alpha |
| Mappers.RgbNBit | main.cpp:186-193 | output keeps the input's alpha |
| Mappers.LevelsStrictlyIncrease | main.cpp:180-181 | the 2^bits levels run from 0 to 255 and strictly increase, so they are distinct |
| Mappers.NBitOutputsAreLevels | main.cpp:179-193 | every output channel of both N-bit mappers is one of the levels |
| Mappers.QuantizeChannelIdempotent | main.cpp:181 | quantising an already quantised channel value leaves it unchanged |
| Mappers.NBitIdempotent | main.cpp:179-193 | both N-bit mappers are idempotent on whole pixels |
| Mappers.QuantizeChannelMonotone | main.cpp:181 | a brighter channel never maps to a darker level |
| Mappers.OneBitDepthIsThreshold | main.cpp:173-183 | at 1 bit the luminance quantiser agrees with the 1-bit threshold on r, g and b |
| Mappers.NearestIndex | main.cpp:199-218 | the chosen palette index is at minimal distance and strictly closer than every earlier entry, i.e. the first minimum, as the strict `<` gives |
| Mappers.CustomPalette | main.cpp:199-218 | the mapper returns a palette entry verbatim |
| Mappers.NearestColor | main.cpp:203-217 | the search loop ends on the entry `NearestIndex` names, which is in the palette and at minimal distance |
| Raster.Idx | main.cpp:22 | `row * width + col` for an in-range pixel lies inside its row's stretch and inside the buffer |
| Raster.RowStartIsProduct | main.cpp:22 | the row offset built by repeated addition equals `row * width` |
| Raster.RowColOfIndex | main.cpp:70 | row and column are recovered from a row-major index by `/` and `%` |
| Raster.IndexToRowCol | main.cpp:70 | every index below `width * height` splits by `/` and `%` into an in-range (row, col) whose row-major index is that index again; with `RowColOfIndex` that pair is the only one |
| Raster.CopyPixels | main.cpp:18-19 | `malloc` plus `memcpy`: a fresh buffer holding exactly the source pixels |
| Raster.QuantizeImg | main.cpp:13-36 | a fresh buffer with the same dimensions, where pixel i is the mapper applied to input pixel i |
| Raster.ConvertRGBImgToGrayscale | main.cpp:38-61 | a fresh buffer with the same dimensions, where pixel i is the grayscale mapper applied to input pixel i |
| Raster.ConvertImgTo2dArrayPixelVals | main.cpp:63-75 | a `height` by `width` grid where cell (i, j) is pixel `i * width + j` |
| Raster.FlattenPixels | main.cpp:84-88 | the flat buffer holds grid cell (i, j) at `i * width + j` |
| Raster.FlattenUndoesReshape | main.cpp:84-88 | flattening the reshaped grid gives back the original buffer |
| Dither.TruncDiv | main.cpp:108-110 | integer division truncating toward zero: bounds for non-negative and for negative numerators |
| Dither.UpdatePixel | main.cpp:102-119 | the neighbour at the offset, if inside the raster, gets each colour channel plus its truncated share, saturated, with alpha kept; nothing else changes |
| Dither.DitherPixel | main.cpp:92-124 | one visit: the buffer becomes `ProcessPixel` of the old buffer |
| Dither.DiffuseAll | main.cpp:90-126 | the nested loops leave the buffer equal to `Dithered` of the initial buffer |
| Dither.DitherFloydSteinberg | main.cpp:77-137 | a fresh buffer with the same dimensions holding `Dithered` of the input pixels |
| DitherProperties.DiffuseEffect | main.cpp:102-119 | one `updatePixel` call changes at most its target cell; an out-of-raster target is skipped with no wrap-around |
| DitherProperties.TargetsAhead | main.cpp:121-124 | the four neighbours are distinct cells after the visited one and at most one row further on |
| DitherProperties.KernelEffect | main.cpp:121-124 | the four `updatePixel` calls together nudge each in-raster neighbour once by its own weight and leave every other cell unchanged |
| DitherProperties.ProcessPixelEffect | main.cpp:92-124 | a visit writes the mapper's output into its own cell and nudges each in-raster neighbour once by its weighted share, keeping its alpha; every other cell is unchanged |
| DitherProperties.KernelWeightsSumToOne | main.cpp:121-124 | the weights 7, 3, 5, 1 sum to 16, and only the right neighbour is on the same row |
| DitherProperties.NoErrorAmplification | main.cpp:108-110 | the four truncated shares together never exceed the error or flip its sign, and add up to all of it but at most 3 |
| DitherProperties.ShareIsOdd | main.cpp:108-110 | the share of a negative error is minus the share of the positive one (truncation, not flooring) |
| DitherProperties.ProcessPixelKeepsEarlier | main.cpp:92-124 | a visit changes no cell before the visited one |
| DitherProperties.ColsDoneKeepsEarlier | main.cpp:91-125 | later visits in a row leave cells before the first of them unchanged |
| DitherProperties.RowsDoneKeepsEarlier | main.cpp:90-126 | later rows leave earlier rows unchanged |
| DitherProperties.FinalisedNeverTouched | main.cpp:90-126 | every cell before (row, col) already holds its final output value when (row, col) is visited |
| DitherProperties.DitheredAt | main.cpp:92-98 | each output pixel is the mapper applied to the working value the cell held when visited |
| DitherProperties.FirstPixelFromSource | main.cpp:92-93 | the first output pixel is the mapper applied to the source pixel |
| DitherProperties.ColsDoneKeepsAlphaAhead | main.cpp:117 | visits in a row leave the alpha of every unvisited cell as it was |
| DitherProperties.RowsDoneKeepsAlphaAhead | main.cpp:117 | whole rows of visits leave the alpha of every unvisited cell as it was |
| DitherProperties.AlphaNeverDiffused | main.cpp:92-118 | a cell's working alpha at visit time is its source alpha, and its output alpha is the mapper's on that value |
| DitherProperties.NBitDitherKeepsAlpha | main.cpp:186-193 | dithering with the per-channel N-bit mapper keeps every pixel's source alpha |
| DitherProperties.PaletteDitherStaysInPalette | main.cpp:199-218 | dithering with the palette mapper outputs only palette entries |
| DitherProperties.OneBitDitherIsBlackAndWhite | main.cpp:173-175 | dithering with the 1-bit threshold outputs only BLACK and WHITE |
| DitherProperties.NBitDitherOutputsLevels | main.cpp:186-193 | dithering with the N-bit mapper outputs only that depth's levels |
| DitherProperties.ErrorFreeVisit | main.cpp:92-124 | a visit whose mapper output matches r, g and b writes only its own cell |
| DitherProperties.ProcessFixedPixel | main.cpp:92-124 | a visit of a pixel the mapper fixes changes nothing |
| DitherProperties.ColsDoneFixed | main.cpp:91-125 | a row of visits over an image the mapper fixes changes nothing |
| DitherProperties.RowsDoneFixed | main.cpp:90-126 | rows of visits over an image the mapper fixes change nothing |
| DitherProperties.DitherOfFixedImage | main.cpp:77-137 | an image every pixel of which the mapper fixes is dithered to itself |
| DitherProperties.NBitRedither | main.cpp:186-193 | dithering an N-bit-quantised image with the same mapper gives it back |

## Left out

- The main loop, window, camera, UI panel, keyboard handling, texture uploads and regeneration/caching of images are raylib glue, not pixel transforms.
- `LoadImageColors`, `UnloadImageColors`, `malloc`/`free` and raylib's `Image` header fields (`mipmaps`, `format`) are I/O and allocation. The model receives the colour buffer directly and allocates fresh arrays.
- raylib.h is not part of this model. The values of BLACK, WHITE, YELLOW and MAGENTA are raylib's published constants.
- Mappers.GrayLevel: the weights are exact ten-thousandths and the sum is taken exactly before truncation. The source sums in single and double precision floats, which can differ by one on some inputs.
- Mappers.QuantizeChannel: rounding is computed exactly, as `(2 v L + 255) div 510` (round half up, which matches `std::round` on non-negative values), and the level is `k * 255 div L`. The source does both steps in `float`. No exact product `v / 255 * L` is a half-way point (2 v L is even, 255 times an odd number is odd) and each lies at least 1/510 from one, far beyond single-precision error at these magnitudes, so the float rounding picks the same index; the float level `k / L * 255` truncates to the same byte as the exact quotient. Its clamp to 0..255 never fires on these values.
- Mappers.Dist2: the palette search compares squared integer distances. The source compares `float` square roots of the same integers (at most 195075). Square roots of distinct such integers differ by more than 1e-3, far more than the float spacing below 512, so the float comparison orders and ties the entries exactly as the integers do.
- Dither.Share: the product `error * weight / 16` is taken exactly. For |error| <= 255 and weight <= 7 the source's float product is exact, so only the truncation remains.
- Mappers.NearestColor: `pClosest` is initialised to the first palette entry. The source leaves it uninitialised, but the first iteration always overwrites it because every distance is below `INFINITY`.
- The bit depth is a parameter of the N-bit mappers rather than the captured mutable `quantizationBits`. It ranges over 1..8, the depths the viewer offers.
- `int` widths: all index and channel arithmetic stays far below 32-bit limits for the image sizes raylib loads, so no wrap-around is modelled.
