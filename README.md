# Moravec corner detector, modelled in Dafny

This project models the core of a small Java Moravec corner detector, `src/MoravecDetector.java`. It proves properties of that model. The core has two parts.

- **Grid builder.** These are the byte loops of `convertTo2DWithoutUsingGetRGB`. They walk an image's packed byte buffer, one pixel group at a time, and fill a `height` x `width` grid of doubles in row-major order with a `row`/`col` cursor.
  - With an alpha channel, a group is four bytes: alpha, blue, green, red. The cell holds the packed ARGB `int`, wrapped to 32 bits as Java does.
  - Without one, a group is three bytes: blue, green, red. The group is packed under alpha `0xFF` and unpacked again. The cell holds the grey level `0.333*red + 0.333*green + 0.333*blue`.

  This part is `GridBuilder`, in `grid_builder.dfy`, on top of `JavaInts` in `java_ints.dfy`. `JavaInts` writes out Java's signed bytes and 32-bit `int` arithmetic. In particular, it covers wrap-around, `<<`, the arithmetic `>>` and `& 0xFF`.
- **Moravec engine.** This is `moravacAlgorithm`, modelled in `MoravecEngine` (`moravec_engine.dfy`). It has two passes over the interior `3 <= x <= imgWidth-3`, `3 <= y <= imgLength-3`.
  - Pass 1 stores in `intenseVar[x][y]` the sum of the eight squared differences `(I[x+u][y+v] - I[x][y])^2`. It accumulates them through `old_intenseVar` exactly as the loop does.
  - Pass 2 scores each interior cell from the pass-1 grid.

  The methods are proved against specification functions:
  - `IntensityVariation` for pass 1;
  - `Score` for pass 2, on the pass-1 grid;
  - `CornerScore` for the engine as a whole, on the input grid.

  `MoravecProperties` (`moravec_properties.dfy`) proves what those functions imply: bounds, the threshold rule, zero borders, small, flat and gradient grids.

Doubles are modelled as exact reals. Java's `double[][]` grids are modelled as Dafny `array2<real>`, indexed `[x, y]` as the engine indexes them.

### Where the code departs from the usual Moravec score

The model follows the code. The usual Moravec score of a cell is the minimum, over the eight shifts, of the variations of its neighbours.

- **Pass 2 reads one row.** The loop nest of pass 2 has the shape of that minimum, but it runs over all nine `(u, v)`: unlike pass 1 (line 107), lines 124-133 have no test skipping `(0, 0)`. The surviving row `x + 1` never contains `(0, 0)`, so this does not change the result. As written, the threshold test, the store into `cornerness[x][y]` and the reset of `min_cornerVal` all sit inside the `u` loop (lines 124-140). Each `u` iteration therefore overwrites the previous one, and the stored score is built from row `x + 1` alone. It is the minimum of the sentinel `999999999` and `intenseVar[x+1][y-1..y+1]`, followed by the threshold test.
- **Small grids.** Pass 2 reads pass-1 cells outside the interior, which hold 0. So a cell scores 0 whenever `x == imgWidth-3`, `y == 3` or `y == imgLength-3` (`EdgeCellsScoreZero`). A nonzero score needs `3 <= x <= imgWidth-4` and `4 <= y <= imgLength-4`, and any grid narrower than 7 or shorter than 8 scores 0 everywhere (`SmallGridScoresZero`).
- **Gradient grid.** On `I[x][y] = x + y`, every interior variation is 12. The cells that score 12 are exactly those just described, when the threshold is at most 12. The remaining interior cells and the border score 0 (`GradientGridScores`).
- **No input checks.** The code does not validate its input. A buffer whose length is not a whole number of pixel groups, or holds more pixels than the grid, makes the Java loop throw an index exception. So does a grid smaller than `imgWidth-1` x `imgLength-1` when the interior is not empty. Negative engine dimensions fail earlier: `new double[imgWidth][imgLength]` (lines 90-92) throws `NegativeArraySizeException` before any loop runs.
  - These conditions are the preconditions of `ConvertTo2DWithoutUsingGetRgb` and `MoravacAlgorithm`. A shorter buffer is legal and leaves the trailing cells at 0.

## Model

| member | source | states |
|---|---|---|
| JavaInts.Wrap32 | src/MoravecDetector.java:46-50 | the result is a 32-bit `int`, congruent to the exact value modulo 2^32, and equal to it when the exact value already fits |
| JavaInts.UnsignedByte | src/MoravecDetector.java:47 | `(int) b & 0xff` lies in 0..255 and is the byte itself, or the byte plus 256 when it is negative |
| JavaInts.ShiftLeft | src/MoravecDetector.java:47-50 | for an unsigned byte, `<< 8` and `<< 16` multiply it exactly; `<< 24` does the same but wraps to a negative `int` from 128 up |
| JavaInts.ShiftRight | src/MoravecDetector.java:68-69 | the arithmetic shift is the floor of x / 2^k: r * 2^k <= x < (r + 1) * 2^k |
| JavaInts.LowByte | src/MoravecDetector.java:68-70 | `& 0xFF` gives a value in 0..255 congruent to x modulo 256, negative x included |
| GridBuilder.PixelLength | src/MoravecDetector.java:44-59 | a pixel group is four bytes exactly on the alpha path, and three bytes otherwise |
| GridBuilder.ArgbWithAlpha | src/MoravecDetector.java:46-50 | the four `+=` produce the ARGB value alpha<<24 + red<<16 + green<<8 + blue, minus 2^32 when alpha >= 128 (the `int` overflow) |
| GridBuilder.OpaqueArgb | src/MoravecDetector.java:61-65 | the packed opaque pixel is 0xFF<<24 + red<<16 + green<<8 + blue wrapped to a negative `int`, in [-2^24, 0) |
| GridBuilder.RedOf | src/MoravecDetector.java:68 | the extracted red channel is a byte value 0..255 |
| GridBuilder.GreenOf | src/MoravecDetector.java:69 | the extracted green channel is a byte value 0..255 |
| GridBuilder.BlueOf | src/MoravecDetector.java:70 | the extracted blue channel is a byte value 0..255 |
| GridBuilder.UnpackOpaqueArgb | src/MoravecDetector.java:61-70 | unpacking the packed pixel returns exactly the unsigned red, green and blue bytes it was packed from (a round trip) |
| GridBuilder.Intensity | src/MoravecDetector.java:68-71 | the grey level of any packed pixel lies in [0, 0.333 * 765] |
| GridBuilder.GroupValue | src/MoravecDetector.java:46-73 | the value stored for one group is a 32-bit `int` on the alpha path, and a grey level in [0, 254.745] on the other |
| GridBuilder.GroupValueDecodes | src/MoravecDetector.java:46-73 | a cell holds, on the alpha path, the packed ARGB value of its four bytes as a 32-bit `int`; on the other path, 0.333 * (red + green + blue) of its three bytes, within [0, 254.745] |
| GridBuilder.ZeroGroupIsZeroCell | src/MoravecDetector.java:46-73 | a group of zero bytes becomes a zero cell on both paths |
| GridBuilder.CellIndexInjective | src/MoravecDetector.java:51-56 | two cursor positions inside a row with the same row-major index are the same cell |
| GridBuilder.OtherCellsOtherIndex | src/MoravecDetector.java:51 | a store at (row, col) is the only store at that index: every other cell has another index |
| GridBuilder.CellIndexNext | src/MoravecDetector.java:52-56 | `col++` with the wrap to the next row advances the row-major index by exactly one |
| GridBuilder.CellIndexBelow | src/MoravecDetector.java:42 | every cell of the `height` x `width` grid has index below `height * width` |
| GridBuilder.CellIndexRow | src/MoravecDetector.java:51 | a cursor whose index is below `height * width` is on a row of the grid, so `result[row]` exists |
| GridBuilder.StoreCell | src/MoravecDetector.java:51 | storing pixel k at the cursor turns a grid filled up to k into one filled up to k + 1, leaving every other cell unchanged |
| GridBuilder.NextCursor | src/MoravecDetector.java:52-56 | the moved cursor stays inside a row and its row-major index is one more |
| GridBuilder.ArgbGrid | src/MoravecDetector.java:43-57 | the alpha loop fills, in row-major order, one cell per four-byte group with its decoded value, all the others stay 0 |
| GridBuilder.GrayGrid | src/MoravecDetector.java:58-79 | the no-alpha loop fills, in row-major order, one cell per three-byte group with its grey level, all the others stay 0 |
| GridBuilder.ExactBufferFillsEveryCell | src/MoravecDetector.java:42-82 | a buffer of exactly `height * width` groups reaches every cell |
| GridBuilder.ConvertTo2DWithoutUsingGetRgb | src/MoravecDetector.java:42-82 | the grid is `height` x `width`; cell (r, c) holds the decoded group r * width + c when the buffer has it and 0 otherwise; a buffer of exactly `height * width` groups decodes every cell; an all-zero buffer gives an all-zero grid |
| MoravecEngine.Sq | src/MoravecDetector.java:112 | `Math.pow(d, 2.0)` is never negative |
| MoravecEngine.Variation | src/MoravecDetector.java:103-116 | the variation of a cell, a sum of the eight squared differences, is never negative |
| MoravecEngine.RowPartialComplete | src/MoravecDetector.java:105-115 | the three `v` iterations of shift row u add that row's shifts, (0, 0) excluded |
| MoravecEngine.PartialVariationComplete | src/MoravecDetector.java:103-116 | after the whole `u` loop the running sum is the variation of the cell |
| MoravecEngine.IntensityVariation | src/MoravecDetector.java:99-118 | the value pass 1 leaves in a cell is never negative, and is 0 outside the interior |
| MoravecEngine.AddShift | src/MoravecDetector.java:107-114 | one `v` iteration adds the squared difference for (u, v) to `intenseVar[x][y]`, nothing for (0, 0), and changes no other cell of `intenseVar` |
| MoravecEngine.AccumulateVariation | src/MoravecDetector.java:103-116 | the `u`/`v` loops add the cell's variation to `intenseVar[x][y]` and leave every other cell alone |
| MoravecEngine.VariationPass | src/MoravecDetector.java:99-118 | after pass 1 each interior cell of `intenseVar` holds its variation and every other cell holds 0 |
| MoravecEngine.Min | src/MoravecDetector.java:128-132 | the updated running minimum is at most both values and is one of them |
| MoravecEngine.Clamp | src/MoravecDetector.java:134-137 | the threshold test gives 0 or the minimum, and keeps the minimum exactly when it is at least the threshold (or already 0) |
| MoravecEngine.RunningMin | src/MoravecDetector.java:126-133 | after n iterations of the `v` loop the running minimum is at most the sentinel and each of the n cells read, and equals the sentinel or one of them |
| MoravecEngine.RowMinimum | src/MoravecDetector.java:126-133 | starting from the sentinel, the `v` loop leaves the minimum of the sentinel and `intenseVar[r][y-1..y+1]` |
| MoravecEngine.Score | src/MoravecDetector.java:120-142 | the pass-2 score of a cell is at most the sentinel, is 0 or at least the threshold, and is 0 outside the interior |
| MoravecEngine.ScoreCell | src/MoravecDetector.java:124-140 | the `u`/`v` loops store into `cornerness[x][y]` the clamped minimum of the sentinel and row x + 1 of `intenseVar`, and no other cell changes |
| MoravecEngine.ScoringPass | src/MoravecDetector.java:120-142 | after pass 2 every interior cell holds its score from the pass-1 grid and every other cell holds 0 |
| MoravecEngine.NeighbourMin | src/MoravecDetector.java:124-133 | the unclamped score of an interior cell is at most the sentinel and each of the pass-1 values of (x+1, y-1), (x+1, y), (x+1, y+1), and equals the sentinel or one of them |
| MoravecEngine.CornerScore | src/MoravecDetector.java:88-144 | every cell of the result lies in [0, 999999999], is 0 or at least the threshold, and is 0 outside the interior |
| MoravecEngine.MoravacAlgorithm | src/MoravecDetector.java:88-144 | the cornerness grid is `imgWidth` x `imgLength` and each cell holds `CornerScore` of the input grid: 0 outside the interior, inside it the threshold-clamped minimum of the sentinel and the variations of (x+1, y-1), (x+1, y), (x+1, y+1) |
| MoravecProperties.NeighbourMinBounds | src/MoravecDetector.java:95-132 | the unclamped score lies between 0 and the sentinel |
| MoravecProperties.MinimumAtThresholdIsKept | src/MoravecDetector.java:134 | the threshold comparison is strict: a minimum equal to the threshold is kept as the score |
| MoravecProperties.ThresholdMonotone | src/MoravecDetector.java:134-138 | raising the threshold only turns scores into 0: a surviving score is unchanged, a zero score stays zero |
| MoravecProperties.EdgeCellsScoreZero | src/MoravecDetector.java:120-142 | interior cells on the row x = imgWidth-3 or the columns y = 3 and y = imgLength-3 score 0 for every image and threshold |
| MoravecProperties.ScoredCellsAreInner | src/MoravecDetector.java:120-142 | a nonzero score implies 3 <= x <= imgWidth-4 and 4 <= y <= imgLength-4 |
| MoravecProperties.SmallGridScoresZero | src/MoravecDetector.java:99-142 | a grid narrower than 7 or shorter than 8 (every 7 x 7 grid among them) scores 0 everywhere |
| MoravecProperties.UniformGridScoresZero | src/MoravecDetector.java:99-142 | a grid of one constant intensity scores 0 everywhere, for every threshold |
| MoravecProperties.GradientGridScores | src/MoravecDetector.java:99-142 | on I[x][y] = x + y a cell scores 12 exactly when 3 <= x <= imgWidth-4, 4 <= y <= imgLength-4 and the threshold is at most 12, and 0 otherwise |

## Left out

- `main` (lines 11-26) is left out. It reads `64X64.jpg`, times the engine with `System.nanoTime`, prints and calls `displayCorner`. That is I/O and a clock.
- The raster access of `convertTo2DWithoutUsingGetRGB` (lines 37-40) is left out. It reads the byte buffer, width, height and alpha flag from a `BufferedImage`. These four values are parameters of `ConvertTo2DWithoutUsingGetRgb`.
- `displayCorner` (lines 190-204) is left out. It paints pixel (column y, row x) red for every cell whose score is above 0 and writes a JPEG. That is image I/O.
- `toString(long)` (lines 149-169) and `toString(double[][])` (lines 171-188) are left out. They only format text.
- IEEE-754 rounding is not modelled. Doubles are exact reals, so `.333` is exactly 0.333 and `Math.pow(d, 2.0)` is exactly `d * d`.
- Java's jagged `double[][]` is modelled as a rectangular `array2`. Rows of different lengths and rows shared between arrays are not modelled.
- The exceptions the Java code would throw are not modelled. These are out-of-bounds indexes and negative array sizes. The conditions that avoid them are the preconditions of the two entry methods.
- MoravecEngine.Sq: the contract states only that the square is non-negative, not that it is zero exactly for a zero difference.
- GridBuilder.Intensity: the contract states only the range [0, 254.745]; the value 0.333 * (red + green + blue) is stated by `GroupValueDecodes`.
- GridBuilder.GroupValue: the contract states only the range of each path; the value itself is stated by `GroupValueDecodes`.
- MoravecEngine.IntensityVariation: the contract states the sign and the zero outside the interior; that an interior cell holds its variation is stated by `VariationPass`.
- MoravecEngine.Score: the contract states the range and the threshold rule; the value of an interior cell is stated about the loops by `ScoreCell` and `ScoringPass`.
- MoravecEngine.CornerScore: the contract states the range and the threshold rule; the value of an interior cell is stated by `MoravacAlgorithm`.
- GridBuilder.RedOf: the contract states only the 0..255 range; what it extracts from a packed pixel is stated by `UnpackOpaqueArgb`.
- GridBuilder.GreenOf: the contract states only the 0..255 range; what it extracts from a packed pixel is stated by `UnpackOpaqueArgb`.
- GridBuilder.BlueOf: the contract states only the 0..255 range; what it extracts from a packed pixel is stated by `UnpackOpaqueArgb`.
