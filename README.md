# Mandelbrot renderer — a Dafny model

This project models the rendering engine of the Mandelbort WPF application, all of it in
`Mandelbort.Application/MainWindow.xaml.cs`:

- **Escape** — `MainWindow.Mandelbrot`. This is the escape-time do-while loop `z := z*z + c`, which runs while
  `Magnitude <= 4` and the counter is below `maxIterations`. It is followed by the interior test and the smoothed
  count `iterations + 1 - log10(log2 |z|)`. The loop is the method `Escape.Mandelbrot`, proved equal to the
  function `Escape.MandelbrotValue`. The lemmas tie that function to an independent description by the orbit
  `Escape.Orbit` and the first escaping step (`Escape.IsExitCount`).
- **ColorMap** — the `MandelColor` struct:
  - `GetRelativeColor`: the exact-match lookup, the scan for the nearest stops below and above, and the
    per-channel interpolation.
  - `GetColor` and the static 11-stop gradient.
  - `FromIterations` and `Rgb`.

  The method `ColorMap.GetRelativeColor` keeps the source's `foreach` loop. It is proved equal to the function
  `ColorMap.RelativeColor`. The lemmas state that function's outcomes as nearest stops, interpolation bounds and
  error cases.
- **MainWindow** — `DrawMandelbrot`:
  - the list of 8×8 chunks;
  - the per-chunk pixel loops;
  - the writes `buffer[i + j * pw] = Rgb(...)`.

  The methods `MainWindow.BuildChunks`, `MainWindow.FillColumn`, `MainWindow.FillChunk` and
  `MainWindow.DrawMandelbrot` follow the source's loops over a Dafny `array`. The buffer state after each one is
  stated by a function of the old state (`Paint`, `DrawTile`, `Image`, `Picture`). The lemmas prove:
  - the chunks lie inside the buffer and are pairwise disjoint;
  - together they cover every pixel exactly once when the size is divisible by 8;
  - the final buffer holds each covered pixel's colour and 0 elsewhere.

Floating-point values (`double`, and the `float` casts of colour channels) are modelled as exact reals. The
buffer's `int` cells are modelled as `bv32`. `Rgb` always yields a value below 2^24, so the int is non-negative
and has the same bits (`ColorMap.RgbValue`).

The model keeps these behaviours of the code:
- The loop goes on while `Magnitude <= 4`, so a point escapes once `|z| > 4`.
- An interior point returns `maxIterations` itself, as a double, and `FromIterations` colours exactly that value
  black.
- A loop that stopped with the counter at `maxIterations` counts as interior, even when `z` left the bound on that
  very step.
- The smoothed count `count + 1 - log10(log2 |z|)` is used for every escaped point, whatever `|z|` is.
- A gradient lookup at an offset below the smallest or above the largest stop offset finds the same stop as both
  neighbours, so every channel is `0/0`, i.e. NaN.
- The chunk size is `pw / 8` by `ph / 8`, truncated. When the width or height is not a multiple of 8, the last
  `pw % 8` columns and `ph % 8` rows lie in no chunk and stay 0.

## Model

| member | source | states |
|---|---|---|
| Escape.Mandelbrot | Mandelbort.Application/MainWindow.xaml.cs:347-363 | the do-while loop and the return expression compute MandelbrotValue: the loop's exit count, maxIterations when that count reached the limit, else count + 1 - smooth(z) |
| Escape.StepFromZero | Mandelbort.Application/MainWindow.xaml.cs:349-355 | the first pass of the body from z = 0 lands on c |
| Escape.ContinueFollowsOrbit | Mandelbort.Application/MainWindow.xaml.cs:353-357 | from counter k at orbit point k, the loop stops at a count n >= k where the guard held at every earlier step, and its z is the orbit point n |
| Escape.EscapeLoopIsExit | Mandelbort.Application/MainWindow.xaml.cs:353-357 | the loop stops at the first step n >= 1 at which the orbit has escaped or n has reached maxIterations, with z the orbit point n |
| Escape.ExitCountUnique | Mandelbort.Application/MainWindow.xaml.cs:353-357 | any count with that first-stop property is the loop's exit count (the characterisation is exact) |
| Escape.EscapeCountBounds | Mandelbort.Application/MainWindow.xaml.cs:353-357 | the body runs at least once; the count never exceeds maxIterations when that is at least 1 and is 1 otherwise |
| Escape.ReachingBudgetIsInterior | Mandelbort.Application/MainWindow.xaml.cs:357-360 | when the orbit stays within the bound for the first maxIterations - 1 steps the result is maxIterations, whatever the last step does |
| Escape.EscapeBeforeBudget | Mandelbort.Application/MainWindow.xaml.cs:357-362 | when the orbit first escapes at a step n < maxIterations the result is n + 1 - smooth(orbit point n) |
| Escape.OriginIsInterior | Mandelbort.Application/MainWindow.xaml.cs:349-360 | the origin never escapes, so it yields maxIterations for every limit of at least 1 |
| Escape.FirstStepEscape | Mandelbort.Application/MainWindow.xaml.cs:353-362 | a point with squared modulus above 16 stops after one pass; it yields 1 when the limit is 1 and 2 - smooth(c) for any other limit |
| Escape.ThreePlusThreeIEscapesAtOnce | Mandelbort.Application/MainWindow.xaml.cs:353-362 | 3 + 3i escapes on the first pass for every limit, with the value FirstStepEscape gives |
| ColorMap.Matching | Mandelbort.Application/MainWindow.xaml.cs:241 | the Where query keeps only stops at the requested offset and keeps every one of them |
| ColorMap.MinOffset | Mandelbort.Application/MainWindow.xaml.cs:244 | for a non-empty collection, some stop has the result offset and none has a smaller one |
| ColorMap.MaxOffset | Mandelbort.Application/MainWindow.xaml.cs:245 | for a non-empty collection, some stop has the result offset and none has a larger one |
| ColorMap.FirstWith | Mandelbort.Application/MainWindow.xaml.cs:244-245 | a stop with the given offset, with no earlier stop at that offset |
| ColorMap.NearestBelow | Mandelbort.Application/MainWindow.xaml.cs:247-252 | None only when no stop lies strictly below the offset; otherwise the first stop with the greatest offset strictly below it |
| ColorMap.NearestAbove | Mandelbort.Application/MainWindow.xaml.cs:253-256 | None only when no stop lies strictly above the offset; otherwise the first stop with the least offset strictly above it |
| ColorMap.NearestBelowUnique | Mandelbort.Application/MainWindow.xaml.cs:247-252 | among the first n stops at most one position is the first nearest stop below the offset |
| ColorMap.NearestAboveUnique | Mandelbort.Application/MainWindow.xaml.cs:253-256 | among the first n stops at most one position is the first nearest stop above the offset |
| ColorMap.ScanBelowScanned | Mandelbort.Application/MainWindow.xaml.cs:244-252 | after the loop has seen n stops, `before` is the nearest stop below among them, or still the minimum stop while none lies below |
| ColorMap.ScanAboveScanned | Mandelbort.Application/MainWindow.xaml.cs:245-256 | after the loop has seen n stops, `after` is the nearest stop above among them, or still the maximum stop while none lies above |
| ColorMap.BelowScanDone | Mandelbort.Application/MainWindow.xaml.cs:244-252 | after the whole loop, `before` is the nearest stop below, or the first minimum stop when none lies below |
| ColorMap.AboveScanDone | Mandelbort.Application/MainWindow.xaml.cs:245-256 | after the whole loop, `after` is the nearest stop above, or the first maximum stop when none lies above |
| ColorMap.GetRelativeColor | Mandelbort.Application/MainWindow.xaml.cs:239-267 | the method with its foreach loop returns RelativeColor: the matching stop's colour, the exception the lookup raises, or the colour interpolated between Before and After |
| ColorMap.MatchingNone | Mandelbort.Application/MainWindow.xaml.cs:241 | when no stop sits at the offset the match list is empty |
| ColorMap.MatchingUnique | Mandelbort.Application/MainWindow.xaml.cs:241 | with unique offsets, a stop at the offset is the only match |
| ColorMap.MatchingTwo | Mandelbort.Application/MainWindow.xaml.cs:241 | two distinct positions holding the offset give at least two matches |
| ColorMap.ExactMatch | Mandelbort.Application/MainWindow.xaml.cs:241-242 | with unique offsets, a stop at the requested offset is returned with its colour unchanged |
| ColorMap.DuplicateMatch | Mandelbort.Application/MainWindow.xaml.cs:241 | two stops at the requested offset make the lookup fail with MoreThanOneMatch |
| ColorMap.EmptyCollection | Mandelbort.Application/MainWindow.xaml.cs:241-244 | an empty collection fails with NoElements |
| ColorMap.LerpEndpoints | Mandelbort.Application/MainWindow.xaml.cs:261-264 | the channel formula gives the lower stop's channel at its offset and the upper stop's channel at its offset |
| ColorMap.LerpBetween | Mandelbort.Application/MainWindow.xaml.cs:261-264 | for an offset between the two stops, each interpolated channel lies between the two stops' channels |
| ColorMap.LerpAffine | Mandelbort.Application/MainWindow.xaml.cs:261-264 | the channel formula is affine in the offset: equal offset steps give equal channel steps |
| ColorMap.BracketStops | Mandelbort.Application/MainWindow.xaml.cs:244-256 | strictly inside the range, Before is the nearest stop below and After the nearest stop above |
| ColorMap.InterpolateBetween | Mandelbort.Application/MainWindow.xaml.cs:259-266 | interpolating between stops with different offsets succeeds, and each channel lies between theirs |
| ColorMap.Bracketed | Mandelbort.Application/MainWindow.xaml.cs:241-266 | when no stop sits at the offset, an offset strictly between the minimum and maximum offsets gets a colour whose channels lie between those of its nearest stops below and above |
| ColorMap.BelowRange | Mandelbort.Application/MainWindow.xaml.cs:244-256 | an offset below every stop makes Before and After the same stop |
| ColorMap.AboveRange | Mandelbort.Application/MainWindow.xaml.cs:244-256 | an offset above every stop makes Before and After the same stop |
| ColorMap.OutOfRange | Mandelbort.Application/MainWindow.xaml.cs:241-266 | when no stop sits at the offset, the result is NaN exactly when the offset is outside [minimum offset, maximum offset] |
| ColorMap.UnitInside | Mandelbort.Application/MainWindow.xaml.cs:241-266 | for stops spanning [0, 1] with unique offsets, every offset in [0, 1] gets a colour |
| ColorMap.UnitOutside | Mandelbort.Application/MainWindow.xaml.cs:241-266 | for such stops every offset outside [0, 1] gives NaN |
| ColorMap.GradientStopAt | Mandelbort.Application/MainWindow.xaml.cs:287-300 | stop k of the static gradient sits at offset k/10 |
| ColorMap.GradientOffsets | Mandelbort.Application/MainWindow.xaml.cs:285-302 | the 11 stops sit at offsets k/10: unique, smallest 0 and largest 1 |
| ColorMap.GetColorCases | Mandelbort.Application/MainWindow.xaml.cs:227-231 | GetColor gives a gradient colour for every value in [0, 1] and NaN for every value outside it |
| ColorMap.FromIterationsInterior | Mandelbort.Application/MainWindow.xaml.cs:272 | a value equal to maxIterations is coloured black |
| ColorMap.FromIterationsEscaped | Mandelbort.Application/MainWindow.xaml.cs:269-276 | a value in [0, maxIterations) gets the gradient colour at 1 - iterations / maxIterations |
| ColorMap.InterpolateNotBlack | Mandelbort.Application/MainWindow.xaml.cs:259-266 | when the conversion keeps nonzero channels nonzero (KeepsNonzero), interpolating strictly between two named colours that share a nonzero channel never gives black |
| ColorMap.GradientColors | Mandelbort.Application/MainWindow.xaml.cs:287-300 | no stop of the static gradient is black, and each stop shares a nonzero channel with the next |
| ColorMap.GradientBracket | Mandelbort.Application/MainWindow.xaml.cs:244-257 | an offset strictly inside (0, 1) that no stop holds is bracketed by two neighbouring stops k and k + 1 |
| ColorMap.GetColorNotBlack | Mandelbort.Application/MainWindow.xaml.cs:227-231 | under KeepsNonzero, GetColor of a value in [0, 1) is a colour that is not black |
| ColorMap.FromIterationsBlack | Mandelbort.Application/MainWindow.xaml.cs:269-276 | under KeepsNonzero, a count in [0, maxIterations] is coloured black exactly when it equals maxIterations |
| ColorMap.FromIterationsNaN | Mandelbort.Application/MainWindow.xaml.cs:269-276 | for a limit of at least 0, a value other than the limit that is below 0, above the limit, or paired with a zero limit gets the NaN colour |
| ColorMap.RgbValue | Mandelbort.Application/MainWindow.xaml.cs:308 | Rgb packs the bytes as R * 65536 + G * 256 + B, below 2^24 |
| ColorMap.RgbUnpack | Mandelbort.Application/MainWindow.xaml.cs:308 | each byte is recovered from the packed value by shifting and masking |
| MainWindow.ChunkOrderIsGrid | Mandelbort.Application/MainWindow.xaml.cs:122-129 | a list with chunk (n / 8, n % 8) at every position n holds every pair in 0..7 × 0..7 exactly once |
| MainWindow.BuildChunks | Mandelbort.Application/MainWindow.xaml.cs:122-129 | the nested loops produce 64 chunks, with (n / 8, n % 8) at position n |
| MainWindow.BufferIndex | Mandelbort.Application/MainWindow.xaml.cs:118-142 | i + j * pw is a valid index of a buffer of size pw * ph for every pixel (i, j) |
| MainWindow.BandInImage | Mandelbort.Application/MainWindow.xaml.cs:120-136 | a column or row inside band a of width len / 8 lies inside the image |
| MainWindow.RowBand | Mandelbort.Application/MainWindow.xaml.cs:121-136 | the row band of chunk b lies within [0, ph] |
| MainWindow.TileInImage | Mandelbort.Application/MainWindow.xaml.cs:120-136 | every pixel a chunk visits is inside the image |
| MainWindow.TilesInBounds | Mandelbort.Application/MainWindow.xaml.cs:133-142 | every buffer index a chunk writes is inside the buffer |
| MainWindow.TileOfPixel | Mandelbort.Application/MainWindow.xaml.cs:120-136 | a pixel lies in chunk (a, b) exactly when it is covered and its list position 8 * (i / sw) + j / sh is 8 * a + b |
| MainWindow.TileIndexRange | Mandelbort.Application/MainWindow.xaml.cs:122-136 | a covered pixel needs at least 8 columns and rows and its chunk's list position is in 0..63 |
| MainWindow.BandBelow | Mandelbort.Application/MainWindow.xaml.cs:120-136 | a coordinate inside the first 8 bands of width s falls in band i / s, between 0 and 7 |
| MainWindow.TilesDisjoint | Mandelbort.Application/MainWindow.xaml.cs:131-142 | no pixel lies in two different chunks, so the parallel bodies never write the same pixel |
| MainWindow.IndicesDistinct | Mandelbort.Application/MainWindow.xaml.cs:142 | distinct pixels write distinct buffer indices |
| MainWindow.CoverExactlyOnce | Mandelbort.Application/MainWindow.xaml.cs:120-136 | when pw and ph are multiples of 8, every pixel lies in chunk (i / sw, j / sh) and in no other |
| MainWindow.RemainderColumnUncovered | Mandelbort.Application/MainWindow.xaml.cs:120-136 | when pw is not a multiple of 8, the last column lies in no chunk |
| MainWindow.RemainderRowUncovered | Mandelbort.Application/MainWindow.xaml.cs:121-136 | when ph is not a multiple of 8, the last row lies in no chunk |
| MainWindow.WindowCovered | Mandelbort.Application/MainWindow.xaml.cs:83-84 | every pixel of the 4096 × 4096 window lies in chunk (i / 512, j / 512) and in no other |
| MainWindow.ShadePoint | Mandelbort.Application/MainWindow.xaml.cs:140-142 | the three calls give the packed colour of the point's escape value |
| MainWindow.PaintEmpty | Mandelbort.Application/MainWindow.xaml.cs:136 | painting an empty row range leaves the buffer unchanged |
| MainWindow.PaintCell | Mandelbort.Application/MainWindow.xaml.cs:136-142 | writing pixel (i, j) extends the painted rows of column i from j to j + 1 |
| MainWindow.PaintColumn | Mandelbort.Application/MainWindow.xaml.cs:133-142 | painting column i on top of columns [x0, i) gives columns [x0, i + 1) |
| MainWindow.DrawTileAt | Mandelbort.Application/MainWindow.xaml.cs:131-142 | after a chunk is drawn, its pixels hold their colour and every other cell is unchanged |
| MainWindow.DrawTilesCommute | Mandelbort.Application/MainWindow.xaml.cs:131-150 | drawing two chunks into a buffer gives the same buffer in either order |
| MainWindow.ImageStart | Mandelbort.Application/MainWindow.xaml.cs:118 | the freshly allocated buffer is the image after no chunk |
| MainWindow.ImageStep | Mandelbort.Application/MainWindow.xaml.cs:131-150 | drawing chunk n on the image of the first n chunks gives the image of the first n + 1 |
| MainWindow.ImageComplete | Mandelbort.Application/MainWindow.xaml.cs:131-150 | the image of all 64 chunks is the final picture |
| MainWindow.PictureAt | Mandelbort.Application/MainWindow.xaml.cs:118-142 | in the final picture a covered pixel holds its colour and every other cell holds 0 |
| MainWindow.PictureComplete | Mandelbort.Application/MainWindow.xaml.cs:118-142 | when pw and ph are multiples of 8, every pixel of the final picture holds its colour |
| MainWindow.PointOfPixel | Mandelbort.Application/MainWindow.xaml.cs:111-138 | pixel (i, j) is coloured as the point minX + i / pw * zoom, minY + j / ph * zoom |
| MainWindow.ShadePixel | Mandelbort.Application/MainWindow.xaml.cs:135-142 | the inner loop body computes pixel (i, j)'s colour from the column's x |
| MainWindow.FillColumn | Mandelbort.Application/MainWindow.xaml.cs:136-145 | the j loop writes the colour of every pixel of column i in the chunk's rows and changes no other cell |
| MainWindow.FillChunk | Mandelbort.Application/MainWindow.xaml.cs:131-150 | one Parallel.ForEach body writes the colour of every pixel of its chunk and changes no other cell |
| MainWindow.DrawMandelbrot | Mandelbort.Application/MainWindow.xaml.cs:103-153 | a fresh buffer of pw * ph cells in which every covered pixel holds its colour and every other cell holds 0 |
| MainWindow.DrawnPixel | Mandelbort.Application/MainWindow.xaml.cs:118-142 | each cell i + j * pw of the drawn buffer holds the colour of pixel (i, j) when it is covered, else 0 |

## Left out

- The WPF plumbing of `DrawMandelbrot` is not modelled. This covers the `Dispatcher.Invoke` reads of the bound
  properties (their values are the `View` in `Scene`) and the `PlotRegion` calls that copy columns to the bitmap.
- `Plot`, `ClearPlot`, `OnDraw` (the render thread) and `OnSave` (PNG export) are left out. They are UI and file I/O.
- `Parallel.ForEach` is modelled as a sequential loop over the chunk list. `DrawTilesCommute` shows that two chunks
  drawn in either order give the same buffer. `TilesDisjoint` and `IndicesDistinct` show that no two chunks write
  the same cell. Thread interleavings themselves are not modelled.
- IEEE doubles and `float` casts are exact reals. Rounding, infinities and the exact NaN payloads are not modelled.
  The gradient offsets 0.1 … 0.9 are exact tenths.
- `Complex.Magnitude` (a square root) is modelled by comparing `|z|^2` with 16, which is the same test over the reals.
- `Math.Log10(Math.Log(|z|, 2))` is the parameter `smooth`. Floating-point library functions are not modelled.
- The sRGB/scRGB conversions of `Color.FromRgb`, `Color.FromScRgb` and the `ScR`/`ScG`/`ScB` properties are the
  parameter `ColorSpace`. This includes the bytes a NaN channel turns into. WPF's conversion code is not part of
  this model.
- The statements after `return` in `GetColor` (the contrast adjustment) are unreachable, so they are not modelled.
- The `Black` property, the constructor and `Freeze` only wrap a value, so they have no rows of their own.
- FromIterationsNaN: covers only maxIterations >= 0. With a negative limit the quotient's sign flips; the function
  `FromIterations` still computes that case, but no lemma states its outcome.
- ColorMap.FromIterationsBlack: assumes `KeepsNonzero` of the colour conversions (a linear value at least that of a
  nonzero byte converts back to a nonzero byte). WPF's conversion code is not part of this model, so this is not
  proved. Outside [0, maxIterations] the colour is the NaN colour, which is black or not as `fromNaN` is 0 or not.
- MainWindow.DrawMandelbrot: requires a non-negative width and height, since the source allocates `new int[h * w]`,
  which throws for a negative size; that exception is not modelled.
