# uncoverml patch extraction, modelled in Dafny

This project models `uncoverml/patch.py`, the image patch module of uncoverml.
The module cuts square patches of side `psize = 2 * pwidth + 1` out of a 2-D
or 3-D image. It does this in three ways:

- `grid_patches` takes them on a regular grid of top-left corners, one every
  `pstride` pixels, centred in each axis by `_spacing`.
- `point_patches` takes them around given centre points.
- `image_windows` cuts the image into about `nwindows` sub-windows. Each
  window's own patch grid lines up with the grid of the whole image.

`_checkim` reads the image dimensions, and a 2-D image counts as having one
channel.

The project has two modules:

- `Builtins` (`builtins.dfy`) models the Python and numpy primitives the code
  is written in. These are `range` with a positive step, basic slicing that
  clips a bound past the end, row-major `flatten`/`reshape`,
  `numpy.array_split`, `int(round(sqrt(n)))` and the order of a nested list
  comprehension. Each primitive comes with lemmas that describe it without
  reference to its definition.
- `Patch` (`patch.dfy`) models the five functions of the module and proves
  what they promise.
  - An image is its shape together with its pixels, `cells[row][col][channel]`.
  - Errors are values of a `Result` type. There is one error for each
    exception the code raises: a bad rank, points outside the image, a shape
    with fewer than two axes, and a window count that gives no windows.
  - `grid_patches` is an imperative method with the nested loops of the
    source. Its postcondition ties the result to the function `Grid`, and the
    properties are proved about `Grid`.
  - `point_patches` and `image_windows` are pure functions.

The main results are the following.

- `_spacing` places its corners `pstride` apart. It shares the slack that the
  stride leaves over between the two ends, putting the smaller half first.
- Every grid patch without a centre offset lies wholly inside the image and
  is the square around its reported centre. It has the documented
  `psize**2 * channels` values, each pixel at its row-major place.
- Asking `point_patches` for the centre of any grid patch gives that patch
  back.
- `image_windows` makes `min(k, |row corners|) * min(k, |col corners|)`
  windows, with `k = round(sqrt(nwindows))`. All of them lie inside the image.
- The source promises that running `grid_patches` on a cropped window, with
  the window's corner as centre offset, gives exactly the whole image's grid
  restricted to that window's corners. The model proves this, patches and
  centres alike.

## Model

| member | source | states |
|---|---|---|
| Builtins.Range | uncoverml/patch.py:153 | definition, no contract of its own: `range(start, stop, step)` for a positive step, the numbers start, start + step, ... below stop; RangeAt and RangeLength state its properties |
| Builtins.RangeAt | uncoverml/patch.py:153 | element i of `range(start, stop, step)` is `start + i * step` and lies below stop; the range is empty exactly when `start >= stop`; otherwise one more step would reach stop |
| Builtins.RangeLength | uncoverml/patch.py:153 | a non-empty range has `(stop - 1 - start) / step + 1` elements |
| Builtins.Slice | uncoverml/patch.py:99-100 | Python slicing `s[lo:hi]` clips a bound past the end: its length is `hi - lo` inside the sequence, `|s| - lo` when hi runs past the end, and 0 for an empty or inverted range; element i is `s[lo + i]` |
| Builtins.Block | uncoverml/patch.py:47-52 | `a[r0:r1, c0:c1]` keeps the clipped rows, and row i is the clipped column slice of row `r0 + i` |
| Builtins.BlockOfBlock | uncoverml/patch.py:135-137 | slicing a slice is one slice of the whole array, shifted by the outer slice's corner |
| Builtins.Flatten | uncoverml/patch.py:52 | definition, no contract of its own: `flatten`/`reshape` of a block in C order, row by row, pixel by pixel, channel by channel; FlattenEntry and FlattenLength state its layout |
| Builtins.FlattenEntry | uncoverml/patch.py:52 | `flatten`/`reshape` of a rows x w x c block puts entry (i, j, k) at position `(i * w + j) * c + k` |
| Builtins.FlattenLength | uncoverml/patch.py:42 | a rows x w x c block flattens to `rows * w * c` values |
| Builtins.SectionSize | uncoverml/patch.py:138-139 | definition, no contract of its own: numpy's `array_split` section size, `total / n` plus one for the first `total % n` sections; SectionAt and ArraySplitSections use it |
| Builtins.DivPoint | uncoverml/patch.py:138-139 | definition, no contract of its own: where section i of `array_split` starts, the running sum of the sizes before it; DivPointClosed gives its closed form and DivPointBound its bounds |
| Builtins.ArraySplit | uncoverml/patch.py:138-139 | `np.array_split(s, n)` gives exactly n sections |
| Builtins.SectionAt | uncoverml/patch.py:138-139 | section i is the contiguous run `s[DivPoint(i)..DivPoint(i + 1)]` and has `|s| / n` elements, plus one for each of the first `|s| % n` sections |
| Builtins.ArraySplitSections | uncoverml/patch.py:138-139 | every section is contiguous, the sections come in order, and their sizes differ by at most one with the larger first |
| Builtins.ArraySplitNonEmpty | uncoverml/patch.py:138-142 | section i is non-empty exactly when `i < min(n, |s|)` |
| Builtins.ArraySplitConcat | uncoverml/patch.py:138-139 | the sections concatenate back to the input: nothing is lost or reordered |
| Builtins.DivPointClosed | uncoverml/patch.py:138-139 | section i starts at `i * (total / n) + min(i, total % n)` |
| Builtins.DivPointBound | uncoverml/patch.py:138-139 | the section boundaries stay within the input, and the last one is its end |
| Builtins.RoundSqrt | uncoverml/patch.py:131 | `int(round(sqrt(n)))` is the k with `k*k - k < n <= k*k + k`, and 0 for n = 0 |
| Builtins.RoundSqrtNearest | uncoverml/patch.py:131 | that k is within 1/2 of `sqrt(n)`: `(2k - 1)^2 < 4n < (2k + 1)^2` |
| Builtins.RoundSqrtUnique | uncoverml/patch.py:131 | no other integer is within 1/2 of `sqrt(n)`, so the rounding has no ties |
| Builtins.Row | uncoverml/patch.py:141-142 | the inner comprehension `[f(y, x) for x in xs]` has `|xs|` entries, entry j being `f(y, xs[j])` |
| Builtins.RowMajor | uncoverml/patch.py:141-142 | the nested comprehension has `|ys| * |xs|` entries |
| Builtins.RowMajorEntry | uncoverml/patch.py:141-142 | in the nested comprehension, `f(ys[i], xs[j])` sits at position `i * |xs| + j` (row-major order) |
| Builtins.RowMajorIndex | uncoverml/patch.py:141-142 | every position k is `i * |xs| + j` for a pair (i, j), and holds `f(ys[i], xs[j])` |
| Builtins.RowMajorCongruence | uncoverml/patch.py:141-142 | two nested comprehensions that agree entry by entry are equal |
| Builtins.RowMajorSlice | uncoverml/patch.py:135-139 | the comprehension over sub-runs `ys[a..b]` and `xs[c..e]` holds, for (u, v), the entry the whole comprehension holds for (u, v) |
| Patch.CheckIm | uncoverml/patch.py:156-165 | rank 3 gives (rows, cols, channels), rank 2 gives (rows, cols, 1), and any other rank is refused with BadRank |
| Patch.CheckImCount | uncoverml/patch.py:156-165 | `rows * cols * channels` equals the number of elements of the array, for both accepted ranks |
| Patch.ClampStride | uncoverml/patch.py:43 | `max(1, pstride)` is at least 1, leaves a positive stride unchanged, and makes every stride below 1 exactly 1, so a non-positive pstride behaves as a stride of 1 |
| Patch.Spacing | uncoverml/patch.py:147-153 | `_spacing` gives corners exactly when a patch fits in the axis, and every patch on them fits |
| Patch.SpacingShape | uncoverml/patch.py:147-153 | with `span = dimension - psize`, there are `span / pstride + 1` corners; corner i is `slack / 2 + i * pstride`; the slack `span % pstride` is split with `slack / 2` before the first patch and the rest after the last |
| Patch.SpacingOfWindow | uncoverml/patch.py:135-137 | an axis exactly k strides longer than a patch has k + 1 corners, at 0, pstride, 2 * pstride, ... |
| Patch.PatchPixel | uncoverml/patch.py:47-52 | for a patch inside the image, channel k of pixel `(y + i, x + j)` sits at position `(i * psize + j) * channels + k` of the flattened patch |
| Patch.PatchAt | uncoverml/patch.py:47-52 | definition, no contract of its own: the patch with top-left corner (y, x): the clipped psize x psize block `image[y:y + psize, x:x + psize]` flattened; PatchAtInside, PatchLength and PatchPixel state its contents |
| Patch.PatchAtInside | uncoverml/patch.py:47-52 | a patch inside the image has `psize * psize * channels` values and holds every pixel of its square in row-major order |
| Patch.PatchLength | uncoverml/patch.py:99-100 | a patch whose corner is in the image keeps only the rows and columns that exist: `min(psize, rows - y) * min(psize, cols - x) * channels` values |
| Patch.PatchFull | uncoverml/patch.py:41-42 | a patch inside the image has exactly `rsize = psize**2 * channels` values |
| Patch.EntryAt | uncoverml/patch.py:52-58 | definition, no contract of its own: the triple grid_patches yields for corner (y, x): the patch there and its centre, pwidth further in, plus the centre offset when one is given; GridEntryValue and GridEntryWhole state it |
| Patch.GridEntry | uncoverml/patch.py:49-60 | definition, no contract of its own: EntryAt as a function value, the body of the inner loop applied by the row-major comprehension |
| Patch.GridEntryValue | uncoverml/patch.py:52-58 | proof helper: the grid entry for corner (y, x) is the patch there, centred at `(y + pwidth, x + pwidth)` plus the centre offset if one is given |
| Patch.Grid | uncoverml/patch.py:40 | grid_patches fails exactly when `_checkim` does, and then with BadRank |
| Patch.GridRow | uncoverml/patch.py:49-60 | the inner loop yields the entries for corner row y at each corner column in turn |
| Patch.GridPatches | uncoverml/patch.py:8-60 | the nested loops yield exactly `Grid`, or the `_checkim` error |
| Patch.GridLayout | uncoverml/patch.py:46-60 | grid_patches yields `|row corners| * |col corners|` entries, and the entry for corner `(ys[i], xs[j])` is at position `i * |xs| + j` |
| Patch.GridOverAt | uncoverml/patch.py:46-60 | a grid over corners ys, xs holds the entry for `(ys[i], xs[j])` at position `i * |xs| + j` |
| Patch.GridOfDims | uncoverml/patch.py:40-49 | proof helper: for an image with dimensions d, the grid runs over `_spacing` of rows and of columns with the clamped stride |
| Patch.GridEntryWhole | uncoverml/patch.py:41-54 | the entry for a corner with room for a whole patch lies inside the image, is the square around its centre and has `rsize` values |
| Patch.GridOverInside | uncoverml/patch.py:46-54 | every entry of a grid over corners with room for a whole patch is such a whole patch |
| Patch.GridInside | uncoverml/patch.py:28-54 | every patch grid_patches yields (without an offset) lies inside the image, is the square around its reported centre and has the documented `psize**2 * channels` values, so the reshape never fails |
| Patch.InBounds | uncoverml/patch.py:91-97 | definition, no contract of its own: the bounds check as written, `pwidth <= row <= rows - pwidth` and the same for columns; PointPatchLength and PointPatchesEdgeExample show that it admits a clipped patch |
| Patch.PatchesAround | uncoverml/patch.py:99-101 | definition, no contract of its own: the generator, the flattened patch around each point in the order of the points; PointPatches states what it returns |
| Patch.PointPatches | uncoverml/patch.py:87-101 | point_patches fails with BadRank on a bad rank; otherwise it succeeds exactly when every point passes its bounds check, and then returns, in order, the patch cut around each point |
| Patch.PointPatchLength | uncoverml/patch.py:91-100 | as written, a returned patch has Kept rows times Kept columns of pixels: a centre on row `rows - pwidth` (or column `cols - pwidth`) is accepted, and its patch loses its last row (or column) |
| Patch.KeptLength | uncoverml/patch.py:99-100 | the patch around a point the bounds check accepts has `Kept(row) * Kept(col) * channels` values |
| Patch.PointPatchesEdgeExample | uncoverml/patch.py:91-100 | on any 3 x 3 image with pwidth 1, the centre (2, 1) is accepted and yields 6 values instead of 9 |
| Patch.PointPatchesStrict | uncoverml/patch.py:91-101 | point_patches with the bounds check corrected: it accepts exactly the points whose whole patch lies in the image, and returns the patch around each |
| Patch.PointPatchesStrictAgrees | uncoverml/patch.py:95-97 | whatever the corrected check accepts, the check as written accepts too, with the same patches |
| Patch.PointPatchesStrictFull | uncoverml/patch.py:80-83 | under the corrected check every returned patch has the documented `(pwidth * 2 + 1)**2 * channels` values |
| Patch.SinglePointStrict | uncoverml/patch.py:99-101 | proof helper: with the corrected check, a single point well inside the image gives the square around it |
| Patch.SinglePoint | uncoverml/patch.py:99-101 | proof helper: a single point well inside the image gives the square around it under both bounds checks |
| Patch.PatchesAroundOne | uncoverml/patch.py:99-101 | proof helper: the generator over a single point yields the one patch around it |
| Patch.WholePatchPoint | uncoverml/patch.py:95-100 | a patch that lies wholly inside the image is what either check returns for its centre |
| Patch.PointPatchesMatchGrid | uncoverml/patch.py:99-100 | asking point_patches for the centre of any grid patch gives back that grid patch, under both bounds checks |
| Patch.NonEmpty | uncoverml/patch.py:141-142 | dropping the empty chunks (`if len(sy) > 0`) loses no corner and adds no chunk |
| Patch.NonEmptyPrefix | uncoverml/patch.py:141-142 | when the non-empty chunks are the first m, exactly those m are kept, in order |
| Patch.ImageWindows | uncoverml/patch.py:104-144 | image_windows is refused exactly for a negative count, a count that rounds to no windows, or a shape with fewer than two axes; a shape too short for `imshape[1]` is reported first unless the count is negative |
| Patch.AxisChunksPartition | uncoverml/patch.py:138-139 | the runs of an axis concatenate back to its corners, number `min(npside, |corners|)`, and are the array_split sections, sized within one of each other |
| Patch.ChunkCorner | uncoverml/patch.py:138-139 | corner t of a run is t strides past its first corner, and its patch fits in the axis |
| Patch.ChunksAligned | uncoverml/patch.py:138-139 | every run of an axis is stride-aligned and fits in the axis |
| Patch.AxisChunks | uncoverml/patch.py:138-142 | definition, no contract of its own: `array_split` of an axis's corners into npside runs, with the empty runs dropped (`if len(..) > 0`); AxisChunksPartition, ChunkRun and ChunksAligned state its properties |
| Patch.ChunkRun | uncoverml/patch.py:138-139 | run i is section i of the axis's corners, taken as a slice, and is aligned inside the axis |
| Patch.RunIndex | uncoverml/patch.py:141 | corner a of an aligned run is a strides past its first corner, and its patch ends no later than the last corner's patch |
| Patch.WindowOf | uncoverml/patch.py:141 | definition, no contract of its own: the slice pair `(slice(sy[0], sy[-1] + psize), slice(sx[0], sx[-1] + psize))` for a row run and a column run; WindowSpan and ImageWindowsInside state its extent |
| Patch.WindowSpan | uncoverml/patch.py:141 | a window `slice(sy[0], sy[-1] + psize)` starts at the first corner, ends inside the axis, is at least one patch long, and spans `(len - 1) * stride + psize` |
| Patch.ImageWindowsCount | uncoverml/patch.py:125-127 | image_windows returns `min(k, |ys|) * min(k, |xs|)` windows with `k = round(sqrt(nwindows))`; that is exactly the documented `k**2` when each axis has at least k corners |
| Patch.ImageWindowsInside | uncoverml/patch.py:141 | every window lies inside the image and is at least one patch tall and wide |
| Patch.ImageWindowsAt | uncoverml/patch.py:141-142 | the window for row run i and column run j is at position `i * (number of column runs) + j` and spans those runs |
| Patch.SpanLength | uncoverml/patch.py:141 | a slice inside an axis keeps `stop - start` elements |
| Patch.CropDims | uncoverml/patch.py:135-141 | cutting out a window gives an image of the same rank whose height and width are the extents of its runs |
| Patch.CropPatch | uncoverml/patch.py:135-137 | the patch at (y, x) of a cropped block is the patch of the image at the corner shifted by the crop's top-left corner |
| Patch.WindowPatch | uncoverml/patch.py:135-137 | the patch at a strides and b strides in a window is the image's patch at corner a of the row run and corner b of the column run |
| Patch.WindowEntry | uncoverml/patch.py:135-137 | one grid entry of a window, offset by the window's corner, equals the whole image's grid entry at the same corner, patch and centre alike |
| Patch.WindowEntries | uncoverml/patch.py:135-137 | the same, for every entry of the window's grid |
| Patch.GridOfCrop | uncoverml/patch.py:135-137 | the grid of a window runs over the `_spacing` of the window's own height and width |
| Patch.WindowGrid | uncoverml/patch.py:135-137 | grid_patches on a window, offset by its corner, yields exactly the whole image's grid over that window's runs |
| Patch.GridOverSlice | uncoverml/patch.py:135-139 | a grid over sub-runs `ys[a..b]` and `xs[c..e]` holds, for corner `(ys[u], xs[v])`, the entry the whole grid holds at position `u * |xs| + v` |
| Patch.ImageWindowsGrid | uncoverml/patch.py:135-144 | for every window (i, j) that image_windows returns, grid_patches on the window, offset by its corner, yields exactly the whole image's grid over section i of the row corners and section j of the column corners |

## Left out

- Laziness: `grid_patches` is a generator, so `_checkim`'s error only appears when iteration starts, and `point_patches` returns a generator of patches. The model computes every result at once and reports errors as values.
- Floating point: `_spacing`'s `np.floor(float(...) / 2)` is exact integer halving of a non-negative value, and `np.sqrt` followed by `round` is modelled on integers as the nearest integer to the square root. A negative count, whose square root is NaN and whose `int(round(...))` raises, is the `NoWindows` error.
- Integer widths: numpy integer overflow is not modelled, and all sizes are unbounded.
- `pwidth` is a natural number. A negative half-width, which the code does not reject, is outside the model.
- Point coordinates are integers. Points given as floats, and the `(N, 2)` array shape check numpy performs on `points[:, 0]`, are not modelled.
- Patch.Grid, Patch.GridRow, Patch.GridPatches: the value dtype and the `float` the docstring gives for centres are not modelled. Centres are integers, and the centre offset is an integer pair.
- `grid_patches` reshapes each block to `rsize` values, which raises when the block is short. That cannot happen for the corners `_spacing` gives (Patch.GridInside), so the model has no error for it.
- Patch.GridInside is stated without a centre offset. The offset only moves the reported centres (Patch.GridEntryValue), not the patches.
- An image whose pixel array disagrees with its shape is outside the model: the lemmas about pixels assume `WellFormed`.

## Findings

| source | as written | input that shows it | evidently intended | confidence | as-written member | corrected member |
|---|---|---|---|---|---|---|
| uncoverml/patch.py:92-97 | the bounds check refuses a centre only when it is greater than `rows - pwidth` (or `cols - pwidth`), so a centre on row `rows - pwidth` is accepted and its slice `[row - pwidth, row + pwidth + 1)` runs one row past the image; numpy clips it and the patch has `2 * pwidth` rows instead of `psize` | any 3 x 3 one-channel image, pwidth 1, the point (2, 1): accepted, and the patch has 6 values where the documented shape has 9 | refuse centres with `row + pwidth >= rows` (or `col + pwidth >= cols`), so that every patch has `(pwidth * 2 + 1)**2 * channels` values | not executed | Patch.PointPatchesEdgeExample | Patch.PointPatchesStrictFull |
