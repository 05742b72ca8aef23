/** Image patch extraction and windowing (uncoverml/patch.py): square
    patches of side 2 * pwidth + 1 taken on a regular grid or around given
    points, and the split of an image into sub-windows whose patch grids
    line up with the grid of the whole image.

    An image is its shape together with its pixels, indexed
    cells[row][col][channel]; a 2-D image is viewed with one channel. */
module Patch {
  import opened Builtins

  // ---------------------------------------------------------------------
  // Data model
  // ---------------------------------------------------------------------

  /** The ways the patch routines refuse their input. */
  datatype Error =
    | BadRank        // the image is neither 2-D nor 3-D
    | PointsOutside  // a requested patch centre is too close to the border
    | ShortShape     // the shape given for windowing has fewer than two axes
    | NoWindows      // no window count can be taken from the request

  datatype Result<T> = Ok(value: T) | Err(error: Error)

  /** Rows, columns and channels of an image. */
  datatype Dims = Dims(rows: nat, cols: nat, channels: nat)

  /** An ndarray of rank 2 or 3: its shape, and its pixels as
      cells[row][col][channel]. */
  datatype Image<T> = Image(shape: seq<nat>, cells: seq<seq<seq<T>>>)

  /** A (row, col) shift added to patch centres. */
  datatype Offset = Offset(row: int, col: int)

  /** One patch of the grid: its pixels flattened row by row, and the
      image coordinates of its centre. */
  datatype GridPatch<T> = GridPatch(patch: seq<T>, centreRow: int, centreCol: int)

  /** A requested patch centre. */
  datatype Point = Point(row: int, col: int)

  /** `slice(start, stop)`. */
  datatype Span = Span(start: nat, stop: nat)

  /** A sub-window: a slice of rows and a slice of columns. */
  datatype Window = Window(rows: Span, cols: Span)

  // ---------------------------------------------------------------------
  // _checkim
  // ---------------------------------------------------------------------

  /** The dimensions of an image: a 3-D image gives its three axes, a 2-D
      image has one channel, and any other rank is refused. */
  function CheckIm(shape: seq<nat>): (r: Result<Dims>)
    ensures r.Ok? <==> |shape| == 2 || |shape| == 3
    ensures r.Err? ==> r.error == BadRank
    ensures r.Ok? ==> r.value.rows == shape[0] && r.value.cols == shape[1]
    ensures r.Ok? ==> r.value.channels == (if |shape| == 3 then shape[2] else 1)
  {
    if |shape| == 3 then Ok(Dims(shape[0], shape[1], shape[2]))
    else if |shape| == 2 then Ok(Dims(shape[0], shape[1], 1))
    else Err(BadRank)
  }

  /** Number of elements of an array of the given shape. */
  function Product(shape: seq<nat>): nat
  {
    if |shape| == 0 then 1 else shape[0] * Product(shape[1..])
  }

  /** The dimensions _checkim reports account for every element of the
      array: nothing is dropped or invented by viewing a 2-D image as
      having one channel. */
  lemma {:induction false} CheckImCount(shape: seq<nat>)
    requires CheckIm(shape).Ok?
    ensures var d := CheckIm(shape).value;
            d.rows * d.cols * d.channels == Product(shape)
  {
    var d := CheckIm(shape).value;
    assert shape[1..][1..] == shape[2..];
    if |shape| == 3 {
      assert shape[2..][1..] == [];
      assert Product(shape[2..]) == shape[2];
    } else {
      assert Product(shape[2..]) == 1;
    }
    assert Product(shape) == shape[0] * (shape[1] * Product(shape[2..]));
    assert d.rows * d.cols * d.channels == d.rows * (d.cols * d.channels);
  }

  /** The pixels agree with the dimensions. */
  ghost predicate Conforms<T>(cells: seq<seq<seq<T>>>, d: Dims)
  {
    |cells| == d.rows &&
    (forall r :: 0 <= r < |cells| ==> |cells[r]| == d.cols) &&
    (forall r, c :: 0 <= r < |cells| && 0 <= c < |cells[r]| ==> |cells[r][c]| == d.channels)
  }

  /** An image whose pixels agree with its shape whenever the shape has a
      rank the patch code accepts. */
  ghost predicate WellFormed<T>(image: Image<T>)
  {
    CheckIm(image.shape).Ok? ==> Conforms(image.cells, CheckIm(image.shape).value)
  }

  // ---------------------------------------------------------------------
  // Patch size, stride and _spacing
  // ---------------------------------------------------------------------

  /** Full side of a patch of half-width pwidth. */
  function PatchSize(pwidth: nat): nat
  {
    2 * pwidth + 1
  }

  /** `max(1, pstride)`. */
  function ClampStride(pstride: int): (s: nat)
    ensures s >= 1
    ensures pstride >= 1 ==> s == pstride
    ensures pstride < 1 ==> s == 1
  {
    if pstride < 1 then 1 else pstride
  }

  /** Top-left corners of the patches along one axis of length dimension:
      every pstride-th position, starting at half the slack that the
      stride leaves over, for as long as a whole patch still fits. */
  function Spacing(dimension: nat, psize: nat, pstride: nat): (s: seq<nat>)
    requires pstride >= 1
    ensures |s| > 0 <==> dimension >= psize
    ensures forall i :: 0 <= i < |s| ==> s[i] + psize <= dimension
  {
    var span := dimension - psize;
    var offset := (span % pstride) / 2;
    RangeAt(offset, span + 1, pstride);
    ModBound(span, pstride);
    Range(offset, span + 1, pstride)
  }

  /** The corners along an axis that holds at least one patch: there are
      span / pstride + 1 of them, consecutive corners are pstride apart,
      and the slack span % pstride is shared between the two ends with the
      smaller half before the first patch. */
  lemma {:induction false} SpacingShape(dimension: nat, psize: nat, pstride: nat)
    requires pstride >= 1 && dimension >= psize
    ensures var s := Spacing(dimension, psize, pstride);
            var span := dimension - psize;
            var slack := span % pstride;
            |s| == span / pstride + 1 &&
            s[0] == slack / 2 &&
            span - s[|s| - 1] == slack - slack / 2 &&
            forall i :: 0 <= i < |s| ==> s[i] == slack / 2 + i * pstride
  {
    var span := dimension - psize;
    var slack := span % pstride;
    var q := span / pstride;
    var start := slack / 2;
    var s := Spacing(dimension, psize, pstride);
    ModBound(span, pstride);
    assert s == Range(start, span + 1, pstride);
    RangeAt(start, span + 1, pstride);
    RangeLength(start, span + 1, pstride);
    DivMod(span, pstride);
    DivUnique(span - start, pstride, q, slack - start);
  }

  /** An axis exactly k strides longer than a patch holds k + 1 patches,
      the first at 0 and each next one a stride further. */
  lemma {:induction false} SpacingOfWindow(k: nat, psize: nat, pstride: nat)
    requires pstride >= 1
    ensures var s := Spacing(k * pstride + psize, psize, pstride);
            |s| == k + 1 && forall i :: 0 <= i < |s| ==> s[i] == i * pstride
  {
    DivUnique(k * pstride, pstride, k, 0);
    SpacingShape(k * pstride + psize, psize, pstride);
  }

  // ---------------------------------------------------------------------
  // One patch
  // ---------------------------------------------------------------------

  /** `image[y:y+psize, x:x+psize]` flattened in row-major order (numpy
      clips a slice that runs past the border). */
  function PatchAt<T>(cells: seq<seq<seq<T>>>, y: nat, x: nat, psize: nat): seq<T>
  {
    Flatten(Block(cells, y, y + psize, x, x + psize))
  }

  /** The square block of an image under a patch that lies inside it:
      psize rows of psize pixels, each with every channel. */
  lemma {:induction false} BlockShape<T>(cells: seq<seq<seq<T>>>, d: Dims, y: nat, x: nat, psize: nat)
    requires Conforms(cells, d) && y + psize <= d.rows && x + psize <= d.cols
    ensures var blk := Block(cells, y, y + psize, x, x + psize);
            |blk| == psize && Uniform(blk, psize, d.channels)
  {
    var blk := Block(cells, y, y + psize, x, x + psize);
    forall i | 0 <= i < psize
      ensures |blk[i]| == psize
      ensures forall j :: 0 <= j < psize ==> |blk[i][j]| == d.channels
    {
      assert blk[i] == Slice(cells[y + i], x, x + psize);
    }
  }

  /** Pixel (i, j) of that block is pixel (y + i, x + j) of the image. */
  lemma {:induction false} BlockPixel<T>(cells: seq<seq<seq<T>>>, d: Dims, y: nat, x: nat, psize: nat,
                                         i: nat, j: nat)
    requires Conforms(cells, d) && y + psize <= d.rows && x + psize <= d.cols
    requires i < psize && j < psize
    ensures var blk := Block(cells, y, y + psize, x, x + psize);
            i < |blk| && j < |blk[i]| && blk[i][j] == cells[y + i][x + j]
  {
    BlockRow(cells, y, y + psize, x, x + psize, i);
  }

  /** Channel k of pixel (i, j) of a patch that lies inside the image, the
      image pixel (y + i, x + j), sits at position
      (i * psize + j) * channels + k of the patch. */
  lemma {:induction false} PatchPixel<T>(cells: seq<seq<seq<T>>>, d: Dims, y: nat, x: nat, psize: nat,
                                         i: nat, j: nat, k: nat)
    requires Conforms(cells, d) && y + psize <= d.rows && x + psize <= d.cols
    requires i < psize && j < psize && k < d.channels
    ensures At(PatchAt(cells, y, x, psize), (i * psize + j) * d.channels + k, cells[y + i][x + j][k])
  {
    var blk := Block(cells, y, y + psize, x, x + psize);
    BlockShape(cells, d, y, x, psize);
    BlockPixel(cells, d, y, x, psize, i, j);
    FlattenEntry(blk, psize, d.channels, i, j, k);
  }

  /** A patch that lies inside the image has psize * psize * channels
      values, and holds every pixel of the square in row-major order. */
  lemma {:induction false} PatchAtInside<T>(cells: seq<seq<seq<T>>>, d: Dims, y: nat, x: nat, psize: nat)
    requires Conforms(cells, d) && y + psize <= d.rows && x + psize <= d.cols
    ensures |PatchAt(cells, y, x, psize)| == psize * (psize * d.channels)
    ensures forall r, c, k :: y <= r < y + psize && x <= c < x + psize && 0 <= k < d.channels ==>
              At(PatchAt(cells, y, x, psize), ((r - y) * psize + (c - x)) * d.channels + k, cells[r][c][k])
  {
    PatchFull(cells, d, y, x, psize);
    forall r, c, k | y <= r < y + psize && x <= c < x + psize && 0 <= k < d.channels
      ensures At(PatchAt(cells, y, x, psize), ((r - y) * psize + (c - x)) * d.channels + k, cells[r][c][k])
    {
      ImagePixel(cells, d, y, x, psize, r, c, k);
    }
  }

  /** PatchPixel, for the image pixel (r, c) itself. */
  lemma {:induction false} ImagePixel<T>(cells: seq<seq<seq<T>>>, d: Dims, y: nat, x: nat, psize: nat,
                                         r: nat, c: nat, k: nat)
    requires Conforms(cells, d) && y + psize <= d.rows && x + psize <= d.cols
    requires y <= r < y + psize && x <= c < x + psize && k < d.channels
    ensures At(PatchAt(cells, y, x, psize), ((r - y) * psize + (c - x)) * d.channels + k, cells[r][c][k])
  {
    PatchPixel(cells, d, y, x, psize, r - y, c - x, k);
    assert y + (r - y) == r && x + (c - x) == c;
  }

  // ---------------------------------------------------------------------
  // grid_patches
  // ---------------------------------------------------------------------

  /** EntryAt as a function value, so that RowMajor can apply it to every
      pair of corners; it adds nothing to EntryAt. */
  function GridEntry<T>(cells: seq<seq<seq<T>>>, pwidth: nat, centreOffset: Option<Offset>)
    : (nat, nat) -> GridPatch<T>
  {
    (y: nat, x: nat) => EntryAt(cells, pwidth, centreOffset, y, x)
  }

  /** The grid entry whose patch has its top-left corner at (y, x); its
      centre is shifted by the optional centre offset. */
  function EntryAt<T>(cells: seq<seq<seq<T>>>, pwidth: nat, centreOffset: Option<Offset>, y: nat, x: nat)
    : GridPatch<T>
  {
    var patch := PatchAt(cells, y, x, PatchSize(pwidth));
    match centreOffset
    case None => GridPatch(patch, y + pwidth, x + pwidth)
    case Some(o) => GridPatch(patch, y + pwidth + o.row, x + pwidth + o.col)
  }

  /** The grid entries for the corner rows ys and corner columns xs, row
      by row. */
  function GridOver<T>(cells: seq<seq<seq<T>>>, pwidth: nat, ys: seq<nat>, xs: seq<nat>,
                       centreOffset: Option<Offset>): seq<GridPatch<T>>
  {
    RowMajor(ys, xs, GridEntry(cells, pwidth, centreOffset))
  }

  /** Everything grid_patches yields, in order, or the error _checkim
      raises. */
  function Grid<T>(image: Image<T>, pwidth: nat, pstride: int, centreOffset: Option<Offset>)
    : (r: Result<seq<GridPatch<T>>>)
    ensures r.Err? <==> CheckIm(image.shape).Err?
    ensures r.Err? ==> r.error == BadRank
  {
    match CheckIm(image.shape)
    case Err(e) => Err(e)
    case Ok(d) =>
      var psize := PatchSize(pwidth);
      var stride := ClampStride(pstride);
      Ok(GridOver(image.cells, pwidth, Spacing(d.rows, psize, stride), Spacing(d.cols, psize, stride),
                  centreOffset))
  }

  /** One row of grid_patches' inner loop: the patches whose top-left
      corner is in row y, at each of the corner columns xs in turn. */
  method GridRow<T>(cells: seq<seq<seq<T>>>, pwidth: nat, y: nat, xs: seq<nat>,
                    centreOffset: Option<Offset>)
    returns (row: seq<GridPatch<T>>)
    ensures row == Row(y, xs, GridEntry(cells, pwidth, centreOffset))
  {
    ghost var entry := GridEntry(cells, pwidth, centreOffset);
    var psize := PatchSize(pwidth);
    row := [];
    var j := 0;
    while j < |xs|
      invariant 0 <= j <= |xs|
      invariant row == Row(y, xs[..j], entry)
    {
      var x: nat := xs[j];
      var patch := PatchAt(cells, y, x, psize);
      var centreRow: int := y + pwidth;
      var centreCol: int := x + pwidth;
      if centreOffset.Some? {
        centreRow := centreRow + centreOffset.value.row;
        centreCol := centreCol + centreOffset.value.col;
      }
      assert entry(y, x) == GridPatch(patch, centreRow, centreCol);
      RowStep(y, xs, entry, j);
      row := row + [GridPatch(patch, centreRow, centreCol)];
      j := j + 1;
    }
    assert xs[..j] == xs;
  }

  /** grid_patches: walks the corner rows, and within each row the corner
      columns, and emits each patch with its (shifted) centre. */
  method GridPatches<T>(image: Image<T>, pwidth: nat, pstride: int, centreOffset: Option<Offset>)
    returns (r: Result<seq<GridPatch<T>>>)
    ensures r == Grid(image, pwidth, pstride, centreOffset)
  {
    var dims := CheckIm(image.shape);
    if dims.Err? {
      return Err(dims.error);
    }
    var d := dims.value;
    var psize := PatchSize(pwidth);
    var stride := ClampStride(pstride);
    var ys := Spacing(d.rows, psize, stride);
    var xs := Spacing(d.cols, psize, stride);
    ghost var entry := GridEntry(image.cells, pwidth, centreOffset);
    var out: seq<GridPatch<T>> := [];
    var i := 0;
    while i < |ys|
      invariant 0 <= i <= |ys|
      invariant out == RowMajor(ys[..i], xs, entry)
    {
      var row := GridRow(image.cells, pwidth, ys[i], xs, centreOffset);
      RowMajorStep(ys, xs, entry, i);
      out := out + row;
      i := i + 1;
    }
    assert ys[..i] == ys;
    return Ok(out);
  }

  /** The shift an optional centre offset adds to every centre. */
  function Shift(centreOffset: Option<Offset>): Offset
  {
    match centreOffset
    case None => Offset(0, 0)
    case Some(o) => o
  }

  /** The entry for corner (y, x): the patch there, centred pwidth in
      from the corner and moved by the centre offset. */
  lemma {:induction false} GridEntryValue<T>(cells: seq<seq<seq<T>>>, pwidth: nat,
                                             centreOffset: Option<Offset>, y: nat, x: nat)
    ensures GridEntry(cells, pwidth, centreOffset)(y, x)
         == GridPatch(PatchAt(cells, y, x, PatchSize(pwidth)),
                      y + pwidth + Shift(centreOffset).row, x + pwidth + Shift(centreOffset).col)
  {
    match centreOffset
    case None =>
    case Some(o) =>
  }

  /** e is the grid entry for top-left corner (y, x): the patch with that
      corner, centred pwidth further in and moved by the centre offset. */
  ghost predicate EntryFor<T>(e: GridPatch<T>, cells: seq<seq<seq<T>>>, pwidth: nat,
                              centreOffset: Option<Offset>, y: nat, x: nat)
  {
    e == GridPatch(PatchAt(cells, y, x, PatchSize(pwidth)),
                   y + pwidth + Shift(centreOffset).row, x + pwidth + Shift(centreOffset).col)
  }

  /** The grid has one entry per pair of corner row and corner column,
      in row-major order: the entry for corner (ys[i], xs[j]) sits at
      position i * |xs| + j and holds the patch with that top-left corner,
      centred pwidth further in plus the centre offset. */
  lemma {:induction false} GridLayout<T>(image: Image<T>, pwidth: nat, pstride: int,
                                         centreOffset: Option<Offset>, d: Dims, ys: seq<nat>, xs: seq<nat>,
                                         g: seq<GridPatch<T>>, i: nat, j: nat, k: nat)
    requires CheckIm(image.shape) == Ok(d) && Grid(image, pwidth, pstride, centreOffset) == Ok(g)
    requires ys == Spacing(d.rows, PatchSize(pwidth), ClampStride(pstride))
    requires xs == Spacing(d.cols, PatchSize(pwidth), ClampStride(pstride))
    requires i < |ys| && j < |xs| && k == i * |xs| + j
    ensures |g| == |ys| * |xs| && k < |g| && EntryFor(g[k], image.cells, pwidth, centreOffset, ys[i], xs[j])
  {
    GridOfDims(image, pwidth, pstride, centreOffset, d);
    GridOverAt(image.cells, pwidth, ys, xs, centreOffset, i, j, |xs|);
  }

  /** Entry i * width + j of a grid, width being the number of corner
      columns, is the patch with top-left corner (ys[i], xs[j]). */
  lemma {:induction false} GridOverAt<T>(cells: seq<seq<seq<T>>>, pwidth: nat, ys: seq<nat>, xs: seq<nat>,
                                         centreOffset: Option<Offset>, i: nat, j: nat, width: nat)
    requires i < |ys| && j < |xs| && width == |xs|
    ensures var g := GridOver(cells, pwidth, ys, xs, centreOffset);
            0 <= i * width + j < |g| && EntryFor(g[i * width + j], cells, pwidth, centreOffset, ys[i], xs[j])
  {
    RowMajorEntry(ys, xs, GridEntry(cells, pwidth, centreOffset), i, j, width);
    GridEntryValue(cells, pwidth, centreOffset, ys[i], xs[j]);
  }

  /** A grid entry that lies wholly inside the image: its centre is at
      least pwidth from every border, its patch is the square of side psize
      around that centre, and the patch holds psize * psize * channels
      values. */
  ghost predicate WholePatch<T>(e: GridPatch<T>, cells: seq<seq<seq<T>>>, d: Dims, pwidth: nat)
  {
    var psize := PatchSize(pwidth);
    pwidth <= e.centreRow && e.centreRow + pwidth < d.rows &&
    pwidth <= e.centreCol && e.centreCol + pwidth < d.cols &&
    e.patch == PatchAt(cells, e.centreRow - pwidth, e.centreCol - pwidth, psize) &&
    |e.patch| == psize * (psize * d.channels)
  }

  /** The entry for a corner that leaves room for a whole patch is a
      whole patch. */
  lemma {:induction false} GridEntryWhole<T>(cells: seq<seq<seq<T>>>, d: Dims, pwidth: nat, y: nat, x: nat)
    requires Conforms(cells, d)
    requires y + PatchSize(pwidth) <= d.rows && x + PatchSize(pwidth) <= d.cols
    ensures WholePatch(GridEntry(cells, pwidth, None)(y, x), cells, d, pwidth)
  {
    GridEntryValue(cells, pwidth, None, y, x);
    PatchLength(cells, d, y, x, PatchSize(pwidth));
  }

  /** Every entry of a grid over corners that leave room for a whole patch
      is a whole patch. */
  lemma {:induction false} GridOverInside<T>(cells: seq<seq<seq<T>>>, d: Dims, pwidth: nat,
                                             ys: seq<nat>, xs: seq<nat>, k: nat)
    requires Conforms(cells, d)
    requires forall i :: 0 <= i < |ys| ==> ys[i] + PatchSize(pwidth) <= d.rows
    requires forall j :: 0 <= j < |xs| ==> xs[j] + PatchSize(pwidth) <= d.cols
    requires k < |GridOver(cells, pwidth, ys, xs, None)|
    ensures WholePatch(GridOver(cells, pwidth, ys, xs, None)[k], cells, d, pwidth)
  {
    var i, j := RowMajorIndex(ys, xs, GridEntry(cells, pwidth, None), k);
    GridEntryWhole(cells, d, pwidth, ys[i], xs[j]);
  }

  /** Without a centre offset every patch grid_patches yields is a whole
      patch: none reaches past a border, each is exactly the square around
      its reported centre, and each has the documented
      psize * psize * channels values. */
  lemma {:induction false} GridInside<T>(image: Image<T>, pwidth: nat, pstride: int)
    requires WellFormed(image) && CheckIm(image.shape).Ok?
    ensures var g := Grid(image, pwidth, pstride, None).value;
            forall k :: 0 <= k < |g| ==> WholePatch(g[k], image.cells, CheckIm(image.shape).value, pwidth)
  {
    var d := CheckIm(image.shape).value;
    var psize := PatchSize(pwidth);
    var ys := Spacing(d.rows, psize, ClampStride(pstride));
    var xs := Spacing(d.cols, psize, ClampStride(pstride));
    var g := GridOver(image.cells, pwidth, ys, xs, None);
    assert Grid(image, pwidth, pstride, None).value == g;
    forall k | 0 <= k < |g|
      ensures WholePatch(g[k], image.cells, d, pwidth)
    {
      GridOverInside(image.cells, d, pwidth, ys, xs, k);
    }
  }

  // ---------------------------------------------------------------------
  // point_patches
  // ---------------------------------------------------------------------

  /** The bounds check of point_patches as written: a centre is refused
      when it is less than pwidth from the top or left border, or more than
      rows - pwidth (cols - pwidth) from the top (left). */
  predicate InBounds(p: Point, d: Dims, pwidth: nat)
  {
    pwidth <= p.row && p.row <= d.rows - pwidth &&
    pwidth <= p.col && p.col <= d.cols - pwidth
  }

  /** The patch around each point, in the order of the points. */
  function PatchesAround<T>(cells: seq<seq<seq<T>>>, points: seq<Point>, pwidth: nat): seq<seq<T>>
    requires forall i :: 0 <= i < |points| ==> points[i].row >= pwidth && points[i].col >= pwidth
  {
    seq(|points|, i requires 0 <= i < |points| =>
      PatchAt(cells, points[i].row - pwidth, points[i].col - pwidth, PatchSize(pwidth)))
  }

  /** point_patches as written: the rank is checked, then every point is
      checked against InBounds, and only then is a patch cut around each
      point, in order. */
  function PointPatches<T>(image: Image<T>, points: seq<Point>, pwidth: nat): (r: Result<seq<seq<T>>>)
    ensures CheckIm(image.shape).Err? ==> r == Err(BadRank)
    ensures CheckIm(image.shape).Ok? ==>
              (r.Ok? <==> forall i :: 0 <= i < |points| ==> InBounds(points[i], CheckIm(image.shape).value, pwidth))
    ensures CheckIm(image.shape).Ok? && r.Err? ==> r.error == PointsOutside
    ensures r.Ok? ==> |r.value| == |points|
    ensures r.Ok? ==> forall i :: 0 <= i < |points| ==>
              points[i].row >= pwidth && points[i].col >= pwidth &&
              r.value[i] == PatchAt(image.cells, points[i].row - pwidth, points[i].col - pwidth, PatchSize(pwidth))
  {
    match CheckIm(image.shape)
    case Err(e) => Err(e)
    case Ok(d) =>
      if forall i :: 0 <= i < |points| ==> InBounds(points[i], d, pwidth)
      then Ok(PatchesAround(image.cells, points, pwidth))
      else Err(PointsOutside)
  }

  /** The length of a patch whose top-left corner is inside the image:
      numpy keeps only the rows and columns that exist, so a patch that
      runs over the bottom or right border is shorter. */
  lemma {:induction false} PatchLength<T>(cells: seq<seq<seq<T>>>, d: Dims, y: nat, x: nat, psize: nat)
    requires Conforms(cells, d) && y <= d.rows && x <= d.cols
    ensures |PatchAt(cells, y, x, psize)| == Min(psize, d.rows - y) * (Min(psize, d.cols - x) * d.channels)
  {
    var blk := Block(cells, y, y + psize, x, x + psize);
    var h := Min(psize, d.rows - y);
    var w := Min(psize, d.cols - x);
    assert |blk| == h;
    forall i | 0 <= i < |blk|
      ensures |blk[i]| == w
      ensures forall j :: 0 <= j < w ==> |blk[i][j]| == d.channels
    {
      assert blk[i] == Slice(cells[y + i], x, x + psize);
    }
    assert Uniform(blk, w, d.channels);
    FlattenLength(blk, w, d.channels);
  }

  /** A patch that lies inside the image is psize * psize pixels of every
      channel. */
  lemma {:induction false} PatchFull<T>(cells: seq<seq<seq<T>>>, d: Dims, y: nat, x: nat, psize: nat)
    requires Conforms(cells, d) && y + psize <= d.rows && x + psize <= d.cols
    ensures |PatchAt(cells, y, x, psize)| == psize * (psize * d.channels)
  {
    PatchLength(cells, d, y, x, psize);
    assert Min(psize, d.rows - y) == psize && Min(psize, d.cols - x) == psize;
  }

  /** How many of the psize rows (or columns) of a patch centred at
      centre exist in an axis of length extent, for a centre point_patches
      accepts: all of them, except for a centre at extent - pwidth, which
      loses the last one. */
  function Kept(centre: int, pwidth: nat, extent: nat): nat
  {
    if centre + pwidth == extent then 2 * pwidth else PatchSize(pwidth)
  }

  /** Every patch point_patches returns has Kept rows times Kept columns
      of pixels, each with every channel: psize * psize * channels except
      for a centre on the last row or column it accepts, rows - pwidth or
      cols - pwidth, whose patch loses its bottom row or right column. */
  lemma {:induction false} PointPatchLength<T>(image: Image<T>, points: seq<Point>, pwidth: nat, i: nat)
    requires WellFormed(image) && PointPatches(image, points, pwidth).Ok? && i < |points|
    ensures var d := CheckIm(image.shape).value;
            |PointPatches(image, points, pwidth).value[i]|
              == Kept(points[i].row, pwidth, d.rows) * (Kept(points[i].col, pwidth, d.cols) * d.channels)
  {
    var d := CheckIm(image.shape).value;
    var p := points[i];
    assert InBounds(p, d, pwidth);
    assert PointPatches(image, points, pwidth).value[i]
        == PatchAt(image.cells, p.row - pwidth, p.col - pwidth, PatchSize(pwidth));
    KeptLength(image.cells, d, p, pwidth);
  }

  /** The patch around a point InBounds accepts has Kept rows of Kept
      pixels. */
  lemma {:induction false} KeptLength<T>(cells: seq<seq<seq<T>>>, d: Dims, p: Point, pwidth: nat)
    requires Conforms(cells, d) && InBounds(p, d, pwidth)
    ensures |PatchAt(cells, p.row - pwidth, p.col - pwidth, PatchSize(pwidth))|
         == Kept(p.row, pwidth, d.rows) * (Kept(p.col, pwidth, d.cols) * d.channels)
  {
    var psize := PatchSize(pwidth);
    var top, left := p.row - pwidth, p.col - pwidth;
    PatchLength(cells, d, top, left, psize);
    assert Min(psize, d.rows - top) == Kept(p.row, pwidth, d.rows);
    assert Min(psize, d.cols - left) == Kept(p.col, pwidth, d.cols);
  }

  /** Any 3 x 3 single-channel image with pwidth = 1: point_patches
      accepts the centre (2, 1) on the bottom row and returns 6 values
      where a 3 x 3 patch has 9. */
  lemma {:induction false} PointPatchesEdgeExample<T>(cells: seq<seq<seq<T>>>)
    requires Conforms(cells, Dims(3, 3, 1))
    ensures var r := PointPatches(Image([3, 3], cells), [Point(2, 1)], 1);
            r.Ok? && |r.value[0]| == 6 && PatchSize(1) * PatchSize(1) == 9
  {
    var image := Image([3, 3], cells);
    var d := Dims(3, 3, 1);
    assert CheckIm(image.shape) == Ok(d);
    assert forall i :: 0 <= i < |[Point(2, 1)]| ==> InBounds([Point(2, 1)][i], d, 1);
    PointPatchLength(image, [Point(2, 1)], 1, 0);
  }

  /** The bounds check point_patches evidently intends: the whole patch,
      including its last row and column, lies inside the image. */
  predicate InStrictBounds(p: Point, d: Dims, pwidth: nat)
  {
    pwidth <= p.row && p.row + pwidth < d.rows &&
    pwidth <= p.col && p.col + pwidth < d.cols
  }

  /** point_patches with the bounds check corrected. */
  function PointPatchesStrict<T>(image: Image<T>, points: seq<Point>, pwidth: nat): (r: Result<seq<seq<T>>>)
    ensures CheckIm(image.shape).Err? ==> r == Err(BadRank)
    ensures CheckIm(image.shape).Ok? ==>
              (r.Ok? <==> forall i :: 0 <= i < |points| ==> InStrictBounds(points[i], CheckIm(image.shape).value, pwidth))
    ensures CheckIm(image.shape).Ok? && r.Err? ==> r.error == PointsOutside
    ensures r.Ok? ==> |r.value| == |points|
    ensures r.Ok? ==> forall i :: 0 <= i < |points| ==>
              points[i].row >= pwidth && points[i].col >= pwidth &&
              r.value[i] == PatchAt(image.cells, points[i].row - pwidth, points[i].col - pwidth, PatchSize(pwidth))
  {
    match CheckIm(image.shape)
    case Err(e) => Err(e)
    case Ok(d) =>
      if forall i :: 0 <= i < |points| ==> InStrictBounds(points[i], d, pwidth)
      then Ok(PatchesAround(image.cells, points, pwidth))
      else Err(PointsOutside)
  }

  /** Whatever the corrected check accepts, the check as written accepts
      with the same patches. */
  lemma {:induction false} PointPatchesStrictAgrees<T>(image: Image<T>, points: seq<Point>, pwidth: nat)
    requires PointPatchesStrict(image, points, pwidth).Ok?
    ensures PointPatches(image, points, pwidth) == PointPatchesStrict(image, points, pwidth)
  {
    var d := CheckIm(image.shape).value;
    forall i | 0 <= i < |points|
      ensures InBounds(points[i], d, pwidth)
    {
      assert InStrictBounds(points[i], d, pwidth);
    }
  }

  /** With the corrected check every returned patch has the documented
      psize * psize * channels values (its pixels are placed as
      PatchAtInside states). */
  lemma {:induction false} PointPatchesStrictFull<T>(image: Image<T>, points: seq<Point>, pwidth: nat, i: nat)
    requires WellFormed(image) && PointPatchesStrict(image, points, pwidth).Ok? && i < |points|
    ensures var psize := PatchSize(pwidth);
            |PointPatchesStrict(image, points, pwidth).value[i]| == psize * (psize * CheckIm(image.shape).value.channels)
  {
    var d := CheckIm(image.shape).value;
    var psize := PatchSize(pwidth);
    var p := points[i];
    assert InStrictBounds(p, d, pwidth);
    var top, left := p.row - pwidth, p.col - pwidth;
    assert PointPatchesStrict(image, points, pwidth).value[i] == PatchAt(image.cells, top, left, psize);
    PatchFull(image.cells, d, top, left, psize);
  }

  /** A single point well inside the image gives back the square around
      it, under either bounds check. */
  lemma {:induction false} SinglePoint<T>(image: Image<T>, p: Point, pwidth: nat)
    requires CheckIm(image.shape).Ok? && InStrictBounds(p, CheckIm(image.shape).value, pwidth)
    ensures var patch := PatchAt(image.cells, p.row - pwidth, p.col - pwidth, PatchSize(pwidth));
            PointPatchesStrict(image, [p], pwidth) == Ok([patch]) &&
            PointPatches(image, [p], pwidth) == Ok([patch])
  {
    SinglePointStrict(image, p, pwidth);
    PointPatchesStrictAgrees(image, [p], pwidth);
  }

  /** The corrected check alone, for a single point. */
  lemma {:induction false} SinglePointStrict<T>(image: Image<T>, p: Point, pwidth: nat)
    requires CheckIm(image.shape).Ok? && InStrictBounds(p, CheckIm(image.shape).value, pwidth)
    ensures PointPatchesStrict(image, [p], pwidth)
         == Ok([PatchAt(image.cells, p.row - pwidth, p.col - pwidth, PatchSize(pwidth))])
  {
    var d := CheckIm(image.shape).value;
    assert forall i :: 0 <= i < |[p]| ==> [p][i] == p;
    assert forall i :: 0 <= i < |[p]| ==> InStrictBounds([p][i], d, pwidth);
    PatchesAroundOne(image.cells, p, pwidth);
  }

  /** The patches around a single point are the one patch around it. */
  lemma {:induction false} PatchesAroundOne<T>(cells: seq<seq<seq<T>>>, p: Point, pwidth: nat)
    requires p.row >= pwidth && p.col >= pwidth
    ensures PatchesAround(cells, [p], pwidth) == [PatchAt(cells, p.row - pwidth, p.col - pwidth, PatchSize(pwidth))]
  {
    var s := PatchesAround(cells, [p], pwidth);
    var patch := PatchAt(cells, p.row - pwidth, p.col - pwidth, PatchSize(pwidth));
    assert [p][0] == p;
    assert |s| == 1 && s[0] == patch;
    SameElements(s, [patch], 1);
  }

  /** Asking for a patch at the centre of a grid patch gives back the
      grid patch itself, under either bounds check. */
  lemma {:induction false} PointPatchesMatchGrid<T>(image: Image<T>, pwidth: nat, pstride: int, k: nat)
    requires WellFormed(image) && CheckIm(image.shape).Ok?
    requires k < |Grid(image, pwidth, pstride, None).value|
    ensures var g := Grid(image, pwidth, pstride, None).value[k];
            PointPatchesStrict(image, [Point(g.centreRow, g.centreCol)], pwidth) == Ok([g.patch]) &&
            PointPatches(image, [Point(g.centreRow, g.centreCol)], pwidth) == Ok([g.patch])
  {
    var d := CheckIm(image.shape).value;
    var ys := Spacing(d.rows, PatchSize(pwidth), ClampStride(pstride));
    var xs := Spacing(d.cols, PatchSize(pwidth), ClampStride(pstride));
    GridOfDims(image, pwidth, pstride, None, d);
    GridOverInside(image.cells, d, pwidth, ys, xs, k);
    WholePatchPoint(image, d, pwidth, Grid(image, pwidth, pstride, None).value[k]);
  }

  /** A patch that lies wholly inside the image is what a request at its
      centre gives back. */
  lemma {:induction false} WholePatchPoint<T>(image: Image<T>, d: Dims, pwidth: nat, g: GridPatch<T>)
    requires CheckIm(image.shape) == Ok(d) && WholePatch(g, image.cells, d, pwidth)
    ensures PointPatchesStrict(image, [Point(g.centreRow, g.centreCol)], pwidth) == Ok([g.patch]) &&
            PointPatches(image, [Point(g.centreRow, g.centreCol)], pwidth) == Ok([g.patch])
  {
    var p := Point(g.centreRow, g.centreCol);
    assert InStrictBounds(p, d, pwidth);
    SinglePoint(image, p, pwidth);
  }

  // ---------------------------------------------------------------------
  // image_windows
  // ---------------------------------------------------------------------

  /** A non-empty run of patch corners along one axis. */
  type Chunk = s: seq<nat> | |s| > 0 witness [0]

  /** `[c for c in chunks if len(c) > 0]`: the non-empty chunks, in
      order. Dropping empty chunks loses no corner. */
  function NonEmpty(chunks: seq<seq<nat>>): (r: seq<Chunk>)
    ensures |r| <= |chunks|
    ensures Concat(r) == Concat(chunks)
  {
    if |chunks| == 0 then []
    else
      var rest := NonEmpty(chunks[1..]);
      if |chunks[0]| > 0 then
        var r: seq<Chunk> := [chunks[0]] + rest;
        assert r[0] == chunks[0] && r[1..] == rest;
        r
      else
        assert Concat(chunks) == Concat(chunks[1..]);
        rest
  }

  /** When the non-empty chunks are exactly the first m, NonEmpty keeps
      exactly those, in order. */
  lemma {:induction false} NonEmptyPrefix(chunks: seq<seq<nat>>, m: nat)
    requires m <= |chunks|
    requires forall i :: 0 <= i < |chunks| ==> (|chunks[i]| > 0 <==> i < m)
    ensures |NonEmpty(chunks)| == m
    ensures forall i :: 0 <= i < m ==> NonEmpty(chunks)[i] == chunks[i]
    decreases |chunks|
  {
    if |chunks| > 0 {
      var tail := chunks[1..];
      if m == 0 {
        NonEmptyPrefix(tail, 0);
      } else {
        NonEmptyPrefix(tail, m - 1);
        var r := NonEmpty(chunks);
        assert r == [chunks[0]] + NonEmpty(tail);
        forall i | 0 <= i < m
          ensures r[i] == chunks[i]
        {
          if i > 0 {
            assert r[i] == NonEmpty(tail)[i - 1] == tail[i - 1];
          }
        }
      }
    }
  }

  /** The runs of corners image_windows cuts one axis into:
      `np.array_split(_spacing(...), npside)` without its empty parts. */
  function AxisChunks(dimension: nat, npside: nat, psize: nat, pstride: nat): seq<Chunk>
    requires npside >= 1 && pstride >= 1
  {
    NonEmpty(ArraySplit(Spacing(dimension, psize, pstride), npside))
  }

  /** The window covering the patches whose corners are sy (rows) and sx
      (columns): from the first corner to the far edge of the last patch. */
  function WindowOf(sy: Chunk, sx: Chunk, psize: nat): Window
  {
    Window(Span(sy[0], sy[|sy| - 1] + psize), Span(sx[0], sx[|sx| - 1] + psize))
  }

  function WindowFn(psize: nat): (Chunk, Chunk) -> Window
  {
    (sy: Chunk, sx: Chunk) => WindowOf(sy, sx, psize)
  }

  /** image_windows: the row corners and the column corners of the whole
      image are each split into round(sqrt(nwindows)) runs, and one window
      is made for every pair of non-empty runs, row runs outermost. A
      negative count (whose square root is not a number) and a count that
      rounds to no runs are refused, and so is a shape without a column
      axis. */
  function ImageWindows(imshape: seq<nat>, nwindows: int, pwidth: nat, pstride: int): (r: Result<seq<Window>>)
    ensures r.Err? <==> nwindows < 1 || |imshape| < 2
    ensures r.Err? ==> r.error == (if 0 <= nwindows && |imshape| < 2 then ShortShape else NoWindows)
  {
    if nwindows < 0 then Err(NoWindows)
    else if |imshape| < 2 then Err(ShortShape)
    else
      var npside := RoundSqrt(nwindows);
      if npside == 0 then Err(NoWindows)
      else
        var psize := PatchSize(pwidth);
        var stride := ClampStride(pstride);
        Ok(RowMajor(AxisChunks(imshape[0], npside, psize, stride),
                    AxisChunks(imshape[1], npside, psize, stride), WindowFn(psize)))
  }

  /** The runs of one axis: they are the first Min(npside, |corners|)
      parts of the array split, they concatenate back to the corners in
      order, and their sizes differ by at most one, larger ones first. */
  lemma {:induction false} AxisChunksPartition(dimension: nat, npside: nat, psize: nat, pstride: nat)
    requires npside >= 1 && pstride >= 1
    ensures var ys := Spacing(dimension, psize, pstride);
            var cs := AxisChunks(dimension, npside, psize, pstride);
            Concat(cs) == ys &&
            |cs| == Min(npside, |ys|) &&
            forall i :: 0 <= i < |cs| ==>
              IsSection(ys, npside, i) && cs[i] == ArraySplit(ys, npside)[i] &&
              |cs[i]| == |ys| / npside + (if i < |ys| % npside then 1 else 0)
  {
    var ys := Spacing(dimension, psize, pstride);
    var parts := ArraySplit(ys, npside);
    ArraySplitNonEmpty(ys, npside);
    ArraySplitSections(ys, npside);
    ArraySplitConcat(ys, npside);
    NonEmptyPrefix(parts, Min(npside, |ys|));
  }

  /** Corners that run from c[0] in steps of exactly pstride, every patch
      on them fitting inside an axis of length extent. */
  ghost predicate AlignedRun(c: Chunk, pstride: nat, psize: nat, extent: nat)
  {
    forall t :: 0 <= t < |c| ==> c[t] == c[0] + t * pstride && c[t] + psize <= extent
  }

  /** One corner of a run of an axis. */
  lemma {:induction false} ChunkCorner(dimension: nat, npside: nat, psize: nat, pstride: nat, i: nat, t: nat)
    requires npside >= 1 && pstride >= 1
    requires i < |AxisChunks(dimension, npside, psize, pstride)|
    requires t < |AxisChunks(dimension, npside, psize, pstride)[i]|
    ensures var c := AxisChunks(dimension, npside, psize, pstride)[i];
            c[t] == c[0] + t * pstride && c[t] + psize <= dimension
  {
    var ys := Spacing(dimension, psize, pstride);
    var c := AxisChunks(dimension, npside, psize, pstride)[i];
    AxisChunksPartition(dimension, npside, psize, pstride);
    assert IsSection(ys, npside, i);
    var a := DivPoint(|ys|, npside, i);
    assert c == ys[a..DivPoint(|ys|, npside, i + 1)];
    SpacingShape(dimension, psize, pstride);
    var off := ys[0];
    assert c[t] == ys[a + t] == off + (a + t) * pstride;
    assert c[0] == ys[a] == off + a * pstride;
    MulAdd(a, t, pstride);
  }

  /** Every run of an axis is aligned to the stride and fits the axis. */
  lemma {:induction false} ChunksAligned(dimension: nat, npside: nat, psize: nat, pstride: nat)
    requires npside >= 1 && pstride >= 1
    ensures var cs := AxisChunks(dimension, npside, psize, pstride);
            forall i :: 0 <= i < |cs| ==> AlignedRun(cs[i], pstride, psize, dimension)
  {
    var cs := AxisChunks(dimension, npside, psize, pstride);
    forall i | 0 <= i < |cs|
      ensures AlignedRun(cs[i], pstride, psize, dimension)
    {
      forall t | 0 <= t < |cs[i]|
        ensures cs[i][t] == cs[i][0] + t * pstride && cs[i][t] + psize <= dimension
      {
        ChunkCorner(dimension, npside, psize, pstride, i, t);
      }
    }
  }

  /** Corner a of an aligned run is a strides past its first corner, and
      its patch ends no later than the last corner's patch. */
  lemma {:induction false} RunIndex(c: Chunk, stride: nat, psize: nat, extent: nat, a: nat)
    requires AlignedRun(c, stride, psize, extent) && a < |c|
    ensures c[0] + a * stride == c[a]
    ensures c[a] + psize <= c[|c| - 1] + psize <= extent
  {
    assert c[|c| - 1] == c[0] + (|c| - 1) * stride;
    MulLeq(a, |c| - 1, stride);
  }

  /** The extent a run of corners spans: from its first corner to the far
      edge of its last patch. */
  function RunExtent(c: Chunk, stride: nat, psize: nat): nat
  {
    (|c| - 1) * stride + psize
  }

  /** A window over an aligned run starts at its first corner and ends
      at the far edge of its last patch, inside the axis, and is at least
      one patch long. */
  lemma {:induction false} WindowSpan(c: Chunk, pstride: nat, psize: nat, extent: nat)
    requires AlignedRun(c, pstride, psize, extent)
    ensures c[0] + psize <= c[|c| - 1] + psize <= extent
    ensures c[|c| - 1] + psize - c[0] == RunExtent(c, pstride, psize)
  {
    assert c[|c| - 1] == c[0] + (|c| - 1) * pstride;
  }

  /** image_windows makes Min(npside, |row corners|) * Min(npside,
      |column corners|) windows, npside = round(sqrt(nwindows)): exactly
      the documented round(sqrt(nwindows))**2 when each axis has at least
      npside corners, fewer otherwise. */
  lemma {:induction false} ImageWindowsCount(imshape: seq<nat>, nwindows: int, pwidth: nat, pstride: int)
    requires ImageWindows(imshape, nwindows, pwidth, pstride).Ok?
    ensures var k := RoundSqrt(nwindows);
            var ys := Spacing(imshape[0], PatchSize(pwidth), ClampStride(pstride));
            var xs := Spacing(imshape[1], PatchSize(pwidth), ClampStride(pstride));
            var w := ImageWindows(imshape, nwindows, pwidth, pstride).value;
            |w| == Min(k, |ys|) * Min(k, |xs|) &&
            (k <= |ys| && k <= |xs| ==> |w| == k * k)
  {
    var k := RoundSqrt(nwindows);
    var psize, stride := PatchSize(pwidth), ClampStride(pstride);
    AxisChunksPartition(imshape[0], k, psize, stride);
    AxisChunksPartition(imshape[1], k, psize, stride);
  }

  /** Every window image_windows makes lies inside the image and is at
      least one patch tall and one patch wide. */
  lemma {:induction false} ImageWindowsInside(imshape: seq<nat>, nwindows: int, pwidth: nat, pstride: int)
    requires ImageWindows(imshape, nwindows, pwidth, pstride).Ok?
    ensures var w := ImageWindows(imshape, nwindows, pwidth, pstride).value;
            forall n :: 0 <= n < |w| ==>
              w[n].rows.start + PatchSize(pwidth) <= w[n].rows.stop <= imshape[0] &&
              w[n].cols.start + PatchSize(pwidth) <= w[n].cols.stop <= imshape[1]
  {
    var k := RoundSqrt(nwindows);
    var psize, stride := PatchSize(pwidth), ClampStride(pstride);
    var cys := AxisChunks(imshape[0], k, psize, stride);
    var cxs := AxisChunks(imshape[1], k, psize, stride);
    var w := ImageWindows(imshape, nwindows, pwidth, pstride).value;
    assert w == RowMajor(cys, cxs, WindowFn(psize));
    ChunksAligned(imshape[0], k, psize, stride);
    ChunksAligned(imshape[1], k, psize, stride);
    forall n | 0 <= n < |w|
      ensures w[n].rows.start + psize <= w[n].rows.stop <= imshape[0] &&
              w[n].cols.start + psize <= w[n].cols.stop <= imshape[1]
    {
      var i, j := RowMajorIndex(cys, cxs, WindowFn(psize), n);
      WindowSpan(cys[i], stride, psize, imshape[0]);
      WindowSpan(cxs[j], stride, psize, imshape[1]);
    }
  }

  /** `len(range(n)[lo:hi])`: the length of a slice of an axis of length n. */
  function SpanLength(n: nat, s: Span): (len: nat)
    ensures s.start <= s.stop <= n ==> len == s.stop - s.start
  {
    if s.stop <= s.start || n <= s.start then 0
    else if s.stop <= n then s.stop - s.start
    else n - s.start
  }

  /** `image[rows, cols]`: the part of an image under a window, with the
      shape numpy gives it. */
  function Crop<T>(image: Image<T>, w: Window): Image<T>
    requires |image.shape| >= 2
  {
    Image([SpanLength(image.shape[0], w.rows), SpanLength(image.shape[1], w.cols)] + image.shape[2..],
          Block(image.cells, w.rows.start, w.rows.stop, w.cols.start, w.cols.stop))
  }

  /** A patch of a cropped block is the patch of the whole image shifted
      by the crop's top-left corner (r0, c0): its corner (y, x) in the
      block is (ty, tx) = (r0 + y, c0 + x) in the image. */
  lemma {:induction false} CropPatch<T>(cells: seq<seq<seq<T>>>, r0: nat, r1: nat, c0: nat, c1: nat,
                                        y: nat, x: nat, psize: nat, ty: nat, tx: nat)
    requires r0 + y + psize <= r1 <= |cells| && c0 + x + psize <= c1
    requires forall i :: r0 <= i < r1 ==> c1 <= |cells[i]|
    requires ty == r0 + y && tx == c0 + x
    ensures PatchAt(Block(cells, r0, r1, c0, c1), y, x, psize) == PatchAt(cells, ty, tx, psize)
  {
    BlockOfBlock(cells, r0, r1, c0, c1, y, x, psize, psize, ty, tx);
  }

  /** The patch with top-left corner (y, x) in a cropped window, y and x
      being a and b strides, is the patch of the whole image at corner a
      of the row run and corner b of the column run. */
  lemma {:induction false} WindowPatch<T>(image: Image<T>, psize: nat, stride: nat,
                                          cy: Chunk, cx: Chunk, a: nat, b: nat, y: nat, x: nat)
    requires WellFormed(image) && CheckIm(image.shape).Ok?
    requires AlignedRun(cy, stride, psize, CheckIm(image.shape).value.rows)
    requires AlignedRun(cx, stride, psize, CheckIm(image.shape).value.cols)
    requires a < |cy| && b < |cx| && y == a * stride && x == b * stride
    ensures PatchAt(Crop(image, WindowOf(cy, cx, psize)).cells, y, x, psize)
         == PatchAt(image.cells, cy[a], cx[b], psize)
  {
    var d := CheckIm(image.shape).value;
    RunIndex(cy, stride, psize, d.rows, a);
    RunIndex(cx, stride, psize, d.cols, b);
    var r1, c1 := cy[|cy| - 1] + psize, cx[|cx| - 1] + psize;
    var crop := Crop(image, WindowOf(cy, cx, psize)).cells;
    assert crop == Block(image.cells, cy[0], r1, cx[0], c1);
    CropPatch(image.cells, cy[0], r1, cx[0], c1, y, x, psize, cy[a], cx[b]);
    assert PatchAt(crop, y, x, psize) == PatchAt(image.cells, cy[a], cx[b], psize);
  }

  /** One entry of the grid of a cropped window, against the grid entry of
      the whole image at the same place: same patch, same centre. */
  lemma {:induction false} WindowEntry<T>(image: Image<T>, pwidth: nat, stride: nat,
                                          cy: Chunk, cx: Chunk, a: nat, b: nat, y: nat, x: nat)
    requires WellFormed(image) && CheckIm(image.shape).Ok?
    requires AlignedRun(cy, stride, PatchSize(pwidth), CheckIm(image.shape).value.rows)
    requires AlignedRun(cx, stride, PatchSize(pwidth), CheckIm(image.shape).value.cols)
    requires a < |cy| && b < |cx| && y == a * stride && x == b * stride
    ensures GridEntry(Crop(image, WindowOf(cy, cx, PatchSize(pwidth))).cells, pwidth, Some(Offset(cy[0], cx[0])))(y, x)
         == GridEntry(image.cells, pwidth, None)(cy[a], cx[b])
  {
    var d := CheckIm(image.shape).value;
    var psize := PatchSize(pwidth);
    WindowPatch(image, psize, stride, cy, cx, a, b, y, x);
    RunIndex(cy, stride, psize, d.rows, a);
    RunIndex(cx, stride, psize, d.cols, b);
    GridEntryValue(Crop(image, WindowOf(cy, cx, psize)).cells, pwidth, Some(Offset(cy[0], cx[0])), y, x);
    GridEntryValue(image.cells, pwidth, None, cy[a], cx[b]);
  }

  /** The comment at the heart of image_windows: cutting the patch grid of
      a window, taken with its stride and its top-left corner as centre
      offset, gives exactly the patches of the whole image's grid whose
      corners are in the window's runs, with the same centres. */
  lemma {:induction false} WindowGrid<T>(image: Image<T>, pwidth: nat, pstride: int, cy: Chunk, cx: Chunk)
    requires WellFormed(image) && CheckIm(image.shape).Ok?
    requires AlignedRun(cy, ClampStride(pstride), PatchSize(pwidth), CheckIm(image.shape).value.rows)
    requires AlignedRun(cx, ClampStride(pstride), PatchSize(pwidth), CheckIm(image.shape).value.cols)
    ensures Grid(Crop(image, WindowOf(cy, cx, PatchSize(pwidth))), pwidth, pstride, Some(Offset(cy[0], cx[0])))
         == Ok(GridOver(image.cells, pwidth, cy, cx, None))
  {
    var psize := PatchSize(pwidth);
    var stride := ClampStride(pstride);
    var ly := Spacing(RunExtent(cy, stride, psize), psize, stride);
    var lx := Spacing(RunExtent(cx, stride, psize), psize, stride);
    SpacingOfWindow(|cy| - 1, psize, stride);
    SpacingOfWindow(|cx| - 1, psize, stride);
    WindowEntries(image, pwidth, stride, cy, cx, ly, lx);
    var crop := Crop(image, WindowOf(cy, cx, psize));
    var o := Some(Offset(cy[0], cx[0]));
    RowMajorCongruence(ly, lx, GridEntry(crop.cells, pwidth, o), cy, cx, GridEntry(image.cells, pwidth, None));
    GridOfCrop(image, pwidth, pstride, cy, cx);
  }

  /** The grid of a cropped window runs over the corners of a window of
      its own height and width. */
  lemma {:induction false} GridOfCrop<T>(image: Image<T>, pwidth: nat, pstride: int, cy: Chunk, cx: Chunk)
    requires CheckIm(image.shape).Ok?
    requires AlignedRun(cy, ClampStride(pstride), PatchSize(pwidth), CheckIm(image.shape).value.rows)
    requires AlignedRun(cx, ClampStride(pstride), PatchSize(pwidth), CheckIm(image.shape).value.cols)
    ensures var psize, stride := PatchSize(pwidth), ClampStride(pstride);
            var crop := Crop(image, WindowOf(cy, cx, psize));
            Grid(crop, pwidth, pstride, Some(Offset(cy[0], cx[0])))
              == Ok(GridOver(crop.cells, pwidth, Spacing(RunExtent(cy, stride, psize), psize, stride),
                             Spacing(RunExtent(cx, stride, psize), psize, stride), Some(Offset(cy[0], cx[0]))))
  {
    var psize, stride := PatchSize(pwidth), ClampStride(pstride);
    var crop := Crop(image, WindowOf(cy, cx, psize));
    var h, wd := RunExtent(cy, stride, psize), RunExtent(cx, stride, psize);
    CropDims(image, psize, stride, cy, cx);
    var cd := CheckIm(crop.shape).value;
    assert cd.rows == h && cd.cols == wd;
    GridOfDims(crop, pwidth, pstride, Some(Offset(cy[0], cx[0])), cd);
  }

  /** The grid of an image whose dimensions are d. */
  lemma {:induction false} GridOfDims<T>(image: Image<T>, pwidth: nat, pstride: int, centreOffset: Option<Offset>,
                                         d: Dims)
    requires CheckIm(image.shape) == Ok(d)
    ensures Grid(image, pwidth, pstride, centreOffset)
         == Ok(GridOver(image.cells, pwidth, Spacing(d.rows, PatchSize(pwidth), ClampStride(pstride)),
                        Spacing(d.cols, PatchSize(pwidth), ClampStride(pstride)), centreOffset))
  {
  }

  /** The cropped window is a (rank-preserving) image of the height and
      width its runs span. */
  lemma {:induction false} CropDims<T>(image: Image<T>, psize: nat, stride: nat, cy: Chunk, cx: Chunk)
    requires CheckIm(image.shape).Ok?
    requires AlignedRun(cy, stride, psize, CheckIm(image.shape).value.rows)
    requires AlignedRun(cx, stride, psize, CheckIm(image.shape).value.cols)
    ensures var d := CheckIm(image.shape).value;
            CheckIm(Crop(image, WindowOf(cy, cx, psize)).shape)
              == Ok(Dims(RunExtent(cy, stride, psize), RunExtent(cx, stride, psize), d.channels))
  {
    var d := CheckIm(image.shape).value;
    WindowSpan(cy, stride, psize, d.rows);
    WindowSpan(cx, stride, psize, d.cols);
    var crop := Crop(image, WindowOf(cy, cx, psize));
    assert crop.shape == [RunExtent(cy, stride, psize), RunExtent(cx, stride, psize)] + image.shape[2..];
  }

  /** Entry by entry, the grid of the cropped window (corners ly, lx
      counted from the window's corner) matches the whole image's grid on
      the runs cy, cx. */
  lemma {:induction false} WindowEntries<T>(image: Image<T>, pwidth: nat, stride: nat, cy: Chunk, cx: Chunk,
                                            ly: seq<nat>, lx: seq<nat>)
    requires WellFormed(image) && CheckIm(image.shape).Ok? && stride >= 1
    requires AlignedRun(cy, stride, PatchSize(pwidth), CheckIm(image.shape).value.rows)
    requires AlignedRun(cx, stride, PatchSize(pwidth), CheckIm(image.shape).value.cols)
    requires |ly| == |cy| && forall t :: 0 <= t < |ly| ==> ly[t] == t * stride
    requires |lx| == |cx| && forall t :: 0 <= t < |lx| ==> lx[t] == t * stride
    ensures var crop := Crop(image, WindowOf(cy, cx, PatchSize(pwidth)));
            forall a, b :: 0 <= a < |ly| && 0 <= b < |lx| ==>
              GridEntry(crop.cells, pwidth, Some(Offset(cy[0], cx[0])))(ly[a], lx[b])
                == GridEntry(image.cells, pwidth, None)(cy[a], cx[b])
  {
    var crop := Crop(image, WindowOf(cy, cx, PatchSize(pwidth)));
    forall a, b | 0 <= a < |ly| && 0 <= b < |lx|
      ensures GridEntry(crop.cells, pwidth, Some(Offset(cy[0], cx[0])))(ly[a], lx[b])
                == GridEntry(image.cells, pwidth, None)(cy[a], cx[b])
    {
      WindowEntry(image, pwidth, stride, cy, cx, a, b, ly[a], lx[b]);
    }
  }

  /** A grid over runs that are slices ys[a..b] and xs[c..e] of the
      corners lists the whole grid's entries for those corners: the entry
      for corner (ys[u], xs[v]) sits at place k of the sliced grid and at
      place l of the whole grid. */
  lemma {:induction false} GridOverSlice<T>(cells: seq<seq<seq<T>>>, pwidth: nat, ys: seq<nat>, xs: seq<nat>,
                                            a: nat, b: nat, c: nat, e: nat, u: nat, v: nat, k: nat, l: nat)
    requires a <= u < b <= |ys| && c <= v < e <= |xs|
    requires k == (u - a) * (e - c) + (v - c) && l == u * |xs| + v
    ensures var g := GridEntry(cells, pwidth, None)(ys[u], xs[v]);
            At(GridOver(cells, pwidth, ys[a..b], xs[c..e], None), k, g) &&
            At(GridOver(cells, pwidth, ys, xs, None), l, g)
  {
    RowMajorSlice(ys, xs, GridEntry(cells, pwidth, None), ys[a..b], xs[c..e], a, b, c, e, u, v, k, l);
  }

  /** Run i of an axis is section i of its corners, as a slice, and is
      aligned inside the axis. */
  lemma {:induction false} ChunkRun(dimension: nat, npside: nat, psize: nat, pstride: nat, i: nat)
    requires npside >= 1 && pstride >= 1
    requires i < |AxisChunks(dimension, npside, psize, pstride)|
    ensures var ys := Spacing(dimension, psize, pstride);
            var c := AxisChunks(dimension, npside, psize, pstride)[i];
            IsSection(ys, npside, i) &&
            c == ys[DivPoint(|ys|, npside, i)..DivPoint(|ys|, npside, i + 1)] &&
            AlignedRun(c, pstride, psize, dimension)
  {
    AxisChunksPartition(dimension, npside, psize, pstride);
    ChunksAligned(dimension, npside, psize, pstride);
  }

  /** Window (i, j) of image_windows, the one for row run i and column
      run j, sits at position i * (number of column runs) + j and spans
      those two runs. */
  lemma {:induction false} ImageWindowsAt(imshape: seq<nat>, nwindows: int, pwidth: nat, pstride: int,
                                          i: nat, j: nat)
    requires |imshape| >= 2 && nwindows >= 1
    requires i < |AxisChunks(imshape[0], RoundSqrt(nwindows), PatchSize(pwidth), ClampStride(pstride))|
    requires j < |AxisChunks(imshape[1], RoundSqrt(nwindows), PatchSize(pwidth), ClampStride(pstride))|
    ensures var k, psize, stride := RoundSqrt(nwindows), PatchSize(pwidth), ClampStride(pstride);
            var cys := AxisChunks(imshape[0], k, psize, stride);
            var cxs := AxisChunks(imshape[1], k, psize, stride);
            var w := ImageWindows(imshape, nwindows, pwidth, pstride).value;
            0 <= i * |cxs| + j < |w| && w[i * |cxs| + j] == WindowOf(cys[i], cxs[j], psize)
  {
    var k, psize, stride := RoundSqrt(nwindows), PatchSize(pwidth), ClampStride(pstride);
    var cys := AxisChunks(imshape[0], k, psize, stride);
    var cxs := AxisChunks(imshape[1], k, psize, stride);
    assert ImageWindows(imshape, nwindows, pwidth, pstride).value == RowMajor(cys, cxs, WindowFn(psize));
    RowMajorEntry(cys, cxs, WindowFn(psize), i, j, |cxs|);
  }

  /** The patch grid of window (i, j), taken with its top-left corner as
      centre offset, is the grid of the whole image restricted to the
      corners of section i of the row corners and section j of the column
      corners (which GridOverSlice relates entry by entry to the whole
      grid). */
  lemma {:induction false} ImageWindowsGrid<T>(image: Image<T>, nwindows: int, pwidth: nat, pstride: int,
                                               i: nat, j: nat)
    requires WellFormed(image) && CheckIm(image.shape).Ok? && nwindows >= 1
    requires i < |AxisChunks(image.shape[0], RoundSqrt(nwindows), PatchSize(pwidth), ClampStride(pstride))|
    requires j < |AxisChunks(image.shape[1], RoundSqrt(nwindows), PatchSize(pwidth), ClampStride(pstride))|
    ensures var k, psize, stride := RoundSqrt(nwindows), PatchSize(pwidth), ClampStride(pstride);
            var ys := Spacing(image.shape[0], psize, stride);
            var xs := Spacing(image.shape[1], psize, stride);
            var cys := AxisChunks(image.shape[0], k, psize, stride);
            var cxs := AxisChunks(image.shape[1], k, psize, stride);
            IsSection(ys, k, i) && IsSection(xs, k, j) &&
            Grid(Crop(image, WindowOf(cys[i], cxs[j], psize)), pwidth, pstride, Some(Offset(cys[i][0], cxs[j][0])))
              == Ok(GridOver(image.cells, pwidth,
                             ys[DivPoint(|ys|, k, i)..DivPoint(|ys|, k, i + 1)],
                             xs[DivPoint(|xs|, k, j)..DivPoint(|xs|, k, j + 1)], None))
  {
    var k, psize, stride := RoundSqrt(nwindows), PatchSize(pwidth), ClampStride(pstride);
    var d := CheckIm(image.shape).value;
    assert d.rows == image.shape[0] && d.cols == image.shape[1];
    ChunkRun(image.shape[0], k, psize, stride, i);
    ChunkRun(image.shape[1], k, psize, stride, j);
    var cys := AxisChunks(image.shape[0], k, psize, stride);
    var cxs := AxisChunks(image.shape[1], k, psize, stride);
    WindowGrid(image, pwidth, pstride, cys[i], cxs[j]);
  }
}
