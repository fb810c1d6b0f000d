/** Single-channel binary images and the three image operations the spot
    classifier applies to them: cropping to a rectangle (a numpy slice),
    keeping only the pixels under a mask (`cv2.bitwise_and` with a mask) and
    counting the pixels that are set (`cv2.countNonZero`). A pixel is `true`
    when it is non-zero. */
module Raster {

  /** Row-major binary image: `g[row][col]`. */
  type Grid = seq<seq<bool>>

  /** Axis-aligned rectangle: top-left corner `(x, y)`, `w` columns, `h` rows. */
  datatype Rect = Rect(x: int, y: int, w: nat, h: nat)

  /** `g` has `rows` rows of `cols` pixels each. */
  predicate IsGrid(g: Grid, rows: nat, cols: nat)
  {
    |g| == rows && forall i :: 0 <= i < |g| ==> |g[i]| == cols
  }

  /** Number of columns of a grid (that of its first row). */
  function Width(g: Grid): nat
  {
    if |g| == 0 then 0 else |g[0]|
  }

  /** Every row of `g` has the same length. */
  predicate Rectangular(g: Grid)
  {
    IsGrid(g, |g|, Width(g))
  }

  /** `r` lies inside a `rows` x `cols` image, so that slicing by it neither
      wraps around nor is clamped. */
  predicate InsideFrame(r: Rect, rows: nat, cols: nat)
  {
    0 <= r.x && 0 <= r.y && r.x + r.w <= cols && r.y + r.h <= rows
  }

  /** `g[y:y+h, x:x+w]`: the part of `g` under `r`, in rectangle-local
      coordinates. */
  function Crop(g: Grid, r: Rect): (c: Grid)
    requires Rectangular(g) && InsideFrame(r, |g|, Width(g))
    ensures IsGrid(c, r.h, r.w)
    ensures forall i, j :: 0 <= i < r.h && 0 <= j < r.w ==> c[i][j] == g[r.y + i][r.x + j]
  {
    seq(r.h, i requires 0 <= i < r.h => g[r.y + i][r.x .. r.x + r.w])
  }

  /** `bitwise_and(src, src, mask=mask)`: a pixel of `src` survives only
      where the mask is set; everywhere else the result is zero. */
  function MaskWith(src: Grid, mask: Grid, rows: nat, cols: nat): (m: Grid)
    requires IsGrid(src, rows, cols) && IsGrid(mask, rows, cols)
    ensures IsGrid(m, rows, cols)
    ensures forall i, j :: 0 <= i < rows && 0 <= j < cols ==> (m[i][j] <==> src[i][j] && mask[i][j])
  {
    seq(rows, i requires 0 <= i < rows => seq(cols, j requires 0 <= j < cols => src[i][j] && mask[i][j]))
  }

  /** Number of set pixels in one row. */
  function RowCount(row: seq<bool>): nat
  {
    if |row| == 0 then 0 else RowCount(row[..|row| - 1]) + (if row[|row| - 1] then 1 else 0)
  }

  /** `cv2.countNonZero`: the number of set pixels. */
  function CountNonZero(g: Grid): nat
  {
    if |g| == 0 then 0 else CountNonZero(g[..|g| - 1]) + RowCount(g[|g| - 1])
  }

  /** The coordinates `(row, col)` of the set pixels of `g`. */
  ghost function Cells(g: Grid): set<(int, int)>
  {
    set i, j | 0 <= i < |g| && 0 <= j < |g[i]| && g[i][j] :: (i, j)
  }

  /** The coordinates of the set pixels of `row`, taken as row `i`. */
  ghost function RowCells(i: int, row: seq<bool>): set<(int, int)>
  {
    set j | 0 <= j < |row| && row[j] :: (i, j)
  }

  lemma {:induction false} RowCountIsCardinality(i: int, row: seq<bool>)
    ensures RowCount(row) == |RowCells(i, row)|
  {
    if |row| > 0 {
      var n := |row| - 1;
      RowCountIsCardinality(i, row[..n]);
      assert RowCells(i, row) == RowCells(i, row[..n]) + (if row[n] then {(i, n)} else {});
    }
  }

  /** The counter agrees with the set of set pixels: `countNonZero` counts
      each set pixel exactly once. */
  lemma {:induction false} CountIsCardinality(g: Grid)
    ensures CountNonZero(g) == |Cells(g)|
  {
    if |g| > 0 {
      var n := |g| - 1;
      CountIsCardinality(g[..n]);
      RowCountIsCardinality(n, g[n]);
      assert Cells(g) == Cells(g[..n]) + RowCells(n, g[n]);
      assert Cells(g[..n]) !! RowCells(n, g[n]);
    }
  }

  lemma {:induction false} RowCountBound(row: seq<bool>)
    ensures RowCount(row) <= |row|
  {
    if |row| > 0 {
      RowCountBound(row[..|row| - 1]);
    }
  }

  /** A `rows` x `cols` image has at most `rows * cols` set pixels. */
  lemma {:induction false} CountBound(g: Grid, rows: nat, cols: nat)
    requires IsGrid(g, rows, cols)
    ensures CountNonZero(g) <= rows * cols
  {
    if rows > 0 {
      CountBound(g[..rows - 1], rows - 1, cols);
      RowCountBound(g[rows - 1]);
      assert (rows - 1) * cols + cols == rows * cols;
    }
  }

  /** The pixels, in rectangle-local coordinates, set both in the cropped
      activity image `crop` and in `mask`. */
  ghost function BothSet(crop: Grid, mask: Grid): set<(int, int)>
    requires |crop| == |mask| && forall i :: 0 <= i < |crop| ==> |crop[i]| == |mask[i]|
  {
    set i, j | 0 <= i < |mask| && 0 <= j < |mask[i]| && crop[i][j] && mask[i][j] :: (i, j)
  }

  lemma MaskWithCells(src: Grid, mask: Grid, rows: nat, cols: nat)
    requires IsGrid(src, rows, cols) && IsGrid(mask, rows, cols)
    ensures Cells(MaskWith(src, mask, rows, cols)) == BothSet(src, mask)
    ensures BothSet(src, mask) <= Cells(mask)
  {
  }

  lemma SubsetCardinality<T>(a: set<T>, b: set<T>)
    requires a <= b
    ensures |a| <= |b|
  {
    assert b == a + (b - a);
  }

  /** Crop `frame` to `r`, AND it with `mask` and count the surviving
      pixels. The count is the number of pixels set in both the crop and the
      mask, so it is bounded by the mask's own count, which is bounded by the
      rectangle's area. */
  function MaskedCount(frame: Grid, r: Rect, mask: Grid): (n: nat)
    requires Rectangular(frame) && InsideFrame(r, |frame|, Width(frame))
    requires IsGrid(mask, r.h, r.w)
    ensures n == |BothSet(Crop(frame, r), mask)|
    ensures n <= CountNonZero(mask) <= r.w * r.h
  {
    var crop := Crop(frame, r);
    var kept := MaskWith(crop, mask, r.h, r.w);
    MaskWithCells(crop, mask, r.h, r.w);
    CountIsCardinality(kept);
    CountIsCardinality(mask);
    CountBound(mask, r.h, r.w);
    SubsetCardinality(BothSet(crop, mask), Cells(mask));
    CountNonZero(kept)
  }

  /** An activity image with no set pixel under the rectangle gives a count
      of zero, whatever the mask. */
  lemma EmptyCropCountsZero(frame: Grid, r: Rect, mask: Grid)
    requires Rectangular(frame) && InsideFrame(r, |frame|, Width(frame))
    requires IsGrid(mask, r.h, r.w)
    requires forall i, j :: 0 <= i < r.h && 0 <= j < r.w ==> !Crop(frame, r)[i][j]
    ensures MaskedCount(frame, r, mask) == 0
  {
    assert BothSet(Crop(frame, r), mask) == {};
  }

  /** The count is zero exactly when no activity pixel is set where the
      mask is set; pixels the mask leaves out do not matter. */
  lemma MaskedCountZeroIff(frame: Grid, r: Rect, mask: Grid)
    requires Rectangular(frame) && InsideFrame(r, |frame|, Width(frame))
    requires IsGrid(mask, r.h, r.w)
    ensures MaskedCount(frame, r, mask) == 0 <==>
            forall i, j :: 0 <= i < r.h && 0 <= j < r.w && mask[i][j] ==> !frame[r.y + i][r.x + j]
  {
    var crop := Crop(frame, r);
    if forall i, j :: 0 <= i < r.h && 0 <= j < r.w && mask[i][j] ==> !frame[r.y + i][r.x + j] {
      assert BothSet(crop, mask) == {};
    } else {
      var i, j :| 0 <= i < r.h && 0 <= j < r.w && mask[i][j] && frame[r.y + i][r.x + j];
      assert (i, j) in BothSet(crop, mask);
    }
  }

  /** The count reads the activity image only under the rectangle: two
      images whose crops agree give the same count. */
  lemma MaskedCountIsLocal(f1: Grid, f2: Grid, r: Rect, mask: Grid)
    requires Rectangular(f1) && InsideFrame(r, |f1|, Width(f1))
    requires Rectangular(f2) && InsideFrame(r, |f2|, Width(f2))
    requires IsGrid(mask, r.h, r.w)
    requires forall i, j :: 0 <= i < r.h && 0 <= j < r.w ==> Crop(f1, r)[i][j] == Crop(f2, r)[i][j]
    ensures MaskedCount(f1, r, mask) == MaskedCount(f2, r, mask)
  {
    assert BothSet(Crop(f1, r), mask) == BothSet(Crop(f2, r), mask);
  }
}
