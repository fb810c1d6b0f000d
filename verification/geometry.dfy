/** Spot polygons and their bounding rectangles (`cv2.boundingRect` on a
    set of integer points) and the translation of a polygon into the
    rectangle's local coordinates. */
module Geometry {
  import opened Raster

  /** A pixel position: `x` is the column, `y` the row. */
  datatype Point = Point(x: int, y: int)

  /** The rectangle holds the pixel `q`: with OpenCV's pixel convention a
      rectangle covers the columns `x .. x+w-1` and the rows `y .. y+h-1`. */
  predicate Holds(r: Rect, q: Point)
  {
    r.x <= q.x < r.x + r.w && r.y <= q.y < r.y + r.h
  }

  /** The smallest rectangle holding both the non-empty rectangle `r` and
      the pixel `q`. */
  function Extend(r: Rect, q: Point): (e: Rect)
    requires r.w >= 1 && r.h >= 1
    ensures e.w >= 1 && e.h >= 1
    ensures e.x == (if q.x < r.x then q.x else r.x)
    ensures e.x + e.w - 1 == (if q.x > r.x + r.w - 1 then q.x else r.x + r.w - 1)
    ensures e.y == (if q.y < r.y then q.y else r.y)
    ensures e.y + e.h - 1 == (if q.y > r.y + r.h - 1 then q.y else r.y + r.h - 1)
  {
    var x0 := if q.x < r.x then q.x else r.x;
    var x1 := if q.x > r.x + r.w - 1 then q.x else r.x + r.w - 1;
    var y0 := if q.y < r.y then q.y else r.y;
    var y1 := if q.y > r.y + r.h - 1 then q.y else r.y + r.h - 1;
    Rect(x0, y0, x1 - x0 + 1, y1 - y0 + 1)
  }

  /** `cv2.boundingRect` of a point set: the smallest axis-aligned
      rectangle holding every point of `p`, so a single point has width and
      height 1. Computed as a running minimum and maximum of the
      coordinates. */
  function BoundingRect(p: seq<Point>): (r: Rect)
    requires |p| > 0
    ensures r.w >= 1 && r.h >= 1
    ensures forall k :: 0 <= k < |p| ==> Holds(r, p[k])
  {
    if |p| == 1 then Rect(p[0].x, p[0].y, 1, 1)
    else
      var n := |p| - 1;
      var e := Extend(BoundingRect(p[..n]), p[n]);
      assert forall k :: 0 <= k < n ==> p[..n][k] == p[k];
      e
  }

  /** No smaller rectangle holds `p`: some point lies on each of the four
      sides of its bounding rectangle. */
  lemma {:induction false} BoundingRectIsTight(p: seq<Point>)
    requires |p| > 0
    ensures var r := BoundingRect(p);
            && (exists k :: 0 <= k < |p| && p[k].x == r.x)
            && (exists k :: 0 <= k < |p| && p[k].x == r.x + r.w - 1)
            && (exists k :: 0 <= k < |p| && p[k].y == r.y)
            && (exists k :: 0 <= k < |p| && p[k].y == r.y + r.h - 1)
  {
    if |p| > 1 {
      var n := |p| - 1;
      var pre := p[..n];
      BoundingRectIsTight(pre);
      var r := BoundingRect(pre);
      var a :| 0 <= a < n && pre[a].x == r.x;
      var b :| 0 <= b < n && pre[b].x == r.x + r.w - 1;
      var c :| 0 <= c < n && pre[c].y == r.y;
      var d :| 0 <= d < n && pre[d].y == r.y + r.h - 1;
      assert p[a] == pre[a] && p[b] == pre[b] && p[c] == pre[c] && p[d] == pre[d];
    } else {
      assert p[0].x == BoundingRect(p).x;
    }
  }

  /** `p` shifted so that the corner `(r.x, r.y)` becomes the origin
      (`mask_np - [x, y]`). */
  function ToLocal(p: seq<Point>, r: Rect): (q: seq<Point>)
    ensures |q| == |p|
    ensures forall k {:trigger q[k]} :: 0 <= k < |p| ==> q[k] == Point(p[k].x - r.x, p[k].y - r.y)
  {
    seq(|p|, k requires 0 <= k < |p| => Point(p[k].x - r.x, p[k].y - r.y))
  }

  /** Translated into its bounding rectangle's coordinates, every point of a
      polygon has a non-negative column below the width and a non-negative
      row below the height, and some point touches each of the four sides. */
  lemma LocalPolygonInRect(p: seq<Point>)
    requires |p| > 0
    ensures var r := BoundingRect(p);
            var q := ToLocal(p, r);
            && (forall k :: 0 <= k < |q| ==> 0 <= q[k].x < r.w && 0 <= q[k].y < r.h)
            && (exists k :: 0 <= k < |q| && q[k].x == 0)
            && (exists k :: 0 <= k < |q| && q[k].y == 0)
  {
    var r := BoundingRect(p);
    var q := ToLocal(p, r);
    BoundingRectIsTight(p);
    var kx :| 0 <= kx < |p| && p[kx].x == r.x;
    var ky :| 0 <= ky < |p| && p[ky].y == r.y;
    assert q[kx].x == 0 && q[ky].y == 0;
  }

  /** The polygon `p` moved by `(dx, dy)`. */
  function Translate(p: seq<Point>, dx: int, dy: int): (q: seq<Point>)
    ensures |q| == |p|
    ensures forall k {:trigger q[k]} :: 0 <= k < |p| ==> q[k] == Point(p[k].x + dx, p[k].y + dy)
  {
    seq(|p|, k requires 0 <= k < |p| => Point(p[k].x + dx, p[k].y + dy))
  }

  /** The bounding rectangle of a polygon grows point by point. */
  lemma BoundingRectSnoc(p: seq<Point>)
    requires |p| > 1
    ensures BoundingRect(p) == Extend(BoundingRect(p[..|p| - 1]), p[|p| - 1])
  {
  }

  /** The inductive step of `TranslateBoundingRect`: a polygon whose prefix
      and last point are shifted copies has a shifted bounding rectangle. */
  lemma ShiftedSnoc(p: seq<Point>, moved: seq<Point>, dx: int, dy: int)
    requires |p| > 1 && |moved| == |p|
    requires var r := BoundingRect(p[..|p| - 1]);
             BoundingRect(moved[..|p| - 1]) == Rect(r.x + dx, r.y + dy, r.w, r.h)
    requires moved[|p| - 1] == Point(p[|p| - 1].x + dx, p[|p| - 1].y + dy)
    ensures var r := BoundingRect(p);
            BoundingRect(moved) == Rect(r.x + dx, r.y + dy, r.w, r.h)
  {
    BoundingRectSnoc(p);
    BoundingRectSnoc(moved);
    ExtendShift(BoundingRect(p[..|p| - 1]), p[|p| - 1], dx, dy);
  }

  lemma ExtendShift(r: Rect, q: Point, dx: int, dy: int)
    requires r.w >= 1 && r.h >= 1
    ensures var e := Extend(r, q);
            Extend(Rect(r.x + dx, r.y + dy, r.w, r.h), Point(q.x + dx, q.y + dy)) == Rect(e.x + dx, e.y + dy, e.w, e.h)
  {
  }

  /** Moving a polygon moves its bounding rectangle by the same offset and
      leaves its size alone. */
  lemma {:induction false} TranslateBoundingRect(p: seq<Point>, dx: int, dy: int)
    requires |p| > 0
    ensures var r := BoundingRect(p);
            BoundingRect(Translate(p, dx, dy)) == Rect(r.x + dx, r.y + dy, r.w, r.h)
  {
    if |p| > 1 {
      var n := |p| - 1;
      var moved := Translate(p, dx, dy);
      var r := BoundingRect(p[..n]);
      assert BoundingRect(moved[..n]) == Rect(r.x + dx, r.y + dy, r.w, r.h) by {
        TranslateBoundingRect(p[..n], dx, dy);
        assert moved[..n] == Translate(p[..n], dx, dy);
      }
      assert moved[n] == Point(p[n].x + dx, p[n].y + dy);
      ShiftedSnoc(p, moved, dx, dy);
    }
  }

  /** Moving a polygon leaves its rectangle-local shape alone, so the spot
      mask built from the local shape does not depend on where the spot
      is. */
  lemma TranslationInvariance(p: seq<Point>, dx: int, dy: int)
    requires |p| > 0
    ensures ToLocal(Translate(p, dx, dy), BoundingRect(Translate(p, dx, dy))) == ToLocal(p, BoundingRect(p))
  {
    var r := BoundingRect(p);
    var moved := Translate(p, dx, dy);
    assert BoundingRect(moved) == Rect(r.x + dx, r.y + dy, r.w, r.h) by {
      TranslateBoundingRect(p, dx, dy);
    }
    ShiftedLocal(p, r, dx, dy);
  }

  lemma ShiftedLocal(p: seq<Point>, r: Rect, dx: int, dy: int)
    ensures ToLocal(Translate(p, dx, dy), Rect(r.x + dx, r.y + dy, r.w, r.h)) == ToLocal(p, r)
  {
    var moved := Translate(p, dx, dy);
    var q, q' := ToLocal(p, r), ToLocal(moved, Rect(r.x + dx, r.y + dy, r.w, r.h));
    forall k | 0 <= k < |p|
      ensures q'[k] == q[k]
    {
      assert moved[k] == Point(p[k].x + dx, p[k].y + dy);
    }
  }
}
