/** The per-frame body of the capture loop: for every configured spot, in
    configuration order, build the spot's mask, count the foreground pixels
    of the binary activity image under it, classify the spot, and emit the
    status glyph and the drawing commands that annotate the colour frame.

    The activity image is only read here; drawing goes to the colour frame,
    which is represented by the list of drawing commands. So no spot's
    outcome can depend on another spot's annotation. */
module SpotAnalysis {
  import opened Seqs
  import opened Raster
  import opened Geometry
  import opened Occupancy
  import opened Decimal

  /** One configured parking spot: a polygon in frame coordinates and the
      foreground-pixel threshold from which it counts as occupied. */
  datatype Spot = Spot(polygon: seq<Point>, threshold: int)

  /** Polygon filling (`cv2.fillPoly`): whether the pixel at column `x`,
      row `y` is covered by the filled polygon given in the same (local)
      coordinates. The rasteriser's own numerics are not modelled. */
  type Filler = (seq<Point>, int, int) -> bool

  /** A spot's bounding rectangle and its binary footprint in
      rectangle-local coordinates. */
  datatype SpotMask = SpotMask(rect: Rect, raster: Grid)

  /** Result of analysing one spot (`x, y, w, h`, `count` and the verdict of
      the capture loop); the spot is identified by position. */
  datatype SpotResult = SpotResult(rect: Rect, count: nat, occupancy: Status)

  /** What `cv2.putText` and `cv2.polylines` are asked to draw. A label
      writes the decimal digits of `value` (see `LabelText`). */
  datatype DrawCommand =
    | Label(value: nat, origin: Point, colour: Colour, thickness: nat)
    | Outline(polygon: seq<Point>, closed: bool, colour: Colour, thickness: nat)

  /** The spot has a polygon and its bounding rectangle lies inside a
      `rows` x `cols` frame. */
  predicate Fits(spot: Spot, rows: nat, cols: nat)
  {
    |spot.polygon| > 0 && InsideFrame(BoundingRect(spot.polygon), rows, cols)
  }

  /** The mask of a spot: a raster as large as the bounding rectangle, set
      exactly where the polygon, moved to the rectangle's corner, is
      filled. It depends on the spot's shape and position only. */
  function BuildMask(spot: Spot, fill: Filler): (m: SpotMask)
    requires |spot.polygon| > 0
    ensures m.rect == BoundingRect(spot.polygon)
    ensures IsGrid(m.raster, m.rect.h, m.rect.w)
    ensures forall i, j :: 0 <= i < m.rect.h && 0 <= j < m.rect.w ==>
              (m.raster[i][j] <==> fill(ToLocal(spot.polygon, m.rect), j, i))
  {
    var r := BoundingRect(spot.polygon);
    SpotMask(r, Rasterize(ToLocal(spot.polygon, r), r.h, r.w, fill))
  }

  /** An `h` x `w` raster holding the filled polygon `local`. */
  function Rasterize(local: seq<Point>, h: nat, w: nat, fill: Filler): (g: Grid)
    ensures IsGrid(g, h, w)
    ensures forall i, j :: 0 <= i < h && 0 <= j < w ==> (g[i][j] <==> fill(local, j, i))
  {
    seq(h, i => seq(w, j => fill(local, j, i)))
  }

  /** Counts the activity pixels under the spot's mask and classifies the
      spot against its threshold. */
  function AnalyseSpot(activity: Grid, spot: Spot, fill: Filler): (res: SpotResult)
    requires Rectangular(activity) && Fits(spot, |activity|, Width(activity))
    ensures var m := BuildMask(spot, fill);
            && res.rect == m.rect == BoundingRect(spot.polygon)
            && res.count == |BothSet(Crop(activity, m.rect), m.raster)|
            && res.count <= CountNonZero(m.raster) <= m.rect.w * m.rect.h
    ensures res.occupancy == Free <==> res.count < spot.threshold
  {
    var m := BuildMask(spot, fill);
    var count := MaskedCount(activity, m.rect, m.raster);
    SpotResult(m.rect, count, Classify(count, spot.threshold))
  }

  /** `AnalyseSpot` for a fixed activity image and filler, as a function of
      the spot alone. */
  function Analyser(activity: Grid, fill: Filler): (f: Spot --> SpotResult)
    ensures forall spot :: Rectangular(activity) && Fits(spot, |activity|, Width(activity)) ==>
              f.requires(spot) && f(spot) == AnalyseSpot(activity, spot, fill)
  {
    spot requires Rectangular(activity) && Fits(spot, |activity|, Width(activity)) => AnalyseSpot(activity, spot, fill)
  }

  /** The activity image is rectangular and every spot fits inside it. */
  predicate Placed(activity: Grid, spots: seq<Spot>)
  {
    Rectangular(activity) && forall k {:trigger spots[k]} :: 0 <= k < |spots| ==> Fits(spots[k], |activity|, Width(activity))
  }

  /** The results for a list of spots, each spot analysed on its own. */
  function Results(activity: Grid, spots: seq<Spot>, fill: Filler): (rs: seq<SpotResult>)
    requires Placed(activity, spots)
    ensures |rs| == |spots|
    ensures forall k :: 0 <= k < |spots| ==> rs[k] == AnalyseSpot(activity, spots[k], fill)
  {
    Map(Analyser(activity, fill), spots)
  }

  function OccupancyOf(r: SpotResult): Status
  {
    r.occupancy
  }

  function GlyphOf(r: SpotResult): char
  {
    Glyph(r.occupancy)
  }

  /** Number of occupied results. */
  function CountOccupied(rs: seq<SpotResult>): nat
  {
    multiset(Map(OccupancyOf, rs))[Occupied]
  }

  /** The bracketed glyph string, one glyph per spot. */
  function StatusGlyphs(rs: seq<SpotResult>): string
  {
    "[" + Map(GlyphOf, rs) + "]"
  }

  /** The count of a spot, printed in magenta near the lower-left corner of
      its bounding rectangle. */
  function SpotLabel(res: SpotResult): (c: DrawCommand)
    ensures c.Label? && c.colour == Magenta
  {
    var r := res.rect;
    Label(res.count, Point(r.x + 5, r.y + r.h - 10), Magenta, 3)
  }

  /** The text a label writes: `str(value)`. */
  function LabelText(c: DrawCommand): string
    requires c.Label?
  {
    Digits(c.value)
  }

  /** The label's text spells the count, and it is anchored five pixels
      right of the rectangle's left side and ten pixels above its bottom
      edge. */
  lemma LabelShowsCount(res: SpotResult)
    ensures var c, r := SpotLabel(res), res.rect;
            && AllDigits(LabelText(c)) && ValueOf(LabelText(c)) == res.count
            && c.origin == Point(r.x + 5, r.y + r.h - 10)
  {
    DigitsRoundTrip(res.count);
  }

  /** The closed outline of a spot, green when free and red when occupied. */
  function SpotOutline(spot: Spot, res: SpotResult): (c: DrawCommand)
    ensures c.Outline? && c.polygon == spot.polygon && c.closed
    ensures c.colour == Green <==> res.occupancy == Free
    ensures c.colour == Red <==> res.occupancy == Occupied
  {
    Outline(spot.polygon, true, OutlineColour(res.occupancy), 2)
  }

  /** The drawing commands for all spots, spot by spot in order: first the
      label, then the outline. */
  function Annotate(spots: seq<Spot>, rs: seq<SpotResult>): (d: seq<DrawCommand>)
    requires |spots| == |rs|
    ensures |d| == 2 * |spots|
  {
    if |spots| == 0 then []
    else
      var n := |spots| - 1;
      Annotate(spots[..n], rs[..n]) + [SpotLabel(rs[n]), SpotOutline(spots[n], rs[n])]
  }

  /** Commands `2k` and `2k+1` are the label and the outline of spot `k`. */
  lemma {:induction false} AnnotateAt(spots: seq<Spot>, rs: seq<SpotResult>, k: nat)
    requires |spots| == |rs|
    requires k < |spots|
    ensures Annotate(spots, rs)[2 * k] == SpotLabel(rs[k])
    ensures Annotate(spots, rs)[2 * k + 1] == SpotOutline(spots[k], rs[k])
  {
    var n := |spots| - 1;
    var pre, rpre := spots[..n], rs[..n];
    var prev := Annotate(pre, rpre);
    var d := Annotate(spots, rs);
    var tail := [SpotLabel(rs[n]), SpotOutline(spots[n], rs[n])];
    assert d == prev + tail;
    assert |prev| == 2 * n;
    if k < n {
      AnnotateAt(pre, rpre, k);
      assert pre[k] == spots[k] && rpre[k] == rs[k];
      assert d[2 * k] == prev[2 * k];
      assert d[2 * k + 1] == prev[2 * k + 1];
    } else {
      assert d[2 * k] == tail[0];
      assert d[2 * k + 1] == tail[1];
    }
  }

  /** `{occupied:02d}/{total:02d}` of the status line. */
  function Summary(occupied: nat, total: nat): (s: string)
    ensures exists k :: 0 < k < |s| && s[k] == '/'
                        && AllDigits(s[..k]) && ValueOf(s[..k]) == occupied
                        && AllDigits(s[k + 1..]) && ValueOf(s[k + 1..]) == total
                        && |s[..k]| == (if |Digits(occupied)| >= 2 then |Digits(occupied)| else 2)
                        && |s[k + 1..]| == (if |Digits(total)| >= 2 then |Digits(total)| else 2)
  {
    var a, b := Padded(occupied, 2), Padded(total, 2);
    var s := a + "/" + b;
    assert s[..|a|] == a && s[|a| + 1..] == b;
    s
  }

  /** Everything the capture script derives from one processed frame. */
  datatype FrameReport = FrameReport(
    results: seq<SpotResult>,
    occupied: nat,
    glyphs: string,
    summary: string,
    drawing: seq<DrawCommand>)

  /** The reference analysis of one frame: every spot's own result in
      configuration order, the occupied count, the status glyphs, the
      summary and the drawing commands, each derived from the results. */
  function ReportOf(activity: Grid, spots: seq<Spot>, fill: Filler): FrameReport
    requires Placed(activity, spots)
  {
    var rs := Results(activity, spots, fill);
    FrameReport(rs, CountOccupied(rs), StatusGlyphs(rs), Summary(CountOccupied(rs), |spots|), Annotate(spots, rs))
  }

  /** The number of `#` glyphs is the number of occupied spots. */
  lemma {:induction false} GlyphsCountOccupied(rs: seq<SpotResult>)
    ensures multiset(Map(GlyphOf, rs))['#'] == CountOccupied(rs)
  {
    if |rs| > 0 {
      var n := |rs| - 1;
      GlyphsCountOccupied(rs[..n]);
      assert Map(GlyphOf, rs) == Map(GlyphOf, rs[..n]) + [GlyphOf(rs[n])];
      assert Map(OccupancyOf, rs) == Map(OccupancyOf, rs[..n]) + [OccupancyOf(rs[n])];
    }
  }

  /** The status line holds one glyph per spot between brackets, and a
      glyph is `#` exactly for an occupied spot. */
  lemma StatusLineShape(rs: seq<SpotResult>)
    ensures var g := StatusGlyphs(rs);
            && |g| == |rs| + 2
            && g[0] == '[' && g[|rs| + 1] == ']'
            && (forall k :: 0 <= k < |rs| ==> (g[k + 1] == '#' <==> rs[k].occupancy == Occupied))
  {
    var line := Map(GlyphOf, rs);
    var g := StatusGlyphs(rs);
    forall k | 0 <= k < |rs|
      ensures g[k + 1] == '#' <==> rs[k].occupancy == Occupied
    {
      assert g[k + 1] == line[k];
    }
  }

  /** The `#` count of the status line is the occupied count, which cannot
      exceed the number of spots. */
  lemma StatusLineCount(rs: seq<SpotResult>)
    ensures multiset(StatusGlyphs(rs))['#'] == CountOccupied(rs) <= |rs|
  {
    var line := Map(GlyphOf, rs);
    GlyphsCountOccupied(rs);
    OccurrencesBound(Map(OccupancyOf, rs), Occupied);
    assert multiset(StatusGlyphs(rs)) == multiset("[") + multiset(line) + multiset("]");
  }

  /** Analysing one more spot appends its result. */
  lemma ResultsSnoc(activity: Grid, spots: seq<Spot>, k: nat, fill: Filler)
    requires Placed(activity, spots) && k < |spots|
    ensures Placed(activity, spots[..k]) && Placed(activity, spots[..k + 1])
    ensures Results(activity, spots[..k + 1], fill)
            == Results(activity, spots[..k], fill) + [AnalyseSpot(activity, spots[k], fill)]
  {
    PlacedPrefix(activity, spots, k);
    PlacedPrefix(activity, spots, k + 1);
    var f := Analyser(activity, fill);
    var pre, x := spots[..k], spots[k];
    assert Defined(f, pre) && f.requires(x) && f(x) == AnalyseSpot(activity, x, fill);
    assert Map(f, pre + [x]) == Map(f, pre) + [f(x)] by {
      MapSnoc(f, pre, x);
    }
    TakeSnoc(spots, k);
  }

  /** A prefix of placed spots is placed. */
  lemma PlacedPrefix(activity: Grid, spots: seq<Spot>, j: nat)
    requires Placed(activity, spots) && j <= |spots|
    ensures Placed(activity, spots[..j])
  {
  }

  /** Annotating one more spot appends its label and its outline. */
  lemma AnnotateSnoc(spots: seq<Spot>, k: nat, rs: seq<SpotResult>, res: SpotResult)
    requires |rs| == k < |spots|
    ensures Annotate(spots[..k + 1], rs + [res])
            == Annotate(spots[..k], rs) + [SpotLabel(res), SpotOutline(spots[k], res)]
  {
    TakeTake(spots, k, k + 1);
    TakeAppend(rs, res);
  }

  /** Tallying one more result. */
  lemma TallySnoc(rs: seq<SpotResult>, res: SpotResult)
    ensures CountOccupied(rs + [res]) == CountOccupied(rs) + (if res.occupancy == Occupied then 1 else 0)
    ensures "[" + Map(GlyphOf, rs + [res]) == "[" + Map(GlyphOf, rs) + [Glyph(res.occupancy)]
  {
    MapSnoc(OccupancyOf, rs, res);
    MapSnoc(GlyphOf, rs, res);
  }

  /** The loop variables of the per-spot loop: the results so far, the
      occupied count `contador`, the status line so far (without its
      closing bracket) and the drawing commands issued so far. */
  datatype Tally = Tally(results: seq<SpotResult>, contador: nat, glyphs: string, drawing: seq<DrawCommand>)

  /** The loop variables after the first `k` spots. */
  ghost predicate TallyAfter(t: Tally, activity: Grid, spots: seq<Spot>, fill: Filler, k: nat)
    requires Placed(activity, spots) && k <= |spots|
  {
    && Placed(activity, spots[..k])
    && t.results == Results(activity, spots[..k], fill)
    && t.contador == CountOccupied(t.results)
    && t.glyphs == "[" + Map(GlyphOf, t.results)
    && t.drawing == Annotate(spots[..k], t.results)
  }

  /** Accounts for one analysed spot: append its result, bump the occupied
      count when it is occupied, append its glyph, and draw its label and
      outline. */
  function Next(t: Tally, spot: Spot, res: SpotResult): (t': Tally)
    ensures t'.contador == t.contador + (if res.occupancy == Occupied then 1 else 0)
    ensures t'.glyphs == t.glyphs + [Glyph(res.occupancy)]
  {
    Tally(
      t.results + [res],
      if res.occupancy == Occupied then t.contador + 1 else t.contador,
      t.glyphs + [Glyph(res.occupancy)],
      t.drawing + [SpotLabel(res), SpotOutline(spot, res)])
  }

  /** Accounting for spot `k` turns the loop variables after `k` spots into
      those after `k + 1` spots. */
  lemma NextKeepsTally(activity: Grid, spots: seq<Spot>, fill: Filler, k: nat, t: Tally)
    requires Placed(activity, spots) && k < |spots|
    requires TallyAfter(t, activity, spots, fill, k)
    ensures TallyAfter(Next(t, spots[k], AnalyseSpot(activity, spots[k], fill)), activity, spots, fill, k + 1)
  {
    var res := AnalyseSpot(activity, spots[k], fill);
    var t' := Next(t, spots[k], res);
    assert Placed(activity, spots[..k + 1]) && t'.results == Results(activity, spots[..k + 1], fill) by {
      ResultsSnoc(activity, spots, k, fill);
    }
    assert t'.contador == CountOccupied(t'.results) && t'.glyphs == "[" + Map(GlyphOf, t'.results) by {
      TallySnoc(t.results, res);
    }
    assert t'.drawing == Annotate(spots[..k + 1], t'.results) by {
      var cmds := [SpotLabel(res), SpotOutline(spots[k], res)];
      assert t'.drawing == t.drawing + cmds;
      assert t'.results == t.results + [res];
      AnnotateSnoc(spots, k, t.results, res);
    }
  }

  /** One iteration of the per-spot loop. */
  method AddSpot(activity: Grid, spots: seq<Spot>, fill: Filler, k: nat, t: Tally) returns (t': Tally)
    requires Placed(activity, spots) && k < |spots|
    requires TallyAfter(t, activity, spots, fill, k)
    ensures TallyAfter(t', activity, spots, fill, k + 1)
  {
    var res := AnalyseSpot(activity, spots[k], fill);
    var contador, glyphs := t.contador, t.glyphs;
    if res.occupancy == Free {
      glyphs := glyphs + [' '];
    } else {
      contador := contador + 1;
      glyphs := glyphs + ['#'];
    }
    var drawing := t.drawing + [SpotLabel(res), SpotOutline(spots[k], res)];
    t' := Tally(t.results + [res], contador, glyphs, drawing);
    NextKeepsTally(activity, spots, fill, k, t);
    assert t' == Next(t, spots[k], res);
  }

  /** The per-spot loop of the capture script, run over one activity
      image. */
  method AnalyseFrame(activity: Grid, spots: seq<Spot>, fill: Filler) returns (report: FrameReport)
    requires Placed(activity, spots)
    ensures report == ReportOf(activity, spots, fill)
    ensures report.occupied == multiset(report.glyphs)['#'] <= |spots|
  {
    var t := Tally([], 0, "[", []);
    for k := 0 to |spots|
      invariant TallyAfter(t, activity, spots, fill, k)
    {
      t := AddSpot(activity, spots, fill, k, t);
    }
    TakeAll(spots);
    var glyphs := t.glyphs + "]";
    report := FrameReport(t.results, t.contador, glyphs, Summary(t.contador, |spots|), t.drawing);
    StatusLineCount(t.results);
  }

  /** Placement does not depend on the order of the spots. */
  lemma PlacedPermutation(activity: Grid, spots: seq<Spot>, spots': seq<Spot>)
    requires Placed(activity, spots)
    requires multiset(spots) == multiset(spots')
    ensures Placed(activity, spots')
  {
    forall i | 0 <= i < |spots'|
      ensures Fits(spots'[i], |activity|, Width(activity))
    {
      assert spots'[i] in multiset(spots);
      var k :| 0 <= k < |spots| && spots[k] == spots'[i];
    }
  }

  /** Reordering the configured spots permutes the results: every spot keeps
      its own count and outcome, and the number of occupied spots is
      unchanged. */
  lemma ReorderingSpots(activity: Grid, spots: seq<Spot>, spots': seq<Spot>, fill: Filler)
    requires Placed(activity, spots)
    requires multiset(spots) == multiset(spots')
    ensures Placed(activity, spots')
    ensures multiset(Results(activity, spots, fill)) == multiset(Results(activity, spots', fill))
    ensures CountOccupied(Results(activity, spots, fill)) == CountOccupied(Results(activity, spots', fill))
  {
    PlacedPermutation(activity, spots, spots');
    var f := Analyser(activity, fill);
    MapPermutation(f, spots, spots');
    var rs, rs' := Map(f, spots), Map(f, spots');
    MapPermutation(OccupancyOf, rs, rs');
  }

  /** No activity pixel is set under the spot's mask. Foreground inside
      the bounding rectangle but outside the filled polygon is allowed: the
      masked AND discards it. */
  predicate Unmasked(activity: Grid, spot: Spot, fill: Filler)
    requires Rectangular(activity) && Fits(spot, |activity|, Width(activity))
  {
    var m := BuildMask(spot, fill);
    forall i, j :: 0 <= i < m.rect.h && 0 <= j < m.rect.w && m.raster[i][j] ==>
      !activity[m.rect.y + i][m.rect.x + j]
  }

  /** A spot counts zero exactly when no foreground lies under its mask,
      and such a spot is free as soon as its threshold is positive. */
  lemma UnmaskedSpotIsFree(activity: Grid, spot: Spot, fill: Filler)
    requires Rectangular(activity) && Fits(spot, |activity|, Width(activity))
    ensures AnalyseSpot(activity, spot, fill).count == 0 <==> Unmasked(activity, spot, fill)
    ensures Unmasked(activity, spot, fill) && spot.threshold >= 1 ==>
              AnalyseSpot(activity, spot, fill).occupancy == Free
  {
    var m := BuildMask(spot, fill);
    MaskedCountZeroIff(activity, m.rect, m.raster);
  }

  /** A frame in which exactly one spot reaches its threshold, and every
      other spot stays below its own, reports that spot alone as occupied
      and an occupied count of one. */
  lemma SingleSpotOccupied(activity: Grid, spots: seq<Spot>, fill: Filler, j: nat)
    requires Placed(activity, spots) && j < |spots|
    requires AnalyseSpot(activity, spots[j], fill).count >= spots[j].threshold
    requires forall k :: 0 <= k < |spots| && k != j ==>
               AnalyseSpot(activity, spots[k], fill).count < spots[k].threshold
    ensures var rs := Results(activity, spots, fill);
            && rs[j].occupancy == Occupied
            && (forall k :: 0 <= k < |rs| && k != j ==> rs[k].occupancy == Free)
            && CountOccupied(rs) == 1
  {
    var rs := Results(activity, spots, fill);
    forall k | 0 <= k < |rs| && k != j
      ensures rs[k].occupancy == Free
    {
      assert rs[k] == AnalyseSpot(activity, spots[k], fill);
    }
    assert rs[j].occupancy == Occupied;
    OccupiedOnce(rs, j);
  }

  /** Results with exactly one occupied entry count one occupied spot. */
  lemma OccupiedOnce(rs: seq<SpotResult>, j: nat)
    requires j < |rs| && rs[j].occupancy == Occupied
    requires forall k :: 0 <= k < |rs| && k != j ==> rs[k].occupancy == Free
    ensures CountOccupied(rs) == 1
  {
    var occ := Map(OccupancyOf, rs);
    OccursOnce(occ, j, Occupied);
  }

  /** When no result is occupied, nothing is counted and the status line
      holds no `#`. */
  lemma NoneOccupied(rs: seq<SpotResult>)
    requires forall k :: 0 <= k < |rs| ==> rs[k].occupancy == Free
    ensures CountOccupied(rs) == 0
    ensures '#' !in StatusGlyphs(rs)
  {
    var occ := Map(OccupancyOf, rs);
    assert forall k :: 0 <= k < |occ| ==> occ[k] == Free;
    assert Occupied !in occ;
    StatusLineCount(rs);
  }

  /** An activity image with no foreground under any spot leaves every spot
      with a positive threshold free: a zero count, no occupied spot, no
      `#`, and every outline green. */
  lemma EmptyLotAllFree(activity: Grid, spots: seq<Spot>, fill: Filler)
    requires Placed(activity, spots)
    requires forall k :: 0 <= k < |spots| ==> Unmasked(activity, spots[k], fill) && spots[k].threshold >= 1
    ensures var rs := Results(activity, spots, fill);
            && (forall k :: 0 <= k < |rs| ==> rs[k].count == 0 && rs[k].occupancy == Free)
            && CountOccupied(rs) == 0
            && '#' !in StatusGlyphs(rs)
            && (forall k :: 0 <= k < |spots| ==> SpotOutline(spots[k], rs[k]).colour == Green)
  {
    var rs := Results(activity, spots, fill);
    forall k | 0 <= k < |spots|
      ensures rs[k].count == 0 && rs[k].occupancy == Free
    {
      UnmaskedSpotIsFree(activity, spots[k], fill);
    }
    NoneOccupied(rs);
  }
}
