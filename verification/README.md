# Parking-spot occupancy from a camera stream: the capture loop in Dafny

`camera.py` reads frames from a video stream and processes at most one frame
per second. For each processed frame it decides, spot by spot, whether a
configured parking spot is free or occupied, and it does this by counting
foreground pixels under the spot's polygon. It also prints a status line such
as `[ # #] 02/04`, draws the pixel count and a green or red outline for every
spot, and writes the annotated frame to `/tmp/cam_output_NNNN.jpg`.

This project models the discrete logic of that loop and proves properties of
it:

- **Sampler** (`sampler.dfy`). This is the rate limiter. Its state is
  `last_frame_time`, `processed` and `skipped`, and a stream of frame times
  is folded over it. Time is counted in integer ticks, 1000 to the second.
  The frame interval is one second, because `target_fps = 1` is fixed in the
  script.
- **Raster** (`raster.dfy`) and **Geometry** (`geometry.dfy`). These hold
  the per-spot image operations:
  - `cv2.boundingRect` of the polygon;
  - translation of the polygon to the rectangle's corner;
  - the numpy crop `frameDil[y:y+h, x:x+w]`;
  - `cv2.bitwise_and` with the spot mask;
  - `cv2.countNonZero`.
- **Occupancy** (`occupancy.dfy`). This is the classification policy
  (`count < threshold` means free), with the glyph and outline colour that
  show the outcome.
- **SpotAnalysis** (`spots.dfy`). This is the per-spot loop over one frame.
  It produces the per-spot results, the occupied counter `contador`, the
  bracketed glyph string, the `NN/NN` summary and the drawing commands. The
  loop is a method, and its loop variables are tracked by an invariant.
- **Decimal** (`decimal.dfy`). This covers `str(n)`, `f'{n:0Wd}'` and the
  snapshot path `/tmp/cam_output_{processed:04d}.jpg`, together with a
  parser that reads the counter back out of a path.
- **Capture** (`capture.dfy`). This is the outer `while` loop over a finite
  sequence of frames. Each frame carries the clock reading taken after it
  was read and its binary activity image.
- **Seqs** (`seqs.dfy`). These are generic sequence helpers: `Map` and the
  facts that it commutes with reordering.

The activity image (the output of the OpenCV preprocessing) is a
`seq<seq<bool>>` input. Polygon filling (`cv2.fillPoly`) is a parameter: a
function that says whether a pixel is covered by a polygon. The mask raster
is built from that function at the bounding rectangle's size. Drawing is
modelled as the list of commands handed to `putText` and `polylines`. The
activity image is never written, so one spot's annotation cannot affect
another spot's count.

The model follows the code on three points that are easy to misread:

- A threshold is any integer. The JSON configuration also allows a
  fractional threshold, which the model leaves out (see below).
- A spot whose threshold is 0 is occupied whatever its count. So "an empty
  lot leaves every spot free" holds only for spots with a positive threshold.
  `SpotAnalysis.EmptyLotAllFree` requires that.
- Accepted frames are at least one interval apart even when the clock goes
  backwards. `Sampler.AcceptedSpacing` does not assume ordered timestamps.

## Model

| member | source | states |
|---|---|---|
| Sampler.Init | camera.py:69-71 | Start-up reads the clock once and counts nothing: the reference time is the start time and both counters are zero. |
| Sampler.Decide | camera.py:79-80 | A frame read at `now` is processed exactly when at least one frame interval has elapsed since the last accepted frame. |
| Sampler.Step | camera.py:79-81 | An accepted frame moves the reference time to `now`, bumps `processed` and leaves `skipped`. A dropped frame keeps the reference time and bumps only `skipped`. Exactly one counter grows, by one. |
| Sampler.RunCounts | camera.py:73-81 | Over any stream, `processed + skipped` grows by the number of frames read. `processed` grows by the number of accepted frames. |
| Sampler.AcceptedIff | camera.py:79-81 | Frame `i` is among the accepted ones if and only if its time is at least one interval after the reference time left by the frames before it. |
| Sampler.LastIsLastAccepted | camera.py:80-81 | After a run, the reference time is the time of the last accepted frame, or the start time when none was accepted. |
| Sampler.AcceptedSpacing | camera.py:80-81 | The first accepted frame is at least one interval after start-up. Any two consecutive accepted frames are at least one interval apart. This holds without ordered timestamps. |
| Sampler.LastAdvances | camera.py:80-81 | The reference time advances by at least one interval per accepted frame. |
| Sampler.AcceptanceRateBound | camera.py:80-81 | Over a window ending at `end`, at most `(end - start) / interval` frames are accepted, however fast frames arrive. |
| Sampler.SlowSourceAllAccepted | camera.py:79-81 | Frames arriving at least one interval apart are all processed. None is skipped, and the reference time ends at the last frame. |
| Geometry.Extend | camera.py:104 | Adding a point to a rectangle moves each edge just far enough to cover it: the new min and max columns and rows are those of the old rectangle and the point. |
| Geometry.BoundingRect | camera.py:104 | The bounding rectangle has positive width and height and holds every point of the polygon. |
| Geometry.BoundingRectIsTight | camera.py:104 | Some polygon point lies on each of the four sides, so no smaller rectangle holds the polygon. |
| Geometry.ToLocal | camera.py:105 | `mask_np - [x, y]`: every point is shifted by the rectangle's corner. |
| Geometry.LocalPolygonInRect | camera.py:104-105 | In rectangle-local coordinates, every point has a column in `[0, w)` and a row in `[0, h)`, and some point touches column 0 and row 0. |
| Geometry.TranslateBoundingRect | camera.py:104 | Moving a polygon moves its bounding rectangle by the same offset and leaves its size unchanged. |
| Geometry.TranslationInvariance | camera.py:103-105 | The rectangle-local shape of a polygon, which the mask is built from, does not depend on where the polygon lies in the frame. |
| Raster.Crop | camera.py:112 | The crop is `h` rows of `w` pixels, and its pixel `(i, j)` is the frame's pixel `(y+i, x+j)`. |
| Raster.MaskWith | camera.py:113 | A pixel survives the masked AND exactly when it is set in both the source and the mask. |
| Raster.CountIsCardinality | camera.py:116 | `countNonZero` equals the number of distinct set-pixel coordinates, so each set pixel is counted once. |
| Raster.CountBound | camera.py:108 | A `rows` x `cols` image has at most `rows * cols` set pixels. |
| Raster.MaskedCount | camera.py:112-116 | Crop-AND-count equals the number of pixels set both in the crop and in the mask. It is at most the mask's own count, which is at most `w * h`. |
| Raster.EmptyCropCountsZero | camera.py:112-116 | A crop with no set pixel counts zero, whatever the mask. |
| Raster.MaskedCountIsLocal | camera.py:112-116 | Two activity images that agree under the rectangle give the same count, so pixels outside the spot's rectangle have no effect. |
| Occupancy.Classify | camera.py:130-136 | A spot is free if and only if its count is below its threshold, and occupied if and only if the count reaches it. |
| Occupancy.FractionalThreshold | camera.py:101-130 | A fractional threshold `t`, compared with a whole-number count, gives free exactly when the integer threshold `Ceiling(t)` does. |
| Occupancy.ClassifyBoundary | camera.py:130 | A count equal to the threshold is occupied; one pixel less is free. |
| Occupancy.NonPositiveThresholdAlwaysOccupied | camera.py:130-136 | With a threshold of zero or less, every count is occupied. |
| Occupancy.ThresholdMonotone | camera.py:130 | For a fixed count, raising the threshold can turn an occupied spot free but never a free spot occupied. |
| Occupancy.CountMonotone | camera.py:130 | For a fixed threshold, a larger count can turn a free spot occupied but never the reverse. |
| Occupancy.OutlineColour | camera.py:130-139 | The outline is green `(0,255,0)` exactly for a free spot and red `(0,0,255)` exactly for an occupied one. |
| Occupancy.Glyph | camera.py:130-136 | The status glyph is a blank exactly for a free spot and `#` exactly for an occupied one. |
| Decimal.Digits | camera.py:121 | `str(n)` is a non-empty digit string with no leading zero except for `"0"` itself. |
| Decimal.DigitsRoundTrip | camera.py:121 | The digits of `n` read back as `n`. |
| Decimal.Padded | camera.py:145 | Zero-padded formatting gives a digit string of at least the field width (longer only when `n` needs more digits) that still reads back as `n`. |
| Decimal.PaddedWidth | camera.py:145 | Numbers below `10^width` fill the padded field exactly. |
| Decimal.SnapshotName | camera.py:145 | A snapshot path is `/tmp/cam_output_`, then a digit field that reads back as the counter, then `.jpg`. The field is four characters wide, or exactly as wide as `str(n)` once the counter needs more than four digits. |
| Decimal.DigitStringUnique | camera.py:145-148 | Two digit strings of one length that spell one number are the same string, so a padded field is fixed by its width and value. |
| Decimal.SnapshotNameExact | camera.py:145 | A path equals the one written for counter `n` if and only if it has that shape, so no path with extra leading zeros qualifies. |
| Decimal.SnapshotNameRoundTrip | camera.py:145 | Parsing a snapshot path gives back the counter it was built from. |
| Decimal.SnapshotNameInjective | camera.py:145-146 | Distinct counters give distinct paths. |
| Decimal.FirstSnapshotName | camera.py:145 | The first snapshot is written while `processed` is still zero, as `/tmp/cam_output_0000.jpg`. |
| Decimal.SnapshotNameLength | camera.py:145 | Counters below 10000 all give paths of the same length. |
| SpotAnalysis.Rasterize | camera.py:108-109 | The mask raster is `h` x `w`, and a pixel is set exactly where the fill routine covers it. |
| SpotAnalysis.BuildMask | camera.py:103-109 | A spot's mask sits on the polygon's bounding rectangle. Its raster has the rectangle's size and is set exactly where the polygon, moved to the rectangle's corner, is filled. |
| SpotAnalysis.AnalyseSpot | camera.py:99-136 | A spot's result carries its bounding rectangle and its count. The count is the number of pixels set in both the cropped activity image and the mask, and is bounded by the mask's count and the area. The spot is free exactly when the count is below its threshold. |
| SpotAnalysis.Results | camera.py:99-116 | The loop yields one result per configured spot, in order, and each is that spot's own analysis. |
| SpotAnalysis.SpotLabel | camera.py:119-127 | Each spot's count is drawn as a magenta label. |
| SpotAnalysis.LabelShowsCount | camera.py:119-127 | The label's text is the decimal digits of the count and reads back as the count. It is anchored 5 pixels right of the rectangle's left edge and 10 pixels above its bottom edge. |
| SpotAnalysis.SpotOutline | camera.py:138-139 | Each spot's polygon is drawn as a closed outline, green exactly when the spot is free and red exactly when it is occupied. |
| SpotAnalysis.AnnotateAt | camera.py:99-139 | Drawing commands `2k` and `2k+1` are spot `k`'s label and outline, in spot order. |
| SpotAnalysis.Summary | camera.py:148 | `{contador:02d}/{len:02d}` holds a `/`. The digits before it read back as the occupied count, and the digits after it as the number of spots. Each field is two characters wide, or as wide as the number's own digits when it has more than two. |
| SpotAnalysis.GlyphsCountOccupied | camera.py:132-136 | The number of `#` glyphs equals the number of occupied spots. |
| SpotAnalysis.StatusLineShape | camera.py:97-140 | The status line is `[`, then one glyph per spot, then `]`. Glyph `k` is `#` exactly when spot `k` is occupied. |
| SpotAnalysis.StatusLineCount | camera.py:95-140 | The status line's `#` count equals the occupied count, which is at most the number of spots. |
| SpotAnalysis.Next | camera.py:129-139 | Accounting for one spot bumps `contador` exactly when the spot is occupied, and appends that spot's glyph. |
| SpotAnalysis.NextKeepsTally | camera.py:99-139 | Accounting for spot `k` turns the loop variables after `k` spots into those after `k + 1` spots. |
| SpotAnalysis.AddSpot | camera.py:99-139 | One pass of the per-spot loop keeps the loop variables equal to the results, count, glyphs and drawing of the spots handled so far. |
| SpotAnalysis.AnalyseFrame | camera.py:95-148 | The per-spot loop, with its running `contador`, glyph string and drawing, yields exactly the reference report `ReportOf`. That report has every spot's own result in order, and its count, glyphs, summary and drawing are derived from those results. `contador` equals the number of `#` and is at most the number of spots. |
| SpotAnalysis.ReorderingSpots | camera.py:99-139 | Reordering the spot list permutes the results (each spot keeps its count and outcome) and leaves the occupied count unchanged. |
| Raster.MaskedCountZeroIff | camera.py:112-116 | The masked count is zero exactly when no activity pixel is set where the mask is set. Foreground the mask leaves out does not matter. |
| SpotAnalysis.UnmaskedSpotIsFree | camera.py:103-136 | A spot counts zero exactly when no foreground lies under its mask. Such a spot is free when its threshold is positive. |
| SpotAnalysis.SingleSpotOccupied | camera.py:130-136 | When one spot reaches its threshold and every other spot stays below its own, that spot alone is occupied and the occupied count is one. |
| SpotAnalysis.EmptyLotAllFree | camera.py:103-139 | When no spot has foreground under its mask and every threshold is positive: all counts are zero, all spots are free, the occupied count is zero, no `#` is printed, and every outline is green. |
| Capture.MatchSkip | camera.py:149-150 | A dropped frame writes no snapshot. |
| Capture.MatchTake | camera.py:143-146 | An accepted frame writes one snapshot, named after the number of snapshots before it and holding that frame's analysis. |
| Capture.ExpectedMatches | camera.py:143-146 | The snapshots written are one per accepted frame. The `k`-th is named after `k` and holds the analysis of the `k`-th accepted frame. |
| Capture.CaptureFrame | camera.py:79-150 | One pass of the capture loop steps the sampler by one frame. On acceptance it saves the analysed frame under the counter before bumping it. |
| Capture.CaptureLoop | camera.py:69-150 | Over a finite stream: the final state is the sampler's run, `processed + skipped` is the number of frames read, and there is one snapshot per processed frame. The `k`-th snapshot is named `cam_output_k` and holds the analysis of the `k`-th accepted frame. |
| Capture.SnapshotNamesDistinct | camera.py:145-146 | No two snapshots of a run share a path, so none overwrites another. |

## Left out

- Image preprocessing (`cvtColor`, `adaptiveThreshold`, `medianBlur`, `dilate`, camera.py:88-94) is left out. These are OpenCV numerics. The binary activity image they produce is an input.
- Polygon filling by `cv2.fillPoly` (camera.py:109) is a parameter (`Filler`). The model fixes the mask's size and placement, not which pixels the rasteriser covers.
- The pixels that `putText` and `polylines` paint are not modelled: font, anti-aliasing and line rasterisation are OpenCV's. The model records what is drawn, where, in which colour and with which thickness. A label holds the count, and its text is `LabelText`.
- Floating-point wall-clock time, `strftime`, the latency figure and the `{processed:8d}` counter of the status line (camera.py:69, 79-85, 148) are left out. Time is an integer tick count, and only the `NN/NN` summary of that line is modelled.
- Argument parsing and JSON loading (camera.py:9-28) are left out. The configured `fps` is read but never used by the script.
- `VideoCapture`, the ffmpeg subprocess and `cv2.imwrite` (camera.py:32-67, 143-145, 152-165) are I/O. A stream is a finite sequence of frames, and a written file is a `Snapshot` value.
- The `try`/`except`/`finally` shutdown (camera.py:152-165) and an unbounded stream are left out. The model runs over a finite frame sequence that ends like `cap.read()` failing.
- SpotAnalysis.AnalyseSpot: requires the spot's bounding rectangle to lie inside the frame, because numpy's slice clamping for a spot hanging over the edge (camera.py:112) is not modelled.
- Occupancy.Classify: takes an integer threshold. camera.py:101 reads `threshold` from the JSON without a cast, so a fractional value is compared as a float. Since counts are whole numbers, a fractional threshold `t` classifies exactly like the integer `Ceiling(t)`, as `Occupancy.FractionalThreshold` states.
- Geometry.BoundingRect: requires a non-empty polygon. The configuration promises at least three points, and an empty one makes the script fail.
