/** The capture loop: frames are read one after another; the sampler
    decides for each whether to process it; a processed frame is analysed
    spot by spot and saved as a numbered snapshot before the processed
    counter is bumped; a dropped frame only bumps the skipped counter. */
module Capture {
  import opened Raster
  import opened Sampler
  import opened SpotAnalysis
  import opened Decimal

  /** A frame as the loop sees it: the clock reading taken right after it
      was read, and the binary activity image derived from it. */
  datatype Frame = Frame(time: int, activity: Grid)

  /** A written snapshot: its path and what was drawn on and printed for
      its frame. */
  datatype Snapshot = Snapshot(name: string, report: FrameReport)

  /** The clock readings of `frames`, in order. */
  function Times(frames: seq<Frame>): (ts: seq<int>)
    ensures |ts| == |frames|
    ensures forall k {:trigger ts[k]} :: 0 <= k < |frames| ==> ts[k] == frames[k].time
  {
    seq(|frames|, k requires 0 <= k < |frames| => frames[k].time)
  }

  /** Every spot fits every frame's activity image. */
  predicate AllPlaced(frames: seq<Frame>, spots: seq<Spot>)
  {
    forall k {:trigger frames[k]} :: 0 <= k < |frames| ==> Placed(frames[k].activity, spots)
  }

  /** The snapshots written so far match the frames the sampler accepted
      among `frames[..i]`: the `k`-th one is named after `k` and holds the
      analysis of the `k`-th accepted frame. */
  ghost predicate SnapshotsMatch(snapshots: seq<Snapshot>, start: int, frames: seq<Frame>, i: nat,
                                 spots: seq<Spot>, fill: Filler)
    requires AllPlaced(frames, spots) && i <= |frames|
  {
    var acc := Accepted(Init(start), Times(frames)[..i]);
    && |snapshots| == |acc|
    && forall k :: 0 <= k < |snapshots| ==>
         && snapshots[k].name == SnapshotName(k)
         && acc[k] < |frames|
         && snapshots[k].report == ReportOf(frames[acc[k]].activity, spots, fill)
  }

  /** The snapshots the loop has written once it has read `frames[..i]`:
      an accepted frame appends its analysis under the number of snapshots
      before it, a dropped frame appends nothing. */
  function Expected(start: int, frames: seq<Frame>, i: nat, spots: seq<Spot>, fill: Filler): (snaps: seq<Snapshot>)
    requires AllPlaced(frames, spots) && i <= |frames|
  {
    if i == 0 then []
    else
      var before := Expected(start, frames, i - 1, spots, fill);
      if Decide(Run(Init(start), Times(frames)[..i - 1]), frames[i - 1].time) == Process
      then before + [Snapshot(SnapshotName(|before|), ReportOf(frames[i - 1].activity, spots, fill))]
      else before
  }

  /** A dropped frame leaves the match in place. */
  lemma MatchSkip(snapshots: seq<Snapshot>, start: int, frames: seq<Frame>, n: nat,
                  spots: seq<Spot>, fill: Filler)
    requires AllPlaced(frames, spots) && n < |frames|
    requires SnapshotsMatch(snapshots, start, frames, n, spots, fill)
    requires Decide(Run(Init(start), Times(frames)[..n]), frames[n].time) == Skip
    ensures SnapshotsMatch(snapshots, start, frames, n + 1, spots, fill)
  {
    RunSnoc(Init(start), Times(frames), n);
  }

  /** An accepted frame extends the match by its own analysis, numbered by
      the snapshots before it. */
  lemma MatchTake(snapshots: seq<Snapshot>, start: int, frames: seq<Frame>, n: nat,
                  spots: seq<Spot>, fill: Filler)
    requires AllPlaced(frames, spots) && n < |frames|
    requires SnapshotsMatch(snapshots, start, frames, n, spots, fill)
    requires Decide(Run(Init(start), Times(frames)[..n]), frames[n].time) == Process
    ensures SnapshotsMatch(snapshots + [Snapshot(SnapshotName(|snapshots|), ReportOf(frames[n].activity, spots, fill))],
                           start, frames, n + 1, spots, fill)
  {
    RunSnoc(Init(start), Times(frames), n);
    var after := snapshots + [Snapshot(SnapshotName(|snapshots|), ReportOf(frames[n].activity, spots, fill))];
    var acc, acc' := Accepted(Init(start), Times(frames)[..n]), Accepted(Init(start), Times(frames)[..n + 1]);
    assert acc' == acc + [n];
    forall k | 0 <= k < |after|
      ensures after[k].name == SnapshotName(k) && acc'[k] < |frames|
      ensures after[k].report == ReportOf(frames[acc'[k]].activity, spots, fill)
    {
      if k < |snapshots| {
        assert after[k] == snapshots[k] && acc'[k] == acc[k];
      } else {
        assert k == |snapshots| && acc'[k] == n;
        assert after[k] == Snapshot(SnapshotName(k), ReportOf(frames[n].activity, spots, fill));
      }
    }
  }

  /** The snapshots written are exactly one per accepted frame, the `k`-th
      named after `k` and holding the analysis of the `k`-th accepted
      frame. */
  lemma {:induction false} ExpectedMatches(start: int, frames: seq<Frame>, i: nat, spots: seq<Spot>, fill: Filler)
    requires AllPlaced(frames, spots) && i <= |frames|
    ensures SnapshotsMatch(Expected(start, frames, i, spots, fill), start, frames, i, spots, fill)
  {
    if i > 0 {
      var n := i - 1;
      ExpectedMatches(start, frames, n, spots, fill);
      if Decide(Run(Init(start), Times(frames)[..n]), frames[n].time) == Process {
        MatchTake(Expected(start, frames, n, spots, fill), start, frames, n, spots, fill);
      } else {
        MatchSkip(Expected(start, frames, n, spots, fill), start, frames, n, spots, fill);
      }
    }
  }

  /** One pass of the capture loop over frame `i`: an accepted frame is
      analysed and saved under the current counter before the counter is
      bumped; a dropped frame only bumps the skipped counter. */
  method CaptureFrame(start: int, frames: seq<Frame>, spots: seq<Spot>, fill: Filler, i: nat,
                      state: SamplerState, snapshots: seq<Snapshot>)
    returns (state': SamplerState, snapshots': seq<Snapshot>)
    requires AllPlaced(frames, spots) && i < |frames|
    requires state == Run(Init(start), Times(frames)[..i])
    requires |snapshots| == state.processed
    requires snapshots == Expected(start, frames, i, spots, fill)
    ensures state' == Run(Init(start), Times(frames)[..i + 1])
    ensures |snapshots'| == state'.processed
    ensures snapshots' == Expected(start, frames, i + 1, spots, fill)
  {
    var now := frames[i].time;
    assert Run(Init(start), Times(frames)[..i + 1]) == Step(state, now) by {
      RunSnoc(Init(start), Times(frames), i);
    }
    if now - state.last >= FrameInterval {
      var report := AnalyseFrame(frames[i].activity, spots, fill);
      snapshots' := snapshots + [Snapshot(SnapshotName(state.processed), report)];
      state' := SamplerState(now, state.processed + 1, state.skipped);
    } else {
      snapshots' := snapshots;
      state' := SamplerState(state.last, state.processed, state.skipped + 1);
    }
  }

  /** The capture loop over a finite stream of frames, from the start-up
      clock reading `start`. Returns the final sampler state and the
      snapshots written, in order: one per accepted frame, the `k`-th named
      after `k` and holding the analysis of the `k`-th accepted frame. */
  method CaptureLoop(start: int, frames: seq<Frame>, spots: seq<Spot>, fill: Filler)
    returns (state: SamplerState, snapshots: seq<Snapshot>)
    requires AllPlaced(frames, spots)
    ensures state == Run(Init(start), Times(frames))
    ensures state.processed + state.skipped == |frames|
    ensures |snapshots| == state.processed
    ensures SnapshotsMatch(snapshots, start, frames, |frames|, spots, fill)
  {
    state := Init(start);
    snapshots := [];
    var i := 0;
    while i < |frames|
      invariant i <= |frames|
      invariant state == Run(Init(start), Times(frames)[..i])
      invariant |snapshots| == state.processed
      invariant snapshots == Expected(start, frames, i, spots, fill)
    {
      state, snapshots := CaptureFrame(start, frames, spots, fill, i, state, snapshots);
      i := i + 1;
    }
    assert Times(frames)[..|frames|] == Times(frames);
    RunCounts(Init(start), Times(frames));
    ExpectedMatches(start, frames, |frames|, spots, fill);
  }

  /** No two snapshots of one run share a path, so none overwrites
      another. */
  lemma SnapshotNamesDistinct(snapshots: seq<Snapshot>, start: int, frames: seq<Frame>,
                              spots: seq<Spot>, fill: Filler)
    requires AllPlaced(frames, spots)
    requires SnapshotsMatch(snapshots, start, frames, |frames|, spots, fill)
    ensures forall k, l :: 0 <= k < l < |snapshots| ==> snapshots[k].name != snapshots[l].name
  {
    forall k, l | 0 <= k < l < |snapshots|
      ensures snapshots[k].name != snapshots[l].name
    {
      SnapshotNameInjective(k, l);
    }
  }
}
