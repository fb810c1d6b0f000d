/** The frame sampler of the capture loop: a rate limiter that keeps the
    time of the last accepted frame and accepts a newly read frame only when
    a whole frame interval has passed since then. Time is counted in integer
    clock ticks. */
module Sampler {

  /** Clock resolution: ticks per second. */
  const TicksPerSecond: nat := 1000
  /** Processing rate, fixed in the capture script at one frame per second
      whatever the configured `fps` says. */
  const TargetFps: nat := 1
  /** `frame_interval = 1 / target_fps` seconds, in ticks. */
  const FrameInterval: nat := TicksPerSecond / TargetFps

  datatype Decision = Process | Skip

  /** `last_frame_time`, `processed` and `skipped` of the capture loop. */
  datatype SamplerState = SamplerState(last: int, processed: nat, skipped: nat)

  /** State right after start-up: the clock is read once, nothing counted. */
  function Init(start: int): (s: SamplerState)
    ensures s.last == start && s.processed == 0 && s.skipped == 0
  {
    SamplerState(start, 0, 0)
  }

  /** A frame read at `now` is processed iff at least one interval has
      elapsed since the last accepted frame. */
  function Decide(s: SamplerState, now: int): (d: Decision)
    ensures d == Process <==> now - s.last >= FrameInterval
  {
    if now - s.last >= FrameInterval then Process else Skip
  }

  /** Accounts for one frame read at `now`. An accepted frame moves the
      reference time to `now` and bumps `processed`; a dropped frame only
      bumps `skipped`. Exactly one of the counters grows, by one. */
  function Step(s: SamplerState, now: int): (r: SamplerState)
    ensures r.processed + r.skipped == s.processed + s.skipped + 1
    ensures now - s.last >= FrameInterval ==>
              r.last == now && r.processed == s.processed + 1 && r.skipped == s.skipped
    ensures now - s.last < FrameInterval ==>
              r.last == s.last && r.processed == s.processed && r.skipped == s.skipped + 1
  {
    match Decide(s, now)
    case Process => SamplerState(now, s.processed + 1, s.skipped)
    case Skip => SamplerState(s.last, s.processed, s.skipped + 1)
  }

  /** The state after reading frames stamped `times`, in order. */
  function Run(s: SamplerState, times: seq<int>): SamplerState
  {
    if |times| == 0 then s
    else Step(Run(s, times[..|times| - 1]), times[|times| - 1])
  }

  /** Positions in `times` of the frames the sampler accepts, in increasing
      order. */
  function Accepted(s: SamplerState, times: seq<int>): (acc: seq<nat>)
    ensures forall k :: 0 <= k < |acc| ==> acc[k] < |times|
    ensures forall k, l :: 0 <= k < l < |acc| ==> acc[k] < acc[l]
  {
    if |times| == 0 then []
    else
      var n := |times| - 1;
      Accepted(s, times[..n]) + (if Decide(Run(s, times[..n]), times[n]) == Process then [n] else [])
  }

  /** Reading one more frame steps the state and, when the frame is
      accepted, appends its position to the accepted ones. */
  lemma RunSnoc(s: SamplerState, times: seq<int>, i: nat)
    requires i < |times|
    ensures Run(s, times[..i + 1]) == Step(Run(s, times[..i]), times[i])
    ensures Accepted(s, times[..i + 1])
            == Accepted(s, times[..i]) + (if Decide(Run(s, times[..i]), times[i]) == Process then [i] else [])
  {
    assert times[..i + 1][..i] == times[..i];
  }

  /** Every frame read is counted exactly once, and the processed counter
      grows by the number of accepted frames. */
  lemma {:induction false} RunCounts(s: SamplerState, times: seq<int>)
    ensures Run(s, times).processed + Run(s, times).skipped == s.processed + s.skipped + |times|
    ensures Run(s, times).processed == s.processed + |Accepted(s, times)|
  {
    if |times| > 0 {
      RunCounts(s, times[..|times| - 1]);
    }
  }

  /** A frame is accepted iff, at the moment it is read, one interval has
      passed since the previously accepted frame (or since start-up). */
  lemma {:induction false} AcceptedIff(s: SamplerState, times: seq<int>, i: nat)
    requires i < |times|
    ensures i in Accepted(s, times) <==> times[i] - Run(s, times[..i]).last >= FrameInterval
  {
    var n := |times| - 1;
    if i < n {
      AcceptedIff(s, times[..n], i);
      assert times[..n][..i] == times[..i];
    } else {
      assert times[..n] == times[..i];
    }
  }

  /** Where the reference time stands after a run: at the last accepted
      frame, or where it started when nothing was accepted. */
  lemma {:induction false} LastIsLastAccepted(s: SamplerState, times: seq<int>)
    ensures var acc := Accepted(s, times);
            Run(s, times).last == if |acc| == 0 then s.last else times[acc[|acc| - 1]]
  {
    if |times| > 0 {
      var n := |times| - 1;
      LastIsLastAccepted(s, times[..n]);
      var acc := Accepted(s, times[..n]);
      if |acc| > 0 {
        assert times[..n][acc[|acc| - 1]] == times[acc[|acc| - 1]];
      }
    }
  }

  /** Consecutive accepted frames are at least one interval apart, and the
      first is at least one interval after start-up. No ordering of the
      timestamps is needed for this. */
  lemma AcceptedSpacing(s: SamplerState, times: seq<int>)
    ensures var acc := Accepted(s, times);
            && (|acc| > 0 ==> times[acc[0]] - s.last >= FrameInterval)
            && (forall k :: 0 < k < |acc| ==> times[acc[k]] - times[acc[k - 1]] >= FrameInterval)
  {
    AcceptedSpaced(s, times);
  }

  /** The positions `acc` pick out of `times` frames spaced at least one
      interval apart, the first at least one interval after `start`. */
  ghost predicate Spaced(start: int, times: seq<int>, acc: seq<nat>)
  {
    && (forall k :: 0 <= k < |acc| ==> acc[k] < |times|)
    && (|acc| > 0 ==> times[acc[0]] - start >= FrameInterval)
    && (forall k :: 0 < k < |acc| ==> times[acc[k]] - times[acc[k - 1]] >= FrameInterval)
  }

  lemma {:induction false} AcceptedSpaced(s: SamplerState, times: seq<int>)
    ensures Spaced(s.last, times, Accepted(s, times))
  {
    if |times| > 0 {
      var n := |times| - 1;
      var prefix := times[..n];
      var pacc := Accepted(s, prefix);
      AcceptedSpaced(s, prefix);
      LastIsLastAccepted(s, prefix);
      assert times == prefix + [times[n]];
      SpacedSnoc(s.last, prefix, pacc, times[n], Decide(Run(s, prefix), times[n]) == Process);
    }
  }

  /** One more frame keeps the accepted positions spaced, provided that, if
      it is accepted, it lies one interval after the last accepted one. */
  lemma SpacedSnoc(start: int, times: seq<int>, acc: seq<nat>, t: int, accept: bool)
    requires Spaced(start, times, acc)
    requires accept ==> t - (if |acc| == 0 then start else times[acc[|acc| - 1]]) >= FrameInterval
    ensures Spaced(start, times + [t], acc + (if accept then [|times|] else []))
  {
    var times', acc' := times + [t], acc + (if accept then [|times|] else []);
    forall k | 0 <= k < |acc|
      ensures acc'[k] == acc[k] && times'[acc[k]] == times[acc[k]]
    {
    }
  }

  /** The reference time advances by at least one interval per accepted
      frame. */
  lemma {:induction false} LastAdvances(s: SamplerState, times: seq<int>)
    ensures Run(s, times).last - s.last >= |Accepted(s, times)| * FrameInterval
  {
    if |times| > 0 {
      LastAdvances(s, times[..|times| - 1]);
    }
  }

  /** Over any window that ends at `end`, the sampler accepts at most one
      frame per interval, however fast frames arrive. */
  lemma AcceptanceRateBound(s: SamplerState, times: seq<int>, end: int)
    requires s.last <= end
    requires forall i :: 0 <= i < |times| ==> times[i] <= end
    ensures |Accepted(s, times)| * FrameInterval <= end - s.last
  {
    LastAdvances(s, times);
    LastIsLastAccepted(s, times);
  }

  /** Frames that arrive at least one interval apart (the first at least one
      interval after start-up) are all processed and none is skipped. */
  lemma {:induction false} SlowSourceAllAccepted(s: SamplerState, times: seq<int>)
    requires |times| > 0 ==> times[0] - s.last >= FrameInterval
    requires forall i :: 0 < i < |times| ==> times[i] - times[i - 1] >= FrameInterval
    ensures Run(s, times).skipped == s.skipped
    ensures Run(s, times).processed == s.processed + |times|
    ensures |times| > 0 ==> Run(s, times).last == times[|times| - 1]
  {
    if |times| > 0 {
      var n := |times| - 1;
      SlowSourceAllAccepted(s, times[..n]);
    }
  }
}
