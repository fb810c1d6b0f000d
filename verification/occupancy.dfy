/** The classification policy for one spot and the two ways its outcome is
    shown: a glyph in the console status line and the outline colour drawn
    around the spot. */
module Occupancy {

  /** What the script decides about one spot in one frame. */
  datatype Status = Free | Occupied

  /** A spot is free when its masked foreground count stays strictly below
      its threshold, and occupied otherwise. */
  function Classify(count: nat, threshold: int): (o: Status)
    ensures o == Free <==> count < threshold
    ensures o == Occupied <==> count >= threshold
  {
    if count < threshold then Free else Occupied
  }

  /** The boundary is inclusive on the occupied side: a count equal to the
      threshold is occupied and one pixel less is free. */
  lemma ClassifyBoundary(threshold: nat)
    requires threshold >= 1
    ensures Classify(threshold, threshold) == Occupied
    ensures Classify(threshold - 1, threshold) == Free
  {
  }

  /** A threshold of zero (or below, which the configuration does not
      forbid) makes the spot occupied whatever the count. */
  lemma NonPositiveThresholdAlwaysOccupied(count: nat, threshold: int)
    requires threshold <= 0
    ensures Classify(count, threshold) == Occupied
  {
  }

  /** For a fixed count, raising the threshold can only turn an occupied
      spot free, never a free spot occupied. */
  lemma ThresholdMonotone(count: nat, t1: int, t2: int)
    requires t1 <= t2
    ensures Classify(count, t1) == Free ==> Classify(count, t2) == Free
    ensures Classify(count, t2) == Occupied ==> Classify(count, t1) == Occupied
  {
  }

  /** For a fixed threshold, more foreground can only turn a free spot
      occupied. */
  lemma CountMonotone(c1: nat, c2: nat, threshold: int)
    requires c1 <= c2
    ensures Classify(c1, threshold) == Occupied ==> Classify(c2, threshold) == Occupied
  {
  }

  /** The least integer at or above `t`. */
  function Ceiling(t: real): (c: int)
    ensures c as real - 1.0 < t <= c as real
  {
    -((-t).Floor)
  }

  /** The configuration may give a fractional threshold `t`. Compared with
      a whole-number count it acts exactly as the integer threshold
      `Ceiling(t)`. */
  lemma FractionalThreshold(count: nat, t: real)
    ensures count as real < t <==> Classify(count, Ceiling(t)) == Free
  {
  }

  /** An OpenCV colour, in its blue-green-red channel order. */
  datatype Colour = Bgr(b: int, g: int, r: int)

  const Green: Colour := Bgr(0, 255, 0)
  const Red: Colour := Bgr(0, 0, 255)
  /** Colour of the pixel-count label. */
  const Magenta: Colour := Bgr(255, 0, 255)

  /** Outline colour: green for a free spot, red for an occupied one. */
  function OutlineColour(o: Status): (c: Colour)
    ensures c == Green <==> o == Free
    ensures c == Red <==> o == Occupied
  {
    match o
    case Free => Green
    case Occupied => Red
  }

  /** Status-line glyph: a blank for a free spot, `#` for an occupied one. */
  function Glyph(o: Status): (c: char)
    ensures c == ' ' <==> o == Free
    ensures c == '#' <==> o == Occupied
  {
    match o
    case Free => ' '
    case Occupied => '#'
  }
}
