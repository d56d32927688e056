/** The per-colour binary mask: OpenCV's `inRange` applied to an HSV frame
    with one catalogue entry's bounds. */
module Mask {
  import opened Colors

  /** A two-dimensional grid, indexed `[row][column]`. */
  type Grid<T> = seq<seq<T>>

  /** The mask value of a pixel inside the range. */
  const On: Byte := 255
  /** The mask value of a pixel outside the range. */
  const Off: Byte := 0

  /** A pixel lies in `[lo, hi]` when every channel does, both ends included. */
  predicate InRange(p: Hsv, lo: Hsv, hi: Hsv) {
    && lo.h <= p.h <= hi.h
    && lo.s <= p.s <= hi.s
    && lo.v <= p.v <= hi.v
  }

  /** A pixel matches a catalogue entry when it lies in the entry's range. */
  predicate Matches(p: Hsv, c: ColorSpec) {
    InRange(p, c.lower, c.upper)
  }

  /** The mask value of one pixel. */
  function Cell(p: Hsv, lo: Hsv, hi: Hsv): Byte {
    if InRange(p, lo, hi) then On else Off
  }

  /** Both grids have the same number of rows and the same row lengths. */
  predicate SameShape<A, B>(a: Grid<A>, b: Grid<B>) {
    |a| == |b| && forall i :: 0 <= i < |a| ==> |a[i]| == |b[i]|
  }

  /** The mask of a whole frame, as a reference definition: the grid of the
      frame's shape whose every cell is the pixel's mask value. */
  function MaskOf(frame: Grid<Hsv>, lo: Hsv, hi: Hsv): Grid<Byte> {
    seq(|frame|, i requires 0 <= i < |frame| =>
      seq(|frame[i]|, j requires 0 <= j < |frame[i]| => Cell(frame[i][j], lo, hi)))
  }

  /** The mask of a frame for one catalogue entry. */
  function MaskFor(frame: Grid<Hsv>, c: ColorSpec): Grid<Byte> {
    MaskOf(frame, c.lower, c.upper)
  }

  /** Every cell of a mask is off. */
  predicate AllOff(m: Grid<Byte>) {
    forall i, j :: 0 <= i < |m| && 0 <= j < |m[i]| ==> m[i][j] == Off
  }

  /** The mask has the frame's shape; a cell is 255 exactly when its pixel
      is in range, and 0 exactly when it is not, so no other value occurs. */
  lemma MaskOfSpec(frame: Grid<Hsv>, lo: Hsv, hi: Hsv)
    ensures SameShape(MaskOf(frame, lo, hi), frame)
    ensures forall i, j :: 0 <= i < |frame| && 0 <= j < |frame[i]| ==>
      && (MaskOf(frame, lo, hi)[i][j] == On <==> InRange(frame[i][j], lo, hi))
      && (MaskOf(frame, lo, hi)[i][j] == Off <==> !InRange(frame[i][j], lo, hi))
  {
  }

  /** Computes the mask row by row and pixel by pixel, as `inRange` does. */
  method ComputeMask(frame: Grid<Hsv>, lo: Hsv, hi: Hsv) returns (mask: Grid<Byte>)
    ensures SameShape(mask, frame)
    ensures forall i, j :: 0 <= i < |frame| && 0 <= j < |frame[i]| ==>
      (mask[i][j] == On <==> InRange(frame[i][j], lo, hi))
    ensures forall i, j :: 0 <= i < |frame| && 0 <= j < |frame[i]| ==>
      mask[i][j] == On || mask[i][j] == Off
    ensures mask == MaskOf(frame, lo, hi)
  {
    mask := [];
    var i := 0;
    while i < |frame|
      invariant 0 <= i <= |frame|
      invariant |mask| == i
      invariant forall k :: 0 <= k < i ==> mask[k] == MaskOf(frame, lo, hi)[k]
    {
      var row: seq<Byte> := [];
      var j := 0;
      while j < |frame[i]|
        invariant 0 <= j <= |frame[i]|
        invariant |row| == j
        invariant forall k :: 0 <= k < j ==> row[k] == Cell(frame[i][k], lo, hi)
      {
        var cell := if InRange(frame[i][j], lo, hi) then On else Off;
        row := row + [cell];
        j := j + 1;
      }
      mask := mask + [row];
      i := i + 1;
    }
  }

  /** A frame in which no pixel matches has an all-off mask. */
  lemma NoMatchAllOff(frame: Grid<Hsv>, c: ColorSpec)
    requires forall i, j :: 0 <= i < |frame| && 0 <= j < |frame[i]| ==> !Matches(frame[i][j], c)
    ensures AllOff(MaskFor(frame, c))
  {
  }

  /** Two ranges meet when their channel-wise intersection is non-empty. */
  predicate RangesMeet(a: ColorSpec, b: ColorSpec) {
    && Max(a.lower.h, b.lower.h) <= Min(a.upper.h, b.upper.h)
    && Max(a.lower.s, b.lower.s) <= Min(a.upper.s, b.upper.s)
    && Max(a.lower.v, b.lower.v) <= Min(a.upper.v, b.upper.v)
  }

  function Max(x: int, y: int): int { if x < y then y else x }
  function Min(x: int, y: int): int { if x < y then x else y }

  /** Some pixel is on in both masks exactly when the two ranges meet. */
  lemma SharedPixelIff(a: ColorSpec, b: ColorSpec)
    ensures (exists p: Hsv :: Matches(p, a) && Matches(p, b)) <==> RangesMeet(a, b)
  {
    if RangesMeet(a, b) {
      var p := Hsv(Max(a.lower.h, b.lower.h), Max(a.lower.s, b.lower.s), Max(a.lower.v, b.lower.v));
      assert Matches(p, a) && Matches(p, b);
    }
  }

  /** The red and orange ranges share exactly the hue-10 band with
      saturation at least 120 and value at least 70. */
  lemma RedOrangeOverlap(p: Hsv)
    ensures Matches(p, Catalog[0]) && Matches(p, Catalog[3]) <==> p.h == 10 && p.s >= 120 && p.v >= 70
  {
  }

  /** The orange and yellow ranges share exactly the hue-25 band with
      saturation and value at least 100. */
  lemma OrangeYellowOverlap(p: Hsv)
    ensures Matches(p, Catalog[3]) && Matches(p, Catalog[4]) <==> p.h == 25 && p.s >= 100 && p.v >= 100
  {
  }

  /** Which catalogue ranges meet: red/orange and orange/yellow at their shared
      hue, and the black range, which bounds only value, with the dark ends
      of blue and orange. Every other pair of colours is disjoint. */
  lemma CatalogOverlaps()
    ensures forall i, j :: 0 <= i < j < |Catalog| ==>
      (RangesMeet(Catalog[i], Catalog[j]) <==>
        (i == 0 && j == 3) || (i == 3 && j == 4) || (i == 1 && j == 5) || (i == 3 && j == 5))
  {
  }

  /** A pixel on in both the red and orange masks: hue 10 is inside both
      inclusive hue ranges. */
  lemma RedOrangeShare(frame: Grid<Hsv>, i: nat, j: nat)
    requires i < |frame| && j < |frame[i]|
    requires frame[i][j].h == 10 && frame[i][j].s >= 120 && frame[i][j].v >= 70
    ensures MaskFor(frame, Catalog[0])[i][j] == On && MaskFor(frame, Catalog[3])[i][j] == On
  {
  }

  /** A pixel on in both the orange and yellow masks: hue 25 is inside both
      inclusive hue ranges. */
  lemma OrangeYellowShare(frame: Grid<Hsv>, i: nat, j: nat)
    requires i < |frame| && j < |frame[i]|
    requires frame[i][j].h == 25 && frame[i][j].s >= 100 && frame[i][j].v >= 100
    ensures MaskFor(frame, Catalog[3])[i][j] == On && MaskFor(frame, Catalog[4])[i][j] == On
  {
  }
}
