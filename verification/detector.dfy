/** The per-frame detection pass: for every catalogue entry in order, mask
    the HSV frame, take the contours found in the mask, drop those whose
    area is below the threshold, and emit one rectangle and one label for
    each survivor. Drawing is modelled as an ordered list of commands.

    Contour extraction is outside the model: it is supplied as a function
    `extract` from a mask to the contours found in it, each contour carrying
    the area and bounding rectangle the library computes for it.
 */
module Detector {
  import opened Colors
  import opened Mask
  import opened Label

  /** Contours whose area is below this are skipped as noise. */
  const MinArea: real := 500.0
  /** Stroke thickness of both the rectangle and the label text. */
  const Stroke: int := 2
  /** How far above the rectangle's top edge the label's baseline sits. */
  const LabelRise: int := 10

  datatype Point = Point(x: int, y: int)

  /** An axis-aligned rectangle: top-left corner, width and height. */
  datatype Rect = Rect(x: int, y: int, w: int, h: int)

  /** One outer contour of a mask: its enclosed area (a floating-point value
      in the source, exact here) and its bounding rectangle. */
  datatype Contour = Contour(area: real, bounds: Rect)

  /** One catalogue entry together with the contours found in its mask,
      in extraction order. */
  datatype ColorContours = ColorContours(spec: ColorSpec, contours: seq<Contour>)

  /** An accepted region: the colour it was found for and its bounds. */
  datatype Detection = Detection(name: string, display: Bgr, bounds: Rect)

  datatype DrawCommand =
    | Rectangle(from: Point, to: Point, color: Bgr, thickness: int)
    | Text(text: string, origin: Point, color: Bgr, thickness: int)

  /** A contour survives the filter unless its area is strictly below the
      threshold. */
  predicate Accepted(c: Contour) {
    !(c.area < MinArea)
  }

  /** The detection a contour yields for a catalogue entry. */
  function DetectionOf(spec: ColorSpec, c: Contour): Detection {
    Detection(spec.name, spec.display, c.bounds)
  }

  /** What one contour contributes: nothing if it is too small, otherwise
      one detection. */
  function Keep(spec: ColorSpec, c: Contour): seq<Detection> {
    if Accepted(c) then [DetectionOf(spec, c)] else []
  }

  /** The detections of one colour, in contour extraction order. */
  function ColorDetections(spec: ColorSpec, contours: seq<Contour>): (ds: seq<Detection>)
    ensures |ds| <= |contours|
  {
    if |contours| == 0 then []
    else ColorDetections(spec, contours[..|contours| - 1]) + Keep(spec, contours[|contours| - 1])
  }

  /** The detections of a whole frame: each catalogue entry's detections in
      turn, in catalogue order. */
  function FrameDetections(passes: seq<ColorContours>): seq<Detection> {
    if |passes| == 0 then []
    else
      var last := passes[|passes| - 1];
      FrameDetections(passes[..|passes| - 1]) + ColorDetections(last.spec, last.contours)
  }

  /** The two commands drawn for one detection: its bounding rectangle and,
      ten pixels above its top-left corner, its label, both in the colour's
      display colour. */
  function Draw(d: Detection): seq<DrawCommand> {
    var r := d.bounds;
    [ Rectangle(Point(r.x, r.y), Point(r.x + r.w, r.y + r.h), d.display, Stroke),
      Text(LabelOf(d.name), Point(r.x, r.y - LabelRise), d.display, Stroke) ]
  }

  /** The commands for a list of detections, in order. */
  function RenderAll(ds: seq<Detection>): (cmds: seq<DrawCommand>)
    ensures |cmds| == 2 * |ds|
  {
    if |ds| == 0 then [] else RenderAll(ds[..|ds| - 1]) + Draw(ds[|ds| - 1])
  }

  /** Each catalogue entry paired with the contours the extractor finds in
      its mask. */
  function ContoursPerColor(frame: Grid<Hsv>, catalog: seq<ColorSpec>, extract: Grid<Byte> -> seq<Contour>): (passes: seq<ColorContours>)
    ensures |passes| == |catalog|
    ensures forall i :: 0 <= i < |catalog| ==> passes[i].spec == catalog[i]
  {
    seq(|catalog|, i requires 0 <= i < |catalog| => ColorContours(catalog[i], extract(MaskFor(frame, catalog[i]))))
  }

  /** Everything drawn on one frame, in drawing order. */
  function Annotate(frame: Grid<Hsv>, catalog: seq<ColorSpec>, extract: Grid<Byte> -> seq<Contour>): seq<DrawCommand> {
    RenderAll(FrameDetections(ContoursPerColor(frame, catalog, extract)))
  }

  /** Concatenating contour lists concatenates their detections: contours
      keep their extraction order. */
  lemma {:induction false} ColorDetectionsAppend(spec: ColorSpec, a: seq<Contour>, b: seq<Contour>)
    ensures ColorDetections(spec, a + b) == ColorDetections(spec, a) + ColorDetections(spec, b)
  {
    if |b| == 0 {
      assert a + b == a;
    } else {
      var n := |b| - 1;
      var own := Keep(spec, b[n]);
      assert (a + b)[..|a + b| - 1] == a + b[..n];
      assert (a + b)[|a + b| - 1] == b[n];
      assert ColorDetections(spec, a + b) == ColorDetections(spec, a + b[..n]) + own;
      ColorDetectionsAppend(spec, a, b[..n]);
      assert ColorDetections(spec, b) == ColorDetections(spec, b[..n]) + own;
      assert (ColorDetections(spec, a) + ColorDetections(spec, b[..n])) + own
          == ColorDetections(spec, a) + (ColorDetections(spec, b[..n]) + own);
    }
  }

  /** A detection is produced for a colour exactly when one of its
      contours passes the area filter. */
  lemma {:induction false} ColorDetectionsMembers(spec: ColorSpec, contours: seq<Contour>)
    ensures forall d :: d in ColorDetections(spec, contours) <==>
      exists c :: c in contours && Accepted(c) && d == DetectionOf(spec, c)
  {
    if |contours| > 0 {
      var n := |contours| - 1;
      ColorDetectionsMembers(spec, contours[..n]);
      assert contours == contours[..n] + [contours[n]];
      assert forall c :: c in contours <==> c in contours[..n] || c == contours[n];
    }
  }

  /** A detection is produced for a frame exactly when some contour of some
      catalogue entry passes the area filter. */
  lemma {:induction false} FrameDetectionsMembers(passes: seq<ColorContours>)
    ensures forall d :: d in FrameDetections(passes) <==>
      exists i, c :: 0 <= i < |passes| && c in passes[i].contours && Accepted(c) && d == DetectionOf(passes[i].spec, c)
  {
    if |passes| > 0 {
      var n := |passes| - 1;
      var earlier := passes[..n];
      FrameDetectionsMembers(earlier);
      var last := passes[n];
      ColorDetectionsMembers(last.spec, last.contours);
      assert FrameDetections(passes) == FrameDetections(earlier) + ColorDetections(last.spec, last.contours);
      forall d | d in FrameDetections(passes)
        ensures exists i, c :: 0 <= i < |passes| && c in passes[i].contours && Accepted(c) && d == DetectionOf(passes[i].spec, c)
      {
        if d in FrameDetections(earlier) {
          var i, c :| 0 <= i < n && c in earlier[i].contours && Accepted(c) && d == DetectionOf(earlier[i].spec, c);
          assert earlier[i] == passes[i];
        } else {
          var c :| c in last.contours && Accepted(c) && d == DetectionOf(last.spec, c);
        }
      }
      forall i, c | 0 <= i < |passes| && c in passes[i].contours && Accepted(c)
        ensures DetectionOf(passes[i].spec, c) in FrameDetections(passes)
      {
        if i < n {
          assert earlier[i] == passes[i];
        }
      }
    }
  }

  /** A contour below the threshold yields nothing; one at or above it
      yields exactly its own detection. */
  lemma SingleContour(spec: ColorSpec, c: Contour)
    ensures c.area < 500.0 ==> ColorDetections(spec, [c]) == []
    ensures c.area >= 500.0 ==> ColorDetections(spec, [c]) == [Detection(spec.name, spec.display, c.bounds)]
  {
  }

  /** Detections are grouped by colour in catalogue order: the detections
      of a catalogue split in two are those of the first part followed by
      those of the second. */
  lemma {:induction false} FrameDetectionsAppend(a: seq<ColorContours>, b: seq<ColorContours>)
    ensures FrameDetections(a + b) == FrameDetections(a) + FrameDetections(b)
  {
    if |b| == 0 {
      assert a + b == a;
    } else {
      var n := |b| - 1;
      var last := b[n];
      var own := ColorDetections(last.spec, last.contours);
      assert (a + b)[..|a + b| - 1] == a + b[..n];
      assert (a + b)[|a + b| - 1] == last;
      assert FrameDetections(a + b) == FrameDetections(a + b[..n]) + own;
      FrameDetectionsAppend(a, b[..n]);
      assert FrameDetections(b) == FrameDetections(b[..n]) + own;
      assert (FrameDetections(a) + FrameDetections(b[..n])) + own == FrameDetections(a) + (FrameDetections(b[..n]) + own);
    }
  }

  /** The same grouping, stated for a split point `k` of one catalogue. */
  lemma FrameDetectionsSplit(passes: seq<ColorContours>, k: nat)
    requires k <= |passes|
    ensures FrameDetections(passes) == FrameDetections(passes[..k]) + FrameDetections(passes[k..])
  {
    assert passes == passes[..k] + passes[k..];
    FrameDetectionsAppend(passes[..k], passes[k..]);
  }

  /** Draw order follows catalogue order: everything drawn for the first
      `k` entries comes before anything drawn for the later ones, so a later
      entry's strokes land on top where regions of two colours overlap. */
  lemma DrawOrder(passes: seq<ColorContours>, k: nat)
    requires k <= |passes|
    ensures RenderAll(FrameDetections(passes)) ==
      RenderAll(FrameDetections(passes[..k])) + RenderAll(FrameDetections(passes[k..]))
  {
    FrameDetectionsSplit(passes, k);
    RenderAllAppend(FrameDetections(passes[..k]), FrameDetections(passes[k..]));
  }

  /** Extending the contour list by one contour extends the detections by
      what that contour contributes. */
  lemma ColorDetectionsSnoc(spec: ColorSpec, contours: seq<Contour>, c: Contour)
    ensures ColorDetections(spec, contours + [c]) == ColorDetections(spec, contours) + Keep(spec, c)
  {
  }

  /** Rendering one more detection appends its two commands. */
  lemma RenderAllSnoc(ds: seq<Detection>, d: Detection)
    ensures RenderAll(ds + [d]) == RenderAll(ds) + Draw(d)
  {
  }

  /** Rendering a concatenation renders each part in turn. */
  lemma {:induction false} RenderAllAppend(a: seq<Detection>, b: seq<Detection>)
    ensures RenderAll(a + b) == RenderAll(a) + RenderAll(b)
  {
    if |b| == 0 {
      assert a + b == a;
    } else {
      var n := |b| - 1;
      var own := Draw(b[n]);
      assert (a + b)[..|a + b| - 1] == a + b[..n];
      assert (a + b)[|a + b| - 1] == b[n];
      assert RenderAll(a + b) == RenderAll(a + b[..n]) + own;
      RenderAllAppend(a, b[..n]);
      assert RenderAll(b) == RenderAll(b[..n]) + own;
      assert (RenderAll(a) + RenderAll(b[..n])) + own == RenderAll(a) + (RenderAll(b[..n]) + own);
    }
  }

  /** Detection `k` draws commands `2k` and `2k + 1`: each detection yields
      exactly one rectangle followed by one label, in detection order. */
  lemma {:induction false} RenderAllIndex(ds: seq<Detection>, k: nat)
    requires k < |ds|
    ensures RenderAll(ds)[2 * k] == Draw(ds[k])[0]
    ensures RenderAll(ds)[2 * k + 1] == Draw(ds[k])[1]
  {
    var n := |ds| - 1;
    var rest := RenderAll(ds[..n]);
    var last := Draw(ds[n]);
    assert RenderAll(ds) == rest + last;
    assert |rest| == 2 * n && |last| == 2;
    if k < n {
      RenderAllIndex(ds[..n], k);
      assert ds[..n][k] == ds[k];
      assert 2 * k + 1 < |rest|;
      assert (rest + last)[2 * k] == rest[2 * k] && (rest + last)[2 * k + 1] == rest[2 * k + 1];
    } else {
      assert 2 * k == |rest|;
      assert (rest + last)[|rest|] == last[0] && (rest + last)[|rest| + 1] == last[1];
    }
  }

  /** An accepted contour draws its rectangle from `(x, y)` to
      `(x + w, y + h)` and its label at `(x, y - 10)`, both in the entry's
      display colour; nothing clamps the label above the frame's top edge. */
  lemma AcceptedContourDraws(spec: ColorSpec, c: Contour)
    requires c.area >= 500.0
    ensures RenderAll(ColorDetections(spec, [c])) == [
      Rectangle(Point(c.bounds.x, c.bounds.y), Point(c.bounds.x + c.bounds.w, c.bounds.y + c.bounds.h), spec.display, 2),
      Text(Capitalize(spec.name) + " detected", Point(c.bounds.x, c.bounds.y - 10), spec.display, 2)
    ]
    ensures c.bounds.y < 10 ==> RenderAll(ColorDetections(spec, [c]))[1].origin.y < 0
  {
  }

  /** A contour below the threshold draws nothing. */
  lemma RejectedContourDrawsNothing(spec: ColorSpec, c: Contour)
    requires c.area < 500.0
    ensures RenderAll(ColorDetections(spec, [c])) == []
  {
  }

  /** The frame's commands depend on the frame only through its masks: two
      frames with the same mask for every catalogue entry draw the same. */
  lemma SameMasksSameDrawing(f1: Grid<Hsv>, f2: Grid<Hsv>, catalog: seq<ColorSpec>, extract: Grid<Byte> -> seq<Contour>)
    requires forall i :: 0 <= i < |catalog| ==> MaskFor(f1, catalog[i]) == MaskFor(f2, catalog[i])
    ensures Annotate(f1, catalog, extract) == Annotate(f2, catalog, extract)
  {
    assert ContoursPerColor(f1, catalog, extract) == ContoursPerColor(f2, catalog, extract);
  }

  /** No contours for any colour, no detections. */
  lemma {:induction false} FrameDetectionsNone(passes: seq<ColorContours>)
    requires forall i :: 0 <= i < |passes| ==> passes[i].contours == []
    ensures FrameDetections(passes) == []
  {
    if |passes| > 0 {
      FrameDetectionsNone(passes[..|passes| - 1]);
    }
  }

  /** A frame in which no pixel matches any catalogue entry draws nothing,
      given an extractor that finds no contour in an all-off mask. */
  lemma NoMatchNoDrawing(frame: Grid<Hsv>, catalog: seq<ColorSpec>, extract: Grid<Byte> -> seq<Contour>)
    requires forall m :: AllOff(m) ==> extract(m) == []
    requires forall i, r, k :: 0 <= i < |catalog| && 0 <= r < |frame| && 0 <= k < |frame[r]| ==>
      !Matches(frame[r][k], catalog[i])
    ensures Annotate(frame, catalog, extract) == []
  {
    var passes := ContoursPerColor(frame, catalog, extract);
    forall i | 0 <= i < |catalog|
      ensures passes[i].contours == []
    {
      NoMatchAllOff(frame, catalog[i]);
    }
    FrameDetectionsNone(passes);
  }

  /** One step of the inner loop: contour `j` adds its detection, if any,
      and that detection's commands. */
  lemma DetectStep(spec: ColorSpec, contours: seq<Contour>, j: nat)
    requires j < |contours|
    ensures !Accepted(contours[j]) ==>
      ColorDetections(spec, contours[..j + 1]) == ColorDetections(spec, contours[..j])
    ensures Accepted(contours[j]) ==>
      var d := DetectionOf(spec, contours[j]);
      && ColorDetections(spec, contours[..j + 1]) == ColorDetections(spec, contours[..j]) + [d]
      && RenderAll(ColorDetections(spec, contours[..j]) + [d]) == RenderAll(ColorDetections(spec, contours[..j])) + Draw(d)
  {
    var c := contours[j];
    assert contours[..j + 1] == contours[..j] + [c];
    ColorDetectionsSnoc(spec, contours[..j], c);
    RenderAllSnoc(ColorDetections(spec, contours[..j]), DetectionOf(spec, c));
  }

  /** The inner loop of the detection pass for one colour: walks its
      contours in extraction order, skipping small ones and emitting a
      rectangle and a label for each survivor. */
  method DetectColor(spec: ColorSpec, contours: seq<Contour>)
    returns (detections: seq<Detection>, commands: seq<DrawCommand>)
    ensures detections == ColorDetections(spec, contours)
    ensures commands == RenderAll(detections)
  {
    detections, commands := [], [];
    var j := 0;
    while j < |contours|
      invariant 0 <= j <= |contours|
      invariant detections == ColorDetections(spec, contours[..j])
      invariant commands == RenderAll(detections)
    {
      var c := contours[j];
      DetectStep(spec, contours, j);
      if Accepted(c) {
        var d := DetectionOf(spec, c);
        detections := detections + [d];
        commands := commands + Draw(d);
      }
      j := j + 1;
    }
    assert contours[..j] == contours;
  }

  /** Runs the detection pass the way the source does: colours in catalogue
      order, each masked and its contours handed to the inner loop. */
  method DetectFrame(frame: Grid<Hsv>, catalog: seq<ColorSpec>, extract: Grid<Byte> -> seq<Contour>)
    returns (detections: seq<Detection>, commands: seq<DrawCommand>)
    ensures detections == FrameDetections(ContoursPerColor(frame, catalog, extract))
    ensures commands == RenderAll(detections)
    ensures commands == Annotate(frame, catalog, extract)
  {
    ghost var all := ContoursPerColor(frame, catalog, extract);
    detections, commands := [], [];
    var i := 0;
    while i < |catalog|
      invariant 0 <= i <= |catalog|
      invariant detections == FrameDetections(all[..i])
      invariant commands == RenderAll(detections)
    {
      var spec := catalog[i];
      var mask := ComputeMask(frame, spec.lower, spec.upper);
      var contours := extract(mask);
      assert mask == MaskFor(frame, spec);
      assert all[i] == ColorContours(spec, contours);
      var found, drawn := DetectColor(spec, contours);
      RenderAllAppend(detections, found);
      assert all[..i + 1][..i] == all[..i];
      detections := detections + found;
      commands := commands + drawn;
      i := i + 1;
    }
    assert all[..i] == all;
  }

  /** The contours of a frame holding one 30 by 30 red patch and one 30 by
      30 blue patch, and nothing else the catalogue matches. Such a square's
      contour area is 29 * 29 = 841, as its outline runs through the border
      pixels' centres. */
  function TwoPatches(red: Rect, blue: Rect): seq<ColorContours> {
    [ ColorContours(Catalog[0], [Contour(841.0, red)]),
      ColorContours(Catalog[1], [Contour(841.0, blue)]),
      ColorContours(Catalog[2], []), ColorContours(Catalog[3], []),
      ColorContours(Catalog[4], []), ColorContours(Catalog[5], []),
      ColorContours(Catalog[6], []) ]
  }

  /** The two patches give exactly two detections, red first. */
  lemma TwoPatchDetections(red: Rect, blue: Rect)
    ensures FrameDetections(TwoPatches(red, blue)) ==
      [Detection("red", Bgr(0, 0, 255), red), Detection("blue", Bgr(255, 0, 0), blue)]
  {
    var passes := TwoPatches(red, blue);
    var two, rest := passes[..2], passes[2..];
    assert passes == two + rest;
    FrameDetectionsAppend(two, rest);
    FrameDetectionsNone(rest);
    assert two == [two[0]] + [two[1]];
    FrameDetectionsAppend([two[0]], [two[1]]);
    assert [two[0]][..0] == [] && [two[1]][..0] == [];
    SingleContour(Catalog[0], Contour(841.0, red));
    SingleContour(Catalog[1], Contour(841.0, blue));
  }

  /** The same scenario taken from a frame: when contour extraction finds one
      841-pixel contour in the red mask, one in the blue mask and none in the
      other masks, the frame yields exactly a red then a blue detection. */
  lemma FrameTwoPatches(frame: Grid<Hsv>, extract: Grid<Byte> -> seq<Contour>, red: Rect, blue: Rect)
    requires extract(MaskFor(frame, Catalog[0])) == [Contour(841.0, red)]
    requires extract(MaskFor(frame, Catalog[1])) == [Contour(841.0, blue)]
    requires forall i :: 2 <= i < |Catalog| ==> extract(MaskFor(frame, Catalog[i])) == []
    ensures FrameDetections(ContoursPerColor(frame, Catalog, extract)) ==
      [Detection("red", Bgr(0, 0, 255), red), Detection("blue", Bgr(255, 0, 0), blue)]
  {
    assert ContoursPerColor(frame, Catalog, extract) == TwoPatches(red, blue);
    TwoPatchDetections(red, blue);
  }

  /** The two patches draw exactly a red rectangle and "Red detected",
      then a blue rectangle and "Blue detected". */
  lemma RedAndBluePatches()
    ensures RenderAll(FrameDetections(TwoPatches(Rect(10, 20, 30, 30), Rect(200, 40, 30, 30)))) == [
        Rectangle(Point(10, 20), Point(40, 50), Bgr(0, 0, 255), 2),
        Text("Red detected", Point(10, 10), Bgr(0, 0, 255), 2),
        Rectangle(Point(200, 40), Point(230, 70), Bgr(255, 0, 0), 2),
        Text("Blue detected", Point(200, 30), Bgr(255, 0, 0), 2)
      ]
  {
    var red, blue := Rect(10, 20, 30, 30), Rect(200, 40, 30, 30);
    TwoPatchDetections(red, blue);
    var ds := [Detection("red", Bgr(0, 0, 255), red), Detection("blue", Bgr(255, 0, 0), blue)];
    RedLabel();
    BlueLabel();
    assert ds == [ds[0]] + [ds[1]];
    RenderAllSnoc([ds[0]], ds[1]);
    RenderAllSnoc([], ds[0]);
  }
}
