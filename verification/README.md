# Colour detection: per-frame decision logic

This project models the per-frame colour-detection pass of a small OpenCV
program (`color_detection.py`). The pass has four parts, and the model has
one module for each:

- **Colors** (`colors.dfy`): the static colour catalogue. It is an ordered
  table of seven named colours: red, blue, green, orange, yellow, black and
  white. Each entry has an inclusive HSV lower and upper bound and a BGR
  display colour. Channels are 8-bit values (`Byte`).
- **Mask** (`mask.dfy`): `cv2.inRange`. A mask cell is 255 when all three
  HSV channels of its pixel lie in `[lower, upper]`, both ends included.
  Otherwise it is 0. `MaskOf` is the reference definition over a
  `seq<seq<Hsv>>` grid. `ComputeMask` is the row-by-row loop, proved equal
  to it.
- **Label** (`label.dfy`): the label text `name.capitalize() + " detected"`,
  defined by `LabelOf` (`color_detection.py:99`). It also gives the inverse
  `NameOf`, which recovers the colour name from a label.
- **Detector** (`detector.dfy`): the nested loop over catalogue entries and
  their contours.
  - Contours with area below 500 are skipped.
  - Each remaining contour yields one rectangle from `(x, y)` to
    `(x + w, y + h)` and one label at `(x, y - 10)`, both in the entry's
    display colour.
  - Drawing is modelled as an ordered list of `DrawCommand`s, not as pixel
    writes. `Draw` gives the two commands for one detection
    (`color_detection.py:95-100`).
  - `ContoursPerColor` pairs each catalogue entry, in order, with the
    contours found in that entry's own mask (`color_detection.py:80-88`).
    `Annotate` is everything drawn on one frame: the rendered detections of
    those pairs (`color_detection.py:80-100`).
  - `FrameDetections` and `RenderAll` are the functional definitions.
    `DetectColor` and `DetectFrame` are the imperative loops, proved equal
    to them.

Contour extraction (`cv2.findContours`) is not modelled. The frame-level
functions take it as a parameter: `extract`, a function from a mask to the
contours found in it. Each `Contour` carries the area and bounding rectangle
that `cv2.contourArea` and `cv2.boundingRect` would report.

The catalogue is only read, and every operation is a pure function. So the
same frame, catalogue and extractor always give the same commands.
`SameMasksSameDrawing` states a stronger fact: the output depends on the
frame only through its seven masks.

Two facts about the source shape the model:

- The code hard-codes the catalogue order and the threshold 500. The
  per-frame body (`color_detection.py:77-100`) has no frame check and no
  error path. So the model has no error result and no `requires` on the
  frame. An empty grid gives an empty mask.
- The catalogue ranges overlap more than their names suggest.
  `CatalogOverlaps` proves which pairs of ranges meet:
  - red and orange, at hue 10;
  - orange and yellow, at hue 25;
  - black with blue and with orange. The black range limits only value
    (`V <= 30`), so dark but saturated pixels with blue or orange hue fall
    in both masks.

## Model

| member | source | states |
|---|---|---|
| Colors.CatalogOrder | color_detection.py:6-36 | The catalogue has exactly seven entries. Their names, in iteration order, are red, blue, green, orange, yellow, black, white. |
| Colors.CatalogWellFormed | color_detection.py:7-34 | Every entry has lower <= upper in each HSV channel and a hue upper bound of at most 180. Saturation, value and display channels are bytes by type. No two entries share a name. |
| Mask.MaskOfSpec | color_detection.py:85 | The mask has the frame's shape. A cell is 255 exactly when its pixel lies in the inclusive range, and 0 exactly when it does not, so no other value occurs. |
| Mask.ComputeMask | color_detection.py:85 | The row-by-row, pixel-by-pixel loop returns a mask of the frame's shape. Each cell is 255 iff the pixel is in range, every cell is 0 or 255, and the result equals the reference `MaskOf`. |
| Mask.NoMatchAllOff | color_detection.py:85 | If no pixel of the frame matches an entry, that entry's mask is all zeros. |
| Mask.SharedPixelIff | color_detection.py:85 | Some pixel is on in the masks of two entries exactly when their ranges meet in every channel. Both directions are proved, with a witness pixel for the existence side. |
| Mask.RedOrangeOverlap | color_detection.py:8-20 | A pixel matches both red and orange iff its hue is 10, its saturation is at least 120 and its value is at least 70. |
| Mask.OrangeYellowOverlap | color_detection.py:20-24 | A pixel matches both orange and yellow iff its hue is 25 and its saturation and value are at least 100. |
| Mask.CatalogOverlaps | color_detection.py:7-34 | Of all 21 pairs of catalogue entries, exactly red/orange, orange/yellow, blue/black and orange/black have ranges that meet. |
| Mask.RedOrangeShare | color_detection.py:85 | In any frame, a pixel with hue 10, S >= 120 and V >= 70 is 255 in both the red and the orange mask. |
| Mask.OrangeYellowShare | color_detection.py:85 | In any frame, a pixel with hue 25, S >= 100 and V >= 100 is 255 in both the orange and the yellow mask. |
| Label.CapitalizeIdempotent | color_detection.py:99 | Capitalising an already capitalised string changes nothing. |
| Label.CapitalizeIgnoresCase | color_detection.py:99 | Capitalisation depends only on the letters, not on their case: lower-casing first gives the same result. |
| Label.LabelRoundTrip | color_detection.py:99 | For a name without upper-case letters, stripping " detected" from its label and lower-casing gives back the name. |
| Label.LabelInjective | color_detection.py:99 | Distinct names without upper-case letters get distinct labels. |
| Label.LabelFromWord | color_detection.py:99 | For a non-empty name without upper-case letters, the label is the name with its first letter raised, followed by " detected". |
| Label.RedLabel | color_detection.py:99 | The label for the red entry is "Red detected". |
| Label.BlueLabel | color_detection.py:99 | The label for the blue entry is "Blue detected". |
| Label.GreenLabel | color_detection.py:99 | The label for the green entry is "Green detected". |
| Label.OrangeLabel | color_detection.py:99 | The label for the orange entry is "Orange detected". |
| Label.YellowLabel | color_detection.py:99 | The label for the yellow entry is "Yellow detected". |
| Label.BlackLabel | color_detection.py:99 | The label for the black entry is "Black detected". |
| Label.WhiteLabel | color_detection.py:99 | The label for the white entry is "White detected". |
| Detector.ContoursPerColor | color_detection.py:80-88 | There is one pass per catalogue entry, in catalogue order, and pass `i` carries entry `i`. By definition its contours are those the extractor finds in that entry's own mask, `extract(MaskFor(frame, catalog[i]))`. |
| Detector.ColorDetections | color_detection.py:90-92 | A colour never yields more detections than it has contours. |
| Detector.ColorDetectionsMembers | color_detection.py:90-92 | A detection appears for a colour exactly when one of its contours has area of at least 500. The detection carries that colour's name and display colour and that contour's bounds. |
| Detector.SingleContour | color_detection.py:91-92 | A contour with area strictly below 500 yields no detection. A contour with area of 500 or more yields exactly one. |
| Detector.ColorDetectionsAppend | color_detection.py:90 | Within a colour, contours keep their extraction order: the detections of `a + b` are those of `a` followed by those of `b`. |
| Detector.FrameDetectionsMembers | color_detection.py:80-92 | A detection appears for the frame exactly when some contour of some catalogue entry passes the area filter. |
| Detector.FrameDetectionsAppend | color_detection.py:80 | Detections are grouped by colour in catalogue order: the detections of two consecutive runs of entries are those of the first run followed by those of the second. |
| Detector.FrameDetectionsSplit | color_detection.py:80 | For every split point `k`, the first `k` entries' detections all precede the rest. |
| Detector.FrameDetectionsNone | color_detection.py:88-92 | If no entry has a contour, there are no detections. |
| Detector.RenderAll | color_detection.py:94-100 | Rendering emits exactly two commands per detection. |
| Detector.RenderAllIndex | color_detection.py:94-100 | Detection `k` draws commands `2k` and `2k + 1`: its rectangle, then its label, in detection order. |
| Detector.RenderAllAppend | color_detection.py:94-100 | Rendering a concatenation renders each part in turn. |
| Detector.DrawOrder | color_detection.py:80-100 | Everything drawn for the first `k` entries precedes everything drawn for later entries, so a later entry's strokes land on top. |
| Detector.AcceptedContourDraws | color_detection.py:95-100 | An accepted contour with rect `(x, y, w, h)` draws a rectangle from `(x, y)` to `(x + w, y + h)` and the capitalised name plus " detected" at `(x, y - 10)`. Both use the entry's display colour and thickness 2. The label's y is negative when y < 10; nothing clamps it. |
| Detector.RejectedContourDrawsNothing | color_detection.py:91-92 | A contour with area strictly below 500 draws nothing. |
| Detector.SameMasksSameDrawing | color_detection.py:80-100 | Two frames whose masks agree for every catalogue entry draw exactly the same commands. |
| Detector.NoMatchNoDrawing | color_detection.py:85-92 | Suppose no pixel matches any entry, and the extractor finds no contour in an all-zero mask. Then nothing is drawn. |
| Detector.DetectColor | color_detection.py:90-100 | The inner loop returns exactly the colour's detections in extraction order, and exactly their rendered commands. |
| Detector.DetectFrame | color_detection.py:80-100 | The nested loops return exactly the frame's detections, grouped by catalogue order, and exactly their rendered commands. |
| Detector.FrameTwoPatches | color_detection.py:80-92 | When extraction finds one contour of area 841 in the red mask, one in the blue mask and none in the other five masks, the frame yields exactly a red detection, then a blue one. |
| Detector.TwoPatchDetections | color_detection.py:80-100 | One large red contour and one large blue contour, with no other contour, give exactly two detections: red, then blue. |
| Detector.RedAndBluePatches | color_detection.py:80-100 | That frame draws exactly a red rectangle, "Red detected", a blue rectangle and "Blue detected", in that order, with the labels ten pixels above the boxes. |

## Left out

- Camera setup and frame acquisition (`initialize_camera`, `setup_camera`, the warm-up reads, and the stop when `cap.read()` fails) are device I/O.
- Display and exit handling (`cv2.imshow`, the `waitKey`/'q' exit, `release`, `destroyAllWindows`) are UI and resource teardown.
- The BGR to HSV conversion (`cv2.cvtColor`) is a library conversion computed in floating point. The model takes the HSV grid as its input.
- Contour tracing (`cv2.findContours` with outer contours only) and the area and bounding-rectangle computations are library code. They enter the model as the `extract` parameter and as the fields of `Contour`.
- `contourArea` returns a double. The model uses an exact `real`, which is enough for the half-integer areas of polygons with integer vertices.
- Rasterisation is left out: stroke pixels, the Hershey font, the 0.6 font scale, and pixels overwritten by later strokes. Drawing is an ordered command list. Later commands are the ones drawn on top.
- Label.Capitalize: lower-cases and upper-cases ASCII letters only. Python's `str.capitalize` is Unicode-aware and title-cases the first character. Every catalogue name is plain ASCII, so the labels are unaffected.
