/** The colour types shared by the detector and the static colour catalogue.

    Every channel the detector touches is an 8-bit unsigned value: the HSV
    frame produced from an 8-bit camera frame, the `uint8` bound arrays of the
    catalogue, and the BGR display colours.
 */
module Colors {

  /** An 8-bit unsigned channel value. */
  type Byte = x: int | 0 <= x < 256

  /** Upper end of OpenCV's 8-bit hue scale. Hue is stored halved, so pixels
      have hues 0..179; the catalogue uses 180 as an inclusive upper bound. */
  const MaxHue: int := 180

  /** One pixel, or one range bound, in hue/saturation/value space. */
  datatype Hsv = Hsv(h: Byte, s: Byte, v: Byte)

  /** A display colour in blue/green/red channel order. */
  datatype Bgr = Bgr(b: Byte, g: Byte, r: Byte)

  /** One catalogue entry: the inclusive HSV range `[lower, upper]` that
      marks a pixel as this colour, and the colour used to draw detections. */
  datatype ColorSpec = ColorSpec(name: string, lower: Hsv, upper: Hsv, display: Bgr)

  /** The catalogue in dictionary insertion order, which is the order the
      per-frame loop visits it. */
  const Catalog: seq<ColorSpec> := [
    ColorSpec("red",    Hsv(0, 120, 70),  Hsv(10, 255, 255),  Bgr(0, 0, 255)),
    ColorSpec("blue",   Hsv(94, 80, 2),   Hsv(126, 255, 255), Bgr(255, 0, 0)),
    ColorSpec("green",  Hsv(40, 40, 40),  Hsv(70, 255, 255),  Bgr(0, 255, 0)),
    ColorSpec("orange", Hsv(10, 100, 20), Hsv(25, 255, 255),  Bgr(0, 165, 255)),
    ColorSpec("yellow", Hsv(25, 100, 100), Hsv(35, 255, 255), Bgr(0, 255, 255)),
    ColorSpec("black",  Hsv(0, 0, 0),     Hsv(180, 255, 30),  Bgr(0, 0, 0)),
    ColorSpec("white",  Hsv(0, 0, 231),   Hsv(180, 18, 255),  Bgr(255, 255, 255))
  ]

  /** The names of the catalogue entries, in catalogue order. */
  function Names(catalog: seq<ColorSpec>): seq<string> {
    seq(|catalog|, i requires 0 <= i < |catalog| => catalog[i].name)
  }

  /** A range is well-formed when it is non-empty and non-wrapping in every
      channel and its hue bounds stay within OpenCV's 8-bit hue scale.
      Saturation, value and display channels are bytes by type. */
  predicate WellFormed(c: ColorSpec) {
    && c.lower.h <= c.upper.h
    && c.lower.s <= c.upper.s
    && c.lower.v <= c.upper.v
    && c.upper.h <= MaxHue
  }

  /** No two entries share a name: a name identifies a catalogue entry. */
  predicate DistinctNames(catalog: seq<ColorSpec>) {
    forall i, j :: 0 <= i < j < |catalog| ==> catalog[i].name != catalog[j].name
  }

  /** The catalogue holds exactly the seven colours, in insertion order. */
  lemma CatalogOrder()
    ensures |Catalog| == 7
    ensures Names(Catalog) == ["red", "blue", "green", "orange", "yellow", "black", "white"]
  {
  }

  /** Every catalogue entry has a well-formed range, and names are unique. */
  lemma CatalogWellFormed()
    ensures forall i :: 0 <= i < |Catalog| ==> WellFormed(Catalog[i])
    ensures DistinctNames(Catalog)
  {
  }
}
