/** The closed style table `AlgorithmStyles` of `styles.ts`.  A style is a
    property bag: a property an entry does not set is None, and an entry the
    table does not have (the STATELESS ones) is None as a whole, which is what
    reading a missing member of an object literal gives. */
module Styles {
  import opened Common
  import Utility

  /** A fill or stroke: a fixed colour, or the FINAL_PATH function of the
      brightness passed to `perform`. */
  datatype Paint = Colour(colour: string) | Shaded

  datatype Style = Style(
    fill: Option<Paint>,
    radius: Option<int>,
    scaleWithZoom: Option<bool>,
    stroke: Option<Paint>,
    strokeWeight: Option<int>,
    showArrowIn: Option<bool>,
    showArrowOut: Option<bool>)

  const Unset := Style(None, None, None, None, None, None, None)

  /** The entries that `Algorithm.ts` reads: `NODE.<state>` and `EDGE.<state>`. */
  datatype Entry =
    | NodeDefault | NodeQueued | NodeProcessing | NodeProcessed | NodeEndpoint
    | NodeFinalPath | NodeStateless
    | EdgeDefault | EdgeProcessed | EdgeFinalPath | EdgeStateless

  function NodeStyle(fill: Paint, radius: int, zoom: Option<bool>): Style {
    Unset.(fill := Some(fill), radius := Some(radius), scaleWithZoom := zoom)
  }

  /** `AlgorithmStyles.NODE.x` / `AlgorithmStyles.EDGE.x`; the table has no
      STATELESS entry for either kind. */
  function Lookup(e: Entry): (s: Option<Style>)
    ensures s.None? <==> e == NodeStateless || e == EdgeStateless
    ensures s.Some? && e.NodeFinalPath? ==> s.value.fill == Some(Shaded)
    ensures s.Some? && e.EdgeFinalPath? ==> s.value.stroke == Some(Shaded)
  {
    match e
    case NodeDefault => Some(NodeStyle(Colour("black"), 2, Some(false)))
    case NodeQueued => Some(NodeStyle(Colour("gray"), 3, None))
    case NodeProcessing => Some(NodeStyle(Colour("cyan"), 4, None))
    case NodeProcessed => Some(NodeStyle(Colour("#45AD18"), 3, None))
    case NodeEndpoint => Some(NodeStyle(Colour("blue"), 8, Some(true)))
    case NodeFinalPath => Some(NodeStyle(Shaded, 4, None))
    case NodeStateless => None
    case EdgeDefault =>
      Some(Unset.(showArrowIn := Some(false), showArrowOut := Some(false),
                  stroke := Some(Colour("#000")), strokeWeight := Some(1)))
    case EdgeProcessed => Some(Unset.(stroke := Some(Colour("#45AD18")), strokeWeight := Some(3)))
    case EdgeFinalPath =>
      Some(Unset.(stroke := Some(Shaded), scaleWithZoom := Some(true), strokeWeight := Some(3)))
    case EdgeStateless => None
  }

  /** Object spread `{...base, ...over}`: a property set in `over` wins. */
  function Spread(base: Style, over: Style): (s: Style)
    ensures over.fill.Some? ==> s.fill == over.fill
    ensures over.fill.None? ==> s.fill == base.fill
    ensures over.radius.Some? ==> s.radius == over.radius
    ensures over.radius.None? ==> s.radius == base.radius
    ensures over.scaleWithZoom.Some? ==> s.scaleWithZoom == over.scaleWithZoom
    ensures over.scaleWithZoom.None? ==> s.scaleWithZoom == base.scaleWithZoom
    ensures over.stroke.Some? ==> s.stroke == over.stroke
    ensures over.stroke.None? ==> s.stroke == base.stroke
    ensures over.strokeWeight.Some? ==> s.strokeWeight == over.strokeWeight
    ensures over.strokeWeight.None? ==> s.strokeWeight == base.strokeWeight
    ensures over.showArrowIn.Some? ==> s.showArrowIn == over.showArrowIn
    ensures over.showArrowIn.None? ==> s.showArrowIn == base.showArrowIn
    ensures over.showArrowOut.Some? ==> s.showArrowOut == over.showArrowOut
    ensures over.showArrowOut.None? ==> s.showArrowOut == base.showArrowOut
  {
    Style(
      if over.fill.Some? then over.fill else base.fill,
      if over.radius.Some? then over.radius else base.radius,
      if over.scaleWithZoom.Some? then over.scaleWithZoom else base.scaleWithZoom,
      if over.stroke.Some? then over.stroke else base.stroke,
      if over.strokeWeight.Some? then over.strokeWeight else base.strokeWeight,
      if over.showArrowIn.Some? then over.showArrowIn else base.showArrowIn,
      if over.showArrowOut.Some? then over.showArrowOut else base.showArrowOut)
  }

  /** The bag passed to SHOW_EDGE_DIRECTION for a single arrow. */
  const ArrowIn := Unset.(showArrowIn := Some(true))
  const ArrowOut := Unset.(showArrowOut := Some(true))

  /** `{...EDGE.PROCESSED, showArrowIn: false, showArrowOut: false, strokeWeight: 1}`:
      the bag that reverts an edge no longer on the drawn path. */
  function RevertEdge(): (s: Style)
    ensures s.stroke == Some(Colour("#45AD18"))
    ensures s.strokeWeight == Some(1)
    ensures s.showArrowIn == Some(false) && s.showArrowOut == Some(false)
    ensures s.fill.None? && s.radius.None?
  {
    Spread(Lookup(EdgeProcessed).value,
           Unset.(showArrowIn := Some(false), showArrowOut := Some(false), strokeWeight := Some(1)))
  }

  // ---------------------------------------------------------------------------
  // FINAL_PATH fill and stroke
  // ---------------------------------------------------------------------------

  const Red := "#FF0000"

  /** A brightness argument is falsy when it is missing or zero. */
  predicate Falsy(b: Option<real>) {
    b.None? || b.value == 0.0
  }

  /** The FINAL_PATH fill / stroke function. */
  function FinalPathColour(b: Option<real>): (r: string)
    ensures |r| >= 1 && r[0] == '#'
  {
    if Falsy(b) then Red else Utility.IncreaseBrightness(Red, b.value)
  }

  /** The colour a paint resolves to for a brightness argument. */
  function Resolve(p: Paint, b: Option<real>): string {
    match p
    case Colour(c) => c
    case Shaded => FinalPathColour(b)
  }

  lemma RedDigits()
    ensures Utility.IsHex6("FF0000")
    ensures Utility.Pair("FF0000", 0) == 255
    ensures Utility.Pair("FF0000", 2) == 0 && Utility.Pair("FF0000", 4) == 0
  {
  }

  /** "#FF0000" normalises to its six digits. */
  lemma RedNormalised(b: real)
    ensures Utility.IncreaseBrightness(Red, b) == Utility.Brightened("FF0000", b)
  {
    assert Red == "#" + "FF0000";
    Utility.NormaliseHashColour("FF0000");
  }

  lemma FullRed(b: real)
    requires 0.0 <= b < 100.0
    ensures Utility.Brighten(255, b) == 255
    ensures Utility.Hex2(255) == "ff"
  {
    Utility.BrightenBounds(255, b);
  }

  /** The digits `IncreaseBrightness(Red, b)` prints for 0 <= b < 100. */
  lemma RedBrightened(b: real)
    requires 0.0 <= b < 100.0
    ensures 0 <= Utility.Brighten(0, b) < 256
    ensures Utility.IncreaseBrightness(Red, b)
            == "#" + "ff" + Utility.Hex2(Utility.Brighten(0, b)) + Utility.Hex2(Utility.Brighten(0, b))
  {
    RedNormalised(b);
    RedDigits();
    Utility.BrightenedHex6("FF0000", b);
    FullRed(b);
  }

  /** For 0 < b < 100 the red channel stays "ff" and green and blue both
      become floor(256 * b / 100), in lower-case hex. */
  lemma FinalPathColourBrightened(b: real)
    requires 0.0 < b < 100.0
    ensures 0 <= Utility.Brighten(0, b) < 256
    ensures FinalPathColour(Some(b))
            == "#" + "ff" + Utility.Hex2(Utility.Brighten(0, b)) + Utility.Hex2(Utility.Brighten(0, b))
  {
    RedBrightened(b);
  }

  /** A zero brightness is falsy and keeps the upper-case "#FF0000", although
      brightening it by 0 percent would print "#ff0000". */
  lemma FalsyKeepsUpperCase()
    ensures FinalPathColour(Some(0.0)) == Red
    ensures Utility.IncreaseBrightness(Red, 0.0) == "#ff0000"
    ensures Utility.IncreaseBrightness(Red, 0.0) != Red
  {
    RedBrightened(0.0);
    assert Utility.Brighten(0, 0.0) == 0;
    LowerRedSpelled();
  }

  lemma LowerRedSpelled()
    ensures "#" + "ff" + Utility.Hex2(0) + Utility.Hex2(0) == "#ff0000"
    ensures "#ff0000" != Red
  {
    assert Utility.Hex2(0) == "00";
    assert "#ff0000"[1] != Red[1];
  }

  /** The table's shared values: PROCESSED is "#45AD18" for nodes and edges,
      the edge PROCESSED and FINAL_PATH weights are 3, EDGE.DEFAULT clears both
      arrows with stroke "#000" and weight 1, and the node radii are
      DEFAULT 2 < QUEUED 3 = PROCESSED 3 < PROCESSING 4 = FINAL_PATH 4 < ENDPOINT 8.
      NODE.ENDPOINT and EDGE.FINAL_PATH scale with zoom, NODE.DEFAULT sets
      scaleWithZoom to false, and every other entry leaves it unset. */
  lemma TableFacts()
    ensures Lookup(NodeProcessed).value.fill == Lookup(EdgeProcessed).value.stroke == Some(Colour("#45AD18"))
    ensures Lookup(EdgeProcessed).value.strokeWeight == Lookup(EdgeFinalPath).value.strokeWeight == Some(3)
    ensures var d := Lookup(EdgeDefault).value;
            d.showArrowIn == Some(false) && d.showArrowOut == Some(false)
            && d.stroke == Some(Colour("#000")) && d.strokeWeight == Some(1)
    ensures Lookup(NodeDefault).value.radius == Some(2)
    ensures Lookup(NodeQueued).value.radius == Lookup(NodeProcessed).value.radius == Some(3)
    ensures Lookup(NodeProcessing).value.radius == Lookup(NodeFinalPath).value.radius == Some(4)
    ensures Lookup(NodeEndpoint).value.radius == Some(8)
    ensures Lookup(NodeEndpoint).value.scaleWithZoom == Some(true)
    ensures Lookup(EdgeFinalPath).value.scaleWithZoom == Some(true)
    ensures Lookup(NodeDefault).value.scaleWithZoom == Some(false)
    ensures Lookup(NodeQueued).value.scaleWithZoom.None? && Lookup(NodeProcessing).value.scaleWithZoom.None?
    ensures Lookup(NodeProcessed).value.scaleWithZoom.None? && Lookup(NodeFinalPath).value.scaleWithZoom.None?
    ensures Lookup(EdgeDefault).value.scaleWithZoom.None? && Lookup(EdgeProcessed).value.scaleWithZoom.None?
  {
  }
}
