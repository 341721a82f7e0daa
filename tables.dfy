/** The constant reference data of the colour analyser: the colour-blindness
    types, the inclusive HSV bounds of each named colour (in table order), the
    colours each type has trouble with, and the human-readable colour names. */
module ColorTables {

  /** The colour-vision types the analyser distinguishes. */
  datatype ColorBlindnessType =
    | Normal
    | Protanopia      // red-blind
    | Protanomaly     // red-weak
    | Deuteranopia    // green-blind
    | Deuteranomaly   // green-weak
    | Tritanopia      // blue-blind
    | Tritanomaly     // blue-weak
    | Achromatopsia   // no colour vision

  /** The value each enumerator carries. */
  function TypeValue(t: ColorBlindnessType): string
  {
    match t
    case Normal => "normal"
    case Protanopia => "protanopia"
    case Protanomaly => "protanomaly"
    case Deuteranopia => "deuteranopia"
    case Deuteranomaly => "deuteranomaly"
    case Tritanopia => "tritanopia"
    case Tritanomaly => "tritanomaly"
    case Achromatopsia => "achromatopsia"
  }

  /** Different types carry different values. */
  lemma TypeValuesDistinct(t1: ColorBlindnessType, t2: ColorBlindnessType)
    ensures TypeValue(t1) == TypeValue(t2) ==> t1 == t2
  {
  }

  /** One pixel in OpenCV's 8-bit HSV encoding (hue 0..180, saturation and value 0..255). */
  datatype Hsv = Hsv(h: int, s: int, v: int)

  /** A named colour: a box of HSV space, both corners included. */
  datatype ColorRange = ColorRange(name: string, lower: Hsv, upper: Hsv)

  /** What the mask of a colour selects: every channel within the bounds, both ends included. */
  predicate InRange(p: Hsv, r: ColorRange)
  {
    r.lower.h <= p.h <= r.upper.h &&
    r.lower.s <= p.s <= r.upper.s &&
    r.lower.v <= p.v <= r.upper.v
  }

  /** The colour table, in its declaration order (which is also the order of the result of detection). */
  const ColorRanges: seq<ColorRange> := [
    // reds
    ColorRange("red_low", Hsv(0, 100, 100), Hsv(10, 255, 255)),
    ColorRange("red_high", Hsv(160, 100, 100), Hsv(180, 255, 255)),
    ColorRange("dark_red", Hsv(0, 100, 50), Hsv(10, 255, 100)),
    ColorRange("dark_red_high", Hsv(160, 100, 50), Hsv(180, 255, 100)),
    // oranges and browns
    ColorRange("orange", Hsv(10, 100, 100), Hsv(20, 255, 255)),
    ColorRange("rust_orange", Hsv(10, 80, 80), Hsv(20, 255, 150)),
    ColorRange("brown", Hsv(10, 50, 50), Hsv(25, 200, 150)),
    ColorRange("dark_brown", Hsv(10, 50, 30), Hsv(25, 200, 80)),
    ColorRange("tan", Hsv(15, 30, 150), Hsv(30, 100, 220)),
    // yellows
    ColorRange("yellow", Hsv(25, 100, 100), Hsv(35, 255, 255)),
    ColorRange("gold", Hsv(20, 80, 100), Hsv(30, 255, 200)),
    ColorRange("pale_yellow", Hsv(25, 40, 180), Hsv(35, 100, 255)),
    // greens
    ColorRange("green", Hsv(35, 100, 100), Hsv(85, 255, 255)),
    ColorRange("lime", Hsv(35, 100, 150), Hsv(55, 255, 255)),
    ColorRange("dark_green", Hsv(35, 100, 30), Hsv(85, 255, 100)),
    ColorRange("olive", Hsv(30, 30, 50), Hsv(50, 150, 150)),
    ColorRange("teal", Hsv(80, 80, 80), Hsv(95, 255, 200)),
    // blues and cyans
    ColorRange("cyan", Hsv(85, 100, 100), Hsv(100, 255, 255)),
    ColorRange("blue", Hsv(100, 100, 100), Hsv(130, 255, 255)),
    ColorRange("light_blue", Hsv(100, 50, 150), Hsv(115, 150, 255)),
    ColorRange("dark_blue", Hsv(100, 100, 50), Hsv(130, 255, 120)),
    // purples and violets
    ColorRange("purple", Hsv(130, 100, 100), Hsv(145, 255, 255)),
    ColorRange("violet", Hsv(145, 80, 80), Hsv(160, 255, 255)),
    ColorRange("lavender", Hsv(130, 30, 150), Hsv(155, 100, 255)),
    ColorRange("magenta", Hsv(150, 100, 100), Hsv(165, 255, 255)),
    ColorRange("plum", Hsv(140, 50, 50), Hsv(160, 150, 150)),
    // pinks
    ColorRange("pink", Hsv(160, 50, 150), Hsv(175, 200, 255)),
    ColorRange("hot_pink", Hsv(165, 100, 150), Hsv(175, 255, 255)),
    // neutrals
    ColorRange("white", Hsv(0, 0, 200), Hsv(180, 30, 255)),
    ColorRange("gray", Hsv(0, 0, 80), Hsv(180, 30, 200)),
    ColorRange("black", Hsv(0, 0, 0), Hsv(180, 255, 50))
  ]

  /** The keys of the colour table, in order. */
  function RangeNames(): (names: seq<string>)
    ensures |names| == |ColorRanges|
    ensures forall i :: 0 <= i < |names| ==> names[i] == ColorRanges[i].name
  {
    seq(|ColorRanges|, i requires 0 <= i < |ColorRanges| => ColorRanges[i].name)
  }

  /** The same keys written out. */
  const RangeKeys: seq<string> := [
    "red_low", "red_high", "dark_red", "dark_red_high",
    "orange", "rust_orange", "brown", "dark_brown", "tan",
    "yellow", "gold", "pale_yellow",
    "green", "lime", "dark_green", "olive", "teal",
    "cyan", "blue", "light_blue", "dark_blue",
    "purple", "violet", "lavender", "magenta", "plum",
    "pink", "hot_pink",
    "white", "gray", "black"]

  /** Position by position, the written-out keys are the table's. */
  lemma RangeKeysMatch()
    ensures |RangeKeys| == |ColorRanges|
    ensures forall i :: 0 <= i < |ColorRanges| ==> ColorRanges[i].name == RangeKeys[i]
  {
  }

  /** Hence the key sequence is the written-out list. */
  lemma RangeNamesListed()
    ensures RangeNames() == RangeKeys
  {
    RangeKeysMatch();
  }

  /** The colour names each type struggles with. */
  function ProblematicColors(t: ColorBlindnessType): seq<string>
  {
    match t
    case Normal => []
    case Protanopia => [
      "red_low", "red_high", "dark_red", "dark_red_high",
      "orange", "rust_orange", "brown", "dark_brown",
      "green", "dark_green", "olive", "lime"]
    case Protanomaly => [
      "red_low", "red_high", "dark_red", "dark_red_high",
      "orange", "rust_orange", "brown"]
    case Deuteranopia => [
      "red_low", "red_high", "dark_red", "dark_red_high",
      "green", "dark_green", "lime", "olive",
      "yellow", "gold", "brown"]
    case Deuteranomaly => [
      "green", "dark_green", "lime", "olive",
      "yellow", "gold"]
    case Tritanopia => [
      "blue", "light_blue", "dark_blue",
      "yellow", "gold", "pale_yellow",
      "cyan", "teal",
      "violet", "purple"]
    case Tritanomaly => [
      "blue", "light_blue",
      "yellow", "gold"]
    case Achromatopsia => RangeNames()
  }

  /** Human-readable names of the table's colours. */
  const DisplayNames: map<string, string> := map[
    "red_low" := "red",
    "red_high" := "red",
    "dark_red" := "dark red (maroon)",
    "dark_red_high" := "dark red (burgundy)",
    "orange" := "orange",
    "rust_orange" := "rust orange",
    "brown" := "brown",
    "dark_brown" := "dark brown (chocolate)",
    "tan" := "tan (beige)",
    "yellow" := "yellow",
    "gold" := "gold (amber)",
    "pale_yellow" := "pale yellow (cream)",
    "green" := "green",
    "lime" := "lime green",
    "dark_green" := "dark green (forest)",
    "olive" := "olive (khaki)",
    "teal" := "teal",
    "cyan" := "cyan",
    "blue" := "blue",
    "light_blue" := "light blue (sky)",
    "dark_blue" := "dark blue (navy)",
    "purple" := "purple",
    "violet" := "violet",
    "lavender" := "lavender",
    "magenta" := "magenta (fuchsia)",
    "plum" := "plum",
    "pink" := "pink",
    "hot_pink" := "hot pink",
    "white" := "white",
    "gray" := "gray",
    "black" := "black"
  ]

  /** The display name of a colour; a name the table does not know stands for itself. */
  function Display(name: string): string
  {
    if name in DisplayNames then DisplayNames[name] else name
  }

  /** The first 22 keys are pairwise different. */
  lemma FrontNamesDistinct()
    ensures forall i, j :: 0 <= i < j < 22 ==> RangeKeys[i] != RangeKeys[j]
  {
  }

  /** No key from position 22 on repeats an earlier one. */
  lemma BackNamesDistinct()
    ensures forall i, j :: 0 <= i < j && 22 <= j < |RangeKeys| ==> RangeKeys[i] != RangeKeys[j]
  {
  }

  /** The keys of the colour table are pairwise different (they are dictionary keys). */
  lemma RangeNamesDistinct()
    ensures forall i, j :: 0 <= i < j < |ColorRanges| ==> ColorRanges[i].name != ColorRanges[j].name
  {
    RangeKeysMatch();
    FrontNamesDistinct();
    BackNamesDistinct();
  }

  /** Every key of the colour table has a display name. */
  lemma EveryRangeHasDisplayName()
    ensures forall i :: 0 <= i < |ColorRanges| ==> ColorRanges[i].name in DisplayNames
  {
  }

  /** Every colour any type lists as problematic is a key of the colour table. */
  lemma ProblematicAreRanges(t: ColorBlindnessType)
    ensures forall n :: n in ProblematicColors(t) ==> n in RangeNames()
  {
    RangeNamesListed();
  }

  /** Complete colour blindness lists exactly the colour table's keys; normal vision lists nothing. */
  lemma ProblematicExtremes()
    ensures forall n :: n in ProblematicColors(Achromatopsia) <==> n in RangeNames()
    ensures forall t :: ProblematicColors(t) == [] <==> t == Normal
  {
  }

  /** The display names of the colour table's keys, written out in table order. */
  const DisplayValues: seq<string> := [
    "red", "red", "dark red (maroon)", "dark red (burgundy)",
    "orange", "rust orange", "brown", "dark brown (chocolate)", "tan (beige)",
    "yellow", "gold (amber)", "pale yellow (cream)",
    "green", "lime green", "dark green (forest)", "olive (khaki)", "teal",
    "cyan", "blue", "light blue (sky)", "dark blue (navy)",
    "purple", "violet", "lavender", "magenta (fuchsia)", "plum",
    "pink", "hot pink",
    "white", "gray", "black"]

  /** The display-name table read at the keys of each colour family gives the written-out values. */
  lemma DisplayReds()
    ensures forall i :: 0 <= i < 4 ==> RangeKeys[i] in DisplayNames && DisplayNames[RangeKeys[i]] == DisplayValues[i]
  {
  }

  lemma DisplayOrangesBrowns()
    ensures forall i :: 4 <= i < 9 ==> RangeKeys[i] in DisplayNames && DisplayNames[RangeKeys[i]] == DisplayValues[i]
  {
  }

  lemma DisplayYellowsGreens()
    ensures forall i :: 9 <= i < 17 ==> RangeKeys[i] in DisplayNames && DisplayNames[RangeKeys[i]] == DisplayValues[i]
  {
  }

  lemma DisplayBluesPurples()
    ensures forall i :: 17 <= i < 26 ==> RangeKeys[i] in DisplayNames && DisplayNames[RangeKeys[i]] == DisplayValues[i]
  {
  }

  lemma DisplayPinksNeutrals()
    ensures forall i :: 26 <= i < 31 ==> RangeKeys[i] in DisplayNames && DisplayNames[RangeKeys[i]] == DisplayValues[i]
  {
  }

  /** Position by position, the display name of each table colour is the written-out value. */
  lemma DisplayValuesMatch()
    ensures |DisplayValues| == |ColorRanges|
    ensures forall i :: 0 <= i < |ColorRanges| ==> Display(ColorRanges[i].name) == DisplayValues[i]
  {
    RangeKeysMatch();
    DisplayReds();
    DisplayOrangesBrowns();
    DisplayYellowsGreens();
    DisplayBluesPurples();
    DisplayPinksNeutrals();
  }

  /** Among the first 16 display values only the two reds coincide. */
  lemma FrontDisplayDistinct()
    ensures forall i, j :: 0 <= i < j < 16 ==> (DisplayValues[i] == DisplayValues[j] <==> i == 0 && j == 1)
  {
  }

  /** No display value at positions 16 to 23 repeats an earlier one. */
  lemma MiddleDisplayDistinct()
    ensures forall i, j :: 0 <= i < j && 16 <= j < 24 ==> DisplayValues[i] != DisplayValues[j]
  {
  }

  /** No display value from position 24 on repeats an earlier one. */
  lemma BackDisplayDistinct()
    ensures forall i, j :: 0 <= i < j && 24 <= j < |DisplayValues| ==> DisplayValues[i] != DisplayValues[j]
  {
  }

  /** Only `red_low` and `red_high` share a display name, so they are the only two
      table colours that de-duplication by display name can merge. */
  lemma DisplayCollisions(i: nat, j: nat)
    requires i < j < |ColorRanges|
    ensures Display(ColorRanges[i].name) == Display(ColorRanges[j].name) <==> i == 0 && j == 1
  {
    DisplayValuesMatch();
    FrontDisplayDistinct();
    MiddleDisplayDistinct();
    BackDisplayDistinct();
  }
}
