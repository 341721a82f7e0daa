/** The traffic-light reading of a region: red, yellow or green when that
    colour alone has the largest share and covers more than 10%, with the
    share (capped at 1) as confidence; unknown with confidence 0 otherwise. */
module TrafficLight {
  import opened ColorTables
  import opened Shares
  import opened Detection

  datatype LightState = Red | Yellow | Green | Unknown

  datatype LightReading = LightReading(state: LightState, confidence: real)

  function Min(a: real, b: real): real
  {
    if a <= b then a else b
  }

  /** The red share counts both ends of the hue circle; a missing colour counts as 0. */
  function RedShare(colors: seq<ColorShare>): real
  {
    Lookup(colors, "red_low") + Lookup(colors, "red_high")
  }

  function YellowShare(colors: seq<ColorShare>): real
  {
    Lookup(colors, "yellow")
  }

  function GreenShare(colors: seq<ColorShare>): real
  {
    Lookup(colors, "green")
  }

  /** The decision for a dictionary of detected shares, in the order red, yellow, green. */
  function ReadLight(colors: seq<ColorShare>): LightReading
  {
    var red, yellow, green := RedShare(colors), YellowShare(colors), GreenShare(colors);
    if red > yellow && red > green && red > 10.0 then LightReading(Red, Min(red / 100.0, 1.0))
    else if yellow > red && yellow > green && yellow > 10.0 then LightReading(Yellow, Min(yellow / 100.0, 1.0))
    else if green > red && green > yellow && green > 10.0 then LightReading(Green, Min(green / 100.0, 1.0))
    else LightReading(Unknown, 0.0)
  }

  /** The reading of a region: unknown for an empty one, the decision over what detection finds otherwise. */
  function AnalyzeTrafficLight(pixels: seq<Hsv>): LightReading
  {
    if |pixels| == 0 then LightReading(Unknown, 0.0)
    else ReadLight(Detected(pixels))
  }

  /** The share the reading is based on. */
  function ShareOf(colors: seq<ColorShare>, s: LightState): real
  {
    match s
    case Red => RedShare(colors)
    case Yellow => YellowShare(colors)
    case Green => GreenShare(colors)
    case Unknown => 0.0
  }

  /** A colour is read exactly when its share is strictly larger than each of the
      other two and above 10%; at most one colour can meet that, so the order of
      the tests does not matter. Otherwise, a tie for the top included, the reading
      is unknown with confidence 0. */
  lemma ReadLightDecides(colors: seq<ColorShare>)
    ensures var red, yellow, green := RedShare(colors), YellowShare(colors), GreenShare(colors);
      && (ReadLight(colors).state == Red <==> red > yellow && red > green && red > 10.0)
      && (ReadLight(colors).state == Yellow <==> yellow > red && yellow > green && yellow > 10.0)
      && (ReadLight(colors).state == Green <==> green > red && green > yellow && green > 10.0)
      && (ReadLight(colors).state == Unknown ==> ReadLight(colors).confidence == 0.0)
  {
  }

  /** A tie for the largest share is never read as a colour. */
  lemma ReadLightTie(colors: seq<ColorShare>)
    requires var red, yellow, green := RedShare(colors), YellowShare(colors), GreenShare(colors);
      (red == yellow && red >= green) || (red == green && red >= yellow) || (yellow == green && yellow >= red)
    ensures ReadLight(colors) == LightReading(Unknown, 0.0)
  {
  }

  /** The confidence of a colour reading is its share as a fraction, capped at 1,
      so it lies above 0.1 and at most 1. */
  lemma ReadLightConfidence(colors: seq<ColorShare>)
    requires ReadLight(colors).state != Unknown
    ensures var pct := ShareOf(colors, ReadLight(colors).state);
      ReadLight(colors).confidence == Min(pct / 100.0, 1.0) &&
      0.1 < ReadLight(colors).confidence <= 1.0
  {
  }

  /** An empty region reads as unknown with confidence 0. */
  lemma AnalyzeEmpty()
    ensures AnalyzeTrafficLight([]) == LightReading(Unknown, 0.0)
  {
  }

  /** Two masks that share no pixel value select at most the whole region between them. */
  lemma {:induction false} CountDisjoint(pixels: seq<Hsv>, r1: ColorRange, r2: ColorRange)
    requires r1.upper.h < r2.lower.h
    ensures CountIn(pixels, r1) + CountIn(pixels, r2) <= |pixels|
  {
    if pixels != [] {
      CountDisjoint(pixels[1..], r1, r2);
    }
  }

  /** Shares of one region add up as their pixel counts do. */
  lemma PercentageAdd(c1: nat, c2: nat, total: nat)
    requires total > 0
    ensures Percentage(c1, total) + Percentage(c2, total) == Percentage(c1 + c2, total)
  {
  }

  /** A single colour's exact share of a non-empty region, as detection reports it, is at most 100. */
  lemma LookupAtMost100(pixels: seq<Hsv>, j: nat)
    requires |pixels| > 0 && j < |ColorRanges|
    ensures 0.0 <= Lookup(Detected(pixels), ColorRanges[j].name) <= 100.0
  {
    DetectedLookup(pixels, j);
    PercentageAtMost100(CountIn(pixels, ColorRanges[j]), |pixels|);
  }

  /** The exact red share of a non-empty region is at most 100, although it adds two colours:
      the two red hue bands cannot both select the same pixel. */
  lemma RedShareAtMost100(pixels: seq<Hsv>)
    requires |pixels| > 0
    ensures RedShare(Detected(pixels)) <= 100.0
  {
    var t := |pixels|;
    assert ColorRanges[0].name == "red_low" && ColorRanges[1].name == "red_high";
    DetectedLookup(pixels, 0);
    DetectedLookup(pixels, 1);
    var c0, c1 := CountIn(pixels, ColorRanges[0]), CountIn(pixels, ColorRanges[1]);
    CountDisjoint(pixels, ColorRanges[0], ColorRanges[1]);
    PercentageAdd(c0, c1, t);
    PercentageAtMost100(c0, t);
    PercentageAtMost100(c1, t);
    PercentageAtMost100(c0 + c1, t);
  }

  /** With exact shares the cap never binds, so a colour reading's confidence is
      exactly its share divided by 100. */
  lemma AnalyzeConfidenceExact(pixels: seq<Hsv>)
    requires AnalyzeTrafficLight(pixels).state != Unknown
    ensures var reading := AnalyzeTrafficLight(pixels);
      reading.confidence == ShareOf(Detected(pixels), reading.state) / 100.0
  {
    assert ColorRanges[9].name == "yellow" && ColorRanges[12].name == "green";
    RedShareAtMost100(pixels);
    LookupAtMost100(pixels, 9);
    LookupAtMost100(pixels, 12);
  }

  /** The whole reading of a region: unknown with confidence 0 for an empty region;
      otherwise a colour exactly when its detected share strictly beats the other
      two and exceeds 10%, with that share divided by 100 as confidence, which then
      lies in (0.1, 1]; and unknown with confidence 0 in every other case. */
  lemma AnalyzeTrafficLightReads(pixels: seq<Hsv>)
    ensures |pixels| == 0 ==> AnalyzeTrafficLight(pixels) == LightReading(Unknown, 0.0)
    ensures |pixels| > 0 ==>
              var d := Detected(pixels);
              var red, yellow, green := RedShare(d), YellowShare(d), GreenShare(d);
              && (AnalyzeTrafficLight(pixels).state == Red <==> red > yellow && red > green && red > 10.0)
              && (AnalyzeTrafficLight(pixels).state == Yellow <==> yellow > red && yellow > green && yellow > 10.0)
              && (AnalyzeTrafficLight(pixels).state == Green <==> green > red && green > yellow && green > 10.0)
    ensures AnalyzeTrafficLight(pixels).state == Unknown ==> AnalyzeTrafficLight(pixels).confidence == 0.0
    ensures AnalyzeTrafficLight(pixels).state != Unknown ==>
              AnalyzeTrafficLight(pixels).confidence == ShareOf(Detected(pixels), AnalyzeTrafficLight(pixels).state) / 100.0 &&
              0.1 < AnalyzeTrafficLight(pixels).confidence <= 1.0
  {
    if |pixels| > 0 {
      var d := Detected(pixels);
      ReadLightDecides(d);
      if ReadLight(d).state != Unknown {
        ReadLightConfidence(d);
        AnalyzeConfidenceExact(pixels);
      }
    }
  }
}
