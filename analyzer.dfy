/** The colour-blindness decisions of the analyser: whether the colours of a
    region are hard to see for a given type, with a warning naming them, and
    the full analysis of a region that strings the steps together. */
module ColorAnalyzer {
  import opened ColorTables
  import opened Shares
  import opened Detection
  import opened Dominance

  datatype Option<T> = None | Some(value: T)

  /** The entries of `detected` whose colour is in `problematic` and covers more
      than 10% of the region, each renamed to its display name, in dictionary order. */
  function Offending(detected: seq<ColorShare>, problematic: seq<string>): seq<ColorShare>
  {
    if detected == [] then []
    else
      var e := detected[|detected| - 1];
      Offending(detected[..|detected| - 1], problematic) +
        (if e.name in problematic && e.percent > 10.0 then [ColorShare(Display(e.name), e.percent)] else [])
  }

  /** An entry the problem test reports: a problematic colour above 10%. */
  predicate Significant(e: ColorShare, problematic: seq<string>)
  {
    e.name in problematic && e.percent > 10.0
  }

  /** The warning text for the offending entries: the display names of the first two, joined by ", ". */
  function WarningText(found: seq<ColorShare>): string
  {
    "Contains " + Join(Names(Take(found, 2)), ", ") + " - may be difficult to see"
  }

  /** The answer of the problem test for a dictionary of detected shares and a type. */
  function Assess(detected: seq<ColorShare>, t: ColorBlindnessType): (bool, Option<string>)
  {
    var problematic := ProblematicColors(t);
    if problematic == [] then (false, None)
    else
      var found := Offending(detected, problematic);
      if found != [] then (true, Some(WarningText(found))) else (false, None)
  }

  /** The problem test: the loop collecting the offending colours, then the warning. */
  method IsProblematicForUser(detectedColors: seq<ColorShare>, t: ColorBlindnessType)
    returns (isProblematic: bool, warning: Option<string>)
    ensures (isProblematic, warning) == Assess(detectedColors, t)
  {
    var problematic := ProblematicColors(t);
    if problematic == [] {
      return false, None;
    }
    var foundProblematic: seq<ColorShare> := [];
    for i := 0 to |detectedColors|
      invariant foundProblematic == Offending(detectedColors[..i], problematic)
    {
      var colorName, percentage := detectedColors[i].name, detectedColors[i].percent;
      if colorName in problematic && percentage > 10.0 {
        var displayName := Display(colorName);
        foundProblematic := foundProblematic + [ColorShare(displayName, percentage)];
      }
      assert detectedColors[..i + 1][..i] == detectedColors[..i];
    }
    assert detectedColors[..|detectedColors|] == detectedColors;
    if foundProblematic != [] {
      var colorsStr := Join(Names(Take(foundProblematic, 2)), ", ");
      var warningText := "Contains " + colorsStr + " - may be difficult to see";
      return true, Some(warningText);
    }
    return false, None;
  }

  /** Something is offending exactly when some detected entry is a problematic colour above 10%. */
  lemma {:induction false} OffendingNonEmpty(detected: seq<ColorShare>, problematic: seq<string>)
    ensures Offending(detected, problematic) != [] <==>
              exists i :: 0 <= i < |detected| && Significant(detected[i], problematic)
  {
    if detected != [] {
      var n := |detected| - 1;
      var front := detected[..n];
      OffendingNonEmpty(front, problematic);
      assert forall i :: 0 <= i < n ==> front[i] == detected[i];
    }
  }

  /** Each offending entry is a problematic detected entry above 10%, renamed to its display name. */
  lemma {:induction false} OffendingSound(detected: seq<ColorShare>, problematic: seq<string>)
    ensures forall k :: 0 <= k < |Offending(detected, problematic)| ==>
              exists i :: 0 <= i < |detected| && Significant(detected[i], problematic) &&
                Offending(detected, problematic)[k] == ColorShare(Display(detected[i].name), detected[i].percent)
  {
    if detected != [] {
      var n := |detected| - 1;
      var front := detected[..n];
      OffendingSound(front, problematic);
      var f := Offending(front, problematic);
      var r := Offending(detected, problematic);
      var x := ColorShare(Display(detected[n].name), detected[n].percent);
      assert r == f + (if Significant(detected[n], problematic) then [x] else []);
      forall k | 0 <= k < |r|
        ensures exists i :: 0 <= i < |detected| && Significant(detected[i], problematic) &&
                  r[k] == ColorShare(Display(detected[i].name), detected[i].percent)
      {
        if k < |f| {
          assert r[k] == f[k];
          var i :| 0 <= i < |front| && Significant(front[i], problematic) &&
            f[k] == ColorShare(Display(front[i].name), front[i].percent);
          assert detected[i] == front[i];
        } else {
          assert r[k] == x && Significant(detected[n], problematic);
        }
      }
    } else {
      assert Offending(detected, problematic) == [];
    }
  }

  /** Entries `k1` and `k2` of `found` report detected entries that appear in that order. */
  ghost predicate ReportsInOrder(detected: seq<ColorShare>, found: seq<ColorShare>, k1: int, k2: int)
    requires 0 <= k1 < k2 < |found|
  {
    exists i1, i2 :: 0 <= i1 < i2 < |detected| &&
      found[k1] == ColorShare(Display(detected[i1].name), detected[i1].percent) &&
      found[k2] == ColorShare(Display(detected[i2].name), detected[i2].percent)
  }

  /** Two offending entries come from detected entries in the same order. */
  lemma {:induction false} OffendingPairInOrder(detected: seq<ColorShare>, problematic: seq<string>, k1: nat, k2: nat)
    requires k1 < k2 < |Offending(detected, problematic)|
    ensures ReportsInOrder(detected, Offending(detected, problematic), k1, k2)
  {
    var n := |detected| - 1;
    var front := detected[..n];
    var f := Offending(front, problematic);
    var r := Offending(detected, problematic);
    assert r == f + (if Significant(detected[n], problematic) then [ColorShare(Display(detected[n].name), detected[n].percent)] else []);
    assert r[k1] == f[k1];
    if k2 < |f| {
      OffendingPairInOrder(front, problematic, k1, k2);
      var i1, i2 :| 0 <= i1 < i2 < |front| &&
        f[k1] == ColorShare(Display(front[i1].name), front[i1].percent) &&
        f[k2] == ColorShare(Display(front[i2].name), front[i2].percent);
      assert detected[i1] == front[i1] && detected[i2] == front[i2];
      assert r[k2] == f[k2];
    } else {
      OffendingSound(front, problematic);
      var i1 :| 0 <= i1 < |front| && Significant(front[i1], problematic) &&
        f[k1] == ColorShare(Display(front[i1].name), front[i1].percent);
      assert detected[i1] == front[i1];
      assert r[k2] == ColorShare(Display(detected[n].name), detected[n].percent);
    }
  }

  /** The offending entries follow the order of the dictionary. */
  lemma OffendingInOrder(detected: seq<ColorShare>, problematic: seq<string>)
    ensures forall k1, k2 :: 0 <= k1 < k2 < |Offending(detected, problematic)| ==>
              ReportsInOrder(detected, Offending(detected, problematic), k1, k2)
  {
    forall k1, k2 | 0 <= k1 < k2 < |Offending(detected, problematic)| {
      OffendingPairInOrder(detected, problematic, k1, k2);
    }
  }

  /** Every problematic detected entry above 10% is among the offending ones. */
  lemma {:induction false} OffendingComplete(detected: seq<ColorShare>, problematic: seq<string>, i: nat)
    requires i < |detected| && Significant(detected[i], problematic)
    ensures ColorShare(Display(detected[i].name), detected[i].percent) in Offending(detected, problematic)
  {
    var n := |detected| - 1;
    if i < n {
      var front := detected[..n];
      assert front[i] == detected[i];
      OffendingComplete(front, problematic, i);
    }
  }

  /** Normal vision, and any type with nothing listed, is never warned, whatever was detected. */
  lemma AssessNothingListed(detected: seq<ColorShare>, t: ColorBlindnessType)
    requires ProblematicColors(t) == []
    ensures Assess(detected, t) == (false, None)
    ensures Assess(detected, Normal) == (false, None)
  {
  }

  /** The problem test answers yes exactly when some detected colour is problematic for
      the type and covers more than 10%; and it carries a warning exactly when it answers yes. */
  lemma AssessDecides(detected: seq<ColorShare>, t: ColorBlindnessType)
    ensures Assess(detected, t).0 <==>
              exists i :: 0 <= i < |detected| &&
                detected[i].name in ProblematicColors(t) && detected[i].percent > 10.0
    ensures Assess(detected, t).1.Some? <==> Assess(detected, t).0
  {
    OffendingNonEmpty(detected, ProblematicColors(t));
  }

  /** The warning names the display names of one or two offending colours: the
      first two, in dictionary order, joined by ", ". */
  lemma AssessWarning(detected: seq<ColorShare>, t: ColorBlindnessType)
    requires Assess(detected, t).0
    ensures var found := Offending(detected, ProblematicColors(t));
      |found| >= 1 &&
      Assess(detected, t).1 == Some(
        if |found| == 1 then "Contains " + found[0].name + " - may be difficult to see"
        else "Contains " + found[0].name + ", " + found[1].name + " - may be difficult to see")
  {
    var found := Offending(detected, ProblematicColors(t));
    assert ProblematicColors(t) != [] && found != [];
    assert Assess(detected, t).1 == Some(WarningText(found));
    if |found| >= 2 {
      var two := Names(Take(found, 2));
      assert two == [found[0].name, found[1].name];
      assert two[1..] == [found[1].name];
      assert Join(two, ", ") == found[0].name + ", " + Join(two[1..], ", ");
      assert Join(two, ", ") == found[0].name + ", " + found[1].name;
      assert WarningText(found) == "Contains " + (found[0].name + ", " + found[1].name) + " - may be difficult to see";
      var a, b := found[0].name, found[1].name;
      assert "Contains " + (a + ", " + b) + " - may be difficult to see" == "Contains " + a + ", " + b + " - may be difficult to see";
    } else {
      assert Names(Take(found, 2)) == [found[0].name];
    }
  }

  /** The full analysis of a region; an empty region has no breakdown at all. */
  datatype RegionAnalysis = RegionAnalysis(
    dominantColors: seq<string>,
    isProblematic: bool,
    warning: Option<string>,
    colorBreakdown: Option<seq<ColorShare>>)

  /** The full analysis: detection, the three dominant colours, and the problem test for the type. */
  method AnalyzeRegion(pixels: seq<Hsv>, t: ColorBlindnessType) returns (result: RegionAnalysis)
    ensures |pixels| == 0 ==> result == RegionAnalysis([], false, None, None)
    ensures |pixels| > 0 ==>
              result.colorBreakdown == Some(Detected(pixels)) &&
              result.dominantColors == Dominant(Detected(pixels), 3) &&
              (result.isProblematic, result.warning) == Assess(Detected(pixels), t)
    ensures |result.dominantColors| <= 3
    ensures result.isProblematic <==> result.warning.Some?
    ensures result.isProblematic <==>
              exists i :: 0 <= i < |Detected(pixels)| &&
                Detected(pixels)[i].name in ProblematicColors(t) && Detected(pixels)[i].percent > 10.0
  {
    if |pixels| == 0 {
      return RegionAnalysis([], false, None, None);
    }
    var detectedColors := DetectColors(pixels);
    var dominant := GetDominantColors(pixels, 3);
    var isProblematic, warning := IsProblematicForUser(detectedColors, t);
    DominantLength(detectedColors, 3);
    AssessDecides(detectedColors, t);
    result := RegionAnalysis(dominant, isProblematic, warning, Some(detectedColors));
  }
}
