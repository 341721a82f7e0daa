/** Colour detection: which named colours cover more than 5% of a region.
    The region arrives already converted to HSV, as its sequence of pixels. */
module Detection {
  import opened ColorTables
  import opened Shares

  /** How many pixels of the region a colour's mask selects. */
  function CountIn(pixels: seq<Hsv>, r: ColorRange): (n: nat)
    ensures n <= |pixels|
  {
    if pixels == [] then 0
    else (if InRange(pixels[0], r) then 1 else 0) + CountIn(pixels[1..], r)
  }

  /** A colour's share of the region in percent, computed exactly. */
  function Percentage(count: nat, total: nat): real
    requires total > 0
  {
    (count as real / total as real) * 100.0
  }

  /** The threshold test on the exact share is the integer test `100 * count > 5 * total`. */
  lemma AboveFivePercent(count: nat, total: nat)
    requires total > 0
    ensures Percentage(count, total) > 5.0 <==> 100 * count > 5 * total
  {
    var t, c := total as real, count as real;
    var p := Percentage(count, total);
    assert p * t == 100.0 * c;
    ScaleStrict(p, 5.0, t);
    assert 100.0 * c > 5.0 * t <==> 100 * count > 5 * total;
  }

  /** Multiplying both sides by a positive number keeps a strict comparison. */
  lemma ScaleStrict(a: real, b: real, t: real)
    requires t > 0.0
    ensures a > b <==> a * t > b * t
  {
    if a > b {
      assert (a - b) * t > 0.0;
    } else {
      assert (b - a) * t >= 0.0;
    }
  }

  /** A share is never more than the whole region. */
  lemma PercentageAtMost100(count: nat, total: nat)
    requires 0 < total && count <= total
    ensures 0.0 <= Percentage(count, total) <= 100.0
  {
    var t := total as real;
    assert Percentage(count, total) * t == 100.0 * count as real;
  }

  /** The entries detection yields for the colours of `table`, in table order:
      one per colour whose share is above 5%. */
  function DetectedIn(table: seq<ColorRange>, pixels: seq<Hsv>): seq<ColorShare>
    requires |pixels| > 0
  {
    if table == [] then []
    else
      var r := table[|table| - 1];
      var pct := Percentage(CountIn(pixels, r), |pixels|);
      DetectedIn(table[..|table| - 1], pixels) + (if pct > 5.0 then [ColorShare(r.name, pct)] else [])
  }

  /** What detection yields for a region: nothing for an empty region. */
  function Detected(pixels: seq<Hsv>): seq<ColorShare>
  {
    if |pixels| == 0 then [] else DetectedIn(ColorRanges, pixels)
  }

  /** Detection: nothing for an empty region, otherwise the loop over the colour table. */
  method DetectColors(pixels: seq<Hsv>) returns (shares: seq<ColorShare>)
    ensures shares == Detected(pixels)
  {
    if |pixels| == 0 {
      return [];
    }
    shares := DetectIn(ColorRanges, pixels);
  }

  /** The loop filling the share dictionary: for each colour of `table` in turn,
      count the pixels its mask selects and record the share when it is above 5%. */
  method DetectIn(table: seq<ColorRange>, pixels: seq<Hsv>) returns (shares: seq<ColorShare>)
    requires |pixels| > 0
    ensures shares == DetectedIn(table, pixels)
  {
    var total := |pixels|;
    shares := [];
    var i := 0;
    while i < |table|
      invariant 0 <= i <= |table|
      invariant shares == DetectedIn(table[..i], pixels)
    {
      var r := table[i];
      var colorPixels := CountIn(pixels, r);
      var percentage := (colorPixels as real / total as real) * 100.0;
      DetectedInStep(table, pixels, i);
      if percentage > 5.0 {
        shares := shares + [ColorShare(r.name, percentage)];
      }
      i := i + 1;
    }
    assert table[..i] == table;
  }

  /** One step of the detection loop: the next colour of the table adds its entry when its share is above 5%. */
  lemma DetectedInStep(table: seq<ColorRange>, pixels: seq<Hsv>, i: nat)
    requires |pixels| > 0 && i < |table|
    ensures var pct := Percentage(CountIn(pixels, table[i]), |pixels|);
      DetectedIn(table[..i + 1], pixels) ==
        DetectedIn(table[..i], pixels) + (if pct > 5.0 then [ColorShare(table[i].name, pct)] else [])
  {
    assert table[..i + 1][..i] == table[..i];
  }

  /** Every detected entry is above 5% and at most 100%, belongs to a colour of
      the table and carries that colour's exact share; and the entries follow
      the table's order. */
  lemma {:induction false} DetectedInSound(table: seq<ColorRange>, pixels: seq<Hsv>)
    requires |pixels| > 0
    ensures forall k :: 0 <= k < |DetectedIn(table, pixels)| ==>
      var e := DetectedIn(table, pixels)[k];
      5.0 < e.percent <= 100.0 &&
      exists j :: 0 <= j < |table| && table[j].name == e.name &&
        e.percent == Percentage(CountIn(pixels, table[j]), |pixels|)
    ensures forall k1, k2 :: 0 <= k1 < k2 < |DetectedIn(table, pixels)| ==>
      exists j1, j2 :: 0 <= j1 < j2 < |table| &&
        table[j1].name == DetectedIn(table, pixels)[k1].name &&
        table[j2].name == DetectedIn(table, pixels)[k2].name
  {
    if table != [] {
      var n := |table| - 1;
      var front := table[..n];
      DetectedInSound(front, pixels);
      var d := DetectedIn(front, pixels);
      var pct := Percentage(CountIn(pixels, table[n]), |pixels|);
      PercentageAtMost100(CountIn(pixels, table[n]), |pixels|);
      var r := DetectedIn(table, pixels);
      assert r == d + (if pct > 5.0 then [ColorShare(table[n].name, pct)] else []);
      forall k | 0 <= k < |r|
        ensures 5.0 < r[k].percent <= 100.0
        ensures exists j ::
                  0 <= j < |table| && table[j].name == r[k].name &&
                  r[k].percent == Percentage(CountIn(pixels, table[j]), |pixels|)
      {
        if k < |d| {
          assert r[k] == d[k];
          var j :| 0 <= j < |front| && front[j].name == d[k].name &&
            d[k].percent == Percentage(CountIn(pixels, front[j]), |pixels|);
          assert table[j] == front[j];
        } else {
          assert table[n].name == r[k].name;
        }
      }
      forall k1, k2 | 0 <= k1 < k2 < |r|
        ensures exists j1, j2 ::
                  0 <= j1 < j2 < |table| &&
                  table[j1].name == r[k1].name && table[j2].name == r[k2].name
      {
        assert r[k1] == d[k1];
        if k2 < |d| {
          var j1, j2 :| 0 <= j1 < j2 < |front| && front[j1].name == d[k1].name && front[j2].name == d[k2].name;
          assert table[j1] == front[j1] && table[j2] == front[j2];
          assert r[k2] == d[k2];
        } else {
          var j1 :| 0 <= j1 < |front| && front[j1].name == d[k1].name &&
            d[k1].percent == Percentage(CountIn(pixels, front[j1]), |pixels|);
          assert table[j1] == front[j1] && table[n].name == r[k2].name;
          assert 0 <= j1 < n < |table| && table[j1].name == r[k1].name && table[n].name == r[k2].name;
        }
      }
      assert forall k1, k2 :: 0 <= k1 < k2 < |r| ==>
        exists j1, j2 :: 0 <= j1 < j2 < |table| && table[j1].name == r[k1].name && table[j2].name == r[k2].name;
    } else {
      assert DetectedIn(table, pixels) == [];
    }
  }

  /** Every colour of the table above 5% is detected, with its exact share. */
  lemma {:induction false} DetectedInComplete(table: seq<ColorRange>, pixels: seq<Hsv>, j: nat)
    requires |pixels| > 0 && j < |table|
    requires Percentage(CountIn(pixels, table[j]), |pixels|) > 5.0
    ensures ColorShare(table[j].name, Percentage(CountIn(pixels, table[j]), |pixels|)) in DetectedIn(table, pixels)
  {
    var n := |table| - 1;
    if j < n {
      DetectedInComplete(table[..n], pixels, j);
      assert table[..n][j] == table[j];
    }
  }

  /** Detection over a table whose names are distinct reads back, for each
      colour, its exact share when above 5% and 0 otherwise. */
  lemma {:induction false} DetectedInLookup(table: seq<ColorRange>, pixels: seq<Hsv>, j: nat)
    requires |pixels| > 0 && j < |table|
    requires forall a, b :: 0 <= a < b < |table| ==> table[a].name != table[b].name
    ensures var pct := Percentage(CountIn(pixels, table[j]), |pixels|);
      Lookup(DetectedIn(table, pixels), table[j].name) == if pct > 5.0 then pct else 0.0
  {
    var n := |table| - 1;
    var front := table[..n];
    var d := DetectedIn(front, pixels);
    var x := ColorShare(table[n].name, Percentage(CountIn(pixels, table[n]), |pixels|));
    assert DetectedIn(table, pixels) == d + (if x.percent > 5.0 then [x] else []);
    assert forall i :: 0 <= i < n ==> front[i] == table[i];
    if j < n {
      assert forall a, b :: 0 <= a < b < |front| ==> front[a].name != front[b].name;
      DetectedInLookup(front, pixels, j);
      assert table[j].name != x.name;
      if table[j].name !in Names(d) {
        LookupAbsent(d, table[j].name);
      }
      if x.percent > 5.0 {
        LookupAppend(d, x, table[j].name);
      } else {
        assert DetectedIn(table, pixels) == d;
      }
    } else {
      assert forall i :: 0 <= i < |front| ==> front[i].name != table[n].name;
      DetectedInNamesFrom(front, pixels, table[n].name);
      LookupAbsent(d, table[n].name);
      if x.percent > 5.0 {
        LookupAppend(d, x, table[n].name);
      } else {
        assert DetectedIn(table, pixels) == d;
      }
    }
  }

  /** Detection only yields names of the table it was given. */
  lemma DetectedInNamesFrom(table: seq<ColorRange>, pixels: seq<Hsv>, name: string)
    requires |pixels| > 0
    requires forall i :: 0 <= i < |table| ==> table[i].name != name
    ensures name !in Names(DetectedIn(table, pixels))
  {
    DetectedInSound(table, pixels);
  }

  /** A name with no entry reads as 0. */
  lemma {:induction false} LookupAbsent(s: seq<ColorShare>, name: string)
    requires name !in Names(s)
    ensures Lookup(s, name) == 0.0
  {
    if s != [] {
      assert Names(s) == [s[0].name] + Names(s[1..]);
      LookupAbsent(s[1..], name);
    }
  }

  /** An empty region detects nothing. */
  lemma DetectedEmpty()
    ensures Detected([]) == []
  {
  }

  /** What detection returns: each entry names a colour of the table, once, in
      table order, with a share above 5% and at most 100% that is exactly that
      colour's share of the region. */
  lemma DetectedWellFormed(pixels: seq<Hsv>)
    ensures forall k :: 0 <= k < |Detected(pixels)| ==>
      var e := Detected(pixels)[k];
      5.0 < e.percent <= 100.0 && e.name in RangeNames() &&
      exists j :: 0 <= j < |ColorRanges| && ColorRanges[j].name == e.name &&
        e.percent == Percentage(CountIn(pixels, ColorRanges[j]), |pixels|)
    ensures forall k1, k2 :: 0 <= k1 < k2 < |Detected(pixels)| ==>
      exists j1, j2 :: 0 <= j1 < j2 < |ColorRanges| &&
        ColorRanges[j1].name == Detected(pixels)[k1].name &&
        ColorRanges[j2].name == Detected(pixels)[k2].name
    ensures forall k1, k2 :: 0 <= k1 < k2 < |Detected(pixels)| ==>
      Detected(pixels)[k1].name != Detected(pixels)[k2].name
  {
    if |pixels| > 0 {
      var r := Detected(pixels);
      assert r == DetectedIn(ColorRanges, pixels);
      DetectedInSound(ColorRanges, pixels);
      RangeNamesDistinct();
      forall k | 0 <= k < |r| ensures r[k].name in RangeNames() {
        var j :| 0 <= j < |ColorRanges| && ColorRanges[j].name == r[k].name &&
          r[k].percent == Percentage(CountIn(pixels, ColorRanges[j]), |pixels|);
        assert RangeNames()[j] == r[k].name;
      }
      forall k1, k2 | 0 <= k1 < k2 < |r| ensures r[k1].name != r[k2].name {
        var j1, j2 :| 0 <= j1 < j2 < |ColorRanges| &&
          ColorRanges[j1].name == r[k1].name && ColorRanges[j2].name == r[k2].name;
      }
    } else {
      assert Detected(pixels) == [];
    }
  }

  /** Each colour of the table above 5% of a region is detected, with its exact share. */
  lemma DetectedComplete(pixels: seq<Hsv>, j: nat)
    requires |pixels| > 0 && j < |ColorRanges|
    requires Percentage(CountIn(pixels, ColorRanges[j]), |pixels|) > 5.0
    ensures ColorShare(ColorRanges[j].name, Percentage(CountIn(pixels, ColorRanges[j]), |pixels|)) in Detected(pixels)
  {
    DetectedInComplete(ColorRanges, pixels, j);
  }

  /** Looking a colour of the table up in what detection returns gives its exact
      share when that is above 5%, and 0 otherwise. */
  lemma DetectedLookup(pixels: seq<Hsv>, j: nat)
    requires |pixels| > 0 && j < |ColorRanges|
    ensures var pct := Percentage(CountIn(pixels, ColorRanges[j]), |pixels|);
      Lookup(Detected(pixels), ColorRanges[j].name) == if pct > 5.0 then pct else 0.0
  {
    RangeNamesDistinct();
    DetectedInLookup(ColorRanges, pixels, j);
  }
}
