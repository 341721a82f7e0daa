/** The dominant colours of a region: detected colours by share, largest
    first, reported by display name, each display name once, at most `topN`
    of them (but always at least one when anything was detected). */
module Dominance {
  import opened ColorTables
  import opened Shares
  import opened Detection

  /** The names of the entries under `key` (the display names, for `key := Display`), in order. */
  function KeysOf(s: seq<ColorShare>, key: string -> string): (names: seq<string>)
    ensures |names| == |s|
    ensures forall k :: 0 <= k < |s| ==> names[k] == key(s[k].name)
  {
    seq(|s|, k requires 0 <= k < |s| => key(s[k].name))
  }

  /** The entries whose name under `key` no earlier entry has, in order. */
  function FirstBy(s: seq<ColorShare>, key: string -> string): seq<ColorShare>
  {
    if s == [] then []
    else
      var firsts := FirstBy(s[..|s| - 1], key);
      var x := s[|s| - 1];
      if key(x.name) in KeysOf(firsts, key) then firsts else firsts + [x]
  }

  /** The stop test `len(dominant) >= top_n` runs on every pass, but only after
      that pass's possible append, and never before the first name is added, so a
      `top_n` below one still lets one name through. */
  function AtLeastOne(n: int): (m: nat)
    ensures m >= 1 && m >= n
    ensures n >= 1 ==> m == n
  {
    if n < 1 then 1 else n
  }

  /** The detected entries that the dominant names stand for: the first entry
      of each display name in share order, at most `AtLeastOne(topN)` of them. */
  function DominantShares(shares: seq<ColorShare>, topN: int): seq<ColorShare>
  {
    Take(FirstBy(SortByShare(shares), Display), AtLeastOne(topN))
  }

  /** The dominant colour names for a dictionary of detected shares. */
  function Dominant(shares: seq<ColorShare>, topN: int): seq<string>
  {
    KeysOf(DominantShares(shares, topN), Display)
  }

  /** The dominant colours of a region: detection, the stable sort by share,
      then the loop collecting unseen display names until `topN` are collected. */
  method GetDominantColors(pixels: seq<Hsv>, topN: int) returns (dominant: seq<string>)
    ensures dominant == Dominant(Detected(pixels), topN)
  {
    var colorPercentages := DetectColors(pixels);
    var sortedColors := SortByShare(colorPercentages);
    dominant := TopDistinctKeys(sortedColors, topN, Display);
  }

  /** The de-duplicating loop over the sorted entries: walk them in order, keep the
      key of each entry whose key has not been seen yet, and stop as soon as `topN`
      keys are kept (after the first key even when `topN` is below one). */
  method TopDistinctKeys(sortedColors: seq<ColorShare>, topN: int, key: string -> string) returns (dominant: seq<string>)
    ensures dominant == KeysOf(Take(FirstBy(sortedColors, key), AtLeastOne(topN)), key)
  {
    var seen: set<string> := {};
    dominant := [];
    var i := 0;
    while i < |sortedColors|
      invariant 0 <= i <= |sortedColors|
      invariant dominant == KeysOf(FirstBy(sortedColors[..i], key), key)
      invariant forall d :: d in seen <==> d in dominant
      invariant |dominant| < AtLeastOne(topN)
    {
      KeysStep(sortedColors, i, key);
      var displayName := key(sortedColors[i].name);
      if displayName !in seen {
        seen := seen + {displayName};
        dominant := dominant + [displayName];
      }
      if |dominant| >= topN {
        StopAfter(sortedColors, i, topN, key);
        break;
      }
      i := i + 1;
    }
    if i == |sortedColors| {
      assert sortedColors[..i] == sortedColors;
    }
  }

  /** One step of the loop, on names: the next entry adds its name exactly when it is new. */
  lemma KeysStep(s: seq<ColorShare>, i: nat, key: string -> string)
    requires i < |s|
    ensures var before := KeysOf(FirstBy(s[..i], key), key);
      KeysOf(FirstBy(s[..i + 1], key), key) ==
        if key(s[i].name) in before then before else before + [key(s[i].name)]
  {
    FirstByStep(s, i, key);
    var before := FirstBy(s[..i], key);
    if key(s[i].name) !in KeysOf(before, key) {
      assert KeysOf(before + [s[i]], key) == KeysOf(before, key) + [key(s[i].name)];
    }
  }

  /** When the loop stops after entry `i`, it has collected exactly the first
      `AtLeastOne(topN)` names of the whole list. */
  lemma StopAfter(s: seq<ColorShare>, i: nat, topN: int, key: string -> string)
    requires i < |s|
    requires |FirstBy(s[..i], key)| < AtLeastOne(topN)
    requires |FirstBy(s[..i + 1], key)| >= topN
    ensures Take(FirstBy(s, key), AtLeastOne(topN)) == FirstBy(s[..i + 1], key)
  {
    FirstByStep(s, i, key);
    FirstByPrefix(s, i + 1, key);
  }

  /** One step of the loop: the next entry adds its display name exactly when it is new. */
  lemma FirstByStep(s: seq<ColorShare>, i: nat, key: string -> string)
    requires i < |s|
    ensures var before := FirstBy(s[..i], key);
      var x := s[i];
      FirstBy(s[..i + 1], key) ==
        if key(x.name) in KeysOf(before, key) then before else before + [x]
    ensures |FirstBy(s[..i + 1], key)| >= 1
  {
    assert s[..i + 1][..i] == s[..i];
    var before := FirstBy(s[..i], key);
    if key(s[i].name) in KeysOf(before, key) {
      assert key(s[i].name) in KeysOf(before, key);
    }
  }

  /** What the first entries of a prefix are stays a prefix of the first entries of the whole. */
  lemma {:induction false} FirstByPrefix(s: seq<ColorShare>, i: nat, key: string -> string)
    requires i <= |s|
    ensures FirstBy(s[..i], key) <= FirstBy(s, key)
  {
    if i == |s| {
      assert s[..i] == s;
    } else {
      var front := s[..|s| - 1];
      FirstByPrefix(front, i, key);
      assert front[..i] == s[..i];
    }
  }

  /** The first entries by key are entries of the list, at most as many. */
  lemma {:induction false} FirstByMembers(s: seq<ColorShare>, key: string -> string)
    ensures |FirstBy(s, key)| <= |s|
    ensures forall k :: 0 <= k < |FirstBy(s, key)| ==> FirstBy(s, key)[k] in s
  {
    if s != [] {
      var front := s[..|s| - 1];
      FirstByMembers(front, key);
      assert forall y :: y in front ==> y in s;
    }
  }

  /** The first entries by key have pairwise different keys. */
  lemma {:induction false} FirstByDistinct(s: seq<ColorShare>, key: string -> string)
    ensures forall k1, k2 :: 0 <= k1 < k2 < |FirstBy(s, key)| ==>
              key(FirstBy(s, key)[k1].name) != key(FirstBy(s, key)[k2].name)
  {
    if s != [] {
      var front := s[..|s| - 1];
      FirstByDistinct(front, key);
      var f := FirstBy(front, key);
      var x := s[|s| - 1];
      if key(x.name) !in KeysOf(f, key) {
        assert FirstBy(s, key) == f + [x];
      }
    }
  }

  /** Every key of the list is the key of one of its first entries. */
  lemma {:induction false} FirstByCovers(s: seq<ColorShare>, key: string -> string)
    ensures s != [] ==> |FirstBy(s, key)| >= 1
    ensures forall i :: 0 <= i < |s| ==> key(s[i].name) in KeysOf(FirstBy(s, key), key)
  {
    if s != [] {
      var n := |s| - 1;
      var front := s[..n];
      FirstByCovers(front, key);
      var f := FirstBy(front, key);
      var x := s[n];
      if key(x.name) !in KeysOf(f, key) {
        assert FirstBy(s, key) == f + [x];
        assert KeysOf(f + [x], key) == KeysOf(f, key) + [key(x.name)];
      }
      forall i | 0 <= i < |s| ensures key(s[i].name) in KeysOf(FirstBy(s, key), key) {
        if i < n {
          assert front[i] == s[i];
        }
      }
    }
  }

  /** Taken from a list sorted largest first, the first entries by key are
      sorted largest first too. */
  lemma {:induction false} FirstBySorted(s: seq<ColorShare>, key: string -> string)
    requires NonIncreasing(s)
    ensures NonIncreasing(FirstBy(s, key))
  {
    if s != [] {
      var n := |s| - 1;
      var front := s[..n];
      assert NonIncreasing(front);
      FirstBySorted(front, key);
      FirstByMembers(front, key);
      var f := FirstBy(front, key);
      var x := s[n];
      if key(x.name) !in KeysOf(f, key) {
        forall k | 0 <= k < |f| ensures f[k].percent >= x.percent {
          var i :| 0 <= i < |front| && front[i] == f[k];
          assert s[i] == front[i];
        }
        assert FirstBy(s, key) == f + [x];
      }
    }
  }

  /** In a list sorted largest first, the last entry has no larger share than any
      first entry by key of the entries before it. */
  lemma LastNoLarger(s: seq<ColorShare>, key: string -> string, k: nat)
    requires NonIncreasing(s) && s != []
    requires k < |FirstBy(s[..|s| - 1], key)|
    ensures s[|s| - 1].percent <= FirstBy(s[..|s| - 1], key)[k].percent
  {
    var front := s[..|s| - 1];
    FirstByMembers(front, key);
    var j :| 0 <= j < |front| && front[j] == FirstBy(front, key)[k];
    assert s[j] == front[j];
  }

  /** One instance of `FirstByLargest`: entry `i` of the list has no larger share
      than the first entry `k` that has its key. */
  lemma {:induction false} FirstByLargestAt(s: seq<ColorShare>, key: string -> string, k: nat, i: nat)
    requires NonIncreasing(s)
    requires k < |FirstBy(s, key)| && i < |s|
    requires key(s[i].name) == key(FirstBy(s, key)[k].name)
    ensures s[i].percent <= FirstBy(s, key)[k].percent
  {
    var n := |s| - 1;
    var front := s[..n];
    var f := FirstBy(front, key);
    var x := s[n];
    var r := FirstBy(s, key);
    assert r == if key(x.name) in KeysOf(f, key) then f else f + [x];
    if k < |f| {
      assert r[k] == f[k];
      if i < n {
        assert s[i] == front[i];
        assert NonIncreasing(front);
        FirstByLargestAt(front, key, k, i);
      } else {
        LastNoLarger(s, key, k);
      }
    } else {
      assert key(x.name) !in KeysOf(f, key) && r[k] == x;
      FirstByCovers(front, key);
      assert i == n;
    }
  }

  /** Taken from a list sorted largest first, each first entry by key has the
      largest share of all entries with its key. */
  lemma FirstByLargest(s: seq<ColorShare>, key: string -> string)
    requires NonIncreasing(s)
    ensures forall k, i ::
              (0 <= k < |FirstBy(s, key)| && 0 <= i < |s| &&
               key(s[i].name) == key(FirstBy(s, key)[k].name)) ==>
              s[i].percent <= FirstBy(s, key)[k].percent
  {
    forall k, i | 0 <= k < |FirstBy(s, key)| && 0 <= i < |s| && key(s[i].name) == key(FirstBy(s, key)[k].name) {
      FirstByLargestAt(s, key, k, i);
    }
  }

  /** The first entries by key keep the order the entries had in the list. */
  lemma {:induction false} FirstByInOrder(s: seq<ColorShare>, key: string -> string)
    ensures forall k1, k2 :: 0 <= k1 < k2 < |FirstBy(s, key)| ==>
              exists i1, i2 :: 0 <= i1 < i2 < |s| &&
                s[i1] == FirstBy(s, key)[k1] && s[i2] == FirstBy(s, key)[k2]
  {
    if s != [] {
      var n := |s| - 1;
      var front := s[..n];
      FirstByInOrder(front, key);
      FirstByMembers(front, key);
      var f := FirstBy(front, key);
      var r := FirstBy(s, key);
      assert f <= r;
      forall k1, k2 | 0 <= k1 < k2 < |r|
        ensures exists i1, i2 :: 0 <= i1 < i2 < |s| && s[i1] == r[k1] && s[i2] == r[k2]
      {
        assert r[k1] == f[k1];
        if k2 < |f| {
          assert r[k2] == f[k2];
          var i1, i2 :| 0 <= i1 < i2 < |front| && front[i1] == f[k1] && front[i2] == f[k2];
          assert s[i1] == front[i1] && s[i2] == front[i2];
        } else {
          assert r == f + [s[n]];
          var i1 :| 0 <= i1 < |front| && front[i1] == f[k1];
          assert s[i1] == front[i1] && s[n] == r[k2];
        }
      }
    } else {
      assert FirstBy(s, key) == [];
    }
  }

  /** No display name is reported twice. */
  lemma DominantDistinct(shares: seq<ColorShare>, topN: int)
    ensures forall k1, k2 :: 0 <= k1 < k2 < |Dominant(shares, topN)| ==>
              Dominant(shares, topN)[k1] != Dominant(shares, topN)[k2]
  {
    FirstByDistinct(SortByShare(shares), Display);
  }

  /** At most `topN` names when `topN` is positive, one name when it is not
      (and anything was detected), and never more names than detected colours. */
  lemma DominantLength(shares: seq<ColorShare>, topN: int)
    ensures |Dominant(shares, topN)| <= |shares|
    ensures topN >= 1 ==> |Dominant(shares, topN)| <= topN
    ensures shares != [] ==> |Dominant(shares, topN)| >= 1
    ensures shares != [] && topN <= 1 ==> |Dominant(shares, topN)| == 1
    ensures shares == [] ==> Dominant(shares, topN) == []
  {
    FirstByMembers(SortByShare(shares), Display);
    FirstByCovers(SortByShare(shares), Display);
  }

  /** Each reported name is the display name of a detected colour, and the names
      come in order of non-increasing share. */
  lemma DominantOrigins(shares: seq<ColorShare>, topN: int)
    ensures |DominantShares(shares, topN)| == |Dominant(shares, topN)|
    ensures forall k :: 0 <= k < |Dominant(shares, topN)| ==>
              DominantShares(shares, topN)[k] in shares &&
              Dominant(shares, topN)[k] == Display(DominantShares(shares, topN)[k].name)
    ensures NonIncreasing(DominantShares(shares, topN))
  {
    var sorted := SortByShare(shares);
    FirstByMembers(sorted, Display);
    FirstBySorted(sorted, Display);
    var f := FirstBy(sorted, Display);
    var ds := DominantShares(shares, topN);
    assert ds <= f;
    forall k | 0 <= k < |ds| ensures ds[k] in shares {
      assert f[k] == ds[k];
      assert ds[k] in multiset(sorted);
    }
  }

  /** Of all the detected colours with the same display name, a reported name
      stands for the one with the largest share. */
  lemma DominantLargest(shares: seq<ColorShare>, topN: int)
    ensures forall k, y ::
              (0 <= k < |Dominant(shares, topN)| && y in shares &&
               Display(y.name) == Dominant(shares, topN)[k]) ==>
              y.percent <= DominantShares(shares, topN)[k].percent
  {
    var sorted := SortByShare(shares);
    FirstByLargest(sorted, Display);
    var f := FirstBy(sorted, Display);
    var ds := DominantShares(shares, topN);
    assert ds <= f;
    forall k, y | 0 <= k < |ds| && y in shares && Display(y.name) == Display(ds[k].name)
      ensures y.percent <= ds[k].percent
    {
      assert y in multiset(sorted);
      var i :| 0 <= i < |sorted| && sorted[i] == y;
      assert f[k] == ds[k];
    }
  }

  /** Taken from a list sorted largest first, an entry whose key is not among the
      keys of the first `m` first entries has no larger share than any of them. */
  lemma FirstByTop(s: seq<ColorShare>, key: string -> string, m: nat, k: nat, i: nat)
    requires NonIncreasing(s)
    requires k < |Take(FirstBy(s, key), m)| && i < |s|
    requires key(s[i].name) !in KeysOf(Take(FirstBy(s, key), m), key)
    ensures s[i].percent <= FirstBy(s, key)[k].percent
  {
    var f := FirstBy(s, key);
    var t := Take(f, m);
    FirstByCovers(s, key);
    var keys := KeysOf(f, key);
    var k2 :| 0 <= k2 < |keys| && keys[k2] == key(s[i].name);
    assert forall j :: 0 <= j < |t| ==> KeysOf(t, key)[j] == keys[j];
    assert k2 >= |t|;
    FirstByLargestAt(s, key, k2, i);
    FirstBySorted(s, key);
  }

  /** The reported names are the top ones: a detected colour whose display name
      is not reported has no larger share than any reported entry. */
  lemma DominantTop(shares: seq<ColorShare>, topN: int, k: nat, y: ColorShare)
    requires k < |DominantShares(shares, topN)| && y in shares
    requires Display(y.name) !in Dominant(shares, topN)
    ensures y.percent <= DominantShares(shares, topN)[k].percent
  {
    var sorted := SortByShare(shares);
    assert y in multiset(sorted);
    var i :| 0 <= i < |sorted| && sorted[i] == y;
    FirstByTop(sorted, Display, AtLeastOne(topN), k, i);
    assert DominantShares(shares, topN)[k] == FirstBy(sorted, Display)[k];
  }

  /** When fewer than `AtLeastOne(topN)` names are reported, every detected
      colour's display name is among them. */
  lemma DominantComplete(shares: seq<ColorShare>, topN: int)
    requires |Dominant(shares, topN)| < AtLeastOne(topN)
    ensures forall y :: y in shares ==> Display(y.name) in Dominant(shares, topN)
  {
    var sorted := SortByShare(shares);
    FirstByCovers(sorted, Display);
    forall y | y in shares ensures Display(y.name) in Dominant(shares, topN) {
      assert y in multiset(sorted);
      var i :| 0 <= i < |sorted| && sorted[i] == y;
    }
  }

  /** Two reported colours with equal shares come in the order detection listed them. */
  lemma DominantTiesInInputOrder(shares: seq<ColorShare>, topN: int)
    ensures forall k1, k2 ::
              (0 <= k1 < k2 < |DominantShares(shares, topN)| &&
               DominantShares(shares, topN)[k1].percent == DominantShares(shares, topN)[k2].percent) ==>
              exists i1, i2 :: 0 <= i1 < i2 < |shares| &&
                shares[i1] == DominantShares(shares, topN)[k1] &&
                shares[i2] == DominantShares(shares, topN)[k2]
  {
    var sorted := SortByShare(shares);
    var f := FirstBy(sorted, Display);
    var ds := DominantShares(shares, topN);
    FirstByInOrder(sorted, Display);
    assert ds <= f;
    forall k1, k2 | 0 <= k1 < k2 < |ds| && ds[k1].percent == ds[k2].percent
      ensures exists i1, i2 :: 0 <= i1 < i2 < |shares| && shares[i1] == ds[k1] && shares[i2] == ds[k2]
    {
      assert f[k1] == ds[k1] && f[k2] == ds[k2];
      var p1, p2 :| 0 <= p1 < p2 < |sorted| && sorted[p1] == f[k1] && sorted[p2] == f[k2];
      var v := ds[k1].percent;
      WithPercentKeepsOrder(sorted, v, p1, p2);
      var w := WithPercent(sorted, v);
      var q1, q2 :| 0 <= q1 < q2 < |w| && w[q1] == sorted[p1] && w[q2] == sorted[p2];
      assert w == WithPercent(shares, v);
      WithPercentReflectsOrder(shares, v, q1, q2);
    }
  }
}
