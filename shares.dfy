/** The result of colour detection is an insertion-ordered dictionary from
    colour name to its share of the region, in percent. It is modelled as a
    sequence of (name, percent) entries in that order. This module also holds
    the stable, largest-first sort by share and the small list helpers the
    analyser uses (slicing a prefix, joining strings). */
module Shares {

  /** One dictionary entry: a colour name and its share of the region, in percent. */
  datatype ColorShare = ColorShare(name: string, percent: real)

  /** Shares never increase from left to right. */
  predicate NonIncreasing(s: seq<ColorShare>)
  {
    forall i, j :: 0 <= i < j < |s| ==> s[i].percent >= s[j].percent
  }

  /** The entries of `s` whose share is exactly `v`, in their order in `s`. */
  function WithPercent(s: seq<ColorShare>, v: real): seq<ColorShare>
  {
    if s == [] then []
    else (if s[0].percent == v then [s[0]] else []) + WithPercent(s[1..], v)
  }

  /** Every entry with share `v` is found, at some place, among `WithPercent(s, v)`. */
  lemma {:induction false} WithPercentHas(s: seq<ColorShare>, v: real, p: nat)
    requires p < |s| && s[p].percent == v
    ensures exists q :: 0 <= q < |WithPercent(s, v)| && WithPercent(s, v)[q] == s[p]
  {
    var w := WithPercent(s, v);
    if p == 0 {
      assert w[0] == s[0];
    } else {
      WithPercentHas(s[1..], v, p - 1);
      var w' := WithPercent(s[1..], v);
      var q :| 0 <= q < |w'| && w'[q] == s[1..][p - 1];
      if s[0].percent == v {
        assert w[q + 1] == s[p];
      } else {
        assert w[q] == s[p];
      }
    }
  }

  /** Each entry of `WithPercent(s, v)` is an entry of `s`, at some place. */
  lemma {:induction false} WithPercentFrom(s: seq<ColorShare>, v: real, q: nat)
    requires q < |WithPercent(s, v)|
    ensures exists p :: 0 <= p < |s| && s[p] == WithPercent(s, v)[q]
  {
    var w := WithPercent(s, v);
    if s[0].percent == v && q == 0 {
      assert s[0] == w[0];
    } else {
      var q' := if s[0].percent == v then q - 1 else q;
      WithPercentFrom(s[1..], v, q');
      var p :| 0 <= p < |s[1..]| && s[1..][p] == WithPercent(s[1..], v)[q'];
      assert s[p + 1] == w[q];
    }
  }

  /** Filtering by share keeps the order of the entries it keeps. */
  lemma {:induction false} WithPercentKeepsOrder(s: seq<ColorShare>, v: real, p1: nat, p2: nat)
    requires p1 < p2 < |s| && s[p1].percent == v && s[p2].percent == v
    ensures exists q1, q2 :: 0 <= q1 < q2 < |WithPercent(s, v)| &&
              WithPercent(s, v)[q1] == s[p1] && WithPercent(s, v)[q2] == s[p2]
  {
    var w := WithPercent(s, v);
    var w' := WithPercent(s[1..], v);
    if p1 == 0 {
      WithPercentHas(s[1..], v, p2 - 1);
      var q :| 0 <= q < |w'| && w'[q] == s[1..][p2 - 1];
      assert w[0] == s[0] && w[q + 1] == s[p2];
    } else {
      WithPercentKeepsOrder(s[1..], v, p1 - 1, p2 - 1);
      var q1, q2 :| 0 <= q1 < q2 < |w'| && w'[q1] == s[1..][p1 - 1] && w'[q2] == s[1..][p2 - 1];
      if s[0].percent == v {
        assert w[q1 + 1] == s[p1] && w[q2 + 1] == s[p2];
      } else {
        assert w[q1] == s[p1] && w[q2] == s[p2];
      }
    }
  }

  /** Entries in order in `WithPercent(s, v)` stand in that order in `s`. */
  lemma {:induction false} WithPercentReflectsOrder(s: seq<ColorShare>, v: real, q1: nat, q2: nat)
    requires q1 < q2 < |WithPercent(s, v)|
    ensures exists p1, p2 :: 0 <= p1 < p2 < |s| &&
              s[p1] == WithPercent(s, v)[q1] && s[p2] == WithPercent(s, v)[q2]
  {
    var w := WithPercent(s, v);
    var w' := WithPercent(s[1..], v);
    if s[0].percent == v {
      if q1 == 0 {
        WithPercentFrom(s[1..], v, q2 - 1);
        var p :| 0 <= p < |s[1..]| && s[1..][p] == w'[q2 - 1];
        assert s[0] == w[0] && s[p + 1] == w[q2];
      } else {
        WithPercentReflectsOrder(s[1..], v, q1 - 1, q2 - 1);
        var p1, p2 :| 0 <= p1 < p2 < |s[1..]| && s[1..][p1] == w'[q1 - 1] && s[1..][p2] == w'[q2 - 1];
        assert s[p1 + 1] == w[q1] && s[p2 + 1] == w[q2];
      }
    } else {
      WithPercentReflectsOrder(s[1..], v, q1, q2);
      var p1, p2 :| 0 <= p1 < p2 < |s[1..]| && s[1..][p1] == w'[q1] && s[1..][p2] == w'[q2];
      assert s[p1 + 1] == w[q1] && s[p2 + 1] == w[q2];
    }
  }

  /** Puts `x` in front of the first entry whose share is not larger than its own. */
  function Insert(x: ColorShare, s: seq<ColorShare>): (r: seq<ColorShare>)
    ensures |r| == |s| + 1
  {
    if s == [] || s[0].percent <= x.percent then [x] + s
    else [s[0]] + Insert(x, s[1..])
  }

  /** Insertion adds exactly `x`. */
  lemma {:induction false} InsertPermutes(x: ColorShare, s: seq<ColorShare>)
    ensures multiset(Insert(x, s)) == multiset(s) + multiset{x}
  {
    if s != [] && s[0].percent > x.percent {
      InsertPermutes(x, s[1..]);
      assert s == [s[0]] + s[1..];
    }
  }

  /** Insertion into a list sorted largest first keeps it sorted. */
  lemma {:induction false} InsertKeepsOrder(x: ColorShare, s: seq<ColorShare>)
    requires NonIncreasing(s)
    ensures NonIncreasing(Insert(x, s))
  {
    if s != [] && s[0].percent > x.percent {
      InsertKeepsOrder(x, s[1..]);
      InsertPermutes(x, s[1..]);
      var r := Insert(x, s);
      assert r == [s[0]] + Insert(x, s[1..]);
      forall k | 1 <= k < |r| ensures s[0].percent >= r[k].percent {
        assert r[k] in multiset(Insert(x, s[1..]));
      }
    }
  }

  /** Insertion is stable: among the entries of any one share, `x` comes first
      and the others keep their order. */
  lemma {:induction false} InsertStable(x: ColorShare, s: seq<ColorShare>, v: real)
    ensures WithPercent(Insert(x, s), v) == (if x.percent == v then [x] else []) + WithPercent(s, v)
  {
    var r := Insert(x, s);
    if s != [] && s[0].percent > x.percent {
      InsertStable(x, s[1..], v);
      assert r[0] == s[0] && r[1..] == Insert(x, s[1..]);
      assert WithPercent(r, v) == (if s[0].percent == v then [s[0]] else []) + WithPercent(r[1..], v);
      assert WithPercent(s, v) == (if s[0].percent == v then [s[0]] else []) + WithPercent(s[1..], v);
    } else {
      assert r[0] == x && r[1..] == s;
    }
  }

  /** The entries sorted by share, largest first; the sort is stable, as Python's
      `sorted(..., reverse=True)` is: entries with equal shares keep their order. */
  function SortByShare(s: seq<ColorShare>): (r: seq<ColorShare>)
    ensures multiset(r) == multiset(s)
    ensures |r| == |s|
    ensures NonIncreasing(r)
    ensures forall v :: WithPercent(r, v) == WithPercent(s, v)
  {
    if s == [] then []
    else
      var rest := SortByShare(s[1..]);
      var r := Insert(s[0], rest);
      InsertPermutes(s[0], rest);
      InsertKeepsOrder(s[0], rest);
      assert s == [s[0]] + s[1..];
      assert forall v :: WithPercent(r, v) == WithPercent(s, v) by {
        forall v ensures WithPercent(r, v) == WithPercent(s, v) {
          InsertStable(s[0], rest, v);
        }
      }
      r
  }

  /** The names of the entries, in order (the dictionary's keys). */
  function Names(s: seq<ColorShare>): (names: seq<string>)
    ensures |names| == |s|
    ensures forall k :: 0 <= k < |s| ==> names[k] == s[k].name
  {
    seq(|s|, k requires 0 <= k < |s| => s[k].name)
  }

  /** `d.get(name, 0)`: the share recorded for `name`, or 0 when there is none. */
  function Lookup(s: seq<ColorShare>, name: string): real
  {
    if s == [] then 0.0
    else if s[0].name == name then s[0].percent
    else Lookup(s[1..], name)
  }

  /** Looking up a name in an extended dictionary: the old entry wins, the new one
      answers only for a name that was absent, and an absent name reads as 0. */
  lemma {:induction false} LookupAppend(s: seq<ColorShare>, x: ColorShare, name: string)
    ensures Lookup(s + [x], name) ==
      if name in Names(s) then Lookup(s, name)
      else if x.name == name then x.percent
      else 0.0
  {
    if s != [] {
      assert (s + [x])[1..] == s[1..] + [x];
      LookupAppend(s[1..], x, name);
      assert Names(s) == [s[0].name] + Names(s[1..]);
    }
  }

  /** The first `n` elements of `s`, or all of them when there are fewer (Python's `s[:n]` for `n >= 0`). */
  function Take<T>(s: seq<T>, n: nat): (r: seq<T>)
    ensures |r| == if n < |s| then n else |s|
    ensures r <= s
  {
    if n < |s| then s[..n] else s
  }

  /** `sep.join(parts)`: the parts with `sep` between each two neighbours. */
  function Join(parts: seq<string>, sep: string): string
  {
    if |parts| == 0 then ""
    else if |parts| == 1 then parts[0]
    else parts[0] + sep + Join(parts[1..], sep)
  }
}
