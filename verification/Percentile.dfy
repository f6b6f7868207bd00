/** The nearest-rank percentile, over exact reals. */
module Percentile {
  import opened Sorting

  predicate RealLe(a: real, b: real) {
    a <= b
  }

  function Ceiling(x: real): int {
    -((-x).Floor)
  }

  /** The position in the sorted values of the rank that covers `share` of them. */
  function Position(share: real): int {
    if Ceiling(share) - 1 < 0 then 0 else Ceiling(share) - 1
  }

  function AtRank(values: seq<real>, share: real): real
    requires values != [] && share <= |values| as real
  {
    Sort(RealLe, values)[Position(share)]
  }

  /** How many of `n` values a fraction of them is. */
  function Share(fraction: real, n: nat): (share: real)
    ensures fraction <= 1.0 ==> share <= n as real
    ensures fraction > 0.0 && n > 0 ==> share > 0.0
  {
    ShareInRange(n as real, fraction);
    fraction * n as real
  }

  lemma ShareInRange(n: real, fraction: real)
    requires n >= 0.0
    ensures fraction <= 1.0 ==> fraction * n <= n
    ensures fraction > 0.0 && n > 0.0 ==> fraction * n > 0.0
  {
  }

  /** The nearest-rank percentile; like the source it fails on no values. */
  function NearestRank(values: seq<real>, fraction: real): real
    requires values != [] && fraction <= 1.0
  {
    AtRank(values, Share(fraction, |values|))
  }

  function AtMost(values: seq<real>, v: real): nat {
    if values == [] then 0 else AtMost(values[..|values| - 1], v) + if values[|values| - 1] <= v then 1 else 0
  }

  function Below(values: seq<real>, v: real): nat {
    if values == [] then 0 else Below(values[..|values| - 1], v) + if values[|values| - 1] < v then 1 else 0
  }

  lemma {:induction false} CountsAppend(a: seq<real>, b: seq<real>, v: real)
    ensures AtMost(a + b, v) == AtMost(a, v) + AtMost(b, v) && Below(a + b, v) == Below(a, v) + Below(b, v)
  {
    if b == [] {
      assert a + b == a;
    } else {
      assert (a + b)[..|a| + |b| - 1] == a + b[..|b| - 1];
      CountsAppend(a, b[..|b| - 1], v);
    }
  }

  lemma {:induction false} CountsOfMultiset(a: seq<real>, b: seq<real>, v: real)
    requires multiset(a) == multiset(b)
    ensures AtMost(a, v) == AtMost(b, v) && Below(a, v) == Below(b, v)
  {
    if a == [] {
      assert |multiset(b)| == 0;
    } else {
      var k := TakeOut(a, b);
      CountsOfMultiset(a[..|a| - 1], b[..k] + b[k + 1..], v);
      CountsAppend(b[..k], [b[k]], v);
      CountsAppend(b[..k] + [b[k]], b[k + 1..], v);
      CountsAppend(b[..k], b[k + 1..], v);
      assert [b[k]][..0] == [];
    }
  }

  /** In sorted values, the element at i has more than i values up to it and at
      most i below it. */
  lemma {:induction false} SortedCounts(s: seq<real>, i: nat, n: nat)
    requires SortedBy(RealLe, s) && i < |s| && n <= |s|
    ensures AtMost(s[..n], s[i]) >= if n <= i then n else i + 1
    ensures Below(s[..n], s[i]) <= if n <= i then n else i
  {
    if n > 0 {
      SortedCounts(s, i, n - 1);
      assert s[..n][..n - 1] == s[..n - 1];
      if n - 1 < i { assert RealLe(s[n - 1], s[i]); }
      if n - 1 > i { assert RealLe(s[i], s[n - 1]); }
    } else {
      assert s[..0] == [];
    }
  }

  lemma AtRankMeaning(values: seq<real>, share: real)
    requires values != [] && 0.0 < share <= |values| as real
    ensures AtRank(values, share) in values
    ensures AtMost(values, AtRank(values, share)) as real >= share
    ensures Below(values, AtRank(values, share)) as real < share
  {
    var s, i := Sort(RealLe, values), Position(share);
    SortSorts(RealLe, values);
    SameElements(s, values);
    assert s[i] in s;
    SortedCounts(s, i, |s|);
    assert s[..|s|] == s;
    CountsOfMultiset(s, values, s[i]);
  }

  /** The percentile is a member; at least the given fraction of the values are
      up to it, and less than that fraction are below it. */
  lemma NearestRankMeaning(values: seq<real>, fraction: real)
    requires values != [] && 0.0 < fraction <= 1.0
    ensures NearestRank(values, fraction) in values
    ensures AtMost(values, NearestRank(values, fraction)) as real >= Share(fraction, |values|)
    ensures Below(values, NearestRank(values, fraction)) as real < Share(fraction, |values|)
  {
    AtRankMeaning(values, Share(fraction, |values|));
  }

  /** How many values there are up to v, and below it. */
  function UpTo(values: seq<real>, v: real): set<int> {
    set i | 0 <= i < |values| && values[i] <= v
  }

  function Under(values: seq<real>, v: real): set<int> {
    set i | 0 <= i < |values| && values[i] < v
  }

  lemma {:induction false} AtMostPositions(values: seq<real>, v: real)
    ensures AtMost(values, v) == |UpTo(values, v)|
  {
    if values == [] {
      assert UpTo(values, v) == {};
    } else {
      var n := |values| - 1;
      AtMostPositions(values[..n], v);
      UpToNext(values, v);
    }
  }

  lemma UpToNext(values: seq<real>, v: real)
    requires values != []
    ensures var n := |values| - 1;
            |UpTo(values, v)| == |UpTo(values[..n], v)| + if values[n] <= v then 1 else 0
  {
    var n := |values| - 1;
    var up := UpTo(values[..n], v);
    assert UpTo(values, v) == if values[n] <= v then up + {n} else up;
  }

  lemma {:induction false} BelowPositions(values: seq<real>, v: real)
    ensures Below(values, v) == |Under(values, v)|
  {
    if values == [] {
      assert Under(values, v) == {};
    } else {
      var n := |values| - 1;
      BelowPositions(values[..n], v);
      UnderNext(values, v);
    }
  }

  lemma UnderNext(values: seq<real>, v: real)
    requires values != []
    ensures var n := |values| - 1;
            |Under(values, v)| == |Under(values[..n], v)| + if values[n] < v then 1 else 0
  {
    var n := |values| - 1;
    var under := Under(values[..n], v);
    assert Under(values, v) == if values[n] < v then under + {n} else under;
  }

  /** The percentile of a fraction is one of the values; at least that fraction of
      the values are up to it, and less than that fraction are below it. */
  lemma PercentileLaw(values: seq<real>, fraction: real, n: real, share: real, v: real)
    requires values != [] && 0.0 < fraction <= 1.0 && n == |values| as real && share == fraction * n
    requires v == NearestRank(values, fraction)
    ensures v in values && |UpTo(values, v)| as real >= share && |Under(values, v)| as real < share
  {
    ShareIs(fraction, |values|, n, share);
    NearestRankMeaning(values, fraction);
    AtMostPositions(values, v);
    BelowPositions(values, v);
  }

  lemma ShareIs(fraction: real, count: nat, n: real, share: real)
    requires n == count as real && share == fraction * n
    ensures Share(fraction, count) == share
  {
  }

  /** The order of the values does not matter. */
  lemma NearestRankUnordered(a: seq<real>, b: seq<real>, fraction: real)
    requires a != [] && multiset(a) == multiset(b) && fraction <= 1.0
    ensures |a| == |b| && NearestRank(a, fraction) == NearestRank(b, fraction)
  {
    assert |a| == |multiset(a)| == |multiset(b)| == |b|;
    SortCanonical(RealLe, a, b);
  }
}
