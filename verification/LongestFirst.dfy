/** The planner as longest processing time first: every family is in the first
    of the bins that are lightest with the families before it, and no other
    partition is so arranged. */
module LongestFirst {
  import opened Sorting
  import opened Partition
  import opened ShardBalance

  /** Heavier families come first, and equally heavy ones by name. */
  predicate Before(y: string, x: string, g: string -> real) {
    g(y) > g(x) || (g(y) == g(x) && y != x && LexLe(y, x))
  }

  /** The weight of the families before x. */
  function Counted(x: string, g: string -> real): string -> real {
    y => if Before(y, x, g) then g(y) else 0.0
  }

  /** Each family is in the first bin that is lightest with the families before it. */
  ghost predicate PlacedInTurn(bins: seq<seq<string>>, g: string -> real) {
    forall i, j, x | 0 <= i < |bins| && 0 <= j < |bins| && x in bins[i] ::
      Load(bins[i], Counted(x, g)) <= Load(bins[j], Counted(x, g)) &&
      (j < i ==> Load(bins[i], Counted(x, g)) < Load(bins[j], Counted(x, g)))
  }

  // ----- the planner places in turn -----

  lemma {:induction false} CountedTotals(order: seq<string>, count: nat, weights: Weights, h: string -> real)
    requires count > 0 && forall y | y in order :: h(y) == Weight(weights, y)
    ensures forall b | 0 <= b < count ::
      Greedy(order, count, weights).totals[b] == Load(Greedy(order, count, weights).bins[b], h)
  {
    if order != [] {
      var n := |order| - 1;
      CountedTotals(order[..n], count, weights, h);
      var plan := Greedy(order[..n], count, weights);
      LoadAppend(plan.bins[Lightest(plan.totals)], [order[n]], h);
      LoadSingle(order[n], h);
      assert order[n] in order;
    }
  }

  /** Families that do not count leave every counted load. */
  lemma {:induction false} LaterUncounted(order: seq<string>, k: nat, count: nat, weights: Weights, h: string -> real)
    requires count > 0 && k <= |order| && forall i | k <= i < |order| :: h(order[i]) == 0.0
    ensures forall b | 0 <= b < count ::
      Load(Greedy(order, count, weights).bins[b], h) == Load(Greedy(order[..k], count, weights).bins[b], h)
  {
    if k == |order| {
      assert order[..k] == order;
    } else {
      var n := |order| - 1;
      LaterUncounted(order[..n], k, count, weights, h);
      assert order[..n][..k] == order[..k];
      var plan := Greedy(order[..n], count, weights);
      LoadAppend(plan.bins[Lightest(plan.totals)], [order[n]], h);
      LoadSingle(order[n], h);
    }
  }

  lemma PlaceKeeps(order: seq<string>, count: nat, weights: Weights, i: nat, x: string)
    requires count > 0 && order != [] && i < count
    requires var n := |order| - 1;
             || x in Greedy(order[..n], count, weights).bins[i]
             || (x == order[n] && i == Lightest(Greedy(order[..n], count, weights).totals))
    ensures x in Greedy(order, count, weights).bins[i]
  {
  }

  lemma {:induction false} PlacedAt(order: seq<string>, k: nat, count: nat, weights: Weights)
    requires count > 0 && k < |order|
    ensures order[k] in Greedy(order, count, weights).bins[Lightest(Greedy(order[..k], count, weights).totals)]
  {
    var n := |order| - 1;
    var i := Lightest(Greedy(order[..k], count, weights).totals);
    if k < n {
      PlacedAt(order[..n], k, count, weights);
      assert order[..n][..k] == order[..k];
    }
    PlaceKeeps(order, count, weights, i, order[k]);
  }

  /** The families before order[k] are the ones listed before it. */
  ghost predicate InTurn(order: seq<string>, k: nat, g: string -> real)
    requires k < |order|
  {
    && (forall i | 0 <= i < k :: Before(order[i], order[k], g))
    && (forall i | k <= i < |order| :: !Before(order[i], order[k], g))
  }

  lemma OrderInTurn(names: seq<string>, weights: Weights, g: string -> real, k: nat)
    requires Distinct(names) && k < |names| && forall n :: g(n) == Weight(weights, n)
    ensures InTurn(Sort(HeavierFirst(weights), names), k, g)
  {
    var order := Sort(HeavierFirst(weights), names);
    HeavierFirstIsTotalOrder(weights);
    SortSorts(HeavierFirst(weights), names);
    DistinctIsMultiplicity(names);
    DistinctIsMultiplicity(order);
    SameElements(order, names);
    forall i | 0 <= i < k ensures Before(order[i], order[k], g) {
      assert HeavierFirst(weights)(order[i], order[k]);
    }
    forall i | k < i < |order| ensures !Before(order[i], order[k], g) {
      assert HeavierFirst(weights)(order[k], order[i]);
      if LexLe(order[i], order[k]) && LexLe(order[k], order[i]) { LexAntisymmetric(order[i], order[k]); }
    }
  }

  /** What a bin of the plan weighs with the families before order[k]. */
  lemma CountedPlan(order: seq<string>, count: nat, weights: Weights, g: string -> real, k: nat, b: nat)
    requires count > 0 && k < |order| && b < count && forall n :: g(n) == Weight(weights, n)
    requires InTurn(order, k, g)
    ensures Load(Greedy(order, count, weights).bins[b], Counted(order[k], g)) ==
            Greedy(order[..k], count, weights).totals[b]
  {
    var h := Counted(order[k], g);
    forall i | k <= i < |order| ensures h(order[i]) == 0.0 {
      assert !Before(order[i], order[k], g);
    }
    LaterUncounted(order, k, count, weights, h);
    forall y | y in order[..k] ensures h(y) == Weight(weights, y) {
      var i :| 0 <= i < k && order[i] == y;
      assert Before(order[i], order[k], g);
    }
    CountedTotals(order[..k], count, weights, h);
  }

  lemma CountedBins(names: seq<string>, count: nat, weights: Weights, g: string -> real, k: nat, b: nat)
    requires count > 0 && Distinct(names) && k < |names| && b < count && forall n :: g(n) == Weight(weights, n)
    ensures var order := Sort(HeavierFirst(weights), names);
            Load(Assignment(names, count, weights)[b], Counted(order[k], g)) ==
            Greedy(order[..k], count, weights).totals[b]
  {
    var order := Sort(HeavierFirst(weights), names);
    OrderInTurn(names, weights, g, k);
    CountedPlan(order, count, weights, g, k, b);
    LoadOfMultiset(Assignment(names, count, weights)[b], Greedy(order, count, weights).bins[b], Counted(order[k], g));
  }

  /** In the planner's bins each family, from the heaviest on, went to the first
      lightest one. A family weighs its recorded seconds, or one second. */
  lemma PlannerInTurn(names: seq<string>, count: nat, weights: map<string, real>, g: string -> real)
    requires forall n :: g(n) == if n in weights then weights[n] else 1.0
    requires 0 < count && Distinct(names)
    ensures PlacedInTurn(Assignment(names, count, weights), g)
  {
    var bins, order := Assignment(names, count, weights), Sort(HeavierFirst(weights), names);
    forall i, j, x | 0 <= i < |bins| && 0 <= j < |bins| && x in bins[i]
      ensures Load(bins[i], Counted(x, g)) <= Load(bins[j], Counted(x, g))
      ensures j < i ==> Load(bins[i], Counted(x, g)) < Load(bins[j], Counted(x, g))
    {
      var k := BinIsLightest(names, count, weights, i, x);
      CountedBins(names, count, weights, g, k, i);
      CountedBins(names, count, weights, g, k, j);
    }
  }

  lemma BinIsLightest(names: seq<string>, count: nat, weights: Weights, i: nat, x: string) returns (k: nat)
    requires count > 0 && Distinct(names) && i < count && x in Assignment(names, count, weights)[i]
    ensures var order := Sort(HeavierFirst(weights), names);
            k < |order| && order[k] == x && Lightest(Greedy(order[..k], count, weights).totals) == i
  {
    var order := Sort(HeavierFirst(weights), names);
    var bins := Greedy(order, count, weights).bins;
    SameElements(Assignment(names, count, weights)[i], bins[i]);
    GreedyCovers(order, count, weights);
    DistinctIsMultiplicity(names);
    FlattenHolds(bins, i, x);
    assert x in multiset(order);
    k :| 0 <= k < |order| && order[k] == x;
    PlacedAt(order, k, count, weights);
    var b := Lightest(Greedy(order[..k], count, weights).totals);
    FlattenHolds(bins, b, x);
    if b != i {
      FlattenMultiplicity(bins, if i < b then i else b, if i < b then b else i, x);
      assert false;
    }
  }

  // ----- no other partition does -----

  function Support(s: seq<string>, h: string -> real): seq<string> {
    if s == [] then []
    else
      var front, last := Support(s[..|s| - 1], h), s[|s| - 1];
      if h(last) != 0.0 then front + [last] else front
  }

  lemma {:induction false} SupportLoad(s: seq<string>, h: string -> real)
    ensures Load(Support(s, h), h) == Load(s, h)
    ensures forall y :: y in Support(s, h) <==> y in s && h(y) != 0.0
    ensures Distinct(s) ==> Distinct(Support(s, h))
  {
    if s != [] {
      var n := |s| - 1;
      SupportLoad(s[..n], h);
      assert s == s[..n] + [s[n]];
      assert Distinct(s) ==> s[n] !in s[..n];
    }
  }

  lemma SameSupport(s: seq<string>, t: seq<string>, h: string -> real)
    requires Distinct(s) && Distinct(t) && forall y | h(y) != 0.0 :: y in s <==> y in t
    ensures Load(s, h) == Load(t, h)
  {
    SupportLoad(s, h);
    SupportLoad(t, h);
    DistinctSameMultiset(Support(s, h), Support(t, h));
    LoadOfMultiset(Support(s, h), Support(t, h), h);
  }

  /** A partition of the names, each bin in order. */
  ghost predicate Arranges(bins: seq<seq<string>>, names: seq<string>, g: string -> real) {
    && multiset(Flatten(bins)) == multiset(names) && Distinct(names)
    && (forall i | 0 <= i < |bins| :: SortedBy(LexLe, bins[i]))
    && PlacedInTurn(bins, g)
  }

  lemma BinDistinct(bins: seq<seq<string>>, names: seq<string>, i: nat)
    requires multiset(Flatten(bins)) == multiset(names) && Distinct(names) && i < |bins|
    ensures Distinct(bins[i])
  {
    DistinctIsMultiplicity(names);
    DistinctIsMultiplicity(bins[i]);
    forall x | x in bins[i] ensures multiset(bins[i])[x] == 1 {
      FlattenHolds(bins, i, x);
      assert x in multiset(names);
    }
  }

  /** The families of order[..k] are in the same bins of both. */
  ghost predicate AgreeTo(a: seq<seq<string>>, b: seq<seq<string>>, order: seq<string>, k: nat)
    requires |a| == |b| && k <= |order|
  {
    forall i, j | 0 <= i < k && 0 <= j < |a| :: order[i] in a[j] <==> order[i] in b[j]
  }

  lemma NextAgrees(a: seq<seq<string>>, b: seq<seq<string>>, names: seq<string>, g: string -> real,
                   order: seq<string>, k: nat, j: nat)
    requires |a| == |b| && k < |order| && j < |a| && Arranges(a, names, g) && Arranges(b, names, g)
    requires AgreeTo(a, b, order, k) && forall y | y in names && Before(y, order[k], g) :: y in order[..k]
    ensures Load(a[j], Counted(order[k], g)) == Load(b[j], Counted(order[k], g))
  {
    var h := Counted(order[k], g);
    BinDistinct(a, names, j);
    BinDistinct(b, names, j);
    forall y | h(y) != 0.0 ensures y in a[j] <==> y in b[j] {
      if y in a[j] { FlattenHolds(a, j, y); }
      if y in b[j] { FlattenHolds(b, j, y); }
      assert y in a[j] || y in b[j] ==> y in multiset(names);
      if y in order[..k] {
        var i :| 0 <= i < k && order[i] == y;
      }
    }
    SameSupport(a[j], b[j], h);
  }

  lemma {:induction false} HolderOf(bins: seq<seq<string>>, x: string) returns (i: nat)
    requires x in multiset(Flatten(bins))
    ensures i < |bins| && x in bins[i]
  {
    var n := |bins| - 1;
    if x in bins[n] {
      i := n;
    } else {
      i := HolderOf(bins[..n], x);
    }
  }

  lemma AgreeNext(a: seq<seq<string>>, b: seq<seq<string>>, names: seq<string>, g: string -> real,
                  order: seq<string>, k: nat)
    requires |a| == |b| && k < |order| && Arranges(a, names, g) && Arranges(b, names, g)
    requires AgreeTo(a, b, order, k) && forall y | y in names && Before(y, order[k], g) :: y in order[..k]
    requires order[k] in names
    ensures AgreeTo(a, b, order, k + 1)
  {
    var x := order[k];
    assert x in multiset(names);
    var i := HolderOf(a, x);
    var j := HolderOf(b, x);
    NextAgrees(a, b, names, g, order, k, i);
    NextAgrees(a, b, names, g, order, k, j);
    assert i == j;
    OneBin(a, names, i, x);
    OneBin(b, names, i, x);
  }

  lemma OneBin(bins: seq<seq<string>>, names: seq<string>, i: nat, x: string)
    requires multiset(Flatten(bins)) == multiset(names) && Distinct(names) && i < |bins| && x in bins[i]
    ensures forall j | 0 <= j < |bins| :: x in bins[j] <==> j == i
  {
    DistinctIsMultiplicity(names);
    FlattenHolds(bins, i, x);
    forall j | 0 <= j < |bins| && j != i ensures x !in bins[j] {
      FlattenMultiplicity(bins, if i < j then i else j, if i < j then j else i, x);
      assert x in names;
    }
  }

  lemma EarlierPlaced(order: seq<string>, g: string -> real, k: nat)
    requires k < |order| && InTurn(order, k, g)
    ensures forall y | y in order && Before(y, order[k], g) :: y in order[..k]
  {
    forall y | y in order && Before(y, order[k], g) ensures y in order[..k] {
      var i :| 0 <= i < |order| && order[i] == y;
      assert i < k && order[..k][i] == y;
    }
  }

  lemma {:induction false} AgreeAll(a: seq<seq<string>>, b: seq<seq<string>>, names: seq<string>, weights: Weights,
                                    g: string -> real, k: nat)
    requires |a| == |b| && k <= |names| && forall n :: g(n) == Weight(weights, n)
    requires Arranges(a, names, g) && Arranges(b, names, g)
    ensures AgreeTo(a, b, Sort(HeavierFirst(weights), names), k)
  {
    if k > 0 {
      var order := Sort(HeavierFirst(weights), names);
      AgreeAll(a, b, names, weights, g, k - 1);
      OrderInTurn(names, weights, g, k - 1);
      EarlierPlaced(order, g, k - 1);
      SameElements(order, names);
      assert order[k - 1] in order;
      AgreeNext(a, b, names, g, order, k - 1);
    }
  }

  /** Two such partitions into equally many bins are equal, so the planner's is
      the only one. */
  lemma OnlyInTurn(a: seq<seq<string>>, b: seq<seq<string>>, names: seq<string>, weights: map<string, real>,
                   g: string -> real)
    requires forall n :: g(n) == if n in weights then weights[n] else 1.0
    requires |a| == |b| && Arranges(a, names, g) && Arranges(b, names, g)
    ensures a == b
  {
    var order := Sort(HeavierFirst(weights), names);
    AgreeAll(a, b, names, weights, g, |names|);
    SameElements(order, names);
    forall j | 0 <= j < |a| ensures a[j] == b[j] {
      forall y ensures y in a[j] <==> y in b[j] {
        if y in a[j] { FlattenHolds(a, j, y); }
        if y in b[j] { FlattenHolds(b, j, y); }
        assert y in a[j] || y in b[j] ==> y in multiset(names);
        if y in names {
          assert y in order;
          var i :| 0 <= i < |order| && order[i] == y;
        }
      }
      BinDistinct(a, names, j);
      BinDistinct(b, names, j);
      DistinctSameMultiset(a[j], b[j]);
      LexIsTotalOrder();
      SortedUnique(LexLe, a[j], b[j]);
    }
  }

  // ----- covering -----

  /** The bins' families one bin after the other. */
  lemma FlattenIs(bins: seq<seq<string>>, bin: seq<string>)
    ensures Flatten([]) == [] && Flatten(bins + [bin]) == Flatten(bins) + bin
  {
    assert (bins + [bin])[..|bins|] == bins;
  }

  /** With at most as many bins as families, every family is in one bin, once; no
      bin is empty; and no other name is in any. */
  lemma EachFamilyOnce(names: seq<string>, count: nat, weights: map<string, real>)
    requires 0 < count <= |names| && Distinct(names) && forall n | n in weights :: weights[n] > 0.0
    ensures |Assignment(names, count, weights)| == count
    ensures forall i | 0 <= i < count :: Assignment(names, count, weights)[i] != []
    ensures forall x :: x in names <==> exists i | 0 <= i < count :: x in Assignment(names, count, weights)[i]
    ensures forall i, j, a, b |
              0 <= i < count && 0 <= a < |Assignment(names, count, weights)[i]| &&
              0 <= j < count && 0 <= b < |Assignment(names, count, weights)[j]| &&
              Assignment(names, count, weights)[i][a] == Assignment(names, count, weights)[j][b] :: i == j && a == b
  {
    var bins := Assignment(names, count, weights);
    AssignmentValid(names, count, weights);
    forall x ensures x in names <==> exists i | 0 <= i < count :: x in bins[i] {
      if x in names {
        assert x in multiset(names);
        var i := HolderOf(bins, x);
      }
      if i :| 0 <= i < count && x in bins[i] {
        FlattenHolds(bins, i, x);
        assert x in multiset(names);
      }
    }
    forall i, j, a, b | 0 <= i < count && 0 <= a < |bins[i]| && 0 <= j < count && 0 <= b < |bins[j]| &&
        bins[i][a] == bins[j][b]
      ensures i == j && a == b
    {
      BinsDisjoint(names, bins, i, j, bins[i][a]);
      BinDistinct(bins, names, i);
    }
  }
}
