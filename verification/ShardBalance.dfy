/** How well the greedy plan balances the shards. The largest total is within
    4/3 - 1/(3*count) of the largest total of any assignment whatever of the
    same families to `count` shards, and any two totals differ by at most one
    family's weight. */
module ShardBalance {
  import opened Sorting
  import opened Partition

  // ----- sums over bins, and double counting -----

  function Load(s: seq<string>, g: string -> real): real {
    if s == [] then 0.0 else Load(s[..|s| - 1], g) + g(s[|s| - 1])
  }

  function SumLoads(bins: seq<seq<string>>, g: string -> real): real {
    if bins == [] then 0.0 else SumLoads(bins[..|bins| - 1], g) + Load(bins[|bins| - 1], g)
  }

  lemma {:induction false} LoadAppend(s: seq<string>, t: seq<string>, g: string -> real)
    ensures Load(s + t, g) == Load(s, g) + Load(t, g)
  {
    if t == [] {
      assert s + t == s;
    } else {
      var n := |t| - 1;
      assert (s + t)[..|s| + n] == s + t[..n];
      LoadAppend(s, t[..n], g);
    }
  }

  lemma {:induction false} LoadOfMultiset(s: seq<string>, t: seq<string>, g: string -> real)
    requires multiset(s) == multiset(t)
    ensures Load(s, g) == Load(t, g)
  {
    if s == [] {
      assert |multiset(t)| == 0;
    } else {
      var k := TakeOut(s, t);
      LoadOfMultiset(s[..|s| - 1], t[..k] + t[k + 1..], g);
      LoadAppend(t[..k], [t[k]], g);
      LoadAppend(t[..k] + [t[k]], t[k + 1..], g);
      LoadAppend(t[..k], t[k + 1..], g);
    }
  }

  lemma {:induction false} SumLoadsUpdate(bins: seq<seq<string>>, i: nat, name: string, g: string -> real)
    requires i < |bins|
    ensures SumLoads(bins[i := bins[i] + [name]], g) == SumLoads(bins, g) + g(name)
  {
    var next := bins[i := bins[i] + [name]];
    var n := |bins| - 1;
    if i == n {
      assert next[..n] == bins[..n];
      LoadAppend(bins[i], [name], g);
    } else {
      assert next[..n] == bins[..n][i := bins[..n][i] + [name]];
      SumLoadsUpdate(bins[..n], i, name, g);
    }
  }

  lemma {:induction false} SumLoadsEmpty(bins: seq<seq<string>>, g: string -> real)
    requires forall i | 0 <= i < |bins| :: bins[i] == []
    ensures SumLoads(bins, g) == 0.0
  {
    if bins != [] { SumLoadsEmpty(bins[..|bins| - 1], g); }
  }

  lemma {:induction false} SumAtLeast(bins: seq<seq<string>>, g: string -> real, least: real, m: real)
    requires m == |bins| as real
    requires forall i | 0 <= i < |bins| :: Load(bins[i], g) >= least
    ensures SumLoads(bins, g) >= m * least
  {
    if bins != [] {
      SumAtLeast(bins[..|bins| - 1], g, least, m - 1.0);
      assert m * least == (m - 1.0) * least + least;
    } else {
      assert m == 0.0;
    }
  }

  lemma {:induction false} SumAtMost(bins: seq<seq<string>>, g: string -> real, most: real, m: real)
    requires m == |bins| as real
    requires forall i | 0 <= i < |bins| :: Load(bins[i], g) <= most
    ensures SumLoads(bins, g) <= m * most
  {
    if bins != [] {
      SumAtMost(bins[..|bins| - 1], g, most, m - 1.0);
      assert m * most == (m - 1.0) * most + most;
    } else {
      assert m == 0.0;
    }
  }

  // ----- an arbitrary assignment of families to shards -----

  /** The families that `assign` sends to shard b. */
  function Share(s: seq<string>, assign: string -> int, b: int): seq<string> {
    if s == [] then []
    else
      var rest := Share(s[..|s| - 1], assign, b);
      if assign(s[|s| - 1]) == b then rest + [s[|s| - 1]] else rest
  }

  function Shares(s: seq<string>, assign: string -> int, count: nat): (bins: seq<seq<string>>)
    ensures |bins| == count
    ensures forall b | 0 <= b < count :: bins[b] == Share(s, assign, b)
  {
    seq(count, b => Share(s, assign, b))
  }

  ghost predicate Assigns(assign: string -> int, names: seq<string>, count: nat) {
    forall n | n in names :: 0 <= assign(n) < count
  }

  /** No shard of the assignment weighs more than `most`. */
  ghost predicate Within(names: seq<string>, assign: string -> int, count: nat, weights: Weights, most: real) {
    && Assigns(assign, names, count)
    && forall b | 0 <= b < count :: Load(Share(names, assign, b), WeightOf(weights)) <= most
  }

  lemma {:induction false} SharesLoads(s: seq<string>, assign: string -> int, count: nat, g: string -> real)
    requires Assigns(assign, s, count)
    ensures SumLoads(Shares(s, assign, count), g) == Load(s, g)
  {
    if s == [] {
      SumLoadsEmpty(Shares(s, assign, count), g);
    } else {
      var n := |s| - 1;
      SharesLoads(s[..n], assign, count, g);
      var before, b := Shares(s[..n], assign, count), assign(s[n]);
      assert s[n] in s;
      assert Shares(s, assign, count) == before[b := before[b] + [s[n]]];
      SumLoadsUpdate(before, b, s[n], g);
    }
  }

  lemma {:induction false} ShareElements(s: seq<string>, assign: string -> int, b: int)
    ensures forall x | x in Share(s, assign, b) :: x in s
  {
    if s != [] {
      ShareElements(s[..|s| - 1], assign, b);
      assert forall x | x in s[..|s| - 1] :: x in s;
    }
  }

  lemma {:induction false} ShareAppend(s: seq<string>, t: seq<string>, assign: string -> int, b: int)
    ensures Share(s + t, assign, b) == Share(s, assign, b) + Share(t, assign, b)
  {
    if t == [] {
      assert s + t == s;
    } else {
      var n := |t| - 1;
      assert (s + t)[..|s| + n] == s + t[..n];
      ShareAppend(s, t[..n], assign, b);
    }
  }

  lemma {:induction false} ShareMultiset(s: seq<string>, assign: string -> int, b: int, x: string)
    ensures multiset(Share(s, assign, b))[x] == if assign(x) == b then multiset(s)[x] else 0
  {
    if s != [] {
      var n := |s| - 1;
      ShareMultiset(s[..n], assign, b, x);
      assert s == s[..n] + [s[n]];
    }
  }

  /** The loads of an assignment depend only on which families there are. */
  lemma WithinOfMultiset(s: seq<string>, t: seq<string>, assign: string -> int, count: nat, weights: Weights,
                         most: real)
    requires multiset(s) == multiset(t) && Within(s, assign, count, weights, most)
    ensures Within(t, assign, count, weights, most)
  {
    SameElements(s, t);
    forall b | 0 <= b < count ensures Load(Share(t, assign, b), WeightOf(weights)) <= most {
      forall x ensures multiset(Share(s, assign, b))[x] == multiset(Share(t, assign, b))[x] {
        ShareMultiset(s, assign, b, x);
        ShareMultiset(t, assign, b, x);
      }
      assert multiset(Share(s, assign, b)) == multiset(Share(t, assign, b));
      LoadOfMultiset(Share(s, assign, b), Share(t, assign, b), WeightOf(weights));
    }
  }

  lemma {:induction false} LoadNonNegative(s: seq<string>, weights: Weights)
    requires PositiveWeights(weights)
    ensures Load(s, WeightOf(weights)) >= 0.0
  {
    if s != [] { LoadNonNegative(s[..|s| - 1], weights); }
  }

  /** Dropping the families after a prefix keeps the assignment within its bound. */
  lemma WithinPrefix(s: seq<string>, k: nat, assign: string -> int, count: nat, weights: Weights, most: real)
    requires k <= |s| && PositiveWeights(weights) && Within(s, assign, count, weights, most)
    ensures Within(s[..k], assign, count, weights, most)
  {
    assert forall n | n in s[..k] :: n in s;
    forall b | 0 <= b < count ensures Load(Share(s[..k], assign, b), WeightOf(weights)) <= most {
      assert s == s[..k] + s[k..];
      ShareAppend(s[..k], s[k..], assign, b);
      LoadAppend(Share(s[..k], assign, b), Share(s[k..], assign, b), WeightOf(weights));
      LoadNonNegative(Share(s[k..], assign, b), weights);
    }
  }

  // ----- the totals of the greedy plan -----

  lemma {:induction false} GreedyTotals(order: seq<string>, count: nat, weights: Weights)
    requires count > 0
    ensures forall i | 0 <= i < count ::
      Greedy(order, count, weights).totals[i] == Load(Greedy(order, count, weights).bins[i], WeightOf(weights))
  {
    if order != [] {
      var n := |order| - 1;
      GreedyTotals(order[..n], count, weights);
      var plan := Greedy(order[..n], count, weights);
      var index := Lightest(plan.totals);
      LoadAppend(plan.bins[index], [order[n]], WeightOf(weights));
    }
  }

  lemma {:induction false} GreedyLoads(order: seq<string>, count: nat, weights: Weights, g: string -> real)
    requires count > 0
    ensures SumLoads(Greedy(order, count, weights).bins, g) == Load(order, g)
  {
    if order == [] {
      SumLoadsEmpty(EmptyPlan(count).bins, g);
    } else {
      var n := |order| - 1;
      GreedyLoads(order[..n], count, weights, g);
      var plan := Greedy(order[..n], count, weights);
      SumLoadsUpdate(plan.bins, Lightest(plan.totals), order[n], g);
    }
  }

  /** The last family placed in bin i went there while bin i was the lightest. */
  lemma {:induction false} LastPlaced(order: seq<string>, count: nat, weights: Weights, i: nat) returns (k: nat)
    requires count > 0 && i < count
    requires Greedy(order, count, weights).bins[i] != []
    ensures k < |order|
    ensures Lightest(Greedy(order[..k], count, weights).totals) == i
    ensures Greedy(order, count, weights).totals[i] ==
            Greedy(order[..k], count, weights).totals[i] + Weight(weights, order[k])
  {
    var n := |order| - 1;
    var plan := Greedy(order[..n], count, weights);
    if Lightest(plan.totals) == i {
      k := n;
    } else {
      k := LastPlaced(order[..n], count, weights, i);
      assert order[..n][..k] == order[..k];
    }
  }

  lemma {:induction false} TotalsGrow(order: seq<string>, k: nat, count: nat, weights: Weights)
    requires count > 0 && k <= |order| && PositiveWeights(weights)
    ensures forall i | 0 <= i < count ::
      Greedy(order[..k], count, weights).totals[i] <= Greedy(order, count, weights).totals[i]
  {
    if k == |order| {
      assert order[..k] == order;
    } else {
      var n := |order| - 1;
      assert order[..n][..k] == order[..k];
      TotalsGrow(order[..n], k, count, weights);
    }
  }

  /** Any two totals differ by at most the weight of one family. */
  lemma GreedyBalanced(order: seq<string>, count: nat, weights: Weights, heaviest: real, i: nat, j: nat)
    requires count > 0 && i < count && j < count && PositiveWeights(weights)
    requires heaviest >= 0.0 && forall n | n in order :: Weight(weights, n) <= heaviest
    ensures Greedy(order, count, weights).totals[i] <= Greedy(order, count, weights).totals[j] + heaviest
  {
    GreedyOpensBins(order, count, weights);
    if Greedy(order, count, weights).bins[i] != [] {
      var k := LastPlaced(order, count, weights, i);
      assert order[k] in order;
      TotalsGrow(order, k, count, weights);
    }
  }

  // ----- the four-thirds bound -----

  /** A family alone in its greedy bin is charged double. */
  ghost function Charge(bins: seq<seq<string>>): string -> real {
    x => if [x] in bins then 2.0 else 1.0
  }

  lemma {:induction false} LoadAtLeast(s: seq<string>, g: string -> real, least: real, m: real)
    requires forall x | x in s :: g(x) >= least
    requires m == |s| as real
    ensures Load(s, g) >= m * least
  {
    if s != [] {
      var n := |s| - 1;
      assert forall x | x in s[..n] :: x in s;
      LoadAtLeast(s[..n], g, least, m - 1.0);
      assert s[n] in s;
      assert m * least == (m - 1.0) * least + least;
    } else {
      assert m == 0.0;
    }
  }

  lemma LoadSingle(x: string, g: string -> real)
    ensures Load([x], g) == g(x)
  {
    assert [x][..0] == [];
  }

  lemma LoadPair(x: string, y: string, g: string -> real)
    ensures Load([x, y], g) == g(x) + g(y)
  {
    assert [x, y][..1] == [x];
    LoadSingle(x, g);
  }

  /** Every nonempty bin carries a charge of at least two. */
  lemma NonemptyBinCharge(bins: seq<seq<string>>, b: nat)
    requires b < |bins| && bins[b] != []
    ensures Load(bins[b], Charge(bins)) >= 2.0
  {
    if |bins[b]| == 1 {
      LoadSingle(bins[b][0], Charge(bins));
      assert bins[b] == [bins[b][0]];
    } else {
      LoadAtLeast(bins[b], Charge(bins), 1.0, |bins[b]| as real);
    }
  }

  lemma TwoAtMost(n: real, least: real, most: real)
    requires least > 0.0 && n * least <= most < 3.0 * least
    ensures n < 3.0
  {
    assert (n - 3.0) * least < 0.0;
  }

  /** In an assignment within `most`, whose families each weigh over a third of
      `most`, and where a family alone in a greedy bin leaves no room for
      another, no shard is charged more than two. */
  lemma ShareCharge(share: seq<string>, bins: seq<seq<string>>, weights: Weights, least: real, most: real)
    requires least > 0.0 && 3.0 * least > most && Load(share, WeightOf(weights)) <= most
    requires forall x | x in share :: Weight(weights, x) >= least
    requires forall x | [x] in bins :: Weight(weights, x) + least > most
    ensures Load(share, Charge(bins)) <= 2.0
  {
    var w := WeightOf(weights);
    LoadAtLeast(share, w, least, |share| as real);
    if |share| == 1 {
      LoadSingle(share[0], Charge(bins));
      assert share == [share[0]];
    } else if |share| != 0 {
      assert |share| == 2 by {
        TwoAtMost(|share| as real, least, most);
      }
      var x, y := share[0], share[1];
      assert share == [x, y];
      assert x in share && y in share;
      LoadPair(x, y, w);
      LoadPair(x, y, Charge(bins));
    }
  }

  /** If every greedy bin is open, the families placed are charged two a bin. */
  lemma GreedyCharge(order: seq<string>, count: nat, weights: Weights)
    requires count > 0
    requires forall b | 0 <= b < count :: Greedy(order, count, weights).bins[b] != []
    ensures Load(order, Charge(Greedy(order, count, weights).bins)) >= 2.0 * count as real
  {
    var bins := Greedy(order, count, weights).bins;
    forall b | 0 <= b < count ensures Load(bins[b], Charge(bins)) >= 2.0 {
      NonemptyBinCharge(bins, b);
    }
    SumAtLeast(bins, Charge(bins), 2.0, count as real);
    GreedyLoads(order, count, weights, Charge(bins));
  }

  /** An assignment within `most` pays for at most two a shard. */
  lemma AssignmentCharge(placed: seq<string>, bins: seq<seq<string>>, count: nat, weights: Weights,
                         assign: string -> int, least: real, most: real)
    requires least > 0.0 && 3.0 * least > most
    requires Within(placed, assign, count, weights, most)
    requires forall x | x in placed :: Weight(weights, x) >= least
    requires forall x | [x] in bins :: Weight(weights, x) + least > most
    ensures Load(placed, Charge(bins)) <= 2.0 * count as real
  {
    forall b | 0 <= b < count ensures Load(Share(placed, assign, b), Charge(bins)) <= 2.0 {
      ShareElements(placed, assign, b);
      ShareCharge(Share(placed, assign, b), bins, weights, least, most);
    }
    TotalAtMost(placed, assign, count, Charge(bins), 2.0, count as real);
  }

  /** When no share exceeds `most`, the families come to at most `most` a shard. */
  lemma TotalAtMost(s: seq<string>, assign: string -> int, count: nat, g: string -> real, most: real, m: real)
    requires Assigns(assign, s, count) && m == count as real
    requires forall b | 0 <= b < count :: Load(Share(s, assign, b), g) <= most
    ensures Load(s, g) <= m * most
  {
    SharesLoads(s, assign, count, g);
    SumAtMost(Shares(s, assign, count), g, most, m);
  }

  /** When the next family weighs over a third of `most`, placing it greedily
      stays within `most`: otherwise the charges would exceed two a shard. */
  lemma HeavyFamilyFits(order: seq<string>, last: string, count: nat, weights: Weights, assign: string -> int,
                        most: real)
    requires count > 0 && PositiveWeights(weights)
    requires forall n | n in order :: Weight(weights, n) >= Weight(weights, last)
    requires Within(order + [last], assign, count, weights, most)
    requires 3.0 * Weight(weights, last) > most
    ensures Greedy(order, count, weights).totals[Lightest(Greedy(order, count, weights).totals)] +
            Weight(weights, last) <= most
  {
    var plan, least := Greedy(order, count, weights), Weight(weights, last);
    GreedyTotals(order, count, weights);
    LastFits(order + [last], assign, count, weights, most);
    if plan.totals[Lightest(plan.totals)] + least > most {
      forall b | 0 <= b < count ensures plan.bins[b] != [] {
        assert plan.totals[b] > 0.0;
      }
      GreedyCharge(order, count, weights);
      LoadAppend(order, [last], Charge(plan.bins));
      LoadSingle(last, Charge(plan.bins));
      forall x | [x] in plan.bins ensures Weight(weights, x) + least > most {
        var b :| 0 <= b < count && plan.bins[b] == [x];
        LoadSingle(x, WeightOf(weights));
      }
      AssignmentCharge(order + [last], plan.bins, count, weights, assign, least, most);
      assert false;
    }
  }

  /** The last family of an assignment is no heavier than the bound. */
  lemma LastFits(placed: seq<string>, assign: string -> int, count: nat, weights: Weights, most: real)
    requires placed != [] && PositiveWeights(weights) && Within(placed, assign, count, weights, most)
    ensures Weight(weights, placed[|placed| - 1]) <= most
  {
    var n := |placed| - 1;
    assert placed[n] in placed;
    var b := assign(placed[n]);
    LoadNonNegative(Share(placed[..n], assign, b), weights);
    LoadAppend(Share(placed[..n], assign, b), [placed[n]], WeightOf(weights));
    LoadSingle(placed[n], WeightOf(weights));
    assert Load(Share(placed, assign, b), WeightOf(weights)) <= most;
  }

  /** Graham's averaging step: a bin that was lightest when it took its last
      family weighs at most the mean plus that family's share of the excess. */
  lemma AveragingBound(order: seq<string>, k: nat, count: nat, weights: Weights,
                       m: real, before: real, total: real, last: real)
    requires count > 0 && k < |order| && PositiveWeights(weights) && m == count as real
    requires forall i | 0 <= i < count :: before <= Greedy(order[..k], count, weights).totals[i]
    requires last == Weight(weights, order[k]) && total == before + last
    ensures m * total <= Load(order, WeightOf(weights)) + (m - 1.0) * last
  {
    var w := WeightOf(weights);
    GreedyTotals(order[..k], count, weights);
    SumAtLeast(Greedy(order[..k], count, weights).bins, w, before, m);
    GreedyLoads(order[..k], count, weights, w);
    PrefixLoad(order, k, weights);
    AveragingArithmetic(m, before, total, last, Load(order[..k], w), Load(order, w));
  }

  lemma PrefixLoad(order: seq<string>, k: nat, weights: Weights)
    requires k < |order| && PositiveWeights(weights)
    ensures Load(order[..k], WeightOf(weights)) + Weight(weights, order[k]) <= Load(order, WeightOf(weights))
  {
    var w := WeightOf(weights);
    assert order == order[..k] + [order[k]] + order[k + 1..];
    LoadAppend(order[..k], [order[k]], w);
    LoadAppend(order[..k] + [order[k]], order[k + 1..], w);
    LoadSingle(order[k], w);
    LoadNonNegative(order[k + 1..], weights);
  }

  lemma AveragingArithmetic(m: real, before: real, total: real, last: real, placed: real, all: real)
    requires total == before + last && m * before <= placed && placed + last <= all
    ensures m * total <= all + (m - 1.0) * last
  {
    assert m * total == m * before + m * last;
    assert (m - 1.0) * last == m * last - last;
  }

  /** A total within 4/3 - 1/(3m) of the bound, with the fractions cleared. */
  predicate FourThirds(m: real, total: real, most: real) {
    3.0 * m * total <= (4.0 * m - 1.0) * most
  }

  lemma EmptyWithin(m: real, most: real)
    requires m >= 1.0 && most >= 0.0
    ensures FourThirds(m, 0.0, most)
  {
    assert (4.0 * m - 1.0) * most >= 0.0;
  }

  /** Some assignment keeps within the bound, so it is not negative. */
  lemma BoundNonNegative(order: seq<string>, assign: string -> int, count: nat, weights: Weights, most: real)
    requires count > 0 && PositiveWeights(weights) && Within(order, assign, count, weights, most)
    ensures most >= 0.0
  {
    LoadNonNegative(Share(order, assign, 0), weights);
  }

  lemma FourThirdsArithmetic(m: real, total: real, last: real, all: real, most: real)
    requires m >= 1.0 && most >= 0.0
    requires m * total <= all + (m - 1.0) * last && all <= m * most
    requires 3.0 * last <= most || total <= most
    ensures FourThirds(m, total, most)
  {
    if 3.0 * last <= most {
      assert (m - 1.0) * (3.0 * last) <= (m - 1.0) * most;
    } else {
      assert 3.0 * m * total <= 3.0 * m * most;
      assert (m - 1.0) * most >= 0.0;
    }
  }

  /** The bound for a bin whose last family is order[k]. */
  lemma FourThirdsAt(order: seq<string>, k: nat, count: nat, weights: Weights, assign: string -> int, most: real,
                     m: real, total: real, last: real)
    requires count > 0 && k < |order| && PositiveWeights(weights) && m == count as real && most >= 0.0
    requires SortedBy(HeavierFirst(weights), order)
    requires Within(order, assign, count, weights, most)
    requires var totals := Greedy(order[..k], count, weights).totals; total - last == totals[Lightest(totals)]
    requires last == Weight(weights, order[k])
    ensures FourThirds(m, total, most)
  {
    AveragingBound(order, k, count, weights, m, total - last, total, last);
    TotalAtMost(order, assign, count, WeightOf(weights), most, m);
    if 3.0 * last > most {
      HeavyLastFits(order, k, count, weights, assign, most);
    }
    FourThirdsArithmetic(m, total, last, Load(order, WeightOf(weights)), most);
  }

  lemma HeavyLastFits(order: seq<string>, k: nat, count: nat, weights: Weights, assign: string -> int, most: real)
    requires count > 0 && k < |order| && PositiveWeights(weights)
    requires SortedBy(HeavierFirst(weights), order)
    requires Within(order, assign, count, weights, most)
    requires 3.0 * Weight(weights, order[k]) > most
    ensures Greedy(order[..k], count, weights).totals[Lightest(Greedy(order[..k], count, weights).totals)] +
            Weight(weights, order[k]) <= most
  {
    forall n | n in order[..k] ensures Weight(weights, n) >= Weight(weights, order[k]) {
      var j :| 0 <= j < k && order[j] == n;
      assert HeavierFirst(weights)(order[j], order[k]);
    }
    WithinPrefix(order, k + 1, assign, count, weights, most);
    assert order[..k + 1] == order[..k] + [order[k]];
    HeavyFamilyFits(order[..k], order[k], count, weights, assign, most);
  }

  lemma GreedyFourThirds(
    order: seq<string>, count: nat, weights: Weights, assign: string -> int, most: real, i: nat, m: real, total: real)
    requires count > 0 && i < count && PositiveWeights(weights) && m == count as real
    requires SortedBy(HeavierFirst(weights), order)
    requires Within(order, assign, count, weights, most)
    requires total == Greedy(order, count, weights).totals[i]
    ensures FourThirds(m, total, most)
  {
    BoundNonNegative(order, assign, count, weights, most);
    if Greedy(order, count, weights).bins[i] == [] {
      EmptyBinTotal(order, count, weights, i);
      EmptyWithin(m, most);
    } else {
      LastFourThirds(order, count, weights, assign, most, i, m, total);
    }
  }

  lemma EmptyBinTotal(order: seq<string>, count: nat, weights: Weights, i: nat)
    requires count > 0 && i < count && Greedy(order, count, weights).bins[i] == []
    ensures Greedy(order, count, weights).totals[i] == 0.0
  {
    GreedyTotals(order, count, weights);
  }

  lemma LastFourThirds(
    order: seq<string>, count: nat, weights: Weights, assign: string -> int, most: real, i: nat, m: real, total: real)
    requires count > 0 && i < count && PositiveWeights(weights) && m == count as real && most >= 0.0
    requires SortedBy(HeavierFirst(weights), order)
    requires Within(order, assign, count, weights, most)
    requires Greedy(order, count, weights).bins[i] != [] && total == Greedy(order, count, weights).totals[i]
    ensures FourThirds(m, total, most)
  {
    var k := LastPlaced(order, count, weights, i);
    FourThirdsAt(order, k, count, weights, assign, most, m, total, Weight(weights, order[k]));
  }

  lemma {:induction false} LoadAgrees(s: seq<string>, g: string -> real, h: string -> real)
    requires forall n :: g(n) == h(n)
    ensures Load(s, g) == Load(s, h)
  {
    if s != [] { LoadAgrees(s[..|s| - 1], g, h); }
  }

  /** The planner's fullest shard against any other way to share the families
      out: if some assignment keeps every shard within `most`, the planner
      keeps every shard within (4/3 - 1/(3*count)) * most. A family weighs its
      recorded seconds, or one second when none are recorded. */
  lemma PlannerFourThirds(names: seq<string>, count: nat, weights: map<string, real>, g: string -> real,
                          assign: string -> int, most: real, i: nat, m: real)
    requires forall n :: g(n) == if n in weights then weights[n] else 1.0
    requires count > 0 && i < count && m == count as real && forall n | n in weights :: weights[n] > 0.0
    requires forall n | n in names :: 0 <= assign(n) < count
    requires forall b | 0 <= b < count :: Load(Share(names, assign, b), g) <= most
    ensures Load(Assignment(names, count, weights)[i], g) <= (4.0 / 3.0 - 1.0 / (3.0 * m)) * most
  {
    forall s ensures Load(s, g) == Load(s, WeightOf(weights)) { LoadAgrees(s, g, WeightOf(weights)); }
    RecordedFourThirds(names, count, weights, assign, most, i, m);
  }

  lemma RecordedFourThirds(
    names: seq<string>, count: nat, weights: Weights, assign: string -> int, most: real, i: nat, m: real)
    requires count > 0 && i < count && PositiveWeights(weights) && m == count as real
    requires Within(names, assign, count, weights, most)
    ensures Load(Assignment(names, count, weights)[i], WeightOf(weights)) <= (4.0 / 3.0 - 1.0 / (3.0 * m)) * most
  {
    var total := Load(Assignment(names, count, weights)[i], WeightOf(weights));
    PlannerFourThirdsScaled(names, count, weights, assign, most, i, m, total);
    Divide(m, total, most);
  }

  lemma PlannerFourThirdsScaled(
    names: seq<string>, count: nat, weights: Weights, assign: string -> int, most: real, i: nat, m: real, total: real)
    requires count > 0 && i < count && PositiveWeights(weights) && m == count as real
    requires Within(names, assign, count, weights, most)
    requires total == Load(Assignment(names, count, weights)[i], WeightOf(weights))
    ensures FourThirds(m, total, most)
  {
    var order := Sort(HeavierFirst(weights), names);
    assert SortedBy(HeavierFirst(weights), order) by {
      HeavierFirstIsTotalOrder(weights);
      SortSorts(HeavierFirst(weights), names);
    }
    WithinOfMultiset(names, order, assign, count, weights, most);
    AssignmentLoad(names, count, weights, i);
    GreedyFourThirds(order, count, weights, assign, most, i, m, total);
  }

  lemma Divide(m: real, total: real, most: real)
    requires m >= 1.0 && FourThirds(m, total, most)
    ensures total <= (4.0 / 3.0 - 1.0 / (3.0 * m)) * most
  {
    var d := 3.0 * m;
    assert (4.0 / 3.0 - 1.0 / d) * d == 4.0 * m - 1.0 by {
      assert 1.0 / d * d == 1.0;
    }
    var bound := (4.0 / 3.0 - 1.0 / d) * most;
    assert d * bound == (4.0 * m - 1.0) * most;
    if total > bound {
      assert d * (total - bound) > 0.0;
    }
  }

  /** A shard's load is its greedy total: sorting a bin keeps its families. */
  lemma AssignmentLoad(names: seq<string>, count: nat, weights: Weights, i: nat)
    requires count > 0 && i < count
    ensures Load(Assignment(names, count, weights)[i], WeightOf(weights)) ==
            Greedy(Sort(HeavierFirst(weights), names), count, weights).totals[i]
  {
    var order := Sort(HeavierFirst(weights), names);
    GreedyTotals(order, count, weights);
    LoadOfMultiset(Assignment(names, count, weights)[i], Greedy(order, count, weights).bins[i], WeightOf(weights));
  }

  /** Any two shards differ by at most one family's weight. */
  lemma PlannerBalanced(names: seq<string>, count: nat, weights: map<string, real>, g: string -> real,
                        heaviest: real, i: nat, j: nat)
    requires forall n :: g(n) == if n in weights then weights[n] else 1.0
    requires count > 0 && i < count && j < count && forall n | n in weights :: weights[n] > 0.0
    requires heaviest >= 0.0 && forall n | n in names :: g(n) <= heaviest
    ensures Load(Assignment(names, count, weights)[i], g) <= Load(Assignment(names, count, weights)[j], g) + heaviest
  {
    var order := Sort(HeavierFirst(weights), names);
    SameElements(order, names);
    GreedyBalanced(order, count, weights, heaviest, i, j);
    AssignmentLoad(names, count, weights, i);
    AssignmentLoad(names, count, weights, j);
    forall s ensures Load(s, g) == Load(s, WeightOf(weights)) { LoadAgrees(s, g, WeightOf(weights)); }
  }
}
