/** The greedy shard planner: families are placed heaviest first, each into the
    lightest bin. Weights and totals are exact reals. */
module Partition {
  import opened Outcomes
  import opened Sorting

  type Weights = map<string, real>

  /** A family with no recorded weight counts as one second. */
  function Weight(weights: Weights, name: string): real {
    if name in weights then weights[name] else 1.0
  }

  function WeightOf(weights: Weights): string -> real {
    name => Weight(weights, name)
  }

  predicate PositiveWeights(weights: Weights) {
    forall k | k in weights :: weights[k] > 0.0
  }

  /** The sort key (-weight, name). */
  function HeavierFirst(weights: Weights): (string, string) -> bool {
    (a, b) => Weight(weights, a) > Weight(weights, b) || (Weight(weights, a) == Weight(weights, b) && LexLe(a, b))
  }

  lemma HeavierFirstIsTotalOrder(weights: Weights)
    ensures TotalOrder(HeavierFirst(weights))
  {
    LexIsTotalOrder();
  }

  // ----- specification -----

  datatype Plan = Plan(bins: seq<seq<string>>, totals: seq<real>)

  /** The first index of the least total. */
  function Lightest(totals: seq<real>): (index: nat)
    requires |totals| > 0
    ensures index < |totals|
    ensures forall i | 0 <= i < |totals| :: totals[index] <= totals[i]
    ensures forall i | 0 <= i < index :: totals[index] < totals[i]
  {
    if |totals| == 1 then 0
    else
      var best := Lightest(totals[..|totals| - 1]);
      if totals[|totals| - 1] < totals[best] then |totals| - 1 else best
  }

  function Place(plan: Plan, name: string, weight: real): Plan
    requires 0 < |plan.bins| == |plan.totals|
  {
    var i := Lightest(plan.totals);
    Plan(plan.bins[i := plan.bins[i] + [name]], plan.totals[i := plan.totals[i] + weight])
  }

  function EmptyPlan(count: nat): (plan: Plan)
    ensures |plan.bins| == |plan.totals| == count
    ensures forall i | 0 <= i < count :: plan.bins[i] == [] && plan.totals[i] == 0.0
  {
    Plan(seq(count, _ => []), seq(count, _ => 0.0))
  }

  /** The plan after placing `order`, front to back. */
  function Greedy(order: seq<string>, count: nat, weights: Weights): (plan: Plan)
    requires count > 0
    ensures |plan.bins| == |plan.totals| == count
  {
    if order == [] then EmptyPlan(count)
    else
      var last := order[|order| - 1];
      Place(Greedy(order[..|order| - 1], count, weights), last, Weight(weights, last))
  }

  function Flatten(bins: seq<seq<string>>): seq<string> {
    if bins == [] then [] else Flatten(bins[..|bins| - 1]) + bins[|bins| - 1]
  }

  /** Every bin is used and the bins cover each family exactly once. */
  predicate ValidPartition(names: seq<string>, bins: seq<seq<string>>) {
    && (forall i | 0 <= i < |bins| :: bins[i] != [])
    && multiset(Flatten(bins)) == multiset(names)
  }

  function SortEach(bins: seq<seq<string>>): (r: seq<seq<string>>)
    ensures |r| == |bins|
    ensures forall i | 0 <= i < |bins| :: r[i] == Sort(LexLe, bins[i])
  {
    seq(|bins|, i requires 0 <= i < |bins| => Sort(LexLe, bins[i]))
  }

  /** The bins handed to the shards. */
  function Assignment(names: seq<string>, count: nat, weights: Weights): (bins: seq<seq<string>>)
    requires count > 0
    ensures |bins| == count
  {
    SortEach(Greedy(Sort(HeavierFirst(weights), names), count, weights).bins)
  }

  /** The inputs that are given a partition. */
  predicate Partitionable(names: seq<string>, count: int, weights: Weights) {
    && 0 < count <= |names|
    && Distinct(names)
    && PositiveWeights(weights)
  }

  // ----- the greedy plan covers the families, and fills every bin it can -----

  lemma {:induction false} FlattenUpdate(bins: seq<seq<string>>, i: nat, name: string)
    requires i < |bins|
    ensures multiset(Flatten(bins[i := bins[i] + [name]])) == multiset(Flatten(bins)) + multiset{name}
  {
    var next := bins[i := bins[i] + [name]];
    var n := |bins| - 1;
    if i == n {
      assert next[..n] == bins[..n];
    } else {
      assert next[..n] == bins[..n][i := bins[..n][i] + [name]];
      FlattenUpdate(bins[..n], i, name);
    }
  }

  lemma {:induction false} FlattenEmpty(bins: seq<seq<string>>)
    requires forall i | 0 <= i < |bins| :: bins[i] == []
    ensures Flatten(bins) == []
  {
    if bins != [] { FlattenEmpty(bins[..|bins| - 1]); }
  }

  lemma {:induction false} GreedyCovers(order: seq<string>, count: nat, weights: Weights)
    requires count > 0
    ensures multiset(Flatten(Greedy(order, count, weights).bins)) == multiset(order)
  {
    if order == [] {
      FlattenEmpty(Greedy(order, count, weights).bins);
    } else {
      var n := |order| - 1;
      GreedyCovers(order[..n], count, weights);
      assert order == order[..n] + [order[n]];
      var plan := Greedy(order[..n], count, weights);
      FlattenUpdate(plan.bins, Lightest(plan.totals), order[n]);
    }
  }

  /** The first `count` families open one bin each, in bin order; totals are
      positive exactly on the open bins. */
  lemma {:induction false} GreedyOpensBins(order: seq<string>, count: nat, weights: Weights)
    requires count > 0 && PositiveWeights(weights)
    ensures forall i | 0 <= i < count :: (Greedy(order, count, weights).bins[i] != []) == (i < |order|)
    ensures forall i | 0 <= i < count :: Greedy(order, count, weights).totals[i] >= 0.0
    ensures forall i | 0 <= i < count :: (Greedy(order, count, weights).totals[i] > 0.0) == (i < |order|)
  {
    if order != [] {
      var n := |order| - 1;
      GreedyOpensBins(order[..n], count, weights);
      var plan := Greedy(order[..n], count, weights);
      var index := Lightest(plan.totals);
      var next := Greedy(order, count, weights);
      assert index == n || n >= count by {
        if n < count { assert plan.totals[n] == 0.0; }
      }
      assert next.totals[index] > 0.0 && next.bins[index] != [];
      assert forall i | 0 <= i < count && i != index ::
             next.bins[i] == plan.bins[i] && next.totals[i] == plan.totals[i];
    }
  }

  lemma {:induction false} FlattenSortEach(bins: seq<seq<string>>)
    ensures multiset(Flatten(SortEach(bins))) == multiset(Flatten(bins))
  {
    if bins != [] {
      var n := |bins| - 1;
      FlattenSortEach(bins[..n]);
      var r := SortEach(bins);
      assert r[..n] == SortEach(bins[..n]);
      assert Flatten(r) == Flatten(r[..n]) + r[n];
      assert multiset(r[n]) == multiset(bins[n]);
    }
  }

  lemma ValidSortEach(names: seq<string>, bins: seq<seq<string>>)
    ensures ValidPartition(names, SortEach(bins)) <==> ValidPartition(names, bins)
  {
    FlattenSortEach(bins);
    forall i | 0 <= i < |bins| ensures bins[i] == [] <==> SortEach(bins)[i] == [] {
      assert |SortEach(bins)[i]| == |bins[i]|;
    }
  }

  /** The assignment covers the families exactly once; a shard stays empty
      exactly when there are more shards than families, so the closing check
      of the planner fails only then. */
  lemma AssignmentValid(names: seq<string>, count: nat, weights: Weights)
    requires count > 0 && PositiveWeights(weights)
    ensures multiset(Flatten(Assignment(names, count, weights))) == multiset(names)
    ensures ValidPartition(names, Assignment(names, count, weights)) <==> count <= |names|
  {
    var order := Sort(HeavierFirst(weights), names);
    var plan := Greedy(order, count, weights);
    var bins := Assignment(names, count, weights);
    GreedyCovers(order, count, weights);
    GreedyOpensBins(order, count, weights);
    FlattenSortEach(plan.bins);
    ValidSortEach(names, plan.bins);
    if count > |names| { assert plan.bins[count - 1] == []; }
  }

  lemma {:induction false} FlattenMultiplicity(bins: seq<seq<string>>, i: nat, j: nat, x: string)
    requires i < j < |bins|
    ensures multiset(Flatten(bins))[x] >= multiset(bins[i])[x] + multiset(bins[j])[x]
  {
    var last := |bins| - 1;
    if j < last {
      FlattenMultiplicity(bins[..last], i, j, x);
    } else {
      FlattenHolds(bins[..last], i, x);
    }
  }

  lemma {:induction false} FlattenHolds(bins: seq<seq<string>>, i: nat, x: string)
    requires i < |bins|
    ensures multiset(Flatten(bins))[x] >= multiset(bins[i])[x]
  {
    var last := |bins| - 1;
    if i < last { FlattenHolds(bins[..last], i, x); }
  }

  /** Two bins of a partition of distinct families share none. */
  lemma BinsDisjoint(names: seq<string>, bins: seq<seq<string>>, i: nat, j: nat, x: string)
    requires Distinct(names) && ValidPartition(names, bins)
    requires i < |bins| && j < |bins| && x in bins[i] && x in bins[j]
    ensures i == j
  {
    DistinctIsMultiplicity(names);
    if i != j {
      FlattenMultiplicity(bins, if i < j then i else j, if i < j then j else i, x);
      assert false;
    }
  }

  /** The planner puts family x in bin i. */
  predicate Assigned(names: seq<string>, count: nat, weights: Weights, i: nat, x: string) {
    Partitionable(names, count, weights) && i < count && x in Assignment(names, count, weights)[i]
  }

  /** A family belongs to one shard. */
  lemma AssignmentDisjoint(names: seq<string>, count: nat, weights: Weights, i: nat, j: nat, x: string)
    requires Assigned(names, count, weights, i, x) && Assigned(names, count, weights, j, x)
    ensures i == j
  {
    AssignmentValid(names, count, weights);
    BinsDisjoint(names, Assignment(names, count, weights), i, j, x);
  }

  // ----- the planner -----

  method PlaceAll(order: seq<string>, count: nat, weights: Weights) returns (bins: seq<seq<string>>)
    requires count > 0
    ensures bins == Greedy(order, count, weights).bins
  {
    var totals := EmptyPlan(count).totals;
    bins := EmptyPlan(count).bins;
    for k := 0 to |order|
      invariant |bins| == |totals| == count
      invariant Plan(bins, totals) == Greedy(order[..k], count, weights)
    {
      assert order[..k + 1][..k] == order[..k];
      var name := order[k];
      var index := Lightest(totals);
      bins := bins[index := bins[index] + [name]];
      totals := totals[index := totals[index] + Weight(weights, name)];
    }
    assert order[..|order|] == order;
  }

  method PartitionFamilies(names: seq<string>, count: int, weights: Weights)
    returns (result: Result<seq<seq<string>>>)
    ensures result == if Partitionable(names, count, weights)
                      then Accepted(Assignment(names, count, weights)) else Rejected
    ensures result.Accepted? <==>
            && 0 < count <= |names| && (forall i, j | 0 <= i < j < |names| :: names[i] != names[j])
            && forall n | n in weights :: weights[n] > 0.0
  {
    if count <= 0 || names == [] || !Distinct(names) || !PositiveWeights(weights) {
      return Rejected;
    }
    var bins := PlaceAll(Sort(HeavierFirst(weights), names), count, weights);
    assert SortEach(bins) == Assignment(names, count, weights);
    AssignmentValid(names, count, weights);
    ValidSortEach(names, bins);
    if !ValidPartition(names, bins) {
      return Rejected;
    }
    return Accepted(SortEach(bins));
  }

  /** One partition for every ordering of the families, and for any two weight
      files that agree on them: entries for absent families are inert. */
  lemma AssignmentCanonical(names: seq<string>, others: seq<string>, count: nat, weights: Weights, revised: Weights)
    requires count > 0
    requires multiset(names) == multiset(others)
    requires forall n | n in names :: Weight(weights, n) == Weight(revised, n)
    ensures Assignment(names, count, weights) == Assignment(others, count, revised)
  {
    var le, le' := HeavierFirst(weights), HeavierFirst(revised);
    HeavierFirstIsTotalOrder(weights);
    HeavierFirstIsTotalOrder(revised);
    SortCanonical(le, names, others);
    var a, b := Sort(le, names), Sort(le', others);
    SortSorts(le, names);
    SortSorts(le', others);
    SameElements(a, names);
    SameElements(b, names);
    forall i, j | 0 <= i < j < |b| ensures le(b[i], b[j]) {
      assert le'(b[i], b[j]);
      assert b[i] in b && b[j] in b;
    }
    SortedUnique(le, a, b);
    GreedyCongruent(a, count, weights, revised);
  }

  lemma {:induction false} GreedyCongruent(order: seq<string>, count: nat, weights: Weights, revised: Weights)
    requires count > 0
    requires forall n | n in order :: Weight(weights, n) == Weight(revised, n)
    ensures Greedy(order, count, weights) == Greedy(order, count, revised)
  {
    if order != [] { GreedyCongruent(order[..|order| - 1], count, weights, revised); }
  }
}
