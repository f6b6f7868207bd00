/** One shard's run: what it selects, and the evidence it writes. Evidence the
    runners produce is evidence the aggregator accepts. */
module ShardRunner {
  import opened Outcomes
  import opened Partition
  import opened Accounting
  import opened Evidence
  import opened Selection
  import opened Verifier
  import Soundness = VerifierSoundness

  /** What every runner of one commit sees: the package list, the compiled
      listing of each package's families, the weights and the darwin entries. */
  datatype Universe = Universe(packages: seq<string>, listing: Inventory, weights: Weights, declared: seq<DarwinEntry>)

  const DEFAULT_INTEGRATION_COUNT := 3

  predicate Listed(u: Universe) {
    ValidPackages(u.packages) && Elements(u.packages) <= u.listing.Keys
  }

  /** The packages a kind discovers. */
  function DiscoveredPackages(u: Universe, kind: Kind): set<string>
    requires ValidPackages(u.packages)
  {
    match kind
    case Rest => Elements(u.packages) - {IntegrationPackage(u.packages)}
    case Darwin =>
      (match DarwinPackages(u.packages, u.declared) case Accepted(chosen) => chosen.Keys case Rejected => {})
    case _ => {IntegrationPackage(u.packages)}
  }

  function Discovered(u: Universe, kind: Kind): Inventory
    requires Listed(u)
  {
    map p | p in DiscoveredPackages(u, kind) && p in u.listing :: u.listing[p]
  }

  /** The partition file: the bins of an integration shard, none otherwise. */
  function PlannedBins(u: Universe, kind: Kind, n: nat): seq<seq<string>>
    requires Listed(u) && n > 0
  {
    if kind.Integration? then Assignment(u.listing[IntegrationPackage(u.packages)], n, u.weights) else []
  }

  /** What the shard executes, or a rejection. */
  function Selected(u: Universe, shard: ShardKey, n: nat): Result<Inventory>
    requires Listed(u) && n > 0
  {
    var discovered := Discovered(u, shard.kind);
    match shard.kind
    case Rest => Accepted(discovered)
    case Darwin =>
      (match DarwinPackages(u.packages, u.declared)
       case Rejected => Rejected
       case Accepted(chosen) =>
         if chosen.Keys <= discovered.Keys then DarwinFamilies(chosen, discovered) else Rejected)
    case _ => SelectedBin(u, shard.index, n)
  }

  function SelectedBin(u: Universe, index: int, n: nat): Result<Inventory>
    requires Listed(u) && n > 0
  {
    var package := IntegrationPackage(u.packages);
    if Partitionable(u.listing[package], n, u.weights) && 1 <= index <= n
    then Accepted(map[package := Assignment(u.listing[package], n, u.weights)[index - 1]])
    else Rejected
  }

  predicate ValidArguments(shard: ShardKey, integrationCount: Option<int>) {
    && shard.count > 0 && 1 <= shard.index <= shard.count
    && (integrationCount.None? || integrationCount.value > 0)
    && !shard.kind.OtherKind?
    && (shard.kind.Integration? || (shard.index == 1 && shard.count == 1))
    && (shard.kind.Integration? ==> integrationCount.None? || integrationCount.value == shard.count)
  }

  function IntegrationCount(shard: ShardKey, integrationCount: Option<int>): int {
    if shard.kind.Integration? then shard.count
    else if integrationCount.Some? then integrationCount.value
    else DEFAULT_INTEGRATION_COUNT
  }

  /** The evidence of a clean run of the shard's selection. */
  ghost predicate Produced(u: Universe, n: nat, e: ShardEvidence) {
    && Listed(u) && n > 0
    && Selected(u, ShardOf(e), n) == Accepted(e.execution.inventory)
    && e.packages == u.packages
    && e.discovered == Discovered(u, ShardOf(e).kind)
    && e.partition == PartitionFile(n, PlannedBins(u, ShardOf(e).kind, n))
    && e.execution.integrationCount == n
    && Proven(e)
  }

  ghost predicate RunAccepts(u: Universe, shard: ShardKey, integrationCount: Option<int>, events: seq<Event>) {
    && ValidArguments(shard, integrationCount) && Listed(u)
    && var n := IntegrationCount(shard, integrationCount);
       && Selected(u, shard, n).Accepted?
       && Selected(u, shard, n).value != map[]
       && CleanRun(events, Selected(u, shard, n).value)
  }

  method SelectBin(u: Universe, discovered: Inventory, index: int, n: nat)
    returns (result: Result<(seq<seq<string>>, Inventory)>)
    requires Listed(u) && discovered == Discovered(u, Integration) && 1 <= index <= n
    ensures result.Accepted? <==> SelectedBin(u, index, n).Accepted?
    ensures result.Accepted? ==> result.value == (PlannedBins(u, Integration, n), SelectedBin(u, index, n).value)
  {
    var package := IntegrationPackage(u.packages);
    var planned := PartitionFamilies(discovered[package], n, u.weights);
    if planned.Rejected? {
      return Rejected;
    }
    return Accepted((planned.value, map[package := planned.value[index - 1]]));
  }

  /** The bins written to the partition file, and the shard's selection. */
  method Select(u: Universe, shard: ShardKey, n: nat) returns (result: Result<(seq<seq<string>>, Inventory)>)
    requires Listed(u) && n > 0 && !shard.kind.OtherKind? && (shard.kind.Integration? ==> 1 <= shard.index <= n)
    ensures result.Accepted? <==> Selected(u, shard, n).Accepted?
    ensures result.Accepted? ==> result.value == (PlannedBins(u, shard.kind, n), Selected(u, shard, n).value)
  {
    var discovered := Discovered(u, shard.kind);
    match shard.kind {
      case Integration =>
        result := SelectBin(u, discovered, shard.index, n);
      case Darwin =>
        var chosen := ResolveDarwin(u.packages, u.declared);
        if chosen.Rejected? {
          return Rejected;
        }
        DarwinListed(u);
        var families := SelectFamilies(chosen.value, discovered);
        return if families.Accepted? then Accepted(([], families.value)) else Rejected;
      case _ =>
        return Accepted(([], discovered));
    }
  }

  method RunShard(u: Universe, shard: ShardKey, integrationCount: Option<int>, metadata: map<string, string>,
                  events: seq<Event>)
    returns (result: Result<ShardEvidence>)
    ensures result.Accepted? <==> RunAccepts(u, shard, integrationCount, events)
    ensures result.Accepted? ==> Produced(u, IntegrationCount(shard, integrationCount), result.value)
    ensures result.Accepted? ==>
            ShardOf(result.value) == shard && result.value.metadata == metadata && result.value.events == events
  {
    if !ValidArguments(shard, integrationCount) || !Listed(u) {
      return Rejected;
    }
    var n := IntegrationCount(shard, integrationCount);
    var chosen := Select(u, shard, n);
    if chosen.Rejected? || chosen.value.1 == map[] {
      return Rejected;
    }
    var (bins, selected) := chosen.value;
    var report := Account(events, selected);
    if report.Rejected? {
      return Rejected;
    }
    var execution := Execution(shard, n, selected, report.value);
    var discovered, partition := Discovered(u, shard.kind), PartitionFile(n, bins);
    return Accepted(ShardEvidence(execution, u.packages, discovered, partition, metadata, events));
  }

  /** Every declared darwin package is a listed one, so all are discovered. */
  lemma DarwinListed(u: Universe)
    requires Listed(u) && DarwinPackages(u.packages, u.declared).Accepted?
    ensures Discovered(u, Darwin).Keys == DarwinPackages(u.packages, u.declared).value.Keys
  {
    DarwinPackagesMeaning(u.packages, u.declared);
  }

  // ----- completeness -----

  lemma IntegrationSelects(u: Universe, n: nat, e: ShardEvidence)
    requires Produced(u, n, e) && ShardOf(e).kind.Integration?
    ensures SelectsItsShare(e, u.declared)
  {
    var package := IntegrationPackage(u.packages);
    assert e.discovered.Keys == {package};
    AssignmentValid(u.listing[package], n, u.weights);
  }

  /** Produced evidence is sound for its own kind. */
  lemma ProducedSelects(u: Universe, n: nat, e: ShardEvidence)
    requires Produced(u, n, e) && !ShardOf(e).kind.OtherKind?
    ensures SelectsItsShare(e, u.declared)
  {
    var package := IntegrationPackage(u.packages);
    match ShardOf(e).kind {
      case Integration =>
        IntegrationSelects(u, n, e);
      case Darwin => DarwinListed(u);
      case OtherKind(_) =>
      case Rest =>
        assert e.discovered.Keys == Elements(u.packages) - {package};
    }
  }

  lemma BinSelected(u: Universe, index: int, n: nat, selected: Inventory, p: string, x: string) returns (i: nat)
    requires Listed(u) && n > 0 && SelectedBin(u, index, n) == Accepted(selected)
    requires p in selected && x in selected[p]
    ensures p == IntegrationPackage(u.packages) && p in u.listing
    ensures index == i + 1 && Assigned(u.listing[p], n, u.weights, i, x)
  {
    i := index - 1;
  }

  lemma ProducedBin(u: Universe, n: nat, e: ShardEvidence)
    requires Produced(u, n, e) && ShardOf(e).kind.Integration?
    ensures SelectedBin(u, ShardOf(e).index, n) == Accepted(e.execution.inventory)
  {
  }

  lemma IntegrationSelection(u: Universe, n: nat, e: ShardEvidence, p: string, x: string) returns (i: nat)
    requires Produced(u, n, e) && ShardOf(e).kind.Integration?
    requires p in e.execution.inventory && x in e.execution.inventory[p]
    ensures p == IntegrationPackage(u.packages) && p in u.listing
    ensures ShardOf(e).index == i + 1 && Assigned(u.listing[p], n, u.weights, i, x)
  {
    ProducedBin(u, n, e);
    i := BinSelected(u, ShardOf(e).index, n, e.execution.inventory, p, x);
  }

  lemma RestSelection(u: Universe, n: nat, e: ShardEvidence)
    requires Produced(u, n, e) && ShardOf(e).kind.Rest?
    ensures IntegrationPackage(u.packages) !in e.execution.inventory
  {
  }

  /** Two different shards select no common family. */
  lemma SelectionsDisjoint(u: Universe, n: nat, e: ShardEvidence, f: ShardEvidence, p: string, x: string)
    requires Produced(u, n, e) && Produced(u, n, f)
    requires ShardOf(e).kind.Rest? || ShardOf(e).kind.Integration?
    requires ShardOf(f).kind.Rest? || ShardOf(f).kind.Integration?
    requires p in e.execution.inventory && x in e.execution.inventory[p]
    requires p in f.execution.inventory && x in f.execution.inventory[p]
    ensures ShardOf(e).kind == ShardOf(f).kind
    ensures ShardOf(e).kind.Integration? ==> ShardOf(e).index == ShardOf(f).index
  {
    if ShardOf(e).kind.Integration? && ShardOf(f).kind.Integration? {
      var i := IntegrationSelection(u, n, e, p, x);
      var j := IntegrationSelection(u, n, f, p, x);
      AssignmentDisjoint(u.listing[p], n, u.weights, i, j, x);
    } else if ShardOf(e).kind.Integration? {
      var i := IntegrationSelection(u, n, e, p, x);
      RestSelection(u, n, f);
    } else if ShardOf(f).kind.Integration? {
      var j := IntegrationSelection(u, n, f, p, x);
      RestSelection(u, n, e);
    }
  }

  lemma CasesDisjoint(u: Universe, n: nat, e: ShardEvidence, f: ShardEvidence)
    requires Produced(u, n, e) && Produced(u, n, f)
    requires ShardOf(e).kind.Rest? || ShardOf(e).kind.Integration?
    requires ShardOf(f).kind.Rest? || ShardOf(f).kind.Integration?
    requires ShardOf(e).kind != ShardOf(f).kind ||
             (ShardOf(e).kind.Integration? && ShardOf(e).index != ShardOf(f).index)
    ensures CaseKeys(e) !! CaseKeys(f)
  {
    forall key | key in CaseKeys(e) ensures key !in CaseKeys(f) {
      if key in CaseKeys(f) {
        CaseSelected(e, key);
        CaseSelected(f, key);
        SelectionsDisjoint(u, n, e, f, key.0, Root(key.1));
        assert false;
      }
    }
  }

  lemma CaseSelected(e: ShardEvidence, key: Key)
    requires Proven(e) && key in CaseKeys(e)
    ensures key.0 in e.execution.inventory && Root(key.1) in e.execution.inventory[key.0]
  {
    var c :| c in e.execution.report.cases && KeyOf(c) == key;
    assert HasOutcome(e, key, c.outcome);
    Soundness.OutcomeSelected(e, key, c.outcome);
  }

  /** The kept evidence names each shard once. */
  lemma KeptOnce(paths: seq<ShardEvidence>, e: ShardEvidence, f: ShardEvidence)
    requires AllNumbersDiffer(paths) && e in Kept(paths) && f in Kept(paths) && ShardOf(e) == ShardOf(f)
    ensures e == f
  {
    AttemptsMember(paths, ShardOf(e), e);
    assert Attempts(paths, ShardOf(e)) != [];
    GreatestKept(paths, ShardOf(e));
  }

  ghost predicate AllProduced(kept: set<ShardEvidence>, u: Universe, n: nat, env: Environment) {
    && (forall e | e in kept :: Produced(u, n, e) && Identified(e.metadata, env))
    && (forall e, f | e in kept && f in kept :: SameIdentity(e.metadata, f.metadata))
  }

  lemma ProducedSound(kept: set<ShardEvidence>, shards: ShardSet, env: Environment, u: Universe, n: nat,
                      e: ShardEvidence)
    requires n > 0 && Shards(kept) == Expected(shards, n) && AllProduced(kept, u, n, env) && e in kept
    ensures Sound(e, env, u.declared) && e.execution.integrationCount == n
    ensures ShardOf(e) in Expected(shards, n) && !ShardOf(e).kind.OtherKind?
  {
    assert ShardOf(e) in Shards(kept);
    ProducedSelects(u, n, e);
  }

  lemma ProducedAgree(kept: set<ShardEvidence>, u: Universe, n: nat, env: Environment, e: ShardEvidence,
                      f: ShardEvidence)
    requires AllProduced(kept, u, n, env) && e in kept && f in kept
    ensures Agree(e, f)
  {
  }

  lemma ProducedDisjoint(paths: seq<ShardEvidence>, shards: ShardSet, env: Environment, u: Universe, n: nat,
                         e: ShardEvidence, f: ShardEvidence)
    requires n > 0 && Shards(Kept(paths)) == Expected(shards, n) && AllProduced(Kept(paths), u, n, env)
    requires AllNumbersDiffer(paths) && e in Kept(paths) && f in Kept(paths) && e != f
    ensures CaseKeys(e) !! CaseKeys(f)
  {
    if ShardOf(e) == ShardOf(f) { KeptOnce(paths, e, f); }
    ProducedSound(Kept(paths), shards, env, u, n, e);
    ProducedSound(Kept(paths), shards, env, u, n, f);
    ExpectedDiffer(shards, n, ShardOf(e), ShardOf(f));
    CasesDisjoint(u, n, e, f);
  }

  /** Two declared shards differ in kind, or are integration shards of different index. */
  lemma ExpectedDiffer(shards: ShardSet, n: nat, a: ShardKey, b: ShardKey)
    requires a in Expected(shards, n) && b in Expected(shards, n) && a != b
    ensures (a.kind.Rest? || a.kind.Integration?) && (b.kind.Rest? || b.kind.Integration?)
    ensures a.kind != b.kind || (a.kind.Integration? && a.index != b.index)
  {
  }

  /** If all runners see one universe and one count, and every kept shard is a
      clean run of what its runner selected, verification accepts. */
  lemma RunsVerify(paths: seq<ShardEvidence>, shards: ShardSet, env: Environment, u: Universe, n: nat)
    requires n > 0 && !shards.OtherSet? && AttemptsAccepted(paths, env.attempt)
    requires Shards(Kept(paths)) == Expected(shards, n)
    requires AllProduced(Kept(paths), u, n, env)
    ensures Verifies(paths, shards, env, u.declared)
  {
    var kept := Kept(paths);
    ExpectedNonempty(shards, n);
    assert kept != {};
    forall e | e in kept ensures Sound(e, env, u.declared) && e.execution.integrationCount == n {
      ProducedSound(kept, shards, env, u, n, e);
    }
    forall e, f | e in kept && f in kept ensures Agree(e, f) {
      ProducedAgree(kept, u, n, env, e, f);
    }
    forall e, f | e in kept && f in kept && e != f ensures CaseKeys(e) !! CaseKeys(f) {
      ProducedDisjoint(paths, shards, env, u, n, e, f);
    }
  }

  lemma ExpectedNonempty(shards: ShardSet, n: nat)
    requires n > 0
    ensures Expected(shards, n) != {}
  {
    var shard := if shards.DarwinOnly? then ShardKey(Darwin, 1, 1)
                 else if shards.IntegrationOnly? then ShardKey(Integration, 1, n) else ShardKey(Rest, 1, 1);
    assert shard in Expected(shards, n);
  }
}
