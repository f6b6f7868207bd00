/** A shard's run, spelled out: which arguments it takes, when it selects
    nothing, what its evidence shows, and that complete clean runs are accepted. */
module RunLaws {
  import opened Outcomes
  import opened Sorting
  import opened Partition
  import opened Accounting
  import opened Evidence
  import opened Selection
  import opened Verifier
  import opened ShardRunner
  import opened AcceptanceLaws

  /** The arguments a runner takes: a shard of a positive count, numbered from
      one, where only integration shards come in several; and no integration
      count at odds with them. Without one, three shards are assumed. */
  lemma ArgumentsIff(shard: ShardKey, given: Option<int>)
    ensures ValidArguments(shard, given) <==>
            && 1 <= shard.index <= shard.count && (given.Some? ==> given.value >= 1)
            && (shard.kind == Rest || shard.kind == Darwin || shard.kind == Integration)
            && (shard.kind != Integration ==> shard.count == 1)
            && (shard.kind == Integration && given.Some? ==> given.value == shard.count)
    ensures ValidArguments(shard, given) ==>
            IntegrationCount(shard, given) ==
            match shard.kind
            case Integration => shard.count
            case _ => if given.Some? then given.value else 3
  {
  }

  /** Every family that a darwin entry declares is listed for its package. */
  ghost predicate FamiliesListed(u: Universe) {
    forall entry, p, x | entry in u.declared && Asks(u.packages, entry, p) && entry.families.Some? &&
                         x in entry.families.value :: p in u.listing && x in u.listing[p]
  }

  /** A run selects something unless the planner rejects the integration
      package's families, or the darwin entries do not resolve or ask for a family
      that is not there. */
  lemma SelectedIff(u: Universe, shard: ShardKey, n: nat, package: string)
    requires Listed(u) && Listing(u.packages, package) && 1 <= shard.index <= n && !shard.kind.OtherKind?
    ensures package in u.listing
    ensures Selected(u, shard, n).Accepted? <==>
            match shard.kind
            case Integration =>
              && n <= |u.listing[package]| && Distinct(u.listing[package])
              && forall k | k in u.weights :: u.weights[k] > 0.0
            case Darwin => NamedApart(u.packages, u.declared) && FamiliesListed(u)
            case _ => true
  {
    ListingIff(u.packages, package);
    match shard.kind {
      case Darwin => DarwinSelectedIff(u, shard, n);
      case Integration => BinSelectedIff(u, shard, n, package);
      case _ =>
    }
  }

  lemma BinSelectedIff(u: Universe, shard: ShardKey, n: nat, package: string)
    requires Listed(u) && IntegrationPackage(u.packages) == package && 1 <= shard.index <= n && shard.kind.Integration?
    ensures package in u.listing
    ensures Selected(u, shard, n).Accepted? <==>
            n <= |u.listing[package]| && Distinct(u.listing[package]) && forall k | k in u.weights :: u.weights[k] > 0.0
  {
    assert Selected(u, shard, n) == SelectedBin(u, shard.index, n);
  }

  lemma DarwinSelectedIff(u: Universe, shard: ShardKey, n: nat)
    requires Listed(u) && n > 0 && shard.kind.Darwin?
    ensures Selected(u, shard, n).Accepted? <==> NamedApart(u.packages, u.declared) && FamiliesListed(u)
  {
    NamedIff(u.packages, u.declared);
    DarwinPackagesMeaning(u.packages, u.declared);
    if Resolvable(u.packages, u.declared) {
      var chosen, discovered := DarwinPackages(u.packages, u.declared).value, Discovered(u, Darwin);
      DarwinListed(u);
      FamiliesIff(u, chosen, discovered);
      DarwinSelection(u, shard, n, chosen, discovered);
    }
  }

  lemma DarwinSelection(u: Universe, shard: ShardKey, n: nat, chosen: DarwinChoice, discovered: Inventory)
    requires Listed(u) && n > 0 && shard.kind.Darwin? && DarwinPackages(u.packages, u.declared) == Accepted(chosen)
    requires discovered == Discovered(u, Darwin) && chosen.Keys == discovered.Keys
    ensures Selected(u, shard, n) == DarwinFamilies(chosen, discovered)
  {
  }

  lemma FamiliesIff(u: Universe, chosen: DarwinChoice, discovered: Inventory)
    requires Chooses(u.packages, u.declared, chosen) && chosen.Keys == discovered.Keys
    requires forall p | p in discovered :: p in u.listing && u.listing[p] == discovered[p]
    ensures DarwinFamilies(chosen, discovered).Accepted? <==> FamiliesListed(u)
  {
    if DarwinFamilies(chosen, discovered).Accepted? {
      forall entry, p, x | entry in u.declared && Asks(u.packages, entry, p) && entry.families.Some? &&
                           x in entry.families.value
        ensures p in u.listing && x in u.listing[p]
      {
        FamilyListed(u, chosen, discovered, entry, p, x);
      }
    } else {
      FamilyMissing(u, chosen, discovered);
    }
  }

  lemma FamilyListed(u: Universe, chosen: DarwinChoice, discovered: Inventory, entry: DarwinEntry, p: string, x: string)
    requires Chooses(u.packages, u.declared, chosen) && chosen.Keys == discovered.Keys
    requires forall q | q in discovered :: q in u.listing && u.listing[q] == discovered[q]
    requires DarwinFamilies(chosen, discovered).Accepted? && entry in u.declared && Asks(u.packages, entry, p)
    requires entry.families.Some? && x in entry.families.value
    ensures p in u.listing && x in u.listing[p]
  {
    DarwinFamiliesExact(chosen, discovered);
    AsksIff(u.packages, entry, p);
    assert chosen[p] == entry.families && p in discovered;
  }

  lemma FamilyMissing(u: Universe, chosen: DarwinChoice, discovered: Inventory)
    requires Chooses(u.packages, u.declared, chosen) && chosen.Keys == discovered.Keys
    requires forall q | q in discovered :: q in u.listing && u.listing[q] == discovered[q]
    requires DarwinFamilies(chosen, discovered).Rejected?
    ensures !FamiliesListed(u)
  {
    DarwinFamiliesExact(chosen, discovered);
    var p, x :| p in chosen && chosen[p].Some? && x in chosen[p].value && x !in discovered[p];
    var entry :| entry in u.declared && Resolves(u.packages, entry, p);
    AsksIff(u.packages, entry, p);
    assert chosen[p] == entry.families;
  }

  /** A run's evidence shows the packages, discovery, count and, for an
      integration shard, the planner's bins; the share it ran; and its events. */
  lemma ProducedShows(u: Universe, n: nat, e: ShardEvidence) returns (package: string)
    requires Produced(u, n, e) && !ShardOf(e).kind.OtherKind?
    ensures e.packages == u.packages && e.execution.integrationCount == n && e.partition.count == n
    ensures Listing(e.packages, package) && RanItsShare(e, package, u.declared)
    ensures forall p | p in e.discovered :: p in u.listing && e.discovered[p] == u.listing[p]
    ensures ShardOf(e).kind == Integration ==>
            package in u.listing && e.partition.bins == Assignment(u.listing[package], n, u.weights)
    ensures CleanRun(e.events, e.execution.inventory) && Reports(e.events, e.execution.report)
  {
    package := IntegrationPackage(u.packages);
    ListingIff(u.packages, package);
    ProducedSelects(u, n, e);
    ShareIff(e, package, u.declared);
  }

  /** When every runner of one commit and CI run saw one universe and count, and
      each kept shard is a clean run of what it selected, the evidence of the
      declared shards is accepted. */
  lemma CleanRunsAccepted(paths: seq<ShardEvidence>, shards: ShardSet, env: Environment, u: Universe, n: nat)
    requires n > 0 && !shards.OtherSet? && Numbered(paths)
    requires env.attempt.Some? ==> forall e | e in paths :: RunAttempt(e.metadata).value <= env.attempt.value
    requires forall shard :: (exists e | e in Kept(paths) :: e.execution.shard == shard) <==> Belongs(shard, shards, n)
    requires forall e | e in Kept(paths) :: Produced(u, n, e) && ThisRun(e.metadata, env)
    requires forall e, f | e in Kept(paths) && f in Kept(paths) :: SameRun(e.metadata, f.metadata)
    ensures Acceptable(paths, shards, env, u.declared)
  {
    NumberedIff(paths);
    forall e | e in Kept(paths) ensures Identified(e.metadata, env) { ThisRunIff(e.metadata, env); }
    forall e, f | e in Kept(paths) && f in Kept(paths) ensures SameIdentity(e.metadata, f.metadata) {
      SameRunIff(e.metadata, f.metadata);
    }
    forall shard ensures shard in Shards(Kept(paths)) <==> shard in Expected(shards, n) {
      BelongsIff(shard, shards, n);
      if e :| e in Kept(paths) && e.execution.shard == shard { assert ShardOf(e) in Shards(Kept(paths)); }
    }
    assert Shards(Kept(paths)) == Expected(shards, n);
    RunsVerify(paths, shards, env, u, n);
    AcceptableIff(paths, shards, env, u.declared);
  }
}
