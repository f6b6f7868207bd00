/** The aggregator: it accepts a platform's shard reports only when the raw
    evidence shows full coverage of the declared shard set. */
module Verifier {
  import opened Outcomes
  import opened Partition
  import opened Accounting
  import opened Evidence
  import opened Selection

  /** What verification returns: each package's families, each case's outcome,
      and the identity the evidence was tested under. */
  datatype Verdict = Verdict(inventory: Inventory, cases: map<Key, string>, identity: map<string, string>)

  /** The shard set a workflow declares for its gate. */
  datatype ShardSet = AllShards | RestOnly | IntegrationOnly | DarwinOnly | OtherSet(name: string)

  const REQUIRED_IDENTITY := ["tested_commit", "production_tree", "go", "platform"]

  const SHARED_IDENTITY := ["tested_commit", "production_tree", "go", "platform", "PR_HEAD", "PR_BASE",
                            "GITHUB_RUN_ID", "ImageOS"]

  /** The shards a platform declares. */
  function Expected(shards: ShardSet, count: nat): set<ShardKey> {
    if shards.DarwinOnly? then {ShardKey(Darwin, 1, 1)}
    else
      (if shards.IntegrationOnly? then {} else {ShardKey(Rest, 1, 1)}) +
      (if shards.RestOnly? then {} else set i | 1 <= i <= count :: ShardKey(Integration, i, count))
  }

  function Shards(kept: set<ShardEvidence>): set<ShardKey> {
    set e | e in kept :: ShardOf(e)
  }

  // ----- specification: what a set of kept evidence must satisfy -----

  /** The commit, tree, toolchain and platform are recorded, and belong to this
      CI run and commit where those are known. */
  predicate Identified(metadata: map<string, string>, env: Environment) {
    && (forall i | 0 <= i < |REQUIRED_IDENTITY| ::
      REQUIRED_IDENTITY[i] in metadata && metadata[REQUIRED_IDENTITY[i]] != [])
    && (env.runId != [] ==> Get(metadata, "GITHUB_RUN_ID") == Some(env.runId))
    && (env.sha != [] ==> Get(metadata, "tested_commit") == Some(env.sha))
  }

  predicate SameIdentity(a: map<string, string>, b: map<string, string>) {
    forall i | 0 <= i < |SHARED_IDENTITY| :: Get(a, SHARED_IDENTITY[i]) == Get(b, SHARED_IDENTITY[i])
  }

  /** The shard discovered and selected what its kind prescribes. */
  predicate SelectsItsShare(e: ShardEvidence, declared: seq<DarwinEntry>)
    requires ValidPackages(e.packages)
  {
    var package, selected := IntegrationPackage(e.packages), e.execution.inventory;
    if ShardOf(e).kind.Rest? then
      e.discovered.Keys == Elements(e.packages) - {package} && selected == e.discovered
    else if ShardOf(e).kind.Darwin? then
      var chosen := DarwinPackages(e.packages, declared);
      && chosen.Accepted? && e.discovered.Keys == chosen.value.Keys
      && DarwinFamilies(chosen.value, e.discovered) == Accepted(selected)
    else
      var bins := e.partition.bins;
      && e.discovered.Keys == {package}
      && e.partition.count == e.execution.integrationCount == |bins|
      && ValidPartition(e.discovered[package], bins)
      && 1 <= ShardOf(e).index <= |bins|
      && selected == map[package := bins[ShardOf(e).index - 1]]
  }

  /** The raw events are a clean run of the selection, and the saved report is
      what they say. */
  ghost predicate Proven(e: ShardEvidence) {
    CleanRun(e.events, e.execution.inventory) && Reports(e.events, e.execution.report)
  }

  ghost predicate Sound(e: ShardEvidence, env: Environment, declared: seq<DarwinEntry>) {
    && ValidPackages(e.packages)
    && Identified(e.metadata, env)
    && SelectsItsShare(e, declared)
    && Proven(e)
  }

  /** Two shards saw one identity, package list, shard count and discovery, and
      integration shards one partition. */
  predicate Agree(e: ShardEvidence, f: ShardEvidence) {
    && SameIdentity(e.metadata, f.metadata)
    && e.packages == f.packages
    && e.execution.integrationCount == f.execution.integrationCount
    && (forall p | p in e.discovered && p in f.discovered :: e.discovered[p] == f.discovered[p])
    && (ShardOf(e).kind.Integration? && ShardOf(f).kind.Integration? ==> e.partition.bins == f.partition.bins)
  }

  function CaseKeys(e: ShardEvidence): set<Key> {
    set c | c in e.execution.report.cases :: KeyOf(c)
  }

  /** The shards are exactly those that the set declares for the one count. */
  ghost predicate ShardsDeclared(kept: set<ShardEvidence>, shards: ShardSet) {
    && !shards.OtherSet? && kept != {}
    && forall e | e in kept ::
         e.execution.integrationCount > 0 && Shards(kept) == Expected(shards, e.execution.integrationCount)
  }

  ghost predicate AllSound(kept: set<ShardEvidence>, env: Environment, declared: seq<DarwinEntry>) {
    forall e | e in kept :: Sound(e, env, declared)
  }

  ghost predicate AllAgree(kept: set<ShardEvidence>) {
    && (forall e, f | e in kept && f in kept :: Agree(e, f))
    && (forall e, f | e in kept && f in kept && e != f :: CaseKeys(e) !! CaseKeys(f))
  }

  ghost predicate VerifiesKept(kept: set<ShardEvidence>, shards: ShardSet, env: Environment,
                               declared: seq<DarwinEntry>) {
    ShardsDeclared(kept, shards) && AllSound(kept, env, declared) && AllAgree(kept)
  }

  /** The evidence at these paths is accepted. */
  ghost predicate Verifies(paths: seq<ShardEvidence>, shards: ShardSet, env: Environment, declared: seq<DarwinEntry>) {
    && AttemptsAccepted(paths, env.attempt)
    && VerifiesKept(Kept(paths), shards, env, declared)
  }

  predicate HasOutcome(e: ShardEvidence, key: Key, outcome: string) {
    exists c | c in e.execution.report.cases :: KeyOf(c) == key && c.outcome == outcome
  }

  predicate Settles(cases: map<Key, string>, key: Key, outcome: string) {
    key in cases && cases[key] == outcome
  }

  /** The verdict holds exactly the discoveries and outcomes of the kept evidence. */
  ghost predicate Gathered(kept: set<ShardEvidence>, v: Verdict) {
    && (forall p :: p in v.inventory <==> exists e | e in kept :: p in e.discovered)
    && (forall e, p | e in kept && p in e.discovered && p in v.inventory :: v.inventory[p] == e.discovered[p])
    && (forall key, o :: Settles(v.cases, key, o) <==> exists e | e in kept :: HasOutcome(e, key, o))
  }
}
