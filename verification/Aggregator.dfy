/** The aggregator's own control flow, proved to accept exactly the evidence
    that verifies and to return what that evidence holds. */
module Aggregator {
  import opened Outcomes
  import opened Accounting
  import opened Evidence
  import opened Selection
  import opened Verifier
  import Soundness = VerifierSoundness
  import Laws = AcceptanceLaws

  function Members(kept: seq<ShardEvidence>): set<ShardEvidence> {
    set e | e in kept
  }

  // ----- the declared shard set -----

  function RestOf(kept: seq<ShardEvidence>): seq<ShardEvidence> {
    if kept == [] then []
    else
      var front := RestOf(kept[..|kept| - 1]);
      if ShardOf(kept[|kept| - 1]).kind.Rest? then front + [kept[|kept| - 1]] else front
  }

  lemma {:induction false} RestOfMembers(kept: seq<ShardEvidence>)
    ensures forall e :: e in RestOf(kept) <==> e in kept && ShardOf(e).kind.Rest?
    ensures DistinctShards(kept) ==> DistinctShards(RestOf(kept))
  {
    if kept != [] {
      var n := |kept| - 1;
      RestOfMembers(kept[..n]);
      assert kept == kept[..n] + [kept[n]];
      assert forall e | e in RestOf(kept[..n]) :: e in kept[..n];
    }
  }

  /** One count, positive, and exactly the shards it declares. */
  ghost predicate DeclaredWith(kept: set<ShardEvidence>, shards: ShardSet, count: int) {
    && count > 0 && Shards(kept) == Expected(shards, count)
    && exists e | e in kept :: e.execution.integrationCount == count
  }

  lemma SameShardTwice(group: seq<ShardEvidence>)
    requires |group| >= 2 && ShardOf(group[0]) == ShardOf(group[1])
    ensures !DistinctShards(group)
  {
  }

  /** A shard set with the rest shard has one; the others have none. */
  lemma RestDeclared(kept: seq<ShardEvidence>, shards: ShardSet, count: nat)
    requires DistinctShards(kept) && Shards(Members(kept)) == Expected(shards, count)
    ensures |RestOf(kept)| == if shards.IntegrationOnly? || shards.DarwinOnly? then 0 else 1
  {
    var rest := RestOf(kept);
    RestOfMembers(kept);
    forall e | e in rest ensures ShardOf(e) == ShardKey(Rest, 1, 1) && !shards.IntegrationOnly? && !shards.DarwinOnly? {
      assert ShardOf(e) in Shards(Members(kept));
    }
    forall i | 0 <= i < |rest| ensures ShardOf(rest[i]) == ShardKey(Rest, 1, 1) {
      assert rest[i] in rest;
    }
    assert |rest| <= 1 by {
      if |rest| >= 2 { SameShardTwice(rest); }
    }
    assert rest != [] ==> rest[0] in rest;
    if !shards.IntegrationOnly? && !shards.DarwinOnly? {
      assert ShardKey(Rest, 1, 1) in Shards(Members(kept));
      var e :| e in kept && ShardOf(e) == ShardKey(Rest, 1, 1);
      assert e in rest;
    }
  }

  /** The report whose count is taken: the first one's where no rest shard is
      declared, else the rest shard's. */
  ghost predicate CountsFor(e: ShardEvidence, kept: seq<ShardEvidence>, shards: ShardSet)
    requires kept != []
  {
    if shards.IntegrationOnly? || shards.DarwinOnly? then e == kept[0] else e in kept && ShardOf(e).kind.Rest?
  }

  /** The count comes from that report, and declares exactly the kept shards. */
  ghost predicate Declares(kept: seq<ShardEvidence>, shards: ShardSet, count: int)
    requires kept != []
  {
    && count > 0 && Shards(Members(kept)) == Expected(shards, count)
    && exists e :: CountsFor(e, kept, shards) && e.execution.integrationCount == count
  }

  lemma DeclaresWith(kept: seq<ShardEvidence>, shards: ShardSet, count: int)
    requires kept != [] && Declares(kept, shards, count)
    ensures DeclaredWith(Members(kept), shards, count)
  {
    var e :| CountsFor(e, kept, shards) && e.execution.integrationCount == count;
    assert kept[0] in kept;
    assert e in Members(kept);
  }

  /** A kept rest shard is the only one. */
  lemma OnlyRest(kept: seq<ShardEvidence>, e: ShardEvidence)
    requires |RestOf(kept)| == 1 && e in kept && ShardOf(e).kind.Rest?
    ensures e == RestOf(kept)[0]
  {
    RestOfMembers(kept);
    assert e in RestOf(kept);
  }

  method DeclaredCount(kept: seq<ShardEvidence>, shards: ShardSet) returns (result: Result<nat>)
    requires kept != [] && DistinctShards(kept)
    ensures result.Accepted? <==> exists count :: Declares(kept, shards, count)
    ensures result.Accepted? ==> Declares(kept, shards, result.value)
  {
    var rest, count := RestOf(kept), 0;
    ghost var taken: ShardEvidence;
    RestOfMembers(kept);
    if shards.IntegrationOnly? || shards.DarwinOnly? {
      if rest != [] {
        forall n | Declares(kept, shards, n) ensures false { RestDeclared(kept, shards, n); }
        return Rejected;
      }
      count := kept[0].execution.integrationCount;
      taken := kept[0];
    } else {
      if |rest| != 1 {
        forall n | Declares(kept, shards, n) ensures false { RestDeclared(kept, shards, n); }
        return Rejected;
      }
      count := rest[0].execution.integrationCount;
      taken := rest[0];
      assert taken in rest;
      forall e | e in kept && ShardOf(e).kind.Rest? ensures e == rest[0] { OnlyRest(kept, e); }
    }
    assert CountsFor(taken, kept, shards) && forall e | CountsFor(e, kept, shards) :: e == taken;
    // One report is kept per shard, so the two counters compare as sets.
    assert Shards(Members(kept)) == set e | e in kept :: ShardOf(e);
    if count <= 0 || (set e | e in kept :: ShardOf(e)) != Expected(shards, count) {
      return Rejected;
    }
    assert Declares(kept, shards, count);
    return Accepted(count);
  }

  // ----- one shard against the first -----

  /** A shard that fits the first shard's identity, packages and count, selects
      its share, and is borne out by its raw events. */
  ghost predicate Fits(e: ShardEvidence, first: ShardEvidence, count: int, declared: seq<DarwinEntry>)
    requires ValidPackages(first.packages)
  {
    && SameIdentity(e.metadata, first.metadata)
    && e.packages == first.packages
    && e.execution.integrationCount == count
    && SelectsItsShare(e, declared)
    && Proven(e)
  }

  lemma ReportUnique(e: ShardEvidence, actual: Report)
    requires Reports(e.events, actual)
    ensures Reports(e.events, e.execution.report) <==> actual == e.execution.report
  {
    OrderIrrelevant(e.events, e.events, e.execution.inventory, actual, e.execution.report);
  }

  method CheckShard(e: ShardEvidence, first: ShardEvidence, count: int, declared: seq<DarwinEntry>) returns (ok: bool)
    requires ValidPackages(first.packages)
    ensures ok <==> Fits(e, first, count, declared)
  {
    if !SameIdentity(e.metadata, first.metadata) || e.packages != first.packages
       || e.execution.integrationCount != count {
      return false;
    }
    if !SelectsItsShare(e, declared) {
      return false;
    }
    // The raw events are accounted again; the saved report is only compared.
    var actual := Account(e.events, e.execution.inventory);
    if actual.Rejected? {
      return false;
    }
    ReportUnique(e, actual.value);
    return actual.value == e.execution.report;
  }

  // ----- merging one shard into the verdict -----

  predicate Mergeable(v: Verdict, e: ShardEvidence) {
    && (forall p | p in e.discovered && p in v.inventory :: v.inventory[p] == e.discovered[p])
    && CaseKeys(e) !! v.cases.Keys
  }

  method MergeCases(cases: map<Key, string>, found: seq<Case>) returns (result: Result<map<Key, string>>)
    requires Ascending(found)
    ensures result.Accepted? <==> forall c | c in found :: KeyOf(c) !in cases
    ensures result.Accepted? ==> forall key, o :: Settles(result.value, key, o) <==>
              Settles(cases, key, o) || exists c | c in found :: KeyOf(c) == key && c.outcome == o
  {
    var merged := cases;
    for k := 0 to |found|
      invariant forall c | c in found[..k] :: KeyOf(c) !in cases
      invariant forall key :: key in merged <==> key in cases || exists c | c in found[..k] :: KeyOf(c) == key
      invariant forall key | key in cases :: merged[key] == cases[key]
      invariant forall i | 0 <= i < k :: KeyOf(found[i]) in merged && merged[KeyOf(found[i])] == found[i].outcome
    {
      var c := found[k];
      assert found[..k + 1] == found[..k] + [c];
      if KeyOf(c) in merged {
        assert c in found;
        return Rejected;
      }
      merged := merged[KeyOf(c) := c.outcome];
    }
    assert found[..|found|] == found;
    return Accepted(merged);
  }

  method Merge(v: Verdict, e: ShardEvidence) returns (result: Result<Verdict>)
    requires Proven(e)
    ensures result.Accepted? <==> Mergeable(v, e)
    ensures result.Accepted? ==>
            result.value.inventory == v.inventory + e.discovered && result.value.identity == v.identity
    ensures result.Accepted? ==>
            forall key, o :: Settles(result.value.cases, key, o) <==> Settles(v.cases, key, o) || HasOutcome(e, key, o)
  {
    if exists p | p in e.discovered :: p in v.inventory && v.inventory[p] != e.discovered[p] {
      return Rejected;
    }
    var merged := MergeCases(v.cases, e.execution.report.cases);
    if merged.Rejected? {
      var c :| c in e.execution.report.cases && KeyOf(c) in v.cases;
      assert KeyOf(c) in CaseKeys(e);
      return Rejected;
    }
    return Accepted(Verdict(v.inventory + e.discovered, merged.value, v.identity));
  }

  /** No two of these clash, in discoveries or in cases. */
  ghost predicate Compatible(done: set<ShardEvidence>) {
    && (forall e, f | e in done && f in done && e != f :: CaseKeys(e) !! CaseKeys(f))
    && (forall e, f, p | e in done && f in done && p in e.discovered && p in f.discovered ::
      e.discovered[p] == f.discovered[p])
  }

  /** The evidence read so far fits the first shard, clashes nowhere, and is
      what the verdict holds. */
  ghost predicate Absorbed(done: set<ShardEvidence>, first: ShardEvidence, count: int, declared: seq<DarwinEntry>,
                           v: Verdict)
    requires ValidPackages(first.packages)
  {
    && (forall e | e in done :: Fits(e, first, count, declared))
    && Compatible(done)
    && Gathered(done, v)
  }

  lemma CasesHeld(done: set<ShardEvidence>, v: Verdict, f: ShardEvidence)
    requires Gathered(done, v) && f in done
    ensures CaseKeys(f) <= v.cases.Keys
  {
    forall key | key in CaseKeys(f) ensures key in v.cases {
      var c :| c in f.execution.report.cases && KeyOf(c) == key;
      assert HasOutcome(f, key, c.outcome);
      assert Settles(v.cases, key, c.outcome);
    }
  }

  lemma CompatibleStep(done: set<ShardEvidence>, v: Verdict, e: ShardEvidence)
    requires Compatible(done) && Gathered(done, v) && Mergeable(v, e)
    ensures Compatible(done + {e})
  {
    DiscoveriesHeld(done, v);
    forall f, g | f in done + {e} && g in done + {e} && f != g ensures CaseKeys(f) !! CaseKeys(g) {
      if f == e { CasesHeld(done, v, g); }
      if g == e { CasesHeld(done, v, f); }
    }
  }

  lemma DiscoveriesHeld(done: set<ShardEvidence>, v: Verdict)
    requires Gathered(done, v)
    ensures forall f, p | f in done && p in f.discovered :: p in v.inventory && v.inventory[p] == f.discovered[p]
  {
  }

  lemma InventoryStep(done: set<ShardEvidence>, v: Verdict, e: ShardEvidence, next: Verdict, p: string)
    requires Gathered(done, v) && Mergeable(v, e) && next.inventory == v.inventory + e.discovered
    ensures p in next.inventory <==> exists f | f in done + {e} :: p in f.discovered
    ensures forall f | f in done + {e} && p in f.discovered && p in next.inventory ::
            next.inventory[p] == f.discovered[p]
  {
    if p in v.inventory {
      var f :| f in done && p in f.discovered;
      assert f in done + {e};
    } else if p in e.discovered {
      assert e in done + {e};
    }
  }

  lemma CasesStep(done: set<ShardEvidence>, v: Verdict, e: ShardEvidence, next: Verdict, key: Key, o: string)
    requires Gathered(done, v)
    requires Settles(next.cases, key, o) <==> Settles(v.cases, key, o) || HasOutcome(e, key, o)
    ensures Settles(next.cases, key, o) <==> exists f | f in done + {e} :: HasOutcome(f, key, o)
  {
    if Settles(v.cases, key, o) {
      var f :| f in done && HasOutcome(f, key, o);
      assert f in done + {e};
    } else if HasOutcome(e, key, o) {
      assert e in done + {e};
    }
  }

  lemma GatherStep(done: set<ShardEvidence>, v: Verdict, e: ShardEvidence, next: Verdict)
    requires Gathered(done, v) && Mergeable(v, e)
    requires next.inventory == v.inventory + e.discovered
    requires forall key, o :: Settles(next.cases, key, o) <==> Settles(v.cases, key, o) || HasOutcome(e, key, o)
    ensures Gathered(done + {e}, next)
  {
    forall p
      ensures p in next.inventory <==> exists f | f in done + {e} :: p in f.discovered
      ensures forall f | f in done + {e} && p in f.discovered && p in next.inventory ::
              next.inventory[p] == f.discovered[p]
    {
      InventoryStep(done, v, e, next, p);
    }
    forall key, o ensures Settles(next.cases, key, o) <==> exists f | f in done + {e} :: HasOutcome(f, key, o) {
      CasesStep(done, v, e, next, key, o);
    }
  }

  lemma AbsorbStep(done: set<ShardEvidence>, first: ShardEvidence, count: int, declared: seq<DarwinEntry>,
                   v: Verdict, e: ShardEvidence, next: Verdict)
    requires ValidPackages(first.packages) && Absorbed(done, first, count, declared, v)
    requires Fits(e, first, count, declared) && Mergeable(v, e)
    requires next.inventory == v.inventory + e.discovered
    requires forall key, o :: Settles(next.cases, key, o) <==> Settles(v.cases, key, o) || HasOutcome(e, key, o)
    ensures Absorbed(done + {e}, first, count, declared, next)
  {
    CompatibleStep(done, v, e);
    GatherStep(done, v, e, next);
  }

  /** Evidence that verifies fits the first shard. */
  lemma VerifiedFits(kept: set<ShardEvidence>, shards: ShardSet, env: Environment, declared: seq<DarwinEntry>,
                     first: ShardEvidence, e: ShardEvidence)
    requires VerifiesKept(kept, shards, env, declared) && first in kept && e in kept
    ensures ValidPackages(first.packages) && Fits(e, first, first.execution.integrationCount, declared)
  {
    assert Sound(e, env, declared) && Agree(e, first);
  }

  lemma VerifiedCompatible(kept: set<ShardEvidence>, shards: ShardSet, env: Environment, declared: seq<DarwinEntry>)
    requires VerifiesKept(kept, shards, env, declared)
    ensures Compatible(kept)
  {
    forall e, f, p | e in kept && f in kept && p in e.discovered && p in f.discovered
      ensures e.discovered[p] == f.discovered[p]
    {
      assert Agree(e, f);
    }
  }

  lemma Holder(done: set<ShardEvidence>, v: Verdict, key: Key) returns (f: ShardEvidence)
    requires Gathered(done, v) && key in v.cases
    ensures f in done && key in CaseKeys(f)
  {
    assert Settles(v.cases, key, v.cases[key]);
    f :| f in done && HasOutcome(f, key, v.cases[key]);
  }

  /** Compatible evidence merges at every step. */
  lemma CompatibleMerges(kept: set<ShardEvidence>, done: set<ShardEvidence>, v: Verdict, e: ShardEvidence)
    requires Compatible(kept) && done <= kept && Gathered(done, v) && e in kept && e !in done
    ensures Mergeable(v, e)
  {
    forall p | p in e.discovered && p in v.inventory ensures v.inventory[p] == e.discovered[p] {
      var f :| f in done && p in f.discovered;
    }
    forall key | key in CaseKeys(e) ensures key !in v.cases {
      if key in v.cases {
        var f := Holder(done, v, key);
        assert false;
      }
    }
  }

  /** All integration shards saved one partition. */
  predicate OnePartition(kept: seq<ShardEvidence>) {
    forall i, j | 0 <= i < |kept| && 0 <= j < |kept| ::
      ShardOf(kept[i]).kind.Integration? && ShardOf(kept[j]).kind.Integration? ==>
        kept[i].partition.bins == kept[j].partition.bins
  }

  /** The finished loop and the closing check leave evidence that verifies. */
  lemma AbsorbedVerifies(kept: seq<ShardEvidence>, shards: ShardSet, env: Environment, declared: seq<DarwinEntry>,
                         first: ShardEvidence, count: int, v: Verdict)
    requires kept != [] && first == kept[0] && ValidPackages(first.packages) && Identified(first.metadata, env)
    requires !shards.OtherSet? && DeclaredWith(Members(kept), shards, count)
    requires Absorbed(Members(kept), first, count, declared, v) && OnePartition(kept)
    ensures VerifiesKept(Members(kept), shards, env, declared)
  {
    assert first in Members(kept);
    forall e | e in Members(kept) ensures Sound(e, env, declared) && e.execution.integrationCount == count {
      assert Fits(e, first, count, declared);
      IdentityShared(e.metadata, first.metadata, env);
    }
    forall e, f | e in Members(kept) && f in Members(kept) ensures Agree(e, f) {
      assert Fits(e, first, count, declared) && Fits(f, first, count, declared);
      IdentityTransitive(e.metadata, first.metadata, f.metadata);
    }
  }

  lemma IdentityTransitive(a: map<string, string>, b: map<string, string>, c: map<string, string>)
    requires SameIdentity(a, b) && SameIdentity(c, b)
    ensures SameIdentity(a, c)
  {
  }

  lemma IdentityShared(a: map<string, string>, b: map<string, string>, env: Environment)
    requires SameIdentity(a, b) && Identified(b, env)
    ensures Identified(a, env)
  {
    assert forall i | 0 <= i < |REQUIRED_IDENTITY| :: REQUIRED_IDENTITY[i] == SHARED_IDENTITY[i];
    assert SHARED_IDENTITY[0] == "tested_commit" && SHARED_IDENTITY[6] == "GITHUB_RUN_ID";
    assert forall i | 0 <= i < |REQUIRED_IDENTITY| :: Get(a, SHARED_IDENTITY[i]) == Get(b, SHARED_IDENTITY[i]);
  }

  // ----- the aggregator -----

  /** The evidence read so far verifies no further once one shard does not fit
      or clashes. */
  lemma MisfitRejects(kept: set<ShardEvidence>, shards: ShardSet, env: Environment, declared: seq<DarwinEntry>,
                      first: ShardEvidence, count: int, done: set<ShardEvidence>, v: Verdict, e: ShardEvidence)
    requires first in kept && e in kept && e !in done && done <= kept && ValidPackages(first.packages)
    requires DeclaredWith(kept, shards, count) && Gathered(done, v)
    requires !Fits(e, first, count, declared) || !Mergeable(v, e)
    ensures !VerifiesKept(kept, shards, env, declared)
  {
    if VerifiesKept(kept, shards, env, declared) {
      var g :| g in kept && g.execution.integrationCount == count;
      assert Agree(g, first);
      VerifiedFits(kept, shards, env, declared, first, e);
      VerifiedCompatible(kept, shards, env, declared);
      CompatibleMerges(kept, done, v, e);
      assert false;
    }
  }

  lemma NextMember(kept: seq<ShardEvidence>, k: nat)
    requires DistinctShards(kept) && k < |kept|
    ensures Members(kept[..k + 1]) == Members(kept[..k]) + {kept[k]}
    ensures kept[k] !in Members(kept[..k]) && Members(kept[..k]) <= Members(kept) && kept[k] in Members(kept)
  {
    assert kept[..k + 1] == kept[..k] + [kept[k]];
  }

  /** Reads one more shard's evidence. */
  method AbsorbOne(ghost done: set<ShardEvidence>, first: ShardEvidence, count: int, declared: seq<DarwinEntry>,
                   v: Verdict, e: ShardEvidence) returns (result: Result<Verdict>)
    requires ValidPackages(first.packages) && Absorbed(done, first, count, declared, v)
    ensures result.Rejected? ==> !Fits(e, first, count, declared) || !Mergeable(v, e)
    ensures result.Accepted? ==> Absorbed(done + {e}, first, count, declared, result.value)
    ensures result.Accepted? ==> result.value.identity == v.identity
  {
    var fits := CheckShard(e, first, count, declared);
    if !fits {
      return Rejected;
    }
    result := Merge(v, e);
    if result.Accepted? { AbsorbStep(done, first, count, declared, v, e, result.value); }
  }

  method AbsorbAll(kept: seq<ShardEvidence>, shards: ShardSet, env: Environment, declared: seq<DarwinEntry>, count: int)
    returns (result: Result<Verdict>)
    requires kept != [] && DistinctShards(kept) && ValidPackages(kept[0].packages)
    requires DeclaredWith(Members(kept), shards, count)
    ensures result.Rejected? ==> !VerifiesKept(Members(kept), shards, env, declared)
    ensures result.Accepted? ==> Absorbed(Members(kept), kept[0], count, declared, result.value)
    ensures result.Accepted? ==> result.value.identity == kept[0].metadata
  {
    var v := Verdict(map[], map[], kept[0].metadata);
    for k := 0 to |kept|
      invariant v.identity == kept[0].metadata
      invariant Absorbed(Members(kept[..k]), kept[0], count, declared, v)
    {
      var e := kept[k];
      assert kept[0] in kept;
      NextMember(kept, k);
      var absorbed := AbsorbOne(Members(kept[..k]), kept[0], count, declared, v, e);
      if absorbed.Rejected? {
        MisfitRejects(Members(kept), shards, env, declared, kept[0], count, Members(kept[..k]), v, e);
        return Rejected;
      }
      v := absorbed.value;
    }
    assert kept[..|kept|] == kept;
    return Accepted(v);
  }

  method VerifyReports(paths: seq<ShardEvidence>, shards: ShardSet, env: Environment, declared: seq<DarwinEntry>)
    returns (result: Result<Verdict>)
    ensures result.Accepted? <==> Verifies(paths, shards, env, declared)
    ensures result.Accepted? ==> Gathered(Kept(paths), result.value)
    ensures result.Accepted? ==>
            exists e | e in Kept(paths) :: ShardOf(e) == ShardOf(paths[0]) && e.metadata == result.value.identity
    ensures result.Accepted? && env.sha != "" ==>
            "tested_commit" in result.value.identity && result.value.identity["tested_commit"] == env.sha
    ensures result.Accepted? && env.runId != "" ==>
            "GITHUB_RUN_ID" in result.value.identity && result.value.identity["GITHUB_RUN_ID"] == env.runId
  {
    if shards.OtherSet? || paths == [] {
      return Rejected;
    }
    var latest := LatestAttempts(paths, env.attempt);
    if latest.Rejected? {
      return Rejected;
    }
    var kept := latest.value;
    assert Members(kept) == Kept(paths);
    assert kept[0] in kept;
    result := VerifyKept(kept, shards, env, declared);
    if result.Accepted? { Laws.AcceptedRun(paths, shards, env, declared, kept[0]); }
  }

  method VerifyKept(kept: seq<ShardEvidence>, shards: ShardSet, env: Environment, declared: seq<DarwinEntry>)
    returns (result: Result<Verdict>)
    requires kept != [] && DistinctShards(kept) && !shards.OtherSet?
    ensures result.Accepted? <==> VerifiesKept(Members(kept), shards, env, declared)
    ensures result.Accepted? ==> Gathered(Members(kept), result.value) && result.value.identity == kept[0].metadata
  {
    var first := kept[0];
    assert first in Members(kept);
    var declaredCount := DeclaredCount(kept, shards);
    if declaredCount.Rejected? {
      if VerifiesKept(Members(kept), shards, env, declared) { VerifiedDeclares(kept, shards, env, declared); }
      return Rejected;
    }
    var count := declaredCount.value;
    DeclaresWith(kept, shards, count);
    if !ValidPackages(first.packages) || !Identified(first.metadata, env) {
      return Rejected;
    }
    result := AbsorbAll(kept, shards, env, declared, count);
    if result.Rejected? {
      return;
    }
    if !OnePartition(kept) {
      SplitPartitionRejects(kept, shards, env, declared);
      return Rejected;
    }
    AbsorbedVerifies(kept, shards, env, declared, first, count, result.value);
    var complete := CheckCoverage(kept, shards, env, declared, result.value);
    if !complete {
      return Rejected;
    }
  }

  /** Verified evidence declares its shards. */
  lemma VerifiedDeclares(kept: seq<ShardEvidence>, shards: ShardSet, env: Environment, declared: seq<DarwinEntry>)
    requires kept != [] && VerifiesKept(Members(kept), shards, env, declared)
    ensures Declares(kept, shards, kept[0].execution.integrationCount)
  {
    assert kept[0] in Members(kept);
    var count := kept[0].execution.integrationCount;
    var e := CountTaken(kept, shards, count);
    assert e in Members(kept) && Agree(e, kept[0]);
  }

  lemma CountTaken(kept: seq<ShardEvidence>, shards: ShardSet, count: int) returns (e: ShardEvidence)
    requires kept != [] && count > 0 && Shards(Members(kept)) == Expected(shards, count)
    ensures e in kept && CountsFor(e, kept, shards)
  {
    e := kept[0];
    if !shards.IntegrationOnly? && !shards.DarwinOnly? {
      assert ShardKey(Rest, 1, 1) in Shards(Members(kept));
      e :| e in kept && ShardOf(e) == ShardKey(Rest, 1, 1);
    }
  }

  lemma SplitPartitionRejects(kept: seq<ShardEvidence>, shards: ShardSet, env: Environment, declared: seq<DarwinEntry>)
    requires !OnePartition(kept)
    ensures !VerifiesKept(Members(kept), shards, env, declared)
  {
    var i, j :|
      && 0 <= i < |kept| && 0 <= j < |kept|
      && ShardOf(kept[i]).kind.Integration? && ShardOf(kept[j]).kind.Integration?
      && kept[i].partition.bins != kept[j].partition.bins;
    assert kept[i] in Members(kept) && kept[j] in Members(kept);
    assert !Agree(kept[i], kept[j]);
  }

  lemma CoverageWhole(kept: set<ShardEvidence>, shards: ShardSet, env: Environment, declared: seq<DarwinEntry>,
                      v: Verdict, first: ShardEvidence)
    requires VerifiesKept(kept, shards, env, declared) && Gathered(kept, v) && first in kept
    requires ValidPackages(first.packages) &&
             (shards.DarwinOnly? ==> DarwinPackages(first.packages, declared).Accepted?)
    ensures v.inventory.Keys == Soundness.Covered(shards, first.packages, declared)
  {
    forall p ensures p in v.inventory <==> p in Soundness.Covered(shards, first.packages, declared) {
      Soundness.CoverageImplied(kept, shards, env, declared, first, p);
    }
  }

  /** The closing coverage check, which evidence this far cannot fail. */
  method CheckCoverage(kept: seq<ShardEvidence>, shards: ShardSet, env: Environment, declared: seq<DarwinEntry>,
                       v: Verdict)
    returns (complete: bool)
    requires kept != [] && VerifiesKept(Members(kept), shards, env, declared) && Gathered(Members(kept), v)
    ensures ValidPackages(kept[0].packages)
    ensures shards.DarwinOnly? ==> DarwinPackages(kept[0].packages, declared).Accepted?
    ensures complete == (v.inventory.Keys == Soundness.Covered(shards, kept[0].packages, declared))
    ensures complete
  {
    var first := kept[0];
    assert first in Members(kept);
    Soundness.CoverageImplied(Members(kept), shards, env, declared, first, "");
    CoverageWhole(Members(kept), shards, env, declared, v, first);
    return v.inventory.Keys == Soundness.Covered(shards, first.packages, declared);
  }
}
