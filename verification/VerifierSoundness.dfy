/** What acceptance guarantees: every discovered family ran exactly once, in
    one shard, and succeeded, judged from the raw events alone. */
module VerifierSoundness {
  import opened Outcomes
  import Sorting
  import opened Partition
  import opened Accounting
  import opened Evidence
  import opened Selection
  import opened Verifier

  // ----- from one shard's events to its cases -----

  predicate Ends(e: Event, key: Key, outcome: string) {
    SlotOf(e) == Finished(key) && e.action == outcome
  }

  /** A shard's outcomes are those in its raw events. */
  lemma OutcomeFromEvents(e: ShardEvidence, key: Key, outcome: string)
    requires Proven(e)
    ensures HasOutcome(e, key, outcome) <==> exists ev | ev in e.events :: Ends(ev, key, outcome)
  {
    if HasOutcome(e, key, outcome) {
      var c :| c in e.execution.report.cases && KeyOf(c) == key && c.outcome == outcome;
      var ev :| ev in e.events && Yields(ev, c);
      assert Ends(ev, key, outcome);
    }
    if ev :| ev in e.events && Ends(ev, key, outcome) {
      var c := Case(key.0, key.1, outcome, SecondsOf(ev.elapsed));
      assert Yields(ev, c);
      assert c in e.execution.report.cases;
    }
  }

  /** Every outcome is a pass or a skip, of a case under a selected family. */
  lemma OutcomeSelected(e: ShardEvidence, key: Key, outcome: string)
    requires Proven(e) && HasOutcome(e, key, outcome)
    ensures key in CaseKeys(e)
    ensures outcome == "pass" || outcome == "skip"
    ensures key.0 in e.execution.inventory && Root(key.1) in e.execution.inventory[key.0]
  {
    OutcomeFromEvents(e, key, outcome);
    var ev :| ev in e.events && Ends(ev, key, outcome);
    assert Admissible(ev, e.execution.inventory);
  }

  lemma SelectedSettled(e: ShardEvidence, p: string, n: string) returns (outcome: string)
    requires Proven(e) && p in e.execution.inventory && n in e.execution.inventory[p]
    ensures HasOutcome(e, (p, n), outcome)
  {
    assert Count(e.events, Finished((p, n))) == 1;
    CountPositive(e.events, Finished((p, n)));
    var ev :| ev in e.events && SlotOf(ev) == Finished((p, n));
    outcome := ev.action;
    OutcomeFromEvents(e, (p, n), outcome);
  }

  // ----- from discovery to selection -----

  lemma {:induction false} FlattenMember(bins: seq<seq<string>>, n: string)
    ensures n in Flatten(bins) <==> exists i | 0 <= i < |bins| :: n in bins[i]
  {
    if bins != [] {
      var last := |bins| - 1;
      FlattenMember(bins[..last], n);
      if i :| 0 <= i < |bins| && n in bins[i] && i < last {
        assert n in bins[..last][i];
      }
    }
  }

  lemma SelectionDiscovered(e: ShardEvidence, env: Environment, declared: seq<DarwinEntry>, p: string, n: string)
    requires Sound(e, env, declared) && p in e.execution.inventory && n in e.execution.inventory[p]
    ensures p in e.discovered && n in e.discovered[p]
  {
    if ShardOf(e).kind.Darwin? {
      DarwinFamiliesExact(DarwinPackages(e.packages, declared).value, e.discovered);
    } else if !ShardOf(e).kind.Rest? {
      var bins := e.partition.bins;
      FlattenMember(bins, n);
      assert n in multiset(Flatten(bins));
    }
  }

  /** A declared shard has its evidence among the kept. */
  lemma ShardPresent(kept: set<ShardEvidence>, shards: ShardSet, env: Environment, declared: seq<DarwinEntry>,
                     e: ShardEvidence, shard: ShardKey) returns (f: ShardEvidence)
    requires VerifiesKept(kept, shards, env, declared) && e in kept
    requires shard in Expected(shards, e.execution.integrationCount)
    ensures f in kept && ShardOf(f) == shard && Agree(e, f) && Sound(f, env, declared)
  {
    assert shard in Shards(kept);
    f :| f in kept && ShardOf(f) == shard;
  }

  lemma ShardDeclared(kept: set<ShardEvidence>, shards: ShardSet, env: Environment, declared: seq<DarwinEntry>,
                      e: ShardEvidence)
    requires VerifiesKept(kept, shards, env, declared) && e in kept
    ensures e.execution.integrationCount > 0 && Sound(e, env, declared)
    ensures ShardOf(e) in Expected(shards, e.execution.integrationCount)
  {
    assert ShardOf(e) in Shards(kept);
  }

  /** The integration shard whose bin holds a family. */
  lemma BinOf(e: ShardEvidence, declared: seq<DarwinEntry>, p: string, n: string) returns (i: nat)
    requires ValidPackages(e.packages) && SelectsItsShare(e, declared) && ShardOf(e).kind.Integration?
    requires p in e.discovered && n in e.discovered[p]
    ensures i < |e.partition.bins| == e.execution.integrationCount && n in e.partition.bins[i]
    ensures p == IntegrationPackage(e.packages)
  {
    var bins := e.partition.bins;
    assert n in multiset(e.discovered[p]);
    assert n in multiset(Flatten(bins));
    FlattenMember(bins, n);
    i :| 0 <= i < |bins| && n in bins[i];
  }

  /** In every shard set but darwin's, a discovered family is selected somewhere. */
  lemma FamilySelected(kept: set<ShardEvidence>, shards: ShardSet, env: Environment, declared: seq<DarwinEntry>,
                       e: ShardEvidence, p: string, n: string) returns (f: ShardEvidence)
    requires VerifiesKept(kept, shards, env, declared) && !shards.DarwinOnly?
    requires e in kept && p in e.discovered && n in e.discovered[p]
    ensures f in kept && p in f.execution.inventory && n in f.execution.inventory[p]
    ensures Proven(f)
  {
    ShardDeclared(kept, shards, env, declared, e);
    if ShardOf(e).kind.Rest? {
      f := e;
    } else {
      var i := BinOf(e, declared, p, n);
      f := ShardPresent(kept, shards, env, declared, e, ShardKey(Integration, i + 1, e.execution.integrationCount));
      BinSelected(e, f, declared, i);
    }
  }

  lemma BinSelected(e: ShardEvidence, f: ShardEvidence, declared: seq<DarwinEntry>, i: nat)
    requires Agree(e, f) && ShardOf(e).kind.Integration? && i < |e.partition.bins|
    requires ShardOf(f).kind.Integration? && ShardOf(f).index == i + 1
    requires ValidPackages(f.packages) && SelectsItsShare(f, declared)
    ensures IntegrationPackage(e.packages) in f.execution.inventory
    ensures f.execution.inventory[IntegrationPackage(e.packages)] == e.partition.bins[i]
  {
  }

  // ----- the theorems -----

  /** The packages each shard set covers. */
  function Covered(shards: ShardSet, packages: seq<string>, declared: seq<DarwinEntry>): set<string>
    requires ValidPackages(packages)
    requires shards.DarwinOnly? ==> DarwinPackages(packages, declared).Accepted?
  {
    if shards.DarwinOnly? then DarwinPackages(packages, declared).value.Keys
    else if shards.AllShards? then Elements(packages)
    else if shards.RestOnly? then Elements(packages) - {IntegrationPackage(packages)}
    else {IntegrationPackage(packages)}
  }

  /** What one sound shard discovers, by kind. */
  lemma DiscoveredByKind(e: ShardEvidence, env: Environment, declared: seq<DarwinEntry>)
    requires Sound(e, env, declared)
    ensures ShardOf(e).kind.Darwin? ==> DarwinPackages(e.packages, declared).Accepted?
    ensures e.discovered.Keys ==
            match ShardOf(e).kind {
              case Darwin => DarwinPackages(e.packages, declared).value.Keys
              case Rest => Elements(e.packages) - {IntegrationPackage(e.packages)}
              case _ => {IntegrationPackage(e.packages)}
            }
  {
  }

  /** The shards that cover a set's packages between them. */
  function CoveringShard(shards: ShardSet, integration: bool, count: nat): ShardKey {
    if shards.DarwinOnly? then ShardKey(Darwin, 1, 1)
    else if integration then ShardKey(Integration, 1, count)
    else ShardKey(Rest, 1, 1)
  }

  lemma DiscoveredCovered(kept: set<ShardEvidence>, shards: ShardSet, env: Environment, declared: seq<DarwinEntry>,
                          f: ShardEvidence)
    requires VerifiesKept(kept, shards, env, declared) && f in kept
    ensures ValidPackages(f.packages)
    ensures shards.DarwinOnly? ==> DarwinPackages(f.packages, declared).Accepted?
    ensures f.discovered.Keys <= Covered(shards, f.packages, declared)
  {
    ShardDeclared(kept, shards, env, declared, f);
    DiscoveredByKind(f, env, declared);
  }

  lemma CoveredDiscovered(kept: set<ShardEvidence>, shards: ShardSet, env: Environment, declared: seq<DarwinEntry>,
                          e: ShardEvidence, p: string) returns (f: ShardEvidence)
    requires VerifiesKept(kept, shards, env, declared) && e in kept && ValidPackages(e.packages)
    requires shards.DarwinOnly? ==> DarwinPackages(e.packages, declared).Accepted?
    requires p in Covered(shards, e.packages, declared)
    ensures f in kept && p in f.discovered
  {
    ShardDeclared(kept, shards, env, declared, e);
    var shard := CoveringShard(shards, p == IntegrationPackage(e.packages), e.execution.integrationCount);
    f := ShardPresent(kept, shards, env, declared, e, shard);
    DiscoveredByKind(f, env, declared);
  }

  /** The closing coverage check of the source can never fail: the declared
      shards together discover exactly the covered packages. */
  lemma CoverageImplied(kept: set<ShardEvidence>, shards: ShardSet, env: Environment, declared: seq<DarwinEntry>,
                        e: ShardEvidence, p: string)
    requires VerifiesKept(kept, shards, env, declared) && e in kept
    ensures ValidPackages(e.packages)
    ensures shards.DarwinOnly? ==> DarwinPackages(e.packages, declared).Accepted?
    ensures p in Covered(shards, e.packages, declared) <==> exists f | f in kept :: p in f.discovered
  {
    DiscoveredCovered(kept, shards, env, declared, e);
    if p in Covered(shards, e.packages, declared) {
      var f := CoveredDiscovered(kept, shards, env, declared, e, p);
    }
    if f :| f in kept && p in f.discovered {
      assert Agree(e, f);
      DiscoveredCovered(kept, shards, env, declared, f);
    }
  }

  /** Every discovered family has an outcome; every case is a pass or a skip
      under a discovered family; and every outcome stands in the raw events of
      exactly one shard. */
  lemma VerifiedSound(kept: set<ShardEvidence>, shards: ShardSet, env: Environment, declared: seq<DarwinEntry>,
                      v: Verdict)
    requires VerifiesKept(kept, shards, env, declared) && Gathered(kept, v) && !shards.DarwinOnly?
    ensures forall p, n | p in v.inventory && n in v.inventory[p] :: (p, n) in v.cases
    ensures forall key | key in v.cases :: key.0 in v.inventory && Root(key.1) in v.inventory[key.0]
    ensures forall key | key in v.cases :: v.cases[key] == "pass" || v.cases[key] == "skip"
  {
    forall p, n | p in v.inventory && n in v.inventory[p] ensures (p, n) in v.cases {
      var e :| e in kept && p in e.discovered;
      var f := FamilySelected(kept, shards, env, declared, e, p, n);
      var outcome := SelectedSettled(f, p, n);
      assert Settles(v.cases, (p, n), outcome);
    }
    forall key | key in v.cases
      ensures key.0 in v.inventory && Root(key.1) in v.inventory[key.0]
      ensures v.cases[key] == "pass" || v.cases[key] == "skip"
    {
      CaseSound(kept, shards, env, declared, v, key);
    }
  }

  lemma CaseSound(kept: set<ShardEvidence>, shards: ShardSet, env: Environment, declared: seq<DarwinEntry>,
                  v: Verdict, key: Key)
    requires VerifiesKept(kept, shards, env, declared) && Gathered(kept, v) && key in v.cases
    ensures key.0 in v.inventory && Root(key.1) in v.inventory[key.0]
    ensures v.cases[key] == "pass" || v.cases[key] == "skip"
  {
    var e := CaseHolder(kept, shards, env, declared, v, key);
  }

  /** The shard that ran a returned case. */
  lemma CaseHolder(kept: set<ShardEvidence>, shards: ShardSet, env: Environment, declared: seq<DarwinEntry>, v: Verdict,
                   key: Key) returns (e: ShardEvidence)
    requires VerifiesKept(kept, shards, env, declared) && Gathered(kept, v) && key in v.cases
    ensures e in kept && v.cases[key] in {"pass", "skip"}
    ensures key.0 in e.execution.inventory && Root(key.1) in e.execution.inventory[key.0]
    ensures key.0 in e.discovered && Root(key.1) in e.discovered[key.0]
  {
    assert Settles(v.cases, key, v.cases[key]);
    e :| e in kept && HasOutcome(e, key, v.cases[key]);
    OutcomeSelected(e, key, v.cases[key]);
    SelectionDiscovered(e, env, declared, key.0, Root(key.1));
  }

  /** The returned outcomes are exactly those of the raw events, each from one
      shard only. */
  lemma OutcomesAreTheEvents(kept: set<ShardEvidence>, shards: ShardSet, env: Environment, declared: seq<DarwinEntry>,
                             v: Verdict, key: Key, outcome: string)
    requires VerifiesKept(kept, shards, env, declared) && Gathered(kept, v)
    ensures Settles(v.cases, key, outcome) <==>
            exists e | e in kept :: exists ev | ev in e.events :: Ends(ev, key, outcome)
    ensures forall e, f | e in kept && f in kept && HasOutcome(e, key, outcome) && HasOutcome(f, key, outcome) :: e == f
  {
    forall e | e in kept ensures HasOutcome(e, key, outcome) <==> exists ev | ev in e.events :: Ends(ev, key, outcome) {
      OutcomeFromEvents(e, key, outcome);
    }
    forall e, f | e in kept && f in kept && HasOutcome(e, key, outcome) && HasOutcome(f, key, outcome) ensures e == f {
      OutcomeSelected(e, key, outcome);
      OutcomeSelected(f, key, outcome);
    }
  }

  /** Each family is selected by one shard and no other. */
  lemma FamilySelectedOnce(kept: set<ShardEvidence>, shards: ShardSet, env: Environment, declared: seq<DarwinEntry>,
                           e: ShardEvidence, f: ShardEvidence, p: string, n: string)
    requires VerifiesKept(kept, shards, env, declared) && e in kept && f in kept
    requires p in e.execution.inventory && n in e.execution.inventory[p]
    requires p in f.execution.inventory && n in f.execution.inventory[p]
    ensures e == f
  {
    var a := SelectedSettled(e, p, n);
    var b := SelectedSettled(f, p, n);
    OutcomeSelected(e, (p, n), a);
    OutcomeSelected(f, (p, n), b);
  }

  /** The top-level families of a package's cases. */
  function RootsOf(v: Verdict, p: string): set<string> {
    set key | key in v.cases && key.0 == p :: Root(key.1)
  }

  lemma {:induction false} RootIdempotent(name: string)
    ensures Root(Root(name)) == Root(name)
  {
    if name != [] && name[0] != '/' { RootIdempotent(name[1..]); }
  }

  lemma {:induction false} RootOfItself(name: string)
    ensures Root(name) == name <==> '/' !in name
  {
    if name != [] {
      RootOfItself(name[1..]);
      assert name == [name[0]] + name[1..];
      if name[0] != '/' { assert Root(name)[1..] == Root(name[1..]); }
    }
  }

  /** The top-level families of a package's returned cases are exactly its
      discovered families, provided no discovered name contains a slash, which
      discovery guarantees; and only then. */
  lemma FamiliesExactlyRun(kept: set<ShardEvidence>, shards: ShardSet, env: Environment, declared: seq<DarwinEntry>,
                           v: Verdict, p: string)
    requires VerifiesKept(kept, shards, env, declared) && Gathered(kept, v) && !shards.DarwinOnly?
    requires p in v.inventory
    ensures RootsOf(v, p) == Elements(v.inventory[p]) <==> forall n | n in v.inventory[p] :: '/' !in n
  {
    VerifiedSound(kept, shards, env, declared, v);
    RootsExact(v, p, v.inventory[p]);
  }

  lemma RootsExact(v: Verdict, p: string, families: seq<string>)
    requires forall n | n in families :: (p, n) in v.cases
    requires forall key | key in v.cases && key.0 == p :: Root(key.1) in families
    ensures RootsOf(v, p) == Elements(families) <==> forall n | n in families :: '/' !in n
  {
    forall n | n in families ensures Root(n) == n <==> '/' !in n { RootOfItself(n); }
    if RootsOf(v, p) == Elements(families) {
      forall n | n in families ensures Root(n) == n {
        assert n in RootsOf(v, p);
        var key :| key in v.cases && key.0 == p && Root(key.1) == n;
        RootIdempotent(key.1);
      }
    }
    if forall n | n in families :: Root(n) == n {
      forall n | n in families ensures n in RootsOf(v, p) {
        assert (p, n) in v.cases && Root((p, n).1) == n;
      }
    }
  }

  // ----- the darwin set -----

  /** The families a darwin entry asks for, of those its package discovered. */
  function Wanted(entry: DarwinEntry, discovered: seq<string>): seq<string> {
    if entry.families.Some? then entry.families.value else discovered
  }

  /** The darwin verdict, entry by entry: the named package ran exactly the
      wanted families, each at the top of some case, and every case passed or
      was skipped. */
  lemma DarwinSound(kept: set<ShardEvidence>, env: Environment, declared: seq<DarwinEntry>, v: Verdict,
                    e: ShardEvidence, entry: DarwinEntry) returns (p: string)
    requires VerifiesKept(kept, DarwinOnly, env, declared) && Gathered(kept, v)
    requires e in kept && entry in declared
    ensures Resolves(e.packages, entry, p) && p in v.inventory
    ensures forall n | n in Wanted(entry, v.inventory[p]) :: (p, n) in v.cases
    ensures forall key | key in v.cases && key.0 == p :: Root(key.1) in Wanted(entry, v.inventory[p])
    ensures forall key | key in v.cases :: v.cases[key] == "pass" || v.cases[key] == "skip"
    ensures RootsOf(v, p) == Elements(Wanted(entry, v.inventory[p])) <==>
            forall n | n in Wanted(entry, v.inventory[p]) :: '/' !in n
  {
    ShardDeclared(kept, DarwinOnly, env, declared, e);
    p := DarwinEntryRan(e, env, declared, entry);
    assert v.inventory[p] == e.discovered[p];
    forall n | n in Wanted(entry, v.inventory[p]) ensures (p, n) in v.cases {
      var outcome := SelectedSettled(e, p, n);
      assert Settles(v.cases, (p, n), outcome);
    }
    forall key | key in v.cases && key.0 == p ensures Root(key.1) in Wanted(entry, v.inventory[p]) {
      DarwinCaseWanted(kept, env, declared, v, e, entry, key);
    }
    forall key | key in v.cases ensures v.cases[key] == "pass" || v.cases[key] == "skip" {
      CaseSound(kept, DarwinOnly, env, declared, v, key);
    }
    RootsExact(v, p, Wanted(entry, v.inventory[p]));
  }

  /** A case of a named package belongs to a wanted family. */
  lemma DarwinCaseWanted(kept: set<ShardEvidence>, env: Environment, declared: seq<DarwinEntry>, v: Verdict,
                         e: ShardEvidence, entry: DarwinEntry, key: Key)
    requires VerifiesKept(kept, DarwinOnly, env, declared) && Gathered(kept, v)
    requires e in kept && entry in declared && key in v.cases && Resolves(e.packages, entry, key.0)
    ensures key.0 in v.inventory && Root(key.1) in Wanted(entry, v.inventory[key.0])
  {
    var f := CaseHolder(kept, DarwinOnly, env, declared, v, key);
    DarwinShard(kept, env, declared, e, f);
    var p := DarwinEntryRan(f, env, declared, entry);
    assert [p] == [key.0];
  }

  lemma DarwinShard(kept: set<ShardEvidence>, env: Environment, declared: seq<DarwinEntry>,
                    e: ShardEvidence, f: ShardEvidence)
    requires VerifiesKept(kept, DarwinOnly, env, declared) && e in kept && f in kept
    ensures Sound(f, env, declared) && ShardOf(f).kind.Darwin? && f.packages == e.packages
  {
    ShardDeclared(kept, DarwinOnly, env, declared, f);
    assert Agree(e, f);
  }

  /** No case lies outside the declared packages. */
  lemma DarwinNothingElse(kept: set<ShardEvidence>, env: Environment, declared: seq<DarwinEntry>, v: Verdict,
                          e: ShardEvidence, key: Key) returns (entry: DarwinEntry)
    requires VerifiesKept(kept, DarwinOnly, env, declared) && Gathered(kept, v) && e in kept && key in v.cases
    ensures entry in declared && Resolves(e.packages, entry, key.0)
  {
    var f := CaseHolder(kept, DarwinOnly, env, declared, v, key);
    DarwinShard(kept, env, declared, e, f);
    entry := DiscoveredEntry(f, env, declared, key.0);
  }

  lemma DiscoveredEntry(f: ShardEvidence, env: Environment, declared: seq<DarwinEntry>, p: string)
    returns (entry: DarwinEntry)
    requires Sound(f, env, declared) && ShardOf(f).kind.Darwin? && p in f.discovered
    ensures entry in declared && Resolves(f.packages, entry, p)
  {
    DarwinPackagesMeaning(f.packages, declared);
    entry :| entry in declared && Resolves(f.packages, entry, p);
  }

  lemma DarwinEntryRan(e: ShardEvidence, env: Environment, declared: seq<DarwinEntry>, entry: DarwinEntry)
    returns (p: string)
    requires Sound(e, env, declared) && ShardOf(e).kind.Darwin? && entry in declared
    ensures Resolves(e.packages, entry, p) && p in e.discovered && p in e.execution.inventory
    ensures forall n :: n in e.execution.inventory[p] <==> n in Wanted(entry, e.discovered[p])
  {
    var chosen := DarwinPackages(e.packages, declared).value;
    DarwinPackagesMeaning(e.packages, declared);
    p := EntryPackage(e.packages, declared, entry);
    assert p in chosen && chosen[p] == entry.families;
    SelectedWanted(chosen, e.discovered, p, entry);
  }

  lemma EntryPackage(packages: seq<string>, declared: seq<DarwinEntry>, entry: DarwinEntry) returns (p: string)
    requires Resolvable(packages, declared) && entry in declared
    ensures Resolves(packages, entry, p)
  {
    var i :| 0 <= i < |declared| && declared[i] == entry;
    p := Matching(packages, "/" + entry.package)[0];
  }

  lemma SelectedWanted(chosen: DarwinChoice, discovered: Inventory, p: string, entry: DarwinEntry)
    requires chosen.Keys <= discovered.Keys && DarwinFamilies(chosen, discovered).Accepted?
    requires p in chosen && chosen[p] == entry.families
    ensures p in DarwinFamilies(chosen, discovered).value
    ensures forall n :: n in DarwinFamilies(chosen, discovered).value[p] <==> n in Wanted(entry, discovered[p])
  {
    DarwinFamiliesExact(chosen, discovered);
    if entry.families.Some? {
      Sorting.SameElements(DarwinFamilies(chosen, discovered).value[p], entry.families.value);
    }
  }

  /** Rerunning a shard leaves its earlier attempts inert: adding one anywhere
      changes neither the verdict nor the evidence it rests on. */
  lemma RerunInert(a: seq<ShardEvidence>, x: ShardEvidence, b: seq<ShardEvidence>, later: ShardEvidence,
                   shards: ShardSet, env: Environment, declared: seq<DarwinEntry>)
    requires later in a + b && ShardOf(later) == ShardOf(x) && AttemptOf(x) < AttemptOf(later)
    requires RunAttempt(x.metadata).Some?
    requires forall e | e in a + b && ShardOf(e) == ShardOf(x) :: AttemptOf(e) != AttemptOf(x)
    ensures Kept(a + [x] + b) == Kept(a + b)
    ensures Verifies(a + [x] + b, shards, env, declared) <==> Verifies(a + b, shards, env, declared)
  {
    EarlierAttemptInert(a, x, b, later, env.attempt);
  }

  /** One set of evidence determines what verification returns. */
  lemma VerdictUnique(kept: set<ShardEvidence>, v: Verdict, w: Verdict)
    requires Gathered(kept, v) && Gathered(kept, w)
    ensures v.inventory == w.inventory && v.cases == w.cases
  {
    forall p ensures p in v.inventory <==> p in w.inventory { }
    forall p | p in v.inventory ensures v.inventory[p] == w.inventory[p] {
      var e :| e in kept && p in e.discovered;
    }
    forall key | key in v.cases ensures key in w.cases && w.cases[key] == v.cases[key] {
      assert Settles(v.cases, key, v.cases[key]);
      assert Settles(w.cases, key, v.cases[key]);
    }
    forall key | key in w.cases ensures key in v.cases {
      assert Settles(w.cases, key, w.cases[key]);
      assert Settles(v.cases, key, w.cases[key]);
    }
  }

  /** So a rerun shard's earlier attempt leaves the returned inventory and cases. */
  lemma RerunSameVerdict(a: seq<ShardEvidence>, x: ShardEvidence, b: seq<ShardEvidence>, later: ShardEvidence,
                         v: Verdict, w: Verdict)
    requires later in a + b && ShardOf(later) == ShardOf(x) && AttemptOf(x) < AttemptOf(later)
    requires RunAttempt(x.metadata).Some?
    requires forall e | e in a + b && ShardOf(e) == ShardOf(x) :: AttemptOf(e) != AttemptOf(x)
    requires Gathered(Kept(a + [x] + b), v) && Gathered(Kept(a + b), w)
    ensures v.inventory == w.inventory && v.cases == w.cases
  {
    EarlierAttemptInert(a, x, b, later, None);
    VerdictUnique(Kept(a + b), v, w);
  }
}
