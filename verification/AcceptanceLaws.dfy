/** The aggregator's verdict, spelled out over the evidence: whose run it is,
    which shards there are, what each one ran, and where they must agree. */
module AcceptanceLaws {
  import opened Outcomes
  import opened Strings
  import opened Sorting
  import opened Partition
  import opened Accounting
  import opened Evidence
  import opened Selection
  import opened Verifier

  // ----- whose run it is -----

  /** The tested commit, tree, toolchain and platform are recorded, and the
      evidence is of this commit and this CI run where those are known. */
  predicate ThisRun(m: map<string, string>, env: Environment) {
    && "tested_commit" in m && m["tested_commit"] != ""
    && "production_tree" in m && m["production_tree"] != ""
    && "go" in m && m["go"] != ""
    && "platform" in m && m["platform"] != ""
    && (env.sha != "" ==> m["tested_commit"] == env.sha)
    && (env.runId != "" ==> "GITHUB_RUN_ID" in m && m["GITHUB_RUN_ID"] == env.runId)
  }

  predicate SameMember(a: map<string, string>, b: map<string, string>, key: string) {
    (key in a <==> key in b) && (key in a && key in b ==> a[key] == b[key])
  }

  predicate SameRun(a: map<string, string>, b: map<string, string>) {
    && SameMember(a, b, "tested_commit") && SameMember(a, b, "production_tree")
    && SameMember(a, b, "go") && SameMember(a, b, "platform")
    && SameMember(a, b, "PR_HEAD") && SameMember(a, b, "PR_BASE")
    && SameMember(a, b, "GITHUB_RUN_ID") && SameMember(a, b, "ImageOS")
  }

  lemma ThisRunIff(m: map<string, string>, env: Environment)
    ensures Identified(m, env) <==> ThisRun(m, env)
  {
    var r := REQUIRED_IDENTITY;
    assert |r| == 4 && r[0] == "tested_commit" && r[1] == "production_tree" && r[2] == "go" && r[3] == "platform";
  }

  lemma SameMemberIff(a: map<string, string>, b: map<string, string>, key: string)
    ensures Get(a, key) == Get(b, key) <==> SameMember(a, b, key)
  {
  }

  lemma SameRunIff(a: map<string, string>, b: map<string, string>)
    ensures SameIdentity(a, b) <==> SameRun(a, b)
  {
    var s := SHARED_IDENTITY;
    assert |s| == 8 && s[0] == "tested_commit" && s[1] == "production_tree" && s[2] == "go" && s[3] == "platform";
    assert s[4] == "PR_HEAD" && s[5] == "PR_BASE" && s[6] == "GITHUB_RUN_ID" && s[7] == "ImageOS";
    forall i | 0 <= i < 8 ensures Get(a, s[i]) == Get(b, s[i]) <==>
      SameMember(a, b, s[i]) { SameMemberIff(a, b, s[i]); }
  }

  // ----- which shards there are -----

  /** The shard belongs to the set, for n integration shards. */
  predicate Belongs(shard: ShardKey, shards: ShardSet, n: int) {
    var rest := shard == ShardKey(Rest, 1, 1);
    var integration := shard.kind == Integration && shard.count == n && 1 <= shard.index <= n;
    match shards
    case AllShards => rest || integration
    case RestOnly => rest
    case IntegrationOnly => integration
    case DarwinOnly => shard == ShardKey(Darwin, 1, 1)
    case OtherSet(_) => false
  }

  lemma BelongsIff(shard: ShardKey, shards: ShardSet, n: nat)
    requires !shards.OtherSet?
    ensures shard in Expected(shards, n) <==> Belongs(shard, shards, n)
  {
    if shard.kind == Integration && shard.count == n && 1 <= shard.index <= n {
      assert shard == ShardKey(Integration, shard.index, n);
    }
  }

  // ----- what each one ran -----

  predicate Tail(p: string, suffix: string) {
    exists k :: 0 <= k <= |p| && p[k..] == suffix
  }

  /** The package at this position, and no other, has the suffix. */
  ghost predicate OnlyMatch(packages: seq<string>, suffix: string, i: int) {
    0 <= i < |packages| && forall j | 0 <= j < |packages| :: Tail(packages[j], suffix) <==> j == i
  }

  lemma TailIff(p: string, suffix: string)
    ensures EndsWith(p, suffix) <==> Tail(p, suffix)
  {
    if EndsWith(p, suffix) { assert p[|p| - |suffix|..] == suffix; }
  }

  lemma {:induction false} NoMatch(packages: seq<string>, suffix: string)
    ensures Matching(packages, suffix) == [] <==> forall j | 0 <= j < |packages| :: !Tail(packages[j], suffix)
  {
    if packages != [] {
      var n := |packages| - 1;
      NoMatch(packages[..n], suffix);
      TailIff(packages[n], suffix);
      assert forall j | 0 <= j < n :: packages[..n][j] == packages[j];
    }
  }

  lemma {:induction false} OneMatch(packages: seq<string>, suffix: string, i: int)
    requires OnlyMatch(packages, suffix, i)
    ensures Matching(packages, suffix) == [packages[i]]
  {
    var n := |packages| - 1;
    assert forall j | 0 <= j < n :: packages[..n][j] == packages[j];
    TailIff(packages[n], suffix);
    if i == n {
      NoMatch(packages[..n], suffix);
    } else {
      OneMatch(packages[..n], suffix, i);
    }
  }

  lemma {:induction false} MatchPosition(packages: seq<string>, suffix: string) returns (i: int)
    requires |Matching(packages, suffix)| == 1
    ensures OnlyMatch(packages, suffix, i)
  {
    var n := |packages| - 1;
    assert forall j | 0 <= j < n :: packages[..n][j] == packages[j];
    TailIff(packages[n], suffix);
    if EndsWith(packages[n], suffix) {
      i := n;
      NoMatch(packages[..n], suffix);
    } else {
      i := MatchPosition(packages[..n], suffix);
    }
  }

  lemma MatchingIff(packages: seq<string>, suffix: string)
    ensures |Matching(packages, suffix)| == 1 <==> exists i :: OnlyMatch(packages, suffix, i)
    ensures forall i | OnlyMatch(packages, suffix, i) :: Matching(packages, suffix) == [packages[i]]
  {
    forall i | OnlyMatch(packages, suffix, i) ensures Matching(packages, suffix) == [packages[i]] {
      OneMatch(packages, suffix, i);
    }
    if |Matching(packages, suffix)| == 1 { var i := MatchPosition(packages, suffix); }
  }

  /** A nonempty list of distinct packages, one of them the integration package. */
  ghost predicate Listing(packages: seq<string>, package: string) {
    && packages != [] && (forall i, j | 0 <= i < j < |packages| :: packages[i] != packages[j])
    && exists i :: OnlyMatch(packages, "/internal/integration", i) && packages[i] == package
  }

  lemma ListingIff(packages: seq<string>, package: string)
    ensures Listing(packages, package) <==> ValidPackages(packages) && IntegrationPackage(packages) == package
  {
    MatchingIff(packages, "/internal/integration");
    if ValidPackages(packages) {
      var i :| OnlyMatch(packages, "/internal/integration", i);
      assert Matching(packages, "/internal/integration") == [packages[i]];
    }
  }

  /** The rest shard ran all that every other package has. */
  ghost predicate RanRest(e: ShardEvidence, package: string) {
    && (forall p :: p in e.discovered <==> p in e.packages && p != package)
    && e.execution.inventory == e.discovered
  }

  /** An integration shard ran its bin of a partition that covers the
      integration package's families. */
  ghost predicate RanBin(e: ShardEvidence, package: string) {
    var bins, i := e.partition.bins, e.execution.shard.index - 1;
    && (forall p :: p in e.discovered <==> p == package)
    && e.partition.count == e.execution.integrationCount == |bins|
    && (forall b | 0 <= b < |bins| :: bins[b] != [])
    && multiset(Flatten(bins)) == multiset(e.discovered[package])
    && 0 <= i < |bins| && e.execution.inventory == map[package := bins[i]]
  }

  /** The entry names the package at position i. */
  ghost predicate Names(packages: seq<string>, entry: DarwinEntry, i: int) {
    OnlyMatch(packages, "/" + entry.package, i)
  }

  /** Every entry names a package, and no two name the same. */
  ghost predicate NamedApart(packages: seq<string>, declared: seq<DarwinEntry>) {
    && (forall entry | entry in declared :: exists i :: Names(packages, entry, i))
    && (forall j, k, i | 0 <= j < |declared| && 0 <= k < |declared| &&
                         Names(packages, declared[j], i) && Names(packages, declared[k], i) :: j == k)
  }

  /** The entry names this package. */
  ghost predicate Asks(packages: seq<string>, entry: DarwinEntry, p: string) {
    exists i :: Names(packages, entry, i) && packages[i] == p
  }

  /** The darwin shard discovered the named packages, and of each ran the declared
      families, in order, or all. */
  ghost predicate RanDarwin(e: ShardEvidence, declared: seq<DarwinEntry>) {
    && NamedApart(e.packages, declared)
    && (forall p | p in e.discovered :: exists entry | entry in declared :: Asks(e.packages, entry, p))
    && (forall p | p in e.execution.inventory :: p in e.discovered)
    && (forall entry, p | entry in declared && Asks(e.packages, entry, p) ::
          p in e.discovered && p in e.execution.inventory &&
          RanEntry(entry.families, e.discovered[p], e.execution.inventory[p]))
  }

  ghost predicate RanEntry(families: Option<seq<string>>, discovered: seq<string>, selected: seq<string>) {
    if families.None? then selected == discovered
    else
      && (forall n | n in families.value :: n in discovered)
      && multiset(selected) == multiset(families.value) && SortedBy(LexLe, selected)
  }

  ghost predicate RanItsShare(e: ShardEvidence, package: string, declared: seq<DarwinEntry>) {
    match e.execution.shard.kind
    case Rest => RanRest(e, package)
    case Darwin => RanDarwin(e, declared)
    case _ => RanBin(e, package)
  }

  lemma AsksIff(packages: seq<string>, entry: DarwinEntry, p: string)
    ensures Asks(packages, entry, p) <==> Resolves(packages, entry, p)
  {
    MatchingIff(packages, "/" + entry.package);
    if Resolves(packages, entry, p) {
      var i :| OnlyMatch(packages, "/" + entry.package, i);
      assert Matching(packages, "/" + entry.package) == [packages[i]];
      assert Names(packages, entry, i);
    }
  }

  lemma SamePosition(packages: seq<string>, a: DarwinEntry, b: DarwinEntry, i: int)
    requires Names(packages, a, i)
    ensures Names(packages, b, i) <==> Matching(packages, "/" + b.package) == Matching(packages, "/" + a.package) &&
                                       exists j :: Names(packages, b, j)
  {
    MatchingIff(packages, "/" + a.package);
    MatchingIff(packages, "/" + b.package);
    if j :| Names(packages, b, j) {
      assert Matching(packages, "/" + b.package) == [packages[j]];
      if Matching(packages, "/" + b.package) == Matching(packages, "/" + a.package) {
        PositionOf(packages, "/" + a.package, "/" + b.package, i, j);
      }
    }
  }

  /** Two suffixes with one match, and the same, are matched at one position. */
  lemma PositionOf(packages: seq<string>, s: string, t: string, i: int, j: int)
    requires OnlyMatch(packages, s, i) && OnlyMatch(packages, t, j) && packages[i] == packages[j]
    ensures i == j
  {
    assert Tail(packages[j], s);
  }

  lemma NamedIff(packages: seq<string>, declared: seq<DarwinEntry>)
    ensures NamedApart(packages, declared) <==> Resolvable(packages, declared)
  {
    if NamedApart(packages, declared) { ApartResolvable(packages, declared); }
    if Resolvable(packages, declared) { ResolvableApart(packages, declared); }
  }

  lemma ApartResolvable(packages: seq<string>, declared: seq<DarwinEntry>)
    requires NamedApart(packages, declared)
    ensures Resolvable(packages, declared)
  {
    forall k | 0 <= k < |declared| ensures |Matching(packages, "/" + declared[k].package)| == 1 {
      assert declared[k] in declared;
      var i :| Names(packages, declared[k], i);
      MatchingIff(packages, "/" + declared[k].package);
    }
    forall j, k | 0 <= j < k < |declared|
      ensures Matching(packages, "/" + declared[j].package) != Matching(packages, "/" + declared[k].package)
    {
      assert declared[j] in declared && declared[k] in declared;
      var i :| Names(packages, declared[j], i);
      SamePosition(packages, declared[j], declared[k], i);
    }
  }

  lemma ResolvableApart(packages: seq<string>, declared: seq<DarwinEntry>)
    requires Resolvable(packages, declared)
    ensures NamedApart(packages, declared)
  {
    forall entry | entry in declared ensures exists i :: Names(packages, entry, i) {
      var k :| 0 <= k < |declared| && declared[k] == entry;
      var i := MatchPosition(packages, "/" + declared[k].package);
      assert Names(packages, entry, i);
    }
    forall j, k, i | 0 <= j < |declared| && 0 <= k < |declared| &&
                     Names(packages, declared[j], i) && Names(packages, declared[k], i)
      ensures j == k
    {
      SamePosition(packages, declared[j], declared[k], i);
    }
  }

  lemma RestIff(e: ShardEvidence, package: string, declared: seq<DarwinEntry>)
    requires ValidPackages(e.packages) && IntegrationPackage(e.packages) == package && ShardOf(e).kind.Rest?
    ensures SelectsItsShare(e, declared) <==> RanRest(e, package)
  {
  }

  lemma BinIff(e: ShardEvidence, package: string, declared: seq<DarwinEntry>)
    requires ValidPackages(e.packages) && IntegrationPackage(e.packages) == package
    requires !ShardOf(e).kind.Rest? && !ShardOf(e).kind.Darwin?
    ensures SelectsItsShare(e, declared) <==> RanBin(e, package)
  {
    assert e.discovered.Keys == {package} <==> forall p :: p in e.discovered <==> p == package;
  }

  /** The same in terms of the resolution. */
  ghost predicate RanResolved(e: ShardEvidence, declared: seq<DarwinEntry>) {
    && Resolvable(e.packages, declared)
    && (forall p | p in e.discovered :: exists entry | entry in declared :: Resolves(e.packages, entry, p))
    && (forall p | p in e.execution.inventory :: p in e.discovered)
    && (forall entry, p | entry in declared && Resolves(e.packages, entry, p) ::
          p in e.discovered && p in e.execution.inventory &&
          RanEntry(entry.families, e.discovered[p], e.execution.inventory[p]))
  }

  lemma ResolvedIff(e: ShardEvidence, declared: seq<DarwinEntry>)
    ensures RanDarwin(e, declared) <==> RanResolved(e, declared)
  {
    NamedIff(e.packages, declared);
    forall entry, p ensures Asks(e.packages, entry, p) <==> Resolves(e.packages, entry, p) {
      AsksIff(e.packages, entry, p);
    }
  }

  lemma RanIsSelected(chosen: DarwinChoice, e: ShardEvidence)
    requires chosen.Keys == e.discovered.Keys && chosen.Keys == e.execution.inventory.Keys
    requires forall p | p in chosen :: RanEntry(chosen[p], e.discovered[p], e.execution.inventory[p])
    ensures DarwinFamilies(chosen, e.discovered) == Accepted(e.execution.inventory)
  {
    DarwinFamiliesExact(chosen, e.discovered);
    forall p, n | p in chosen && chosen[p].Some? && n in chosen[p].value ensures n in e.discovered[p] {
      assert RanEntry(chosen[p], e.discovered[p], e.execution.inventory[p]);
    }
    LexIsTotalOrder();
    var selected := DarwinFamilies(chosen, e.discovered).value;
    forall p | p in chosen ensures selected[p] == e.execution.inventory[p] {
      assert SelectsChosen(chosen[p], e.discovered[p], selected[p]);
      assert RanEntry(chosen[p], e.discovered[p], e.execution.inventory[p]);
      if chosen[p].Some? { SortedUnique(LexLe, selected[p], e.execution.inventory[p]); }
    }
    assert selected.Keys == e.execution.inventory.Keys;
    assert selected == e.execution.inventory;
  }

  lemma SelectedIsRan(chosen: DarwinChoice, e: ShardEvidence)
    requires chosen.Keys == e.discovered.Keys
    requires DarwinFamilies(chosen, e.discovered) == Accepted(e.execution.inventory)
    ensures chosen.Keys == e.execution.inventory.Keys
    ensures forall p | p in chosen :: RanEntry(chosen[p], e.discovered[p], e.execution.inventory[p])
  {
    DarwinFamiliesExact(chosen, e.discovered);
  }

  lemma ChosenRan(e: ShardEvidence, declared: seq<DarwinEntry>, chosen: DarwinChoice, p: string)
    requires Chooses(e.packages, declared, chosen) && RanResolved(e, declared) && p in chosen
    ensures p in e.discovered && p in e.execution.inventory
    ensures RanEntry(chosen[p], e.discovered[p], e.execution.inventory[p])
  {
    var entry :| entry in declared && Resolves(e.packages, entry, p);
    assert chosen[p] == entry.families;
  }

  lemma DiscoveredChosen(e: ShardEvidence, declared: seq<DarwinEntry>, chosen: DarwinChoice, p: string)
    requires Chooses(e.packages, declared, chosen) && RanResolved(e, declared) && p in e.discovered
    ensures p in chosen
  {
    var entry :| entry in declared && Resolves(e.packages, entry, p);
  }

  lemma RanChosen(e: ShardEvidence, declared: seq<DarwinEntry>, chosen: DarwinChoice)
    requires Chooses(e.packages, declared, chosen) && RanResolved(e, declared)
    ensures chosen.Keys == e.discovered.Keys
    ensures DarwinFamilies(chosen, e.discovered) == Accepted(e.execution.inventory)
  {
    SameKeys(e, declared, chosen);
    forall p | p in chosen ensures RanEntry(chosen[p], e.discovered[p], e.execution.inventory[p]) {
      ChosenRan(e, declared, chosen, p);
    }
    RanIsSelected(chosen, e);
  }

  predicate KeyAgrees(e: ShardEvidence, chosen: DarwinChoice, p: string) {
    (p in chosen <==> p in e.discovered) && (p in chosen <==> p in e.execution.inventory)
  }

  lemma SameKeys(e: ShardEvidence, declared: seq<DarwinEntry>, chosen: DarwinChoice)
    requires Chooses(e.packages, declared, chosen) && RanResolved(e, declared)
    ensures chosen.Keys == e.discovered.Keys && chosen.Keys == e.execution.inventory.Keys
  {
    forall p ensures KeyAgrees(e, chosen, p) { KeyIff(e, declared, chosen, p); }
    KeysAgree(e, chosen);
  }

  lemma KeysAgree(e: ShardEvidence, chosen: DarwinChoice)
    requires forall p :: KeyAgrees(e, chosen, p)
    ensures chosen.Keys == e.discovered.Keys && chosen.Keys == e.execution.inventory.Keys
  {
    forall p ensures p in chosen <==> p in e.discovered { assert KeyAgrees(e, chosen, p); }
    forall p ensures p in chosen <==> p in e.execution.inventory { assert KeyAgrees(e, chosen, p); }
  }

  lemma KeyIff(e: ShardEvidence, declared: seq<DarwinEntry>, chosen: DarwinChoice, p: string)
    requires Chooses(e.packages, declared, chosen) && RanResolved(e, declared)
    ensures KeyAgrees(e, chosen, p)
  {
    if p in chosen { ChosenRan(e, declared, chosen, p); }
    if p in e.discovered { DiscoveredChosen(e, declared, chosen, p); }
  }

  lemma ChosenIsRan(e: ShardEvidence, declared: seq<DarwinEntry>, chosen: DarwinChoice)
    requires Chooses(e.packages, declared, chosen) && Resolvable(e.packages, declared)
    requires chosen.Keys == e.discovered.Keys && DarwinFamilies(chosen, e.discovered) == Accepted(e.execution.inventory)
    ensures RanResolved(e, declared)
  {
    SelectedIsRan(chosen, e);
    forall p | p in e.discovered ensures exists entry | entry in declared :: Resolves(e.packages, entry, p) {
      assert p in chosen;
    }
    forall p | p in e.execution.inventory ensures p in e.discovered {
      assert p in chosen;
    }
  }

  lemma DarwinIff(e: ShardEvidence, declared: seq<DarwinEntry>)
    requires ValidPackages(e.packages) && ShardOf(e).kind.Darwin?
    ensures SelectsItsShare(e, declared) <==> RanDarwin(e, declared)
  {
    ResolvedIff(e, declared);
    DarwinPackagesMeaning(e.packages, declared);
    if Resolvable(e.packages, declared) {
      var chosen := DarwinPackages(e.packages, declared).value;
      if SelectsItsShare(e, declared) { ChosenIsRan(e, declared, chosen); }
      if RanResolved(e, declared) { RanChosen(e, declared, chosen); }
    }
  }

  lemma ShareIff(e: ShardEvidence, package: string, declared: seq<DarwinEntry>)
    requires ValidPackages(e.packages) && IntegrationPackage(e.packages) == package
    ensures SelectsItsShare(e, declared) <==> RanItsShare(e, package, declared)
  {
    match ShardOf(e).kind {
      case Rest => RestIff(e, package, declared);
      case Darwin => DarwinIff(e, declared);
      case _ => BinIff(e, package, declared);
    }
  }

  // ----- which attempts count -----

  /** Attempts are numbered, and no shard has two of one number. */
  ghost predicate Numbered(paths: seq<ShardEvidence>) {
    && (forall e | e in paths :: RunAttempt(e.metadata).Some?)
    && (forall i, j | 0 <= i < j < |paths| && paths[i].execution.shard == paths[j].execution.shard ::
          RunAttempt(paths[i].metadata) != RunAttempt(paths[j].metadata))
  }

  /** Of its shard, the evidence has the greatest number. */
  predicate IsLatest(paths: seq<ShardEvidence>, e: ShardEvidence)
    requires forall f | f in paths :: RunAttempt(f.metadata).Some?
  {
    e in paths && forall f | f in paths && f.execution.shard == e.execution.shard ::
      RunAttempt(f.metadata).value <= RunAttempt(e.metadata).value
  }

  lemma KeptIff(paths: seq<ShardEvidence>, e: ShardEvidence)
    requires forall f | f in paths :: RunAttempt(f.metadata).Some?
    ensures e in Kept(paths) <==> IsLatest(paths, e)
  {
  }

  lemma {:induction false} GroupNumbers(paths: seq<ShardEvidence>, shard: ShardKey)
    ensures NumbersDiffer(Attempts(paths, shard)) <==>
            forall i, j | 0 <= i < j < |paths| && paths[i].execution.shard == shard == paths[j].execution.shard ::
              AttemptOf(paths[i]) != AttemptOf(paths[j])
  {
    if paths != [] {
      var n := |paths| - 1;
      var front, last := paths[..n], paths[n];
      GroupNumbers(front, shard);
      assert forall i | 0 <= i < n :: front[i] == paths[i];
      if ShardOf(last) == shard {
        LastNumber(front, last, shard);
        assert forall i | 0 <= i < n :: paths[i] in front;
      }
    }
  }

  lemma LastNumber(front: seq<ShardEvidence>, last: ShardEvidence, shard: ShardKey)
    ensures NumbersDiffer(Attempts(front, shard) + [last]) <==>
            NumbersDiffer(Attempts(front, shard)) &&
            forall e | e in front && e.execution.shard == shard :: AttemptOf(e) != AttemptOf(last)
  {
    var group := Attempts(front, shard);
    var all := group + [last];
    forall e ensures e in group <==> e in front && ShardOf(e) == shard { AttemptsMember(front, shard, e); }
    assert forall i | 0 <= i < |group| :: all[i] == group[i] && all[i] in group;
    if NumbersDiffer(all) {
      forall i, j | 0 <= i < j < |group| ensures AttemptOf(group[i]) != AttemptOf(group[j]) {
        assert AttemptOf(all[i]) != AttemptOf(all[j]);
      }
      forall e | e in group ensures AttemptOf(e) != AttemptOf(last) {
        var i :| 0 <= i < |group| && group[i] == e;
        assert AttemptOf(all[i]) != AttemptOf(all[|group|]);
      }
    }
  }

  lemma NumberedIff(paths: seq<ShardEvidence>)
    ensures Numbered(paths) <==> (forall e | e in paths :: RunAttempt(e.metadata).Some?) && AllNumbersDiffer(paths)
  {
    if forall e | e in paths :: RunAttempt(e.metadata).Some? {
      forall i | 0 <= i < |paths| ensures RunAttempt(paths[i].metadata) == Some(AttemptOf(paths[i])) {
        assert paths[i] in paths;
      }
      if AllNumbersDiffer(paths) {
        forall i, j | 0 <= i < j < |paths| && paths[i].execution.shard == paths[j].execution.shard
          ensures AttemptOf(paths[i]) != AttemptOf(paths[j])
        {
          GroupNumbers(paths, paths[i].execution.shard);
        }
      }
      if Numbered(paths) {
        forall shard ensures NumbersDiffer(Attempts(paths, shard)) { GroupNumbers(paths, shard); }
      }
    }
  }

  // ----- the verdict -----

  /** One shard's evidence is of this run, lists the packages, ran its share, and
      its report is what its clean events say. */
  ghost predicate Holds(e: ShardEvidence, env: Environment, declared: seq<DarwinEntry>) {
    && ThisRun(e.metadata, env)
    && (exists package :: Listing(e.packages, package) && RanItsShare(e, package, declared))
    && CleanRun(e.events, e.execution.inventory) && Reports(e.events, e.execution.report)
  }

  /** Two shards are of one run and saw one package list, count, discovery and,
      where both are integration shards, partition; no case is in both. */
  predicate Fit(e: ShardEvidence, f: ShardEvidence) {
    && SameRun(e.metadata, f.metadata) && e.packages == f.packages
    && e.execution.integrationCount == f.execution.integrationCount
    && (forall p | p in e.discovered && p in f.discovered :: e.discovered[p] == f.discovered[p])
    && (e.execution.shard.kind == Integration == f.execution.shard.kind ==> e.partition.bins == f.partition.bins)
    && (e != f ==> forall c, d | c in e.execution.report.cases && d in f.execution.report.cases ::
          !(c.package == d.package && c.name == d.name))
  }

  /** The kept evidence is of exactly the shards that the set declares for its count. */
  ghost predicate Declared(kept: set<ShardEvidence>, shards: ShardSet) {
    && !shards.OtherSet? && kept != {}
    && forall e | e in kept ::
         var n := e.execution.integrationCount;
         n > 0 && forall shard :: (exists f | f in kept :: f.execution.shard == shard) <==> Belongs(shard, shards, n)
  }

  /** What the aggregator accepts. */
  ghost predicate Acceptable(paths: seq<ShardEvidence>, shards: ShardSet, env: Environment,
                             declared: seq<DarwinEntry>) {
    && Numbered(paths)
    && var kept := set e | e in paths && IsLatest(paths, e);
       && (env.attempt.Some? ==> forall e | e in kept :: RunAttempt(e.metadata).value <= env.attempt.value)
       && Declared(kept, shards)
       && (forall e | e in kept :: Holds(e, env, declared))
       && (forall e, f | e in kept && f in kept :: Fit(e, f))
  }

  lemma HoldsIff(e: ShardEvidence, env: Environment, declared: seq<DarwinEntry>)
    ensures Sound(e, env, declared) <==> Holds(e, env, declared)
  {
    ThisRunIff(e.metadata, env);
    if ValidPackages(e.packages) {
      var package := IntegrationPackage(e.packages);
      ListingIff(e.packages, package);
      ShareIff(e, package, declared);
    }
    if Holds(e, env, declared) {
      var package :| Listing(e.packages, package) && RanItsShare(e, package, declared);
      ListingIff(e.packages, package);
    }
  }

  lemma FitIff(e: ShardEvidence, f: ShardEvidence)
    ensures Agree(e, f) && (e != f ==> CaseKeys(e) !! CaseKeys(f)) <==> Fit(e, f)
  {
    SameRunIff(e.metadata, f.metadata);
    CasesApart(e, f);
  }

  lemma CasesApart(e: ShardEvidence, f: ShardEvidence)
    ensures CaseKeys(e) !! CaseKeys(f) <==>
            forall c, d | c in e.execution.report.cases && d in f.execution.report.cases ::
              !(c.package == d.package && c.name == d.name)
  {
    if CaseKeys(e) !! CaseKeys(f) {
      forall c, d | c in e.execution.report.cases && d in f.execution.report.cases
        ensures !(c.package == d.package && c.name == d.name)
      {
        assert KeyOf(c) in CaseKeys(e) && KeyOf(d) in CaseKeys(f);
      }
    }
  }

  lemma DeclaredIff(kept: set<ShardEvidence>, shards: ShardSet)
    ensures Declared(kept, shards) <==> ShardsDeclared(kept, shards)
  {
    if !shards.OtherSet? {
      forall e | e in kept && e.execution.integrationCount > 0
        ensures Shards(kept) == Expected(shards, e.execution.integrationCount) <==> ShardsBelong(kept, shards, e)
      {
        ShardsIff(kept, shards, e);
      }
    }
  }

  ghost predicate ShardsBelong(kept: set<ShardEvidence>, shards: ShardSet, e: ShardEvidence) {
    var n := e.execution.integrationCount;
    forall shard :: (exists f | f in kept :: f.execution.shard == shard) <==> Belongs(shard, shards, n)
  }

  lemma ShardsIff(kept: set<ShardEvidence>, shards: ShardSet, e: ShardEvidence)
    requires !shards.OtherSet? && e.execution.integrationCount > 0
    ensures Shards(kept) == Expected(shards, e.execution.integrationCount) <==> ShardsBelong(kept, shards, e)
  {
    var n := e.execution.integrationCount;
    forall shard ensures shard in Expected(shards, n) <==> Belongs(shard, shards, n) { BelongsIff(shard, shards, n); }
    forall shard ensures shard in Shards(kept) <==> exists f | f in kept :: f.execution.shard == shard {
      if f :| f in kept && f.execution.shard == shard { assert ShardOf(f) in Shards(kept); }
    }
  }

  lemma KeptSet(paths: seq<ShardEvidence>)
    requires forall f | f in paths :: RunAttempt(f.metadata).Some?
    ensures Kept(paths) == set e | e in paths && IsLatest(paths, e)
  {
    forall e ensures e in Kept(paths) <==> IsLatest(paths, e) { KeptIff(paths, e); }
  }

  /** The verdict, spelled out. */
  lemma AcceptableIff(paths: seq<ShardEvidence>, shards: ShardSet, env: Environment, declared: seq<DarwinEntry>)
    ensures Verifies(paths, shards, env, declared) <==> Acceptable(paths, shards, env, declared)
  {
    NumberedIff(paths);
    if Numbered(paths) {
      KeptSet(paths);
      var kept := Kept(paths);
      forall e | e in kept ensures RunAttempt(e.metadata) == Some(AttemptOf(e)) { }
      KeptVerdict(kept, shards, env, declared);
    }
  }

  ghost predicate AllHold(kept: set<ShardEvidence>, env: Environment, declared: seq<DarwinEntry>) {
    forall e | e in kept :: Holds(e, env, declared)
  }

  ghost predicate AllFit(kept: set<ShardEvidence>) {
    forall e, f | e in kept && f in kept :: Fit(e, f)
  }

  lemma AllHoldIff(kept: set<ShardEvidence>, env: Environment, declared: seq<DarwinEntry>)
    ensures AllSound(kept, env, declared) <==> AllHold(kept, env, declared)
  {
    forall e ensures Sound(e, env, declared) <==> Holds(e, env, declared) { HoldsIff(e, env, declared); }
  }

  lemma AllFitIff(kept: set<ShardEvidence>)
    ensures AllAgree(kept) <==> AllFit(kept)
  {
    forall e, f ensures Agree(e, f) && (e != f ==> CaseKeys(e) !! CaseKeys(f)) <==> Fit(e, f) { FitIff(e, f); }
  }

  lemma KeptVerdict(kept: set<ShardEvidence>, shards: ShardSet, env: Environment, declared: seq<DarwinEntry>)
    ensures VerifiesKept(kept, shards, env, declared) <==>
            Declared(kept, shards) && AllHold(kept, env, declared) && AllFit(kept)
  {
    DeclaredIff(kept, shards);
    AllHoldIff(kept, env, declared);
    AllFitIff(kept);
  }

  /** Accepted evidence is of this commit and run, with all four members recorded. */
  lemma AcceptedRun(paths: seq<ShardEvidence>, shards: ShardSet, env: Environment, declared: seq<DarwinEntry>,
                    e: ShardEvidence)
    requires Verifies(paths, shards, env, declared) && e in Kept(paths)
    ensures "tested_commit" in e.metadata && e.metadata["tested_commit"] != ""
    ensures "production_tree" in e.metadata && e.metadata["production_tree"] != ""
    ensures "go" in e.metadata && e.metadata["go"] != ""
    ensures "platform" in e.metadata && e.metadata["platform"] != ""
    ensures env.sha != "" ==> e.metadata["tested_commit"] == env.sha
    ensures env.runId != "" ==> "GITHUB_RUN_ID" in e.metadata && e.metadata["GITHUB_RUN_ID"] == env.runId
  {
    assert Sound(e, env, declared);
    ThisRunIff(e.metadata, env);
  }

  /** All accepted evidence has one identity. */
  lemma AcceptedTogether(paths: seq<ShardEvidence>, shards: ShardSet, env: Environment, declared: seq<DarwinEntry>,
                         e: ShardEvidence, f: ShardEvidence, key: string)
    requires Verifies(paths, shards, env, declared) && e in Kept(paths) && f in Kept(paths)
    requires key in {"tested_commit", "production_tree", "go", "platform", "PR_HEAD", "PR_BASE", "GITHUB_RUN_ID",
"ImageOS"}
    ensures (key in e.metadata <==> key in f.metadata) && (key in e.metadata ==> e.metadata[key] == f.metadata[key])
  {
    assert Agree(e, f);
    SameRunIff(e.metadata, f.metadata);
  }

  /** What verification returns: the kept evidence's discoveries, and the outcomes
      of its reported cases. */
  lemma ReturnedIs(kept: set<ShardEvidence>, v: Verdict, p: string, n: string, o: string)
    requires Gathered(kept, v)
    ensures p in v.inventory <==> exists e | e in kept :: p in e.discovered
    ensures forall e | e in kept && p in e.discovered :: v.inventory[p] == e.discovered[p]
    ensures ((p, n) in v.cases && v.cases[(p, n)] == o) <==>
            exists e, c :: e in kept && c in e.execution.report.cases && c.package == p && c.name == n && c.outcome == o
  {
    assert Settles(v.cases, (p, n), o) <==> exists e | e in kept :: HasOutcome(e, (p, n), o);
    if e :| e in kept && HasOutcome(e, (p, n), o) {
      var c :| c in e.execution.report.cases && KeyOf(c) == (p, n) && c.outcome == o;
      assert c.package == p && c.name == n;
    }
    if exists e, c :: e in kept && c in e.execution.report.cases && c.package == p && c.name == n && c.outcome == o {
      var e, c :| e in kept && c in e.execution.report.cases && c.package == p && c.name == n && c.outcome == o;
      assert KeyOf(c) == (p, n);
      assert HasOutcome(e, (p, n), o);
    }
  }
}
