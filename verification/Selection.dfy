/** What each kind of shard discovers and selects. */
module Selection {
  import opened Outcomes
  import opened Strings
  import opened Sorting
  import opened Accounting

  /** One declared darwin entry; no families means the whole package. */
  datatype DarwinEntry = DarwinEntry(package: string, families: Option<seq<string>>)

  type DarwinChoice = map<string, Option<seq<string>>>

  const INTEGRATION_SUFFIX := "/internal/integration"

  function Matching(packages: seq<string>, suffix: string): seq<string> {
    if packages == [] then []
    else
      var rest := Matching(packages[..|packages| - 1], suffix);
      if EndsWith(packages[|packages| - 1], suffix) then rest + [packages[|packages| - 1]] else rest
  }

  lemma {:induction false} MatchingMembers(packages: seq<string>, suffix: string)
    ensures forall p :: p in Matching(packages, suffix) <==> p in packages && EndsWith(p, suffix)
  {
    if packages != [] {
      var n := |packages| - 1;
      MatchingMembers(packages[..n], suffix);
      assert packages == packages[..n] + [packages[n]];
    }
  }

  function Elements(s: seq<string>): set<string> {
    set p | p in s
  }

  /** A nonempty list of distinct packages with one integration package. */
  predicate ValidPackages(packages: seq<string>) {
    && packages != [] && Distinct(packages)
    && |Matching(packages, INTEGRATION_SUFFIX)| == 1
  }

  function IntegrationPackage(packages: seq<string>): (p: string)
    requires ValidPackages(packages)
    ensures p in packages
  {
    MatchingMembers(packages, INTEGRATION_SUFFIX);
    assert Matching(packages, INTEGRATION_SUFFIX)[0] in Matching(packages, INTEGRATION_SUFFIX);
    Matching(packages, INTEGRATION_SUFFIX)[0]
  }

  // ----- the darwin selection -----

  /** The declared entries resolved to import paths. */
  function DarwinPackages(packages: seq<string>, declared: seq<DarwinEntry>): Result<DarwinChoice> {
    if declared == [] then Accepted(map[])
    else
      var entry := declared[|declared| - 1];
      match DarwinPackages(packages, declared[..|declared| - 1])
      case Rejected => Rejected
      case Accepted(chosen) =>
        var matches := Matching(packages, "/" + entry.package);
        if |matches| == 1 && matches[0] !in chosen then Accepted(chosen[matches[0] := entry.families]) else Rejected
  }

  method ResolveDarwin(packages: seq<string>, declared: seq<DarwinEntry>) returns (result: Result<DarwinChoice>)
    ensures result == DarwinPackages(packages, declared)
    ensures result.Accepted? <==> Resolvable(packages, declared)
    ensures result.Accepted? ==> Chooses(packages, declared, result.value)
  {
    DarwinPackagesMeaning(packages, declared);
    var chosen: DarwinChoice := map[];
    for k := 0 to |declared|
      invariant DarwinPackages(packages, declared[..k]) == Accepted(chosen)
    {
      assert declared[..k + 1][..k] == declared[..k];
      var matches := Matching(packages, "/" + declared[k].package);
      if |matches| != 1 || matches[0] in chosen {
        DarwinRejected(packages, declared, k + 1);
        return Rejected;
      }
      chosen := chosen[matches[0] := declared[k].families];
    }
    assert declared[..|declared|] == declared;
    return Accepted(chosen);
  }

  lemma {:induction false} DarwinRejected(packages: seq<string>, declared: seq<DarwinEntry>, k: nat)
    requires k <= |declared| && DarwinPackages(packages, declared[..k]).Rejected?
    ensures DarwinPackages(packages, declared).Rejected?
  {
    if k == |declared| {
      assert declared[..k] == declared;
    } else {
      var n := |declared| - 1;
      assert declared[..n][..k] == declared[..k];
      DarwinRejected(packages, declared[..n], k);
    }
  }

  /** The entry names p and no other package. */
  predicate Resolves(packages: seq<string>, entry: DarwinEntry, p: string) {
    Matching(packages, "/" + entry.package) == [p]
  }

  /** Every entry names one package, and no two name the same. */
  predicate Resolvable(packages: seq<string>, declared: seq<DarwinEntry>) {
    && (forall i | 0 <= i < |declared| :: |Matching(packages, "/" + declared[i].package)| == 1)
    && (forall i, j | 0 <= i < j < |declared| ::
          Matching(packages, "/" + declared[i].package) != Matching(packages, "/" + declared[j].package))
  }

  /** The choice holds exactly the named packages, each with its entry's families. */
  ghost predicate Chooses(packages: seq<string>, declared: seq<DarwinEntry>, chosen: DarwinChoice) {
    && |chosen| == |declared|
    && (forall entry, p | entry in declared && Resolves(packages, entry, p) ::
      p in chosen && chosen[p] == entry.families)
    && (forall p | p in chosen :: p in packages && exists entry | entry in declared :: Resolves(packages, entry, p))
  }

  /** The entries resolve exactly when each names one package and no two the
      same; the choice is then those packages with their families. */
  lemma {:induction false} DarwinPackagesMeaning(packages: seq<string>, declared: seq<DarwinEntry>)
    ensures DarwinPackages(packages, declared).Accepted? <==> Resolvable(packages, declared)
    ensures DarwinPackages(packages, declared).Accepted? ==>
              Chooses(packages, declared, DarwinPackages(packages, declared).value)
  {
    if declared != [] {
      var front, last := declared[..|declared| - 1], declared[|declared| - 1];
      DarwinPackagesMeaning(packages, front);
      if Resolvable(packages, front) {
        ResolvableStep(packages, front, last, DarwinPackages(packages, front).value);
        if DarwinPackages(packages, declared).Accepted? {
          ChoosesStep(packages, front, last, DarwinPackages(packages, front).value);
        }
      } else {
        assert forall i | 0 <= i < |front| :: declared[i] == front[i];
      }
      assert declared == front + [last];
    }
  }

  lemma ResolvableStep(packages: seq<string>, front: seq<DarwinEntry>, last: DarwinEntry, chosen: DarwinChoice)
    requires Resolvable(packages, front) && Chooses(packages, front, chosen)
    ensures var matches := Matching(packages, "/" + last.package);
            Resolvable(packages, front + [last]) <==> |matches| == 1 && matches[0] !in chosen
  {
    var matches := Matching(packages, "/" + last.package);
    ResolvableAppend(packages, front, last);
    if |matches| == 1 {
      var p := matches[0];
      assert matches == [p];
      if p in chosen {
        var entry :| entry in front && Resolves(packages, entry, p);
        var i :| 0 <= i < |front| && front[i] == entry;
        assert Matching(packages, "/" + front[i].package) == matches;
      } else {
        forall i | 0 <= i < |front| ensures Matching(packages, "/" + front[i].package) != matches {
          assert front[i] in front;
          assert Resolves(packages, front[i], p) ==> p in chosen;
        }
      }
    }
  }

  lemma ResolvableAppend(packages: seq<string>, front: seq<DarwinEntry>, last: DarwinEntry)
    requires Resolvable(packages, front)
    ensures var matches := Matching(packages, "/" + last.package);
            Resolvable(packages, front + [last]) <==>
            |matches| == 1 && forall i | 0 <= i < |front| :: Matching(packages, "/" + front[i].package) != matches
  {
    var declared := front + [last];
    assert declared[|front|] == last && forall i | 0 <= i < |front| :: declared[i] == front[i];
  }

  lemma ChoosesStep(packages: seq<string>, front: seq<DarwinEntry>, last: DarwinEntry, chosen: DarwinChoice)
    requires Chooses(packages, front, chosen)
    requires var matches := Matching(packages, "/" + last.package); |matches| == 1 && matches[0] !in chosen
    ensures var p := Matching(packages, "/" + last.package)[0];
            Chooses(packages, front + [last], chosen[p := last.families])
  {
    var declared, p := front + [last], Matching(packages, "/" + last.package)[0];
    var after := chosen[p := last.families];
    assert Resolves(packages, last, p);
    MatchingMembers(packages, "/" + last.package);
    assert p in Matching(packages, "/" + last.package);
    assert after.Keys == chosen.Keys + {p};
    forall entry, q | entry in declared && Resolves(packages, entry, q)
      ensures q in after && after[q] == entry.families
    {
      if entry in front {
        assert q in chosen && chosen[q] == entry.families;
      } else {
        assert entry == last && [q] == [p];
      }
    }
    forall q | q in after ensures q in packages && exists entry | entry in declared :: Resolves(packages, entry, q) {
      if q in chosen {
        var entry :| entry in front && Resolves(packages, entry, q);
        assert entry in declared;
      } else {
        assert last in declared;
      }
    }
  }

  /** The families a darwin shard must run, or a rejection when a declared
      family was not discovered. */
  function DarwinFamilies(chosen: DarwinChoice, discovered: Inventory): Result<Inventory>
    requires chosen.Keys <= discovered.Keys
  {
    if forall p | p in chosen && chosen[p].Some? :: Elements(chosen[p].value) <= Elements(discovered[p]) then
      Accepted(map p | p in chosen :: if chosen[p].Some? then Sort(LexLe, chosen[p].value) else discovered[p])
    else Rejected
  }

  /** What a chosen package's selection is: its declared families in order, or
      all it discovered. */
  ghost predicate SelectsChosen(families: Option<seq<string>>, discovered: seq<string>, selected: seq<string>) {
    if families.Some? then multiset(selected) == multiset(families.value) && SortedBy(LexLe, selected)
    else selected == discovered
  }

  /** The selection is rejected exactly when a declared family was not
      discovered; else it is each package's declared families, or all of them. */
  lemma DarwinFamiliesExact(chosen: DarwinChoice, discovered: Inventory)
    requires chosen.Keys <= discovered.Keys
    ensures DarwinFamilies(chosen, discovered).Rejected? <==>
            exists p, n :: p in chosen && chosen[p].Some? && n in chosen[p].value && n !in discovered[p]
    ensures DarwinFamilies(chosen, discovered).Accepted? ==>
            var selected := DarwinFamilies(chosen, discovered).value;
            && selected.Keys == chosen.Keys
            && (forall p | p in chosen :: SelectsChosen(chosen[p], discovered[p], selected[p]))
            && (forall p, n | p in chosen && n in selected[p] :: n in discovered[p])
  {
    if p, n :| p in chosen && chosen[p].Some? && n in chosen[p].value && n !in discovered[p] {
      assert n in Elements(chosen[p].value) && n !in Elements(discovered[p]);
    } else {
      forall p | p in chosen && chosen[p].Some? ensures Elements(chosen[p].value) <= Elements(discovered[p]) { }
    }
    LexIsTotalOrder();
    forall p | p in chosen && chosen[p].Some?
      ensures SelectsChosen(chosen[p], discovered[p], Sort(LexLe, chosen[p].value))
      ensures forall n :: n in Sort(LexLe, chosen[p].value) <==> n in chosen[p].value
    {
      SortSorts(LexLe, chosen[p].value);
      SameElements(Sort(LexLe, chosen[p].value), chosen[p].value);
    }
  }

  /** Selects the families of each chosen package in turn. */
  method SelectFamilies(chosen: DarwinChoice, discovered: Inventory) returns (result: Result<Inventory>)
    requires chosen.Keys <= discovered.Keys
    ensures result == DarwinFamilies(chosen, discovered)
  {
    var selected: Inventory := map[];
    var rest := chosen.Keys;
    while rest != {}
      invariant rest <= chosen.Keys && selected.Keys == chosen.Keys - rest
      invariant forall p | p in selected ::
        selected[p] == if chosen[p].Some? then Sort(LexLe, chosen[p].value) else discovered[p]
      invariant forall p | p in selected && chosen[p].Some? :: Elements(chosen[p].value) <= Elements(discovered[p])
      decreases rest
    {
      var package :| package in rest;
      rest := rest - {package};
      match chosen[package] {
        case None =>
          selected := selected[package := discovered[package]];
        case Some(families) =>
          if !(Elements(families) <= Elements(discovered[package])) {
            return Rejected;
          }
          selected := selected[package := Sort(LexLe, families)];
      }
    }
    assert selected == map p | p in chosen :: if chosen[p].Some? then Sort(LexLe, chosen[p].value) else discovered[p];
    return Accepted(selected);
  }
}
