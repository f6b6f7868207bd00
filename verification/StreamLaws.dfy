/** The accounting of test events, stated over the events themselves: which
    streams are accepted, what their report holds, and that the stream of any
    complete execution is accepted with its outcomes. */
module StreamLaws {
  import opened Outcomes
  import opened Sorting
  import opened Accounting

  /** The event is of this package and test case, with this action. */
  predicate Shows(e: Event, p: string, n: string, action: string) {
    e.Event? && e.package == Some(p) && e.test == n && e.action == action
  }

  /** A case passed or was skipped; with no test name, its package did. */
  predicate Ended(e: Event, p: string, n: string) {
    Shows(e, p, n, "pass") || Shows(e, p, n, "skip")
  }

  /** One event by itself is in order: its package is selected, its action known
      and no failure, its time not negative, and its test below a selected family. */
  predicate InOrder(e: Event, inventory: Inventory) {
    && e.Event? && e.package.Some? && e.package.value in inventory
    && e.action in ["start", "run", "pause", "cont", "output", "pass", "skip"]
    && (e.elapsed.Absent? || (e.elapsed.Seconds? && e.elapsed.value >= 0.0))
    && (e.test != "" ==> exists n | n in inventory[e.package.value] :: '/' !in n && (e.test == n || n + "/" <= e.test))
  }

  /** Cases are run once and end once, or not at all; packages end once; and the
      selected families end. */
  ghost predicate Complete(events: seq<Event>, inventory: Inventory) {
    && (forall i, j, p, n | 0 <= i < |events| && 0 <= j < |events| && n != "" ::
          Shows(events[i], p, n, "run") && Shows(events[j], p, n, "run") ==> i == j)
    && (forall i, j, p, n | 0 <= i < |events| && 0 <= j < |events| ::
          Ended(events[i], p, n) && Ended(events[j], p, n) ==> i == j)
    && (forall e, p, n | e in events && n != "" && Shows(e, p, n, "run") :: exists f | f in events :: Ended(f, p, n))
    && (forall e, p, n | e in events && n != "" && Ended(e, p, n) :: exists f | f in events :: Shows(f, p, n, "run"))
    && (forall p | p in inventory :: exists e | e in events :: Ended(e, p, ""))
    && (forall p, n | p in inventory && n in inventory[p] :: n != "" && exists e | e in events :: Ended(e, p, n))
  }

  // ----- the roots -----

  lemma {:induction false} RootMeaning(name: string)
    ensures '/' !in Root(name) && (name == Root(name) || Root(name) + "/" <= name)
  {
    if name != [] && name[0] != '/' {
      RootMeaning(name[1..]);
      assert name == [name[0]] + name[1..];
      if name != Root(name) {
        assert Root(name) + "/" == [name[0]] + (Root(name[1..]) + "/");
      }
    } else if name != [] {
      assert name[..1] == "/";
      assert [] + "/" == "/";
    }
  }

  lemma {:induction false} RootOnly(name: string, n: string)
    requires '/' !in n && (name == n || n + "/" <= name)
    ensures Root(name) == n
  {
    if n == [] {
      if name != [] { assert name[0] == (n + "/")[0]; }
    } else {
      assert name[0] == n[0];
      assert name != n ==> n[1..] + "/" == (n + "/")[1..] && n[1..] + "/" <= name[1..];
      RootOnly(name[1..], n[1..]);
      assert n == [n[0]] + n[1..];
    }
  }

  lemma AdmissibleInOrder(e: Event, inventory: Inventory)
    ensures Admissible(e, inventory) <==> InOrder(e, inventory)
  {
    assert e.Event? ==> (e.action in ACTIONS && e.action != "fail" <==>
                         e.action in ["start", "run", "pause", "cont", "output", "pass", "skip"]) by {
      KnownActions(if e.Event? then e.action else "");
    }
    if e.Event? && e.package.Some? && e.package.value in inventory && e.test != "" {
      var names := inventory[e.package.value];
      RootMeaning(e.test);
      if n :| n in names && '/' !in n && (e.test == n || n + "/" <= e.test) { RootOnly(e.test, n); }
    }
  }

  lemma KnownActions(action: string)
    ensures action in ACTIONS && action != "fail" <==>
            action in ["start", "run", "pause", "cont", "output", "pass", "skip"]
  {
    var all := ["start", "run", "pause", "cont", "output", "pass", "skip", "fail"];
    assert all == ["start", "run", "pause", "cont", "output", "pass", "skip"] + ["fail"];
    assert "fail" !in ["start", "run", "pause", "cont", "output", "pass", "skip"] by {
      assert |"start"| == 5 && |"pause"| == 5 && |"output"| == 6 && |"run"| == 3;
      assert "fail"[0] == 'f' && "cont"[0] == 'c' && "pass"[0] == 'p' && "skip"[0] == 's';
    }
  }

  // ----- counting as positions -----

  lemma {:induction false} CountPositions(events: seq<Event>, slot: Slot)
    ensures Count(events, slot) <= 1 <==>
            forall i, j | 0 <= i < |events| && 0 <= j < |events| && SlotOf(events[i]) == slot == SlotOf(events[j]) ::
              i == j
  {
    if events != [] {
      var n := |events| - 1;
      CountPositions(events[..n], slot);
      CountPositive(events[..n], slot);
      if SlotOf(events[n]) == slot && Count(events[..n], slot) > 0 {
        var e :| e in events[..n] && SlotOf(e) == slot;
        var i :| 0 <= i < n && events[i] == e;
        assert i != n;
      }
      assert forall i | 0 <= i < n :: events[..n][i] == events[i];
    }
  }

  lemma SlotMeaning(e: Event, inventory: Inventory)
    requires Admissible(e, inventory)
    ensures forall p, n :: SlotOf(e) == Started((p, n)) <==> n != "" && Shows(e, p, n, "run")
    ensures forall p, n :: SlotOf(e) == Finished((p, n)) <==> n != "" && Ended(e, p, n)
    ensures forall p :: SlotOf(e) == PackageDone(p) <==> Ended(e, p, "")
  {
    assert "run" != "pass" && "run" != "skip" by { assert |"run"| == 3 && |"pass"| == 4 && |"skip"| == 4; }
  }

  /** The slots of these events are what they show. */
  ghost predicate Slotted(events: seq<Event>) {
    && (forall e, p, n | e in events :: SlotOf(e) == Started((p, n)) <==> n != "" && Shows(e, p, n, "run"))
    && (forall e, p, n | e in events :: SlotOf(e) == Finished((p, n)) <==> n != "" && Ended(e, p, n))
    && (forall e, p | e in events :: SlotOf(e) == PackageDone(p) <==> Ended(e, p, ""))
  }

  lemma OnlyOne(events: seq<Event>, slot: Slot, i: nat, j: nat)
    requires Count(events, slot) <= 1 && i < |events| && j < |events|
    requires SlotOf(events[i]) == slot && SlotOf(events[j]) == slot
    ensures i == j
  {
    CountPositions(events, slot);
  }

  lemma CleanIsComplete(events: seq<Event>, inventory: Inventory)
    requires CleanRun(events, inventory) && Slotted(events)
    ensures Complete(events, inventory)
  {
    forall i, j, p, n | 0 <= i < |events| && 0 <= j < |events| && n != "" && Shows(events[i], p, n, "run") &&
        Shows(events[j], p, n, "run")
      ensures i == j
    {
      assert events[i] in events && events[j] in events;
      OnlyOne(events, Started((p, n)), i, j);
    }
    forall i, j, p, n | 0 <= i < |events| && 0 <= j < |events| && Ended(events[i], p, n) && Ended(events[j], p, n)
      ensures i == j
    {
      assert events[i] in events && events[j] in events;
      if n != "" {
        assert Count(events, Started((p, n))) == Count(events, Finished((p, n))) <= 1;
        OnlyOne(events, Finished((p, n)), i, j);
      } else {
        assert Admissible(events[i], inventory) && p in inventory;
        OnlyOne(events, PackageDone(p), i, j);
      }
    }
    CleanEnds(events, inventory);
  }

  lemma CleanEnds(events: seq<Event>, inventory: Inventory)
    requires CleanRun(events, inventory) && Slotted(events)
    ensures forall e, p, n | e in events && n != "" && Shows(e, p, n, "run") :: exists f | f in events :: Ended(f, p, n)
    ensures forall e, p, n | e in events && n != "" && Ended(e, p, n) :: exists f | f in events :: Shows(f, p, n, "run")
    ensures forall p | p in inventory :: exists e | e in events :: Ended(e, p, "")
    ensures forall p, n | p in inventory && n in inventory[p] :: n != "" && exists e | e in events :: Ended(e, p, n)
  {
    forall e, p, n | e in events && n != "" && Shows(e, p, n, "run") ensures exists f | f in events :: Ended(f, p, n) {
      var f := EndOf(events, inventory, e, p, n);
    }
    forall e, p, n | e in events && n != "" && Ended(e, p, n) ensures exists f | f in events :: Shows(f, p, n, "run") {
      var f := StartOf(events, inventory, e, p, n);
    }
    CleanSelected(events, inventory);
  }

  lemma CleanSelected(events: seq<Event>, inventory: Inventory)
    requires CleanRun(events, inventory) && Slotted(events)
    ensures forall p | p in inventory :: exists e | e in events :: Ended(e, p, "")
    ensures forall p, n | p in inventory && n in inventory[p] :: n != "" && exists e | e in events :: Ended(e, p, n)
  {
    forall p | p in inventory ensures exists e | e in events :: Ended(e, p, "") {
      var e := CompletionOf(events, inventory, p);
    }
    forall p, n | p in inventory && n in inventory[p] ensures n != "" && exists e | e in events :: Ended(e, p, n) {
      var e := OutcomeOf(events, inventory, p, n);
    }
  }

  lemma CompletionOf(events: seq<Event>, inventory: Inventory, p: string) returns (e: Event)
    requires CleanRun(events, inventory) && Slotted(events) && p in inventory
    ensures e in events && Ended(e, p, "")
  {
    assert Count(events, PackageDone(p)) == 1;
    e := Occurrence(events, PackageDone(p));
  }

  lemma OutcomeOf(events: seq<Event>, inventory: Inventory, p: string, n: string) returns (e: Event)
    requires CleanRun(events, inventory) && Slotted(events) && p in inventory && n in inventory[p]
    ensures e in events && n != "" && Ended(e, p, n)
  {
    assert Count(events, Finished((p, n))) == 1;
    e := Occurrence(events, Finished((p, n)));
  }

  lemma EndOf(events: seq<Event>, inventory: Inventory, e: Event, p: string, n: string) returns (f: Event)
    requires CleanRun(events, inventory) && Slotted(events) && e in events && n != "" && Shows(e, p, n, "run")
    ensures f in events && Ended(f, p, n)
  {
    Occurs(events, Started((p, n)), e);
    f := Occurrence(events, Finished((p, n)));
  }

  lemma StartOf(events: seq<Event>, inventory: Inventory, e: Event, p: string, n: string) returns (f: Event)
    requires CleanRun(events, inventory) && Slotted(events) && e in events && n != "" && Ended(e, p, n)
    ensures f in events && Shows(f, p, n, "run")
  {
    Occurs(events, Finished((p, n)), e);
    f := Occurrence(events, Started((p, n)));
  }

  lemma Occurs(events: seq<Event>, slot: Slot, e: Event)
    requires e in events && SlotOf(e) == slot
    ensures Count(events, slot) > 0
  {
    CountPositive(events, slot);
  }

  lemma Occurrence(events: seq<Event>, slot: Slot) returns (e: Event)
    requires Count(events, slot) > 0
    ensures e in events && SlotOf(e) == slot
  {
    CountPositive(events, slot);
    e :| e in events && SlotOf(e) == slot;
  }

  lemma AtMostOne(events: seq<Event>, slot: Slot)
    requires forall i, j | 0 <= i < |events| && 0 <= j < |events| && SlotOf(events[i]) == slot == SlotOf(events[j]) ::
             i == j
    ensures Count(events, slot) <= 1
  {
    CountPositions(events, slot);
  }

  lemma OneStart(events: seq<Event>, inventory: Inventory, p: string, n: string)
    requires Complete(events, inventory) && Slotted(events)
    ensures Count(events, Started((p, n))) <= 1
  {
    forall i | 0 <= i < |events| ensures events[i] in events { }
    AtMostOne(events, Started((p, n)));
  }

  lemma OneEnd(events: seq<Event>, inventory: Inventory, p: string, n: string)
    requires Complete(events, inventory) && Slotted(events)
    ensures Count(events, Finished((p, n))) <= 1
  {
    forall i | 0 <= i < |events| ensures events[i] in events { }
    AtMostOne(events, Finished((p, n)));
  }

  lemma OneCompletion(events: seq<Event>, inventory: Inventory, p: string)
    requires Complete(events, inventory) && Slotted(events) && p in inventory
    ensures Count(events, PackageDone(p)) == 1
  {
    forall i | 0 <= i < |events| ensures events[i] in events { }
    AtMostOne(events, PackageDone(p));
    var e :| e in events && Ended(e, p, "");
    Occurs(events, PackageDone(p), e);
  }

  lemma StartsEnd(events: seq<Event>, inventory: Inventory, p: string, n: string)
    requires Complete(events, inventory) && Slotted(events)
    ensures Count(events, Started((p, n))) > 0 <==> Count(events, Finished((p, n))) > 0
  {
    if Count(events, Started((p, n))) > 0 {
      var e := Occurrence(events, Started((p, n)));
      var f :| f in events && Ended(f, p, n);
      Occurs(events, Finished((p, n)), f);
    }
    if Count(events, Finished((p, n))) > 0 {
      var e := Occurrence(events, Finished((p, n)));
      var f :| f in events && Shows(f, p, n, "run");
      Occurs(events, Started((p, n)), f);
    }
  }

  lemma CompleteIsClean(events: seq<Event>, inventory: Inventory)
    requires (forall e | e in events :: Admissible(e, inventory)) && Complete(events, inventory) && Slotted(events)
    ensures CleanRun(events, inventory)
  {
    CasesBalanced(events, inventory);
    AllEnd(events, inventory);
    CleanOf(events, inventory);
  }

  ghost predicate Balanced(events: seq<Event>) {
    forall key: Key :: Count(events, Started(key)) == Count(events, Finished(key)) <= 1
  }

  ghost predicate Covered(events: seq<Event>, inventory: Inventory) {
    && (forall p | p in inventory :: Count(events, PackageDone(p)) == 1)
    && (forall p, n | p in inventory && n in inventory[p] :: Count(events, Finished((p, n))) == 1)
  }

  lemma CleanOf(events: seq<Event>, inventory: Inventory)
    requires (forall e | e in events :: Admissible(e, inventory)) && Balanced(events) && Covered(events, inventory)
    ensures CleanRun(events, inventory)
  {
  }

  lemma CasesBalanced(events: seq<Event>, inventory: Inventory)
    requires Complete(events, inventory) && Slotted(events)
    ensures Balanced(events)
  {
    forall key: Key ensures Count(events, Started(key)) == Count(events, Finished(key)) <= 1 {
      OneStart(events, inventory, key.0, key.1);
      OneEnd(events, inventory, key.0, key.1);
      StartsEnd(events, inventory, key.0, key.1);
    }
  }

  lemma AllEnd(events: seq<Event>, inventory: Inventory)
    requires Complete(events, inventory) && Slotted(events)
    ensures Covered(events, inventory)
  {
    forall p | p in inventory ensures Count(events, PackageDone(p)) == 1 { OneCompletion(events, inventory, p); }
    forall p, n | p in inventory && n in inventory[p] ensures Count(events, Finished((p, n))) == 1 {
      FamilyEnds(events, inventory, p, n);
    }
  }

  lemma FamilyEnds(events: seq<Event>, inventory: Inventory, p: string, n: string)
    requires Complete(events, inventory) && Slotted(events) && p in inventory && n in inventory[p]
    ensures Count(events, Finished((p, n))) == 1
  {
    var e :| e in events && Ended(e, p, n);
    Occurs(events, Finished((p, n)), e);
    OneEnd(events, inventory, p, n);
  }

  /** An accepted stream is one whose events are in order and complete. */
  lemma AcceptedIff(events: seq<Event>, inventory: Inventory)
    ensures CleanRun(events, inventory) <==>
            (forall e | e in events :: InOrder(e, inventory)) && Complete(events, inventory)
  {
    forall e | e in events ensures Admissible(e, inventory) <==>
      InOrder(e, inventory) { AdmissibleInOrder(e, inventory); }
    if forall e | e in events :: Admissible(e, inventory) {
      forall e | e in events
        ensures forall p, n :: SlotOf(e) == Started((p, n)) <==> n != "" && Shows(e, p, n, "run")
        ensures forall p, n :: SlotOf(e) == Finished((p, n)) <==> n != "" && Ended(e, p, n)
        ensures forall p :: SlotOf(e) == PackageDone(p) <==> Ended(e, p, "")
      {
        SlotMeaning(e, inventory);
      }
      assert Slotted(events);
      if CleanRun(events, inventory) { CleanIsComplete(events, inventory); }
      if Complete(events, inventory) { CompleteIsClean(events, inventory); }
    }
  }

  // ----- the report -----

  /** The event's own time; none counts as zero. */
  predicate Took(e: Event, seconds: real) {
    e.Event? && seconds == if e.elapsed.Seconds? then e.elapsed.value else 0.0
  }

  /** An accepted stream's report holds the cases and packages that its events
      show to end, each as it ended and with its time, and nothing else. */
  lemma ReportedIff(events: seq<Event>, inventory: Inventory, report: Report)
    requires CleanRun(events, inventory) && Reports(events, report)
    ensures forall p, n, o, t :: Case(p, n, o, t) in report.cases <==>
              n != "" && o in ["pass", "skip"] && exists e | e in events :: Shows(e, p, n, o) && Took(e, t)
    ensures forall p, o, t :: (p in report.packages && report.packages[p] == PackageOutcome(o, t)) <==>
              PackageShown(events, p, o, t)
  {
    CasesIff(events, inventory, report);
    forall p, o, t
      ensures (p in report.packages && report.packages[p] == PackageOutcome(o, t)) <==> PackageShown(events, p, o, t)
    {
      PackageIff(events, inventory, report, p, o, t);
    }
  }

  lemma CasesIff(events: seq<Event>, inventory: Inventory, report: Report)
    requires CleanRun(events, inventory) && Reports(events, report)
    ensures forall p, n, o, t :: Case(p, n, o, t) in report.cases <==>
              n != "" && o in ["pass", "skip"] && exists e | e in events :: Shows(e, p, n, o) && Took(e, t)
  {
    forall e | e in events
      ensures forall p, n, o, t :: Yields(e, Case(p, n, o, t)) <==>
                n != "" && o in ["pass", "skip"] && Shows(e, p, n, o) && Took(e, t)
    {
      assert Admissible(e, inventory);
      YieldsMeaning(e, inventory);
    }
    forall p, n, o, t ensures Case(p, n, o, t) in report.cases <==>
        n != "" && o in ["pass", "skip"] && exists e | e in events :: Shows(e, p, n, o) && Took(e, t) {
      assert Case(p, n, o, t) in report.cases <==> exists e | e in events :: Yields(e, Case(p, n, o, t));
    }
  }

  /** Some event shows the package to end so, in this time. */
  ghost predicate PackageShown(events: seq<Event>, p: string, o: string, t: real) {
    o in ["pass", "skip"] && exists e | e in events :: Shows(e, p, "", o) && Took(e, t)
  }

  lemma PackageIff(events: seq<Event>, inventory: Inventory, report: Report, p: string, o: string, t: real)
    requires CleanRun(events, inventory) && Reports(events, report)
    ensures (p in report.packages && report.packages[p] == PackageOutcome(o, t)) <==> PackageShown(events, p, o, t)
  {
    var outcome := PackageOutcome(o, t);
    assert Records(report, p, outcome) <==> exists e | e in events :: Completes(e, p, outcome);
    if e :| e in events && Completes(e, p, outcome) {
      assert Admissible(e, inventory);
      YieldsMeaning(e, inventory);
    }
    if PackageShown(events, p, o, t) {
      var e :| e in events && Shows(e, p, "", o) && Took(e, t);
      assert Admissible(e, inventory);
      YieldsMeaning(e, inventory);
    }
  }

  lemma YieldsMeaning(e: Event, inventory: Inventory)
    requires Admissible(e, inventory)
    ensures forall p, n, o, t :: Yields(e, Case(p, n, o, t)) <==>
              n != "" && o in ["pass", "skip"] && Shows(e, p, n, o) && Took(e, t)
    ensures forall p, o, t :: Completes(e, p, PackageOutcome(o, t)) <==>
              o in ["pass", "skip"] && Shows(e, p, "", o) && Took(e, t)
  {
    SlotMeaning(e, inventory);
    forall p, n, o, t ensures Yields(e, Case(p, n, o, t)) <==>
        n != "" && o in ["pass", "skip"] && Shows(e, p, n, o) && Took(e, t) {
      assert KeyOf(Case(p, n, o, t)) == (p, n);
    }
  }

  /** The cases are listed by package and then by name, each once. */
  lemma ReportInOrder(events: seq<Event>, report: Report)
    requires Reports(events, report)
    ensures forall i, j | 0 <= i < j < |report.cases| ::
      var c, d := report.cases[i], report.cases[j];
      if c.package != d.package then LexLe(c.package, d.package) else c.name != d.name && LexLe(c.name, d.name)
  {
    forall i, j | 0 <= i < j < |report.cases|
      ensures var c, d := report.cases[i], report.cases[j];
              if c.package != d.package then LexLe(c.package, d.package) else c.name != d.name && LexLe(c.name, d.name)
    {
      var c, d := report.cases[i], report.cases[j];
      assert KeyLe(KeyOf(c), KeyOf(d)) && KeyOf(c) != KeyOf(d);
    }
  }

  // ----- every complete execution is accepted -----

  /** The events of running the families of a package one after another. */
  function FamilyStream(p: string, names: seq<string>, outcome: Key -> string, time: Key -> real): seq<Event> {
    if names == [] then []
    else
      var n := names[|names| - 1];
      FamilyStream(p, names[..|names| - 1], outcome, time) +
      [Event(Some(p), n, "run", Absent), Event(Some(p), n, outcome((p, n)), Seconds(time((p, n))))]
  }

  /** The events of running every package's families, each package passing. */
  function Stream(packages: seq<string>, inventory: Inventory, outcome: Key -> string, time: Key -> real): seq<Event>
    requires forall p | p in packages :: p in inventory
  {
    if packages == [] then []
    else
      var p := packages[|packages| - 1];
      Stream(packages[..|packages| - 1], inventory, outcome, time) +
      (FamilyStream(p, inventory[p], outcome, time) + [Event(Some(p), "", "pass", Absent)])
  }

  /** Families have names, without slashes and each once; outcomes are passes or
      skips; and times are not negative. */
  ghost predicate Executable(inventory: Inventory, outcome: Key -> string, time: Key -> real) {
    && (forall p | p in inventory :: "" !in inventory[p] && Distinct(inventory[p]))
    && (forall p | p in inventory :: forall n | n in inventory[p] :: '/' !in n)
    && (forall key :: outcome(key) == "pass" || outcome(key) == "skip")
    && (forall key :: time(key) >= 0.0)
  }

  lemma CountOne(e: Event, slot: Slot)
    ensures Count([e], slot) == if SlotOf(e) == slot then 1 else 0
  {
    assert [e][..0] == [];
  }

  lemma CountTwo(e: Event, f: Event, slot: Slot)
    ensures Count([e, f], slot) == Count([e], slot) + Count([f], slot)
  {
    assert [e, f] == [e] + [f];
    CountAppend([e], [f], slot);
  }

  lemma {:induction false} FamilyCounts(p: string, names: seq<string>, outcome: Key -> string, time: Key -> real,
                                        slot: Slot)
    requires Distinct(names) && "" !in names && forall key :: outcome(key) == "pass" || outcome(key) == "skip"
    ensures Count(FamilyStream(p, names, outcome, time), slot) ==
            (if slot.Started? || slot.Finished? then (if slot.key.0 == p && slot.key.1 in names then 1 else 0)
             else if slot.PackageDone? then 0 else Count(FamilyStream(p, names, outcome, time), slot))
  {
    if names != [] {
      var k := |names| - 1;
      var n := names[k];
      var e, f := Event(Some(p), n, "run", Absent), Event(Some(p), n, outcome((p, n)), Seconds(time((p, n))));
      assert names == names[..k] + [n];
      FamilyCounts(p, names[..k], outcome, time, slot);
      CountAppend(FamilyStream(p, names[..k], outcome, time), [e, f], slot);
      CountTwo(e, f, slot);
      CountOne(e, slot);
      CountOne(f, slot);
      assert names == names[..k] + [n] && n !in names[..k] && n in names;
      RunIsNoEnd();
    }
  }

  lemma RunIsNoEnd()
    ensures "run" != "pass" && "run" != "skip" && "run" != "fail"
  {
    assert |"run"| == 3 && |"pass"| == 4 && |"skip"| == 4 && |"fail"| == 4;
  }

  lemma {:induction false} FamilyEvents(p: string, names: seq<string>, outcome: Key -> string, time: Key -> real,
                                        e: Event)
    requires e in FamilyStream(p, names, outcome, time)
    ensures exists n | n in names :: e == Event(Some(p), n, "run", Absent) ||
                                     e == Event(Some(p), n, outcome((p, n)), Seconds(time((p, n))))
  {
    var k := |names| - 1;
    var n := names[k];
    if e in FamilyStream(p, names[..k], outcome, time) {
      FamilyEvents(p, names[..k], outcome, time, e);
      var m :| m in names[..k] && (e == Event(Some(p), m, "run", Absent) ||
                                   e == Event(Some(p), m, outcome((p, m)), Seconds(time((p, m)))));
      assert m in names;
    } else {
      assert n in names;
    }
  }

  lemma PackageAdmissible(p: string, inventory: Inventory, outcome: Key -> string, time: Key -> real, e: Event)
    requires Executable(inventory, outcome, time) && p in inventory
    requires e in FamilyStream(p, inventory[p], outcome, time) + [Event(Some(p), "", "pass", Absent)]
    ensures Admissible(e, map[p := inventory[p]])
  {
    AdmissibleInOrder(e, map[p := inventory[p]]);
    if e in FamilyStream(p, inventory[p], outcome, time) {
      FamilyEvents(p, inventory[p], outcome, time, e);
      var n :| n in inventory[p] && (e == Event(Some(p), n, "run", Absent) ||
                                     e == Event(Some(p), n, outcome((p, n)), Seconds(time((p, n)))));
      assert '/' !in n && e.test == n;
    }
  }

  lemma Named(p: string, inventory: Inventory, outcome: Key -> string, time: Key -> real)
    requires Executable(inventory, outcome, time) && p in inventory
    ensures Distinct(inventory[p]) && "" !in inventory[p]
  {
  }

  lemma PackageStreamClean(p: string, inventory: Inventory, outcome: Key -> string, time: Key -> real)
    requires Executable(inventory, outcome, time) && p in inventory
    ensures CleanRun(FamilyStream(p, inventory[p], outcome, time) + [Event(Some(p), "", "pass", Absent)],
                     map[p := inventory[p]])
  {
    var events := FamilyStream(p, inventory[p], outcome, time) + [Event(Some(p), "", "pass", Absent)];
    var only := map[p := inventory[p]];
    forall e | e in events ensures Admissible(e, only) { PackageAdmissible(p, inventory, outcome, time, e); }
    forall key: Key ensures Count(events, Started(key)) == Count(events, Finished(key)) <= 1 {
      PackageCounts(p, inventory, outcome, time, Started(key));
      PackageCounts(p, inventory, outcome, time, Finished(key));
    }
    PackageCounts(p, inventory, outcome, time, PackageDone(p));
    forall q, n | q in only && n in only[q] ensures Count(events, Finished((q, n))) == 1 {
      PackageCounts(p, inventory, outcome, time, Finished((q, n)));
    }
    CleanOf(events, only);
  }

  lemma PackageCounts(p: string, inventory: Inventory, outcome: Key -> string, time: Key -> real, slot: Slot)
    requires Executable(inventory, outcome, time) && p in inventory && !slot.Idle?
    ensures Count(FamilyStream(p, inventory[p], outcome, time) + [Event(Some(p), "", "pass", Absent)], slot) ==
            match slot
            case PackageDone(q) => if q == p then 1 else 0
            case Started(key) => if key.0 == p && key.1 in inventory[p] then 1 else 0
            case Finished(key) => if key.0 == p && key.1 in inventory[p] then 1 else 0
            case Idle => 0
  {
    var done := Event(Some(p), "", "pass", Absent);
    Named(p, inventory, outcome, time);
    FamilyCounts(p, inventory[p], outcome, time, slot);
    CountAppend(FamilyStream(p, inventory[p], outcome, time), [done], slot);
    CountOne(done, slot);
  }

  function Only(packages: seq<string>, inventory: Inventory): Inventory {
    map p | p in packages && p in inventory :: inventory[p]
  }

  lemma {:induction false} StreamPackages(packages: seq<string>, inventory: Inventory, outcome: Key -> string,
                                          time: Key -> real, e: Event)
    requires (forall p | p in packages :: p in inventory) && e in Stream(packages, inventory, outcome, time)
    ensures e.Event? && e.package.Some? && e.package.value in packages
  {
    var k := |packages| - 1;
    var p := packages[k];
    if e in Stream(packages[..k], inventory, outcome, time) {
      StreamPackages(packages[..k], inventory, outcome, time, e);
    } else {
      assert p in packages;
      if e in FamilyStream(p, inventory[p], outcome, time) { FamilyEvents(p, inventory[p], outcome, time, e); }
    }
  }

  lemma LastApart(packages: seq<string>)
    requires packages != [] && Distinct(packages)
    ensures var front := packages[..|packages| - 1];
            packages[|packages| - 1] !in front && Distinct(front) && forall p | p in front :: p in packages
  {
  }

  lemma OnlyStep(packages: seq<string>, inventory: Inventory)
    requires packages != [] && packages[|packages| - 1] in inventory
    ensures var p := packages[|packages| - 1];
            Only(packages, inventory) == Only(packages[..|packages| - 1], inventory) + map[p := inventory[p]]
  {
    assert packages == packages[..|packages| - 1] + [packages[|packages| - 1]];
  }

  /** Whatever the outcomes and times, the whole execution is accepted. */
  lemma {:induction false} StreamClean(packages: seq<string>, inventory: Inventory, outcome: Key -> string,
                                       time: Key -> real)
    requires Executable(inventory, outcome, time) && Distinct(packages) && forall p | p in packages :: p in inventory
    ensures CleanRun(Stream(packages, inventory, outcome, time), Only(packages, inventory))
  {
    if packages != [] {
      var k := |packages| - 1;
      var p, front := packages[k], packages[..k];
      LastApart(packages);
      StreamClean(front, inventory, outcome, time);
      PackageStreamClean(p, inventory, outcome, time);
      StreamsApart(front, p, inventory, outcome, time);
      OnlyStep(packages, inventory);
    }
  }

  lemma StreamsApart(front: seq<string>, p: string, inventory: Inventory, outcome: Key -> string, time: Key -> real)
    requires Executable(inventory, outcome, time) && p in inventory && p !in front
    requires forall q | q in front :: q in inventory
    requires CleanRun(Stream(front, inventory, outcome, time), Only(front, inventory))
    requires CleanRun(FamilyStream(p, inventory[p], outcome, time) + [Event(Some(p), "", "pass", Absent)],
                      map[p := inventory[p]])
    ensures CleanRun(Stream(front, inventory, outcome, time) +
                     (FamilyStream(p, inventory[p], outcome, time) + [Event(Some(p), "", "pass", Absent)]),
                     Only(front, inventory) + map[p := inventory[p]])
  {
    var a, b := Stream(front, inventory, outcome, time),
                FamilyStream(p, inventory[p], outcome, time) + [Event(Some(p), "", "pass", Absent)];
    var left, right := Only(front, inventory), map[p := inventory[p]];
    forall e | e in a && e.Event? && e.package.Some? ensures e.package.value !in right {
      StreamPackages(front, inventory, outcome, time, e);
    }
    forall e | e in b && e.Event? && e.package.Some? ensures e.package.value !in left {
      PackageAdmissible(p, inventory, outcome, time, e);
    }
    ConcatenationClean(a, b, left, right);
  }

  lemma {:induction false} FamilyShown(p: string, names: seq<string>, outcome: Key -> string, time: Key -> real,
                                       n: string)
    requires n in names
    ensures Event(Some(p), n, outcome((p, n)), Seconds(time((p, n)))) in FamilyStream(p, names, outcome, time)
  {
    var k := |names| - 1;
    if n != names[k] { FamilyShown(p, names[..k], outcome, time, n); }
  }

  lemma {:induction false} StreamShown(packages: seq<string>, inventory: Inventory, outcome: Key -> string,
                                       time: Key -> real, p: string, n: string)
    requires (forall q | q in packages :: q in inventory) && p in packages && n in inventory[p]
    ensures Event(Some(p), n, outcome((p, n)), Seconds(time((p, n)))) in Stream(packages, inventory, outcome, time)
  {
    var k := |packages| - 1;
    if p == packages[k] {
      FamilyShown(p, inventory[p], outcome, time, n);
    } else {
      StreamShown(packages[..k], inventory, outcome, time, p, n);
    }
  }

  /** The execution's report lists every selected family as it ended. */
  lemma StreamReported(packages: seq<string>, inventory: Inventory, outcome: Key -> string, time: Key -> real,
                       report: Report, p: string, n: string)
    requires Executable(inventory, outcome, time) && Distinct(packages) && forall q :: q in packages <==> q in inventory
    requires Reports(Stream(packages, inventory, outcome, time), report) && p in inventory && n in inventory[p]
    ensures CleanRun(Stream(packages, inventory, outcome, time), inventory)
    ensures Case(p, n, outcome((p, n)), time((p, n))) in report.cases
  {
    var events := Stream(packages, inventory, outcome, time);
    StreamClean(packages, inventory, outcome, time);
    assert Only(packages, inventory) == inventory;
    StreamShown(packages, inventory, outcome, time, p, n);
    ReportedIff(events, inventory, report);
    var o, t := outcome((p, n)), time((p, n));
    var e := Event(Some(p), n, o, Seconds(t));
    assert e in events && Shows(e, p, n, o) && Took(e, t);
    Named(p, inventory, outcome, time);
    assert o == "pass" || o == "skip";
    assert o in ["pass", "skip"];
    assert Case(p, n, o, t) in report.cases;
  }

  lemma {:induction false} StreamEvents(packages: seq<string>, inventory: Inventory, outcome: Key -> string,
                                        time: Key -> real, e: Event, n: string, action: string)
    requires (forall q | q in packages :: q in inventory) && e in Stream(packages, inventory, outcome, time)
    requires n != "" && action != "run" && e.Event? && e.package.Some? && Shows(e, e.package.value, n, action)
    ensures e.package.value in packages && n in inventory[e.package.value]
    ensures action == outcome((e.package.value, n)) && Took(e, time((e.package.value, n)))
  {
    var k := |packages| - 1;
    var p := packages[k];
    if e in Stream(packages[..k], inventory, outcome, time) {
      StreamEvents(packages[..k], inventory, outcome, time, e, n, action);
    } else if e in FamilyStream(p, inventory[p], outcome, time) {
      FamilyEvents(p, inventory[p], outcome, time, e);
    }
  }

  /** And it lists nothing else. */
  lemma StreamReportsOnly(packages: seq<string>, inventory: Inventory, outcome: Key -> string, time: Key -> real,
                          report: Report, c: Case)
    requires Executable(inventory, outcome, time) && Distinct(packages) && forall q :: q in packages <==> q in inventory
    requires Reports(Stream(packages, inventory, outcome, time), report) && c in report.cases
    ensures c.package in inventory && c.name in inventory[c.package]
    ensures c.outcome == outcome((c.package, c.name)) && c.seconds == time((c.package, c.name))
  {
    var events := Stream(packages, inventory, outcome, time);
    StreamClean(packages, inventory, outcome, time);
    assert Only(packages, inventory) == inventory;
    ReportedIff(events, inventory, report);
    assert c == Case(c.package, c.name, c.outcome, c.seconds);
    var e :| e in events && Shows(e, c.package, c.name, c.outcome) && Took(e, c.seconds);
    RunIsNoEnd();
    StreamEvents(packages, inventory, outcome, time, e, c.name, c.outcome);
  }
}
