/** Accounting for one shard's execution: the raw test events must show every
    selected family run once, finish once and succeed, and nothing else. */
module Accounting {
  import opened Outcomes
  import opened Sorting

  datatype Elapsed = Absent | Seconds(value: real) | Malformed

  /** One decoded line of `go test -json` output. An absent test or action is
      the empty string, which the source treats alike. */
  datatype Event =
    | NotObject
    | Event(package: Option<string>, test: string, action: string, elapsed: Elapsed)

  /** The families selected of each package. */
  type Inventory = map<string, seq<string>>

  /** A test case: its package and full name. */
  type Key = (string, string)

  datatype Case = Case(package: string, name: string, outcome: string, seconds: real)

  datatype PackageOutcome = PackageOutcome(outcome: string, seconds: real)

  datatype Report = Report(packages: map<string, PackageOutcome>, cases: seq<Case>)

  /** What an event contributes to: a case's start, a case's outcome, a
      package's completion, or nothing. */
  datatype Slot = Idle | Started(key: Key) | Finished(key: Key) | PackageDone(package: string)

  const ACTIONS := ["start", "run", "pause", "cont", "output", "pass", "skip", "fail"]

  /** The top-level family of a case: its name up to the first slash. */
  function Root(name: string): string {
    if name == [] || name[0] == '/' then [] else [name[0]] + Root(name[1..])
  }

  predicate KeyLe(a: Key, b: Key) {
    if a.0 != b.0 then LexLe(a.0, b.0) else LexLe(a.1, b.1)
  }

  lemma KeyLeIsTotalOrder()
    ensures TotalOrder(KeyLe)
  {
    LexIsTotalOrder();
  }

  function KeyOf(c: Case): Key {
    (c.package, c.name)
  }

  predicate ValidElapsed(elapsed: Elapsed) {
    elapsed.Absent? || (elapsed.Seconds? && elapsed.value >= 0.0)
  }

  function SecondsOf(elapsed: Elapsed): real {
    if elapsed.Seconds? then elapsed.value else 0.0
  }

  predicate Terminal(action: string) {
    action == "pass" || action == "skip" || action == "fail"
  }

  // ----- specification -----

  /** An event that no check of a single event refuses. */
  predicate Admissible(e: Event, inventory: Inventory) {
    && e.Event?
    && e.package.Some? && e.package.value in inventory
    && e.action in ACTIONS && e.action != "fail"
    && ValidElapsed(e.elapsed)
    && (e.test != [] ==> Root(e.test) in inventory[e.package.value])
  }

  function SlotOf(e: Event): Slot {
    if e.NotObject? || e.package.None? then Idle
    else if e.test != [] then
      if e.action == "run" then Started((e.package.value, e.test))
      else if Terminal(e.action) then Finished((e.package.value, e.test))
      else Idle
    else if Terminal(e.action) then PackageDone(e.package.value)
    else Idle
  }

  /** How many events contribute to a slot. */
  function Count(events: seq<Event>, slot: Slot): nat {
    if events == [] then 0
    else Count(events[..|events| - 1], slot) + if SlotOf(events[|events| - 1]) == slot then 1 else 0
  }

  /** The streams that are accepted: every event admissible, every case started
      as often as it finished and at most once, every package completed once,
      and every selected family among the finished cases. */
  ghost predicate CleanRun(events: seq<Event>, inventory: Inventory) {
    && (forall e | e in events :: Admissible(e, inventory))
    && (forall key :: Count(events, Started(key)) == Count(events, Finished(key)) <= 1)
    && (forall p | p in inventory :: Count(events, PackageDone(p)) == 1)
    && (forall p, n | p in inventory && n in inventory[p] :: Count(events, Finished((p, n))) == 1)
  }

  /** The case an outcome event stands for. */
  ghost predicate Yields(e: Event, c: Case) {
    && SlotOf(e) == Finished(KeyOf(c))
    && c.outcome == e.action && c.seconds == SecondsOf(e.elapsed)
  }

  ghost predicate Completes(e: Event, p: string, o: PackageOutcome) {
    && SlotOf(e) == PackageDone(p)
    && o == PackageOutcome(e.action, SecondsOf(e.elapsed))
  }

  /** Strictly ascending by key: sorted, with no case twice. */
  ghost predicate Ascending(cases: seq<Case>) {
    forall i, j | 0 <= i < j < |cases| :: KeyLe(KeyOf(cases[i]), KeyOf(cases[j])) && KeyOf(cases[i]) != KeyOf(cases[j])
  }

  predicate Records(report: Report, p: string, o: PackageOutcome) {
    p in report.packages && report.packages[p] == o
  }

  /** The report holds exactly the outcomes in the events. */
  ghost predicate Reports(events: seq<Event>, report: Report) {
    && Ascending(report.cases)
    && (forall c :: c in report.cases <==> exists e | e in events :: Yields(e, c))
    && (forall p, o :: Records(report, p, o) <==> exists e | e in events :: Completes(e, p, o))
  }

  // ----- counting -----

  lemma {:induction false} CountAppend(a: seq<Event>, b: seq<Event>, slot: Slot)
    ensures Count(a + b, slot) == Count(a, slot) + Count(b, slot)
  {
    if b == [] {
      assert a + b == a;
    } else {
      var n := |b| - 1;
      assert (a + b)[..|a| + n] == a + b[..n];
      CountAppend(a, b[..n], slot);
    }
  }

  lemma {:induction false} CountPositive(events: seq<Event>, slot: Slot)
    ensures Count(events, slot) > 0 <==> exists e | e in events :: SlotOf(e) == slot
  {
    if events != [] {
      var n := |events| - 1;
      CountPositive(events[..n], slot);
      assert events == events[..n] + [events[n]];
      assert forall e | e in events :: e in events[..n] || e == events[n];
    }
  }

  lemma {:induction false} CountOfMultiset(a: seq<Event>, b: seq<Event>, slot: Slot)
    requires multiset(a) == multiset(b)
    ensures Count(a, slot) == Count(b, slot)
  {
    if a == [] {
      assert |multiset(b)| == 0;
    } else {
      var k := TakeOut(a, b);
      CountOfMultiset(a[..|a| - 1], b[..k] + b[k + 1..], slot);
      CountAppend(b[..k], [b[k]], slot);
      CountAppend(b[..k] + [b[k]], b[k + 1..], slot);
      CountAppend(b[..k], b[k + 1..], slot);
      assert [b[k]][..0] == [];
    }
  }

  /** Two events cannot fill a slot that counts one. */
  lemma {:induction false} CountOneUnique(events: seq<Event>, slot: Slot, e: Event, f: Event)
    requires Count(events, slot) <= 1
    requires e in events && f in events && SlotOf(e) == slot == SlotOf(f)
    ensures e == f
  {
    var n := |events| - 1;
    assert events == events[..n] + [events[n]];
    CountPositive(events[..n], slot);
    if e in events[..n] && f in events[..n] {
      CountOneUnique(events[..n], slot, e, f);
    }
  }

  // ----- the report is determined by the events, in any order -----

  lemma {:induction false} AscendingUnique(a: seq<Case>, b: seq<Case>)
    requires Ascending(a) && Ascending(b)
    requires forall c :: c in a <==> c in b
    ensures a == b
  {
    KeyLeIsTotalOrder();
    if a == [] {
      assert forall c :: c !in b;
      assert b == [] by { assert forall i | 0 <= i < |b| :: b[i] in b; }
    } else {
      assert a[0] in b;
      assert b[0] in a;
      assert KeyOf(a[0]) == KeyOf(b[0]);
      assert a[0] == b[0];
      forall c ensures c in a[1..] <==> c in b[1..] {
        assert c in a[1..] <==> c in a && c != a[0];
        assert c in b[1..] <==> c in b && c != b[0];
      }
      AscendingUnique(a[1..], b[1..]);
      assert a == [a[0]] + a[1..] && b == [b[0]] + b[1..];
    }
  }

  /** Both verdict and report depend only on the multiset of events: every
      permutation of a stream is accepted alike and reports the same. */
  lemma OrderIrrelevant(a: seq<Event>, b: seq<Event>, inventory: Inventory, r: Report, s: Report)
    requires multiset(a) == multiset(b)
    ensures CleanRun(a, inventory) <==> CleanRun(b, inventory)
    ensures Reports(a, r) && Reports(b, s) ==> r == s
  {
    SameElements(a, b);
    forall slot ensures Count(a, slot) == Count(b, slot) { CountOfMultiset(a, b, slot); }
    if Reports(a, r) && Reports(b, s) {
      forall c ensures c in r.cases <==> c in s.cases {
        assert c in r.cases <==> exists e | e in a :: Yields(e, c);
        assert c in s.cases <==> exists e | e in b :: Yields(e, c);
      }
      AscendingUnique(r.cases, s.cases);
      forall p, o ensures Records(r, p, o) <==> Records(s, p, o) {
        assert Records(r, p, o) <==> exists e | e in a :: Completes(e, p, o);
        assert Records(s, p, o) <==> exists e | e in b :: Completes(e, p, o);
      }
      SamePackages(r, s);
    }
  }

  lemma SamePackages(r: Report, s: Report)
    requires forall p, o :: Records(r, p, o) <==> Records(s, p, o)
    ensures r.packages == s.packages
  {
    forall p ensures p in r.packages <==> p in s.packages {
      if p in r.packages { assert Records(r, p, r.packages[p]); }
      if p in s.packages { assert Records(s, p, s.packages[p]); }
    }
    forall p | p in r.packages ensures r.packages[p] == s.packages[p] {
      assert Records(r, p, r.packages[p]);
    }
  }

  // ----- the accountant -----

  /** What the accountant has gathered from the events read so far: starts per
      case, the case each outcome settled, and the package outcomes. `order`
      lists the settled cases as the dictionary holds them. */
  datatype Tally = Tally(runs: map<Key, nat>, cases: map<Key, Case>, order: seq<Key>,
                         packages: map<string, PackageOutcome>)

  ghost predicate Counts(t: Tally, events: seq<Event>) {
    && (forall key :: Count(events, Started(key)) == if key in t.runs then t.runs[key] else 0)
    && (forall key | key in t.runs :: t.runs[key] > 0)
    && (forall key :: Count(events, Finished(key)) == if key in t.cases then 1 else 0)
    && (forall p :: Count(events, PackageDone(p)) == if p in t.packages then 1 else 0)
  }

  ghost predicate Gathers(t: Tally, events: seq<Event>) {
    && (forall key | key in t.cases :: KeyOf(t.cases[key]) == key && exists e | e in events :: Yields(e, t.cases[key]))
    && (forall p | p in t.packages :: exists e | e in events :: Completes(e, p, t.packages[p]))
    && Distinct(t.order) && (forall key :: key in t.order <==> key in t.cases)
  }

  /** The tally after one more event. */
  function Note(t: Tally, e: Event): Tally
    requires e.Event? && e.package.Some?
  {
    var p, seconds := e.package.value, SecondsOf(e.elapsed);
    match SlotOf(e)
    case Started(key) => t.(runs := t.runs[key := (if key in t.runs then t.runs[key] else 0) + 1])
    case Finished(key) =>
      t.(cases := t.cases[key := Case(p, e.test, e.action, seconds)], order := t.order + [key])
    case PackageDone(_) => t.(packages := t.packages[p := PackageOutcome(e.action, seconds)])
    case Idle => t
  }

  /** The event would settle a case, or complete a package, a second time. */
  predicate Repeats(t: Tally, e: Event) {
    match SlotOf(e)
    case Finished(key) => key in t.cases
    case PackageDone(p) => p in t.packages
    case _ => false
  }

  lemma CountStep(events: seq<Event>, e: Event, slot: Slot)
    ensures Count(events + [e], slot) == Count(events, slot) + if SlotOf(e) == slot then 1 else 0
  {
    assert (events + [e])[..|events|] == events;
  }

  lemma NoteCounts(t: Tally, events: seq<Event>, e: Event)
    requires Counts(t, events) && e.Event? && e.package.Some? && !Repeats(t, e)
    ensures Counts(Note(t, e), events + [e])
  {
    forall slot ensures Count(events + [e], slot) == Count(events, slot) + if SlotOf(e) == slot then 1 else 0 {
      CountStep(events, e, slot);
    }
  }

  lemma NoteGathers(t: Tally, events: seq<Event>, e: Event)
    requires Gathers(t, events) && e.Event? && e.package.Some? && !Repeats(t, e)
    ensures Gathers(Note(t, e), events + [e])
  {
    var next := Note(t, e);
    forall key | key in next.cases
      ensures KeyOf(next.cases[key]) == key && exists f | f in events + [e] :: Yields(f, next.cases[key])
    {
      if key in t.cases {
        var f :| f in events && Yields(f, t.cases[key]);
        assert f in events + [e];
      } else {
        assert e in events + [e] && Yields(e, next.cases[key]);
      }
    }
    forall p | p in next.packages ensures exists f | f in events + [e] :: Completes(f, p, next.packages[p]) {
      if p in t.packages {
        var f :| f in events && Completes(f, p, t.packages[p]);
        assert f in events + [e];
      } else {
        assert e in events + [e] && Completes(e, p, next.packages[p]);
      }
    }
  }

  /** The tally holds these admissible events. */
  ghost predicate Tallied(t: Tally, events: seq<Event>, inventory: Inventory) {
    && (forall e | e in events :: Admissible(e, inventory))
    && Counts(t, events) && Gathers(t, events)
  }

  lemma NoteStep(t: Tally, events: seq<Event>, e: Event, inventory: Inventory)
    requires Tallied(t, events, inventory) && Admissible(e, inventory) && !Repeats(t, e)
    ensures Tallied(Note(t, e), events + [e], inventory)
  {
    NoteCounts(t, events, e);
    NoteGathers(t, events, e);
  }

  /** A repeated outcome spoils the whole stream. */
  lemma RepeatSpoils(t: Tally, events: seq<Event>, k: nat, inventory: Inventory)
    requires k < |events| && Counts(t, events[..k]) && Repeats(t, events[k])
    requires Admissible(events[k], inventory)
    ensures !CleanRun(events, inventory)
  {
    var slot := SlotOf(events[k]);
    CountStep(events[..k], events[k], slot);
    assert events == events[..k] + [events[k]] + events[k + 1..];
    CountAppend(events[..k] + [events[k]], events[k + 1..], slot);
    assert Count(events, slot) >= 2;
    if slot.PackageDone? { assert slot.package in inventory; }
  }

  /** The closing checks decide the stream. */
  predicate Complete(t: Tally, inventory: Inventory) {
    && t.packages.Keys == inventory.Keys
    && (forall p | p in inventory :: forall n | n in inventory[p] :: (p, n) in t.cases)
    && t.runs.Keys == t.cases.Keys && (forall key | key in t.runs :: t.runs[key] == 1)
  }

  lemma CompleteIsClean(t: Tally, events: seq<Event>, inventory: Inventory)
    requires Counts(t, events) && forall e | e in events :: Admissible(e, inventory)
    ensures Complete(t, inventory) <==> CleanRun(events, inventory)
  {
    if CleanRun(events, inventory) {
      forall p ensures p in t.packages <==> p in inventory {
        assert Count(events, PackageDone(p)) == if p in t.packages then 1 else 0;
        CountPositive(events, PackageDone(p));
      }
      forall key ensures key in t.runs <==> key in t.cases {
        assert Count(events, Started(key)) == Count(events, Finished(key));
      }
      forall key | key in t.runs ensures t.runs[key] == 1 {
        assert Count(events, Started(key)) <= 1;
      }
      forall p, n | p in inventory && n in inventory[p] ensures (p, n) in t.cases {
        assert Count(events, Finished((p, n))) == 1;
      }
    }
  }

  function Lookup(keys: seq<Key>, cases: map<Key, Case>): (list: seq<Case>)
    requires forall i | 0 <= i < |keys| :: keys[i] in cases
    ensures |list| == |keys|
    ensures forall i | 0 <= i < |list| :: list[i] == cases[keys[i]]
  {
    seq(|keys|, i requires 0 <= i < |keys| => cases[keys[i]])
  }

  /** The settled cases in key order. */
  function CaseList(t: Tally): (list: seq<Case>)
    requires forall key :: key in t.order <==> key in t.cases
  {
    var keys := Sort(KeyLe, t.order);
    SameElements(keys, t.order);
    assert forall i | 0 <= i < |keys| :: keys[i] in keys;
    Lookup(keys, t.cases)
  }

  lemma DistinctOfMultiset<T>(s: seq<T>, t: seq<T>)
    requires multiset(s) == multiset(t) && Distinct(s)
    ensures Distinct(t)
  {
    DistinctIsMultiplicity(s);
    DistinctIsMultiplicity(t);
    SameElements(s, t);
  }

  lemma SortedKeys(order: seq<Key>)
    requires Distinct(order)
    ensures SortedBy(KeyLe, Sort(KeyLe, order)) && Distinct(Sort(KeyLe, order))
  {
    KeyLeIsTotalOrder();
    SortSorts(KeyLe, order);
    DistinctOfMultiset(order, Sort(KeyLe, order));
  }

  lemma CaseListAscends(t: Tally, events: seq<Event>)
    requires Gathers(t, events)
    ensures Ascending(CaseList(t))
  {
    var keys, list := Sort(KeyLe, t.order), CaseList(t);
    SortedKeys(t.order);
    SameElements(keys, t.order);
    forall i | 0 <= i < |list| ensures KeyOf(list[i]) == keys[i] {
      assert keys[i] in keys;
    }
  }

  lemma CaseListMember(t: Tally, events: seq<Event>, c: Case)
    requires Counts(t, events) && Gathers(t, events)
    ensures c in CaseList(t) <==> exists e | e in events :: Yields(e, c)
  {
    var keys, list := Sort(KeyLe, t.order), CaseList(t);
    SameElements(keys, t.order);
    if c in list {
      var i :| 0 <= i < |list| && list[i] == c;
      assert keys[i] in t.cases;
    }
    if e :| e in events && Yields(e, c) {
      SettledCase(t, events, e, c);
      assert KeyOf(c) in keys;
      var i :| 0 <= i < |keys| && keys[i] == KeyOf(c);
      assert list[i] == c;
    }
  }

  lemma PackageMember(t: Tally, events: seq<Event>, p: string, o: PackageOutcome)
    requires Counts(t, events) && Gathers(t, events)
    ensures (p in t.packages && t.packages[p] == o) <==> exists e | e in events :: Completes(e, p, o)
  {
    if e :| e in events && Completes(e, p, o) {
      CountPositive(events, PackageDone(p));
      var f :| f in events && Completes(f, p, t.packages[p]);
      CountOneUnique(events, PackageDone(p), e, f);
    }
  }

  lemma CaseListReports(t: Tally, events: seq<Event>)
    requires Counts(t, events) && Gathers(t, events)
    ensures Reports(events, Report(t.packages, CaseList(t)))
  {
    var report := Report(t.packages, CaseList(t));
    CaseListAscends(t, events);
    forall c ensures c in report.cases <==> exists e | e in events :: Yields(e, c) {
      CaseListMember(t, events, c);
    }
    forall p, o ensures Records(report, p, o) <==> exists e | e in events :: Completes(e, p, o) {
      PackageMember(t, events, p, o);
    }
  }

  lemma SettledCase(t: Tally, events: seq<Event>, e: Event, c: Case)
    requires Counts(t, events) && Gathers(t, events)
    requires e in events && Yields(e, c)
    ensures KeyOf(c) in t.cases && t.cases[KeyOf(c)] == c
  {
    var key := KeyOf(c);
    CountPositive(events, Finished(key));
    var f :| f in events && Yields(f, t.cases[key]);
    CountOneUnique(events, Finished(key), e, f);
  }

  /** Reads the events in order, refusing the first inadmissible or repeated one. */
  method Gather(events: seq<Event>, inventory: Inventory) returns (result: Result<Tally>)
    ensures result.Rejected? ==> !CleanRun(events, inventory)
    ensures result.Accepted? ==> Tallied(result.value, events, inventory)
  {
    var tally := Tally(map[], map[], [], map[]);
    for k := 0 to |events|
      invariant Tallied(tally, events[..k], inventory)
    {
      var e := events[k];
      assert e in events;
      assert events[..k + 1] == events[..k] + [e];
      if !Admissible(e, inventory) {
        return Rejected;
      }
      if Repeats(tally, e) {
        RepeatSpoils(tally, events, k, inventory);
        return Rejected;
      }
      NoteStep(tally, events[..k], e, inventory);
      tally := Note(tally, e);
    }
    assert events[..|events|] == events;
    return Accepted(tally);
  }

  method Account(events: seq<Event>, inventory: Inventory) returns (result: Result<Report>)
    ensures result.Accepted? <==> CleanRun(events, inventory)
    ensures result.Accepted? ==> Reports(events, result.value)
  {
    var gathered := Gather(events, inventory);
    if gathered.Rejected? {
      return Rejected;
    }
    var tally := gathered.value;
    CompleteIsClean(tally, events, inventory);
    if !Complete(tally, inventory) {
      return Rejected;
    }
    CaseListReports(tally, events);
    return Accepted(Report(tally.packages, CaseList(tally)));
  }

  // ----- composing streams -----

  /** Every event names a package among `packages`. */
  ghost predicate Confined(events: seq<Event>, packages: set<string>) {
    forall e | e in events :: e.Event? && e.package.Some? && e.package.value in packages
  }

  function SlotPackage(slot: Slot): Option<string> {
    match slot
    case Idle => None
    case Started(key) => Some(key.0)
    case Finished(key) => Some(key.0)
    case PackageDone(p) => Some(p)
  }

  lemma ConfinedCount(events: seq<Event>, packages: set<string>, slot: Slot)
    requires Confined(events, packages)
    requires SlotPackage(slot).Some? && SlotPackage(slot).value !in packages
    ensures Count(events, slot) == 0
  {
    CountPositive(events, slot);
    assert forall e | e in events :: SlotOf(e) != slot;
  }

  /** Counting in a concatenation, seen from one package. */
  lemma ConcatenationCount(a: seq<Event>, b: seq<Event>, left: set<string>, right: set<string>, slot: Slot)
    requires left !! right && Confined(a, left) && Confined(b, right) && !slot.Idle?
    ensures SlotPackage(slot).value in left ==> Count(a + b, slot) == Count(a, slot) && Count(b, slot) == 0
    ensures SlotPackage(slot).value in right ==> Count(a + b, slot) == Count(b, slot) && Count(a, slot) == 0
    ensures SlotPackage(slot).value !in left + right ==> Count(a + b, slot) == Count(a, slot) == Count(b, slot) == 0
  {
    CountAppend(a, b, slot);
    if SlotPackage(slot).value !in left { ConfinedCount(a, left, slot); }
    if SlotPackage(slot).value !in right { ConfinedCount(b, right, slot); }
  }

  lemma PartAdmissible(part: seq<Event>, all: Inventory, own: Inventory)
    requires Confined(part, own.Keys) && forall e | e in part :: Admissible(e, all)
    requires forall p | p in own :: p in all && all[p] == own[p]
    ensures forall e | e in part :: Admissible(e, own)
  {
  }

  lemma PartClean(whole: seq<Event>, part: seq<Event>, all: Inventory, own: Inventory)
    requires CleanRun(whole, all) && Confined(part, own.Keys)
    requires forall e | e in part :: e in whole
    requires forall p | p in own :: p in all && all[p] == own[p]
    requires forall slot: Slot | !slot.Idle? && SlotPackage(slot).value in own ::
             Count(part, slot) == Count(whole, slot)
    requires forall slot: Slot | !slot.Idle? && SlotPackage(slot).value !in own :: Count(part, slot) == 0
    ensures CleanRun(part, own)
  {
    PartAdmissible(part, all, own);
    forall key ensures Count(part, Started(key)) == Count(part, Finished(key)) <= 1 {
      assert Count(whole, Started(key)) == Count(whole, Finished(key)) <= 1;
    }
    PartComplete(whole, part, all, own);
  }

  lemma PartComplete(whole: seq<Event>, part: seq<Event>, all: Inventory, own: Inventory)
    requires CleanRun(whole, all)
    requires forall p | p in own :: p in all && all[p] == own[p]
    requires forall slot: Slot | !slot.Idle? && SlotPackage(slot).value in own ::
             Count(part, slot) == Count(whole, slot)
    ensures forall p | p in own :: Count(part, PackageDone(p)) == 1
    ensures forall p, n | p in own && n in own[p] :: Count(part, Finished((p, n))) == 1
  {
    forall p | p in own ensures Count(part, PackageDone(p)) == 1 {
      assert Count(whole, PackageDone(p)) == 1;
    }
    forall p, n | p in own && n in own[p] ensures Count(part, Finished((p, n))) == 1 {
      assert Count(whole, Finished((p, n))) == 1;
    }
  }

  lemma WholeClean(a: seq<Event>, b: seq<Event>, left: Inventory, right: Inventory)
    requires left.Keys !! right.Keys && CleanRun(a, left) && CleanRun(b, right)
    ensures CleanRun(a + b, left + right)
  {
    assert Confined(a, left.Keys) && Confined(b, right.Keys);
    forall e | e in a + b ensures Admissible(e, left + right) {
      if e in a { assert Admissible(e, left); } else { assert Admissible(e, right); }
    }
    forall key ensures Count(a + b, Started(key)) == Count(a + b, Finished(key)) <= 1 {
      ConcatenationCount(a, b, left.Keys, right.Keys, Started(key));
      ConcatenationCount(a, b, left.Keys, right.Keys, Finished(key));
    }
    forall p | p in left + right ensures Count(a + b, PackageDone(p)) == 1 {
      ConcatenationCount(a, b, left.Keys, right.Keys, PackageDone(p));
    }
    forall p, n | p in left + right && n in (left + right)[p] ensures Count(a + b, Finished((p, n))) == 1 {
      ConcatenationCount(a, b, left.Keys, right.Keys, Finished((p, n)));
    }
  }

  /** The darwin shard concatenates the streams of several commands. Over
      disjoint package inventories, with no stream naming the other's packages,
      the concatenation is accepted exactly when each part is. */
  lemma ConcatenationClean(a: seq<Event>, b: seq<Event>, left: Inventory, right: Inventory)
    requires left.Keys !! right.Keys
    requires forall e | e in a && e.Event? && e.package.Some? :: e.package.value !in right
    requires forall e | e in b && e.Event? && e.package.Some? :: e.package.value !in left
    ensures CleanRun(a + b, left + right) <==> CleanRun(a, left) && CleanRun(b, right)
  {
    var all := left + right;
    if CleanRun(a, left) && CleanRun(b, right) {
      WholeClean(a, b, left, right);
    }
    if CleanRun(a + b, all) {
      forall e | e in a ensures e.Event? && e.package.Some? && e.package.value in left.Keys {
        assert e in a + b && Admissible(e, all);
      }
      forall e | e in b ensures e.Event? && e.package.Some? && e.package.value in right.Keys {
        assert e in a + b && Admissible(e, all);
      }
      forall slot: Slot | !slot.Idle?
        ensures Count(a, slot) == if SlotPackage(slot).value in left then Count(a + b, slot) else 0
        ensures Count(b, slot) == if SlotPackage(slot).value in right then Count(a + b, slot) else 0
      {
        ConcatenationCount(a, b, left.Keys, right.Keys, slot);
      }
      PartClean(a + b, a, all, left);
      PartClean(a + b, b, all, right);
    }
  }

  /** The report of a concatenation holds the cases and packages of both parts. */
  lemma ConcatenationReport(a: seq<Event>, b: seq<Event>, r: Report, s: Report, whole: Report)
    requires Reports(a, r) && Reports(b, s) && Reports(a + b, whole)
    ensures forall c :: c in whole.cases <==> c in r.cases || c in s.cases
    ensures forall p, o :: Records(whole, p, o) <==> Records(r, p, o) || Records(s, p, o)
  {
    assert forall e :: e in a + b <==> e in a || e in b;
  }
}
