/** Replaying a pull request's events to a moment in the past: whether it was
    ready and open, what its base was, and when it was last approved. Instants
    are whole numbers. */
module History {
  import opened Outcomes
  import opened Sorting

  datatype Kind =
    | ReadyForReview | ConvertToDraft | Closed | Reopened | BaseRefChanged(previous: string, current: string)
    | Labeled(name: string, user: string) | Unlabeled(removed: string) | OtherKind

  datatype Event = Event(at: int, kind: Kind)

  predicate ByTime(a: Event, b: Event) {
    a.at <= b.at
  }

  // ----- two-way switches -----

  /** A switch event: when, and to which state. */
  datatype Switch = Switch(at: int, on: bool)

  /** The source sorts (time, event name) pairs, and in both pairs of names the
      one that switches off sorts first. */
  predicate SwitchLe(a: Switch, b: Switch) {
    a.at < b.at || (a.at == b.at && (!a.on || b.on))
  }

  lemma SwitchOrder()
    ensures TotalOrder(SwitchLe)
  {
  }

  /** The draft toggles among the events, or the closings and reopenings. */
  function Switches(events: seq<Event>, on: Kind, off: Kind): seq<Switch> {
    if events == [] then []
    else
      var front, last := Switches(events[..|events| - 1], on, off), events[|events| - 1];
      if last.kind == on then front + [Switch(last.at, true)]
      else if last.kind == off then front + [Switch(last.at, false)]
      else front
  }

  /** The state at a moment: what the latest switch up to it set, else the
      state at creation. */
  ghost predicate StateIs(switches: seq<Switch>, created: bool, moment: int, state: bool) {
    if forall s | s in switches :: s.at > moment then state == created
    else
      exists s | s in switches ::
        s.at <= moment && s.on == state && forall t | t in switches && t.at <= moment :: SwitchLe(t, s)
  }

  /** The readiness at creation: the opposite of what the first toggle set, or
      the current one when nothing was toggled. */
  ghost predicate CreatedReady(switches: seq<Switch>, isDraft: bool, created: bool) {
    if switches == [] then created == !isDraft
    else exists s | s in switches :: created == !s.on && forall t | t in switches :: SwitchLe(s, t)
  }

  lemma StateUnique(switches: seq<Switch>, created: bool, moment: int, a: bool, b: bool)
    requires StateIs(switches, created, moment, a) && StateIs(switches, created, moment, b)
    ensures a == b
  {
  }

  lemma CreatedUnique(switches: seq<Switch>, isDraft: bool, a: bool, b: bool)
    requires CreatedReady(switches, isDraft, a) && CreatedReady(switches, isDraft, b)
    ensures a == b
  {
  }

  /** Walks the sorted switches up to the moment. */
  method Replay(switches: seq<Switch>, created: bool, moment: int) returns (state: bool)
    ensures StateIs(switches, created, moment, state)
  {
    var sorted := Sort(SwitchLe, switches);
    SortedSwitches(switches);
    state := created;
    for k := 0 to |sorted|
      invariant k == 0 ==> state == created
      invariant k > 0 ==> state == sorted[k - 1].on
      invariant forall i | 0 <= i < k :: sorted[i].at <= moment
    {
      if sorted[k].at > moment {
        ReplayStops(sorted, switches, created, moment, k);
        return;
      }
      state := sorted[k].on;
    }
    ReplayStops(sorted, switches, created, moment, |sorted|);
  }

  lemma SortedSwitches(switches: seq<Switch>)
    ensures SortedBy(SwitchLe, Sort(SwitchLe, switches)) && forall s :: s in Sort(SwitchLe, switches) <==> s in switches
  {
    SwitchOrder();
    SortSorts(SwitchLe, switches);
    SameElements(Sort(SwitchLe, switches), switches);
  }

  lemma ReplayStops(sorted: seq<Switch>, switches: seq<Switch>, created: bool, moment: int, k: nat)
    requires SortedBy(SwitchLe, sorted) && (forall s :: s in sorted <==> s in switches) && k <= |sorted|
    requires forall i | 0 <= i < k :: sorted[i].at <= moment
    requires k < |sorted| ==> sorted[k].at > moment
    ensures StateIs(switches, created, moment, if k == 0 then created else sorted[k - 1].on)
  {
    forall i | k <= i < |sorted| ensures sorted[i].at > moment {
      assert i == k || SwitchLe(sorted[k], sorted[i]);
    }
    forall s | s in switches && s.at <= moment ensures k > 0 && SwitchLe(s, sorted[k - 1]) {
      var i :| 0 <= i < |sorted| && sorted[i] == s;
    }
    if k > 0 {
      assert sorted[k - 1] in sorted;
    }
  }

  method ReadyThen(isDraft: bool, events: seq<Event>, moment: int) returns (ready: bool)
    ensures exists created :: CreatedReady(Switches(events, ReadyForReview, ConvertToDraft), isDraft, created) &&
                              StateIs(Switches(events, ReadyForReview, ConvertToDraft), created, moment, ready)
  {
    var toggles := Switches(events, ReadyForReview, ConvertToDraft);
    var sorted := Sort(SwitchLe, toggles);
    SwitchOrder();
    SortSorts(SwitchLe, toggles);
    SameElements(sorted, toggles);
    var first := if sorted != [] then !sorted[0].on else !isDraft;
    assert sorted != [] ==> sorted[0] in sorted;
    assert CreatedReady(toggles, isDraft, first);
    ready := Replay(toggles, first, moment);
  }

  /** Created, not finally closed, and not inside a closed interval. */
  ghost predicate IsOpen(createdAt: int, closedAt: Option<int>, events: seq<Event>, moment: int) {
    && createdAt <= moment && (closedAt.None? || closedAt.value > moment)
    && StateIs(Switches(events, Reopened, Closed), true, moment, true)
  }

  method OpenThen(createdAt: int, closedAt: Option<int>, events: seq<Event>, moment: int) returns (open: bool)
    ensures open <==> IsOpen(createdAt, closedAt, events, moment)
  {
    if createdAt > moment || (closedAt.Some? && closedAt.value <= moment) {
      return false;
    }
    open := Replay(Switches(events, Reopened, Closed), true, moment);
    if StateIs(Switches(events, Reopened, Closed), true, moment, true) {
      StateUnique(Switches(events, Reopened, Closed), true, moment, open, true);
    }
  }

  lemma {:induction false} SwitchMembers(events: seq<Event>, on: Kind, off: Kind, s: Switch)
    requires on != off
    ensures s in Switches(events, on, off) <==> Event(s.at, if s.on then on else off) in events
  {
    if events != [] {
      SwitchMembers(events[..|events| - 1], on, off, s);
      assert events == events[..|events| - 1] + [events[|events| - 1]];
    }
  }

  /** The list order of the events, and any others among them, do not matter. */
  lemma ReplayUnordered(a: seq<Event>, b: seq<Event>, on: Kind, off: Kind, isDraft: bool, created: bool, moment: int,
                        state: bool)
    requires on != off && forall e: Event | e.kind == on || e.kind == off :: e in a <==> e in b
    ensures StateIs(Switches(a, on, off), created, moment, state) <==>
            StateIs(Switches(b, on, off), created, moment, state)
    ensures CreatedReady(Switches(a, on, off), isDraft, created) <==>
            CreatedReady(Switches(b, on, off), isDraft, created)
  {
    var s, t := Switches(a, on, off), Switches(b, on, off);
    forall x ensures x in s <==> x in t {
      SwitchMembers(a, on, off, x);
      SwitchMembers(b, on, off, x);
    }
    assert s == [] <==> t == [] by {
      if s != [] { assert s[0] in t; }
      if t != [] { assert t[0] in s; }
    }
  }

  /** The instant is not after `from` and up to `to`. */
  predicate Outside(at: int, from: int, to: int) {
    at <= from || at > to
  }

  /** Between two events nothing changes. */
  lemma StateSteady(switches: seq<Switch>, created: bool, from: int, to: int, state: bool)
    requires from <= to && forall s | s in switches :: Outside(s.at, from, to)
    ensures StateIs(switches, created, from, state) <==> StateIs(switches, created, to, state)
  {
    forall s | s in switches ensures s.at <= from <==> s.at <= to { }
  }

  /** Without a creation, a final closing, a closing or a reopening in between,
      a pull request is open at both moments or at neither. */
  lemma OpenSteady(createdAt: int, closedAt: Option<int>, events: seq<Event>, from: int, to: int)
    requires from <= to && Outside(createdAt, from, to) && (closedAt.Some? ==> Outside(closedAt.value, from, to))
    requires forall e | e in events && (e.kind.Closed? || e.kind.Reopened?) :: Outside(e.at, from, to)
    ensures IsOpen(createdAt, closedAt, events, from) <==> IsOpen(createdAt, closedAt, events, to)
  {
    var switches := Switches(events, Reopened, Closed);
    forall s | s in switches ensures Outside(s.at, from, to) {
      SwitchMembers(events, Reopened, Closed, s);
      assert Event(s.at, if s.on then Reopened else Closed) in events;
    }
    StateSteady(switches, true, from, to, true);
  }

  // ----- the base branch -----

  function Changes(events: seq<Event>): seq<Event> {
    if events == [] then []
    else
      var front, last := Changes(events[..|events| - 1]), events[|events| - 1];
      if last.kind.BaseRefChanged? then front + [last] else front
  }

  lemma {:induction false} ChangesAreChanges(events: seq<Event>)
    ensures forall e | e in Changes(events) :: e.kind.BaseRefChanged? && e in events
  {
    if events != [] { ChangesAreChanges(events[..|events| - 1]); }
  }

  /** In listing order, the last event up to the moment; ties go to the later listed. */
  function LatestUpTo(events: seq<Event>, moment: int): Option<Event> {
    if events == [] then None
    else
      var later := LatestUpTo(events[1..], moment);
      if events[0].at <= moment && (later.None? || events[0].at > later.value.at) then Some(events[0]) else later
  }

  /** In listing order, the first event of all; ties go to the earlier listed. */
  function Earliest(events: seq<Event>): Event
    requires events != []
  {
    if |events| == 1 then events[0]
    else
      var later := Earliest(events[1..]);
      if events[0].at <= later.at then events[0] else later
  }

  /** The latest is an event up to the moment, after every other one in time,
      and in the list where times are equal. */
  lemma {:induction false} LatestMeaning(events: seq<Event>, moment: int) returns (k: nat)
    ensures LatestUpTo(events, moment).None? ==> forall i | 0 <= i < |events| :: events[i].at > moment
    ensures LatestUpTo(events, moment).Some? ==>
      k < |events| && LatestUpTo(events, moment) == Some(events[k]) && events[k].at <= moment &&
      forall i | 0 <= i < |events| && events[i].at <= moment ::
        events[i].at < events[k].at || (events[i].at == events[k].at && i <= k)
  {
    k := 0;
    if events != [] {
      var rest := LatestMeaning(events[1..], moment);
      if LatestUpTo(events, moment) == LatestUpTo(events[1..], moment) && LatestUpTo(events[1..], moment).Some?
         && !(events[0].at <= moment && events[0].at > LatestUpTo(events[1..], moment).value.at) {
        k := rest + 1;
        assert events[k] == events[1..][rest];
      }
      assert forall i | 1 <= i < |events| :: events[i] == events[1..][i - 1];
    }
  }

  lemma {:induction false} LatestOfInsert(e: Event, s: seq<Event>, moment: int)
    requires SortedBy(ByTime, s)
    ensures LatestUpTo(Insert(ByTime, e, s), moment) == LatestUpTo([e] + s, moment)
    ensures Earliest(Insert(ByTime, e, s)) == Earliest([e] + s)
  {
    assert ([e] + s)[1..] == s;
    if s != [] && !ByTime(e, s[0]) {
      LatestOfInsert(e, s[1..], moment);
      assert ([e] + s[1..])[1..] == s[1..];
      var t := Insert(ByTime, e, s[1..]);
      assert ([s[0]] + t)[1..] == t;
      InsertPermutes(ByTime, e, s[1..]);
      SortedEarliest(s);
      LatestAtLeast(s[1..], moment, s[0].at);
      if |s| > 1 { SortedEarliest(s[1..]); }
    }
  }

  lemma {:induction false} LatestAtLeast(s: seq<Event>, moment: int, least: int)
    requires forall i | 0 <= i < |s| :: s[i].at >= least
    ensures LatestUpTo(s, moment).Some? ==> LatestUpTo(s, moment).value.at >= least
  {
    if s != [] { LatestAtLeast(s[1..], moment, least); }
  }

  lemma {:induction false} SortedEarliest(s: seq<Event>)
    requires s != [] && SortedBy(ByTime, s)
    ensures Earliest(s) == s[0]
  {
    if |s| > 1 { SortedEarliest(s[1..]); }
  }

  /** Sorting by time, stably, changes neither the latest nor the earliest. */
  lemma {:induction false} SortKeepsEnds(events: seq<Event>, moment: int)
    ensures LatestUpTo(Sort(ByTime, events), moment) == LatestUpTo(events, moment)
    ensures events != [] ==> Earliest(Sort(ByTime, events)) == Earliest(events)
  {
    if events != [] {
      var rest := Sort(ByTime, events[1..]);
      SortKeepsEnds(events[1..], moment);
      SortSorts(ByTime, events[1..]);
      LatestOfInsert(events[0], rest, moment);
      assert ([events[0]] + rest)[1..] == rest;
    }
  }

  /** The base at a moment: what the latest change up to it set, else the base
      before the first change, else the current one. */
  function BaseAt(current: string, changes: seq<Event>, moment: int): string
    requires forall e | e in changes :: e.kind.BaseRefChanged?
  {
    if changes == [] then current
    else
      EndsAmong(changes, moment);
      match LatestUpTo(changes, moment)
      case Some(e) => e.kind.current
      case None => Earliest(changes).kind.previous
  }

  /** Without a base change in between, the base is the same at both moments. */
  lemma BaseSteady(current: string, events: seq<Event>, from: int, to: int)
    requires from <= to && forall e | e in events && e.kind.BaseRefChanged? :: Outside(e.at, from, to)
    ensures forall e | e in Changes(events) :: e.kind.BaseRefChanged?
    ensures BaseAt(current, Changes(events), from) == BaseAt(current, Changes(events), to)
  {
    ChangesAreChanges(events);
    LatestSteady(Changes(events), from, to);
  }

  lemma {:induction false} LatestSteady(events: seq<Event>, from: int, to: int)
    requires from <= to && forall e | e in events :: Outside(e.at, from, to)
    ensures LatestUpTo(events, from) == LatestUpTo(events, to)
  {
    if events != [] {
      assert events[0] in events;
      LatestSteady(events[1..], from, to);
    }
  }

  lemma {:induction false} EndsAmong(events: seq<Event>, moment: int)
    requires events != []
    ensures Earliest(events) in events
    ensures LatestUpTo(events, moment).Some? ==> LatestUpTo(events, moment).value in events
  {
    if |events| > 1 {
      EndsAmong(events[1..], moment);
      assert forall e | e in events[1..] :: e in events;
    } else {
      assert LatestUpTo(events[1..], moment).None?;
    }
  }

  method BaseThen(current: string, events: seq<Event>, moment: int) returns (base: string)
    ensures (forall e | e in Changes(events) :: e.kind.BaseRefChanged?) &&
            base == BaseAt(current, Changes(events), moment)
  {
    var changes := Sort(ByTime, Changes(events));
    SortedChanges(events);
    if changes == [] {
      return current;
    }
    base := changes[0].kind.previous;
    for k := 0 to |changes|
      invariant base == if k == 0 then changes[0].kind.previous else changes[k - 1].kind.current
      invariant forall i | 0 <= i < k :: changes[i].at <= moment
    {
      if changes[k].at > moment {
        BaseReached(current, events, moment, k);
        return;
      }
      base := changes[k].kind.current;
    }
    BaseReached(current, events, moment, |changes|);
  }

  lemma SortedChanges(events: seq<Event>)
    ensures SortedBy(ByTime, Sort(ByTime, Changes(events)))
    ensures forall e | e in Changes(events) :: e.kind.BaseRefChanged?
    ensures forall i | 0 <= i < |Sort(ByTime, Changes(events))| :: Sort(ByTime, Changes(events))[i].kind.BaseRefChanged?
    ensures Sort(ByTime, Changes(events)) == [] <==> Changes(events) == []
  {
    var changes := Sort(ByTime, Changes(events));
    ChangesAreChanges(events);
    SameElements(changes, Changes(events));
    SortSorts(ByTime, Changes(events));
    forall i | 0 <= i < |changes| ensures changes[i].kind.BaseRefChanged? { assert changes[i] in changes; }
  }

  /** The first k sorted changes are the ones up to the moment. */
  lemma BaseReached(current: string, events: seq<Event>, moment: int, k: nat)
    requires var changes := Sort(ByTime, Changes(events));
             && changes != [] && k <= |changes| && (forall i | 0 <= i < k :: changes[i].at <= moment)
             && (k < |changes| ==> changes[k].at > moment)
             && (forall i | 0 <= i < |changes| :: changes[i].kind.BaseRefChanged?)
             && (forall e | e in Changes(events) :: e.kind.BaseRefChanged?)
    ensures var changes := Sort(ByTime, Changes(events));
            BaseAt(current, Changes(events), moment) ==
            if k == 0 then changes[0].kind.previous else changes[k - 1].kind.current
  {
    var changes := Sort(ByTime, Changes(events));
    SortedChanges(events);
    SortKeepsEnds(Changes(events), moment);
    SortedEarliest(changes);
    SortedLatest(changes, moment, k);
  }

  lemma {:induction false} SortedLatest(s: seq<Event>, moment: int, k: nat)
    requires SortedBy(ByTime, s) && k <= |s|
    requires forall i | 0 <= i < k :: s[i].at <= moment
    requires k < |s| ==> s[k].at > moment
    ensures LatestUpTo(s, moment) == if k == 0 then None else Some(s[k - 1])
  {
    if s != [] {
      if k > 0 {
        SortedLatest(s[1..], moment, k - 1);
      } else {
        forall i | 0 <= i < |s| ensures s[i].at > moment { assert ByTime(s[0], s[i]); }
        NoneUpTo(s, moment);
      }
    }
  }

  lemma {:induction false} NoneUpTo(s: seq<Event>, moment: int)
    requires forall i | 0 <= i < |s| :: s[i].at > moment
    ensures LatestUpTo(s, moment) == None
  {
    if s != [] { NoneUpTo(s[1..], moment); }
  }

  // ----- the approval -----

  const APPROVAL_LABEL := "approved"
  const APPROVER_ROLES := {"write", "maintain", "admin"}

  predicate IsApprover(roles: map<string, string>, user: string) {
    user in roles && roles[user] in APPROVER_ROLES
  }

  /** A change of the approval label. */
  predicate IsApprovalChange(e: Event) {
    (e.kind.Labeled? && e.kind.name == APPROVAL_LABEL) || (e.kind.Unlabeled? && e.kind.removed == APPROVAL_LABEL)
  }

  /** A change that counts: any removal, or a labelling by an approver. */
  predicate IsDecisive(e: Event, roles: map<string, string>) {
    IsApprovalChange(e) && (e.kind.Labeled? ==> IsApprover(roles, e.kind.user))
  }

  function Filter(events: seq<Event>, keep: Event -> bool): seq<Event> {
    if events == [] then []
    else
      var rest := Filter(events[1..], keep);
      if keep(events[0]) then [events[0]] + rest else rest
  }

  function Decisive(events: seq<Event>, roles: map<string, string>): seq<Event> {
    Filter(events, e => IsDecisive(e, roles))
  }

  lemma {:induction false} FilterMembers(s: seq<Event>, keep: Event -> bool)
    ensures forall e :: e in Filter(s, keep) <==> e in s && keep(e)
    ensures SortedBy(ByTime, s) ==> SortedBy(ByTime, Filter(s, keep))
  {
    if s != [] {
      FilterMembers(s[1..], keep);
      assert s == [s[0]] + s[1..];
      if SortedBy(ByTime, s) {
        forall e | e in s[1..] ensures ByTime(s[0], e) { }
      }
    }
  }

  lemma {:induction false} FilterAppend(s: seq<Event>, t: seq<Event>, keep: Event -> bool)
    ensures Filter(s + t, keep) == Filter(s, keep) + Filter(t, keep)
  {
    if s == [] {
      assert s + t == t;
    } else {
      assert (s + t)[1..] == s[1..] + t;
      FilterAppend(s[1..], t, keep);
    }
  }

  lemma FilterStep(s: seq<Event>, k: nat, keep: Event -> bool)
    requires k < |s|
    ensures Filter(s[..k + 1], keep) == Filter(s[..k], keep) + if keep(s[k]) then [s[k]] else []
  {
    assert s[..k + 1] == s[..k] + [s[k]];
    FilterAppend(s[..k], [s[k]], keep);
    assert [s[k]][1..] == [];
  }

  lemma {:induction false} FilterInsert(e: Event, s: seq<Event>, keep: Event -> bool)
    requires SortedBy(ByTime, s)
    ensures Filter(Insert(ByTime, e, s), keep) ==
            if keep(e) then Insert(ByTime, e, Filter(s, keep)) else Filter(s, keep)
  {
    if s == [] {
      assert [e][1..] == [];
    } else if ByTime(e, s[0]) {
      assert ([e] + s)[1..] == s;
      FilterMembers(s, keep);
      if Filter(s, keep) != [] {
        assert Filter(s, keep)[0] in Filter(s, keep);
        var i :| 0 <= i < |s| && s[i] == Filter(s, keep)[0];
      }
    } else {
      FilterInsert(e, s[1..], keep);
      var t := Insert(ByTime, e, s[1..]);
      assert ([s[0]] + t)[1..] == t;
      if keep(s[0]) { assert Filter(s, keep)[1..] == Filter(s[1..], keep); }
    }
  }

  /** Stable sorting and filtering commute. */
  lemma {:induction false} FilterSort(events: seq<Event>, keep: Event -> bool)
    ensures Filter(Sort(ByTime, events), keep) == Sort(ByTime, Filter(events, keep))
  {
    if events != [] {
      FilterSort(events[1..], keep);
      SortSorts(ByTime, events[1..]);
      FilterInsert(events[0], Sort(ByTime, events[1..]), keep);
      if keep(events[0]) { assert Filter(events, keep)[1..] == Filter(events[1..], keep); }
    }
  }

  /** Events after the moment do not bear on the latest up to it. */
  lemma {:induction false} LatestWithin(events: seq<Event>, moment: int, keep: Event -> bool)
    requires forall e: Event :: keep(e) <== e.at <= moment
    ensures LatestUpTo(Filter(events, keep), moment) == LatestUpTo(events, moment)
  {
    if events != [] {
      LatestWithin(events[1..], moment, keep);
      if keep(events[0]) {
        assert Filter(events, keep)[1..] == Filter(events[1..], keep);
      } else {
        LatestBound(events[1..], moment);
      }
    }
  }

  lemma {:induction false} LatestBound(events: seq<Event>, moment: int)
    ensures LatestUpTo(events, moment).Some? ==> LatestUpTo(events, moment).value.at <= moment
  {
    if events != [] { LatestBound(events[1..], moment); }
  }

  /** What one decisive change leaves standing. */
  function Standing(last: Option<Event>): Option<int> {
    if last.Some? && last.value.kind.Labeled? then Some(last.value.at) else None
  }

  /** The approval standing at the merge: the time of the latest decisive change
      up to it, if that change is an approver's label. */
  function Approval(events: seq<Event>, roles: map<string, string>, mergedAt: int): Option<int> {
    Standing(LatestUpTo(Decisive(events, roles), mergedAt))
  }

  method ApprovedAt(mergedAt: int, events: seq<Event>, roles: map<string, string>) returns (active: Option<int>)
    ensures active == Approval(events, roles, mergedAt)
  {
    var relevant := (e: Event) => IsApprovalChange(e) && e.at <= mergedAt;
    var changes := Sort(ByTime, Filter(events, relevant));
    ghost var decisive := (e: Event) => IsDecisive(e, roles);
    active := None;
    ghost var last: Option<Event> := None;
    for k := 0 to |changes|
      invariant active == Standing(last)
      invariant last == LastOf(Filter(changes[..k], decisive))
    {
      var e := changes[k];
      FilterStep(changes, k, decisive);
      ChangeRelevant(events, relevant, changes, k);
      if e.kind.Unlabeled? {
        active := None;
        last := Some(e);
      } else if IsApprover(roles, e.kind.user) {
        active := Some(e.at);
        last := Some(e);
      }
    }
    assert changes[..|changes|] == changes;
    LastIsLatest(events, roles, mergedAt, relevant, decisive);
  }

  function LastOf(s: seq<Event>): Option<Event> {
    if s == [] then None else Some(s[|s| - 1])
  }

  lemma ChangeRelevant(events: seq<Event>, relevant: Event -> bool, changes: seq<Event>, k: nat)
    requires changes == Sort(ByTime, Filter(events, relevant)) && k < |changes|
    ensures relevant(changes[k])
  {
    SameElements(changes, Filter(events, relevant));
    assert changes[k] in changes;
    FilterMembers(events, relevant);
  }

  lemma {:induction false} FilterTwice(events: seq<Event>, roles: map<string, string>, mergedAt: int,
                                       relevant: Event -> bool, decisive: Event -> bool, early: Event -> bool)
    requires forall e: Event :: relevant(e) <==> IsApprovalChange(e) && e.at <= mergedAt
    requires forall e: Event :: decisive(e) <==> IsDecisive(e, roles)
    requires forall e: Event :: early(e) <==> e.at <= mergedAt
    ensures Filter(Filter(events, relevant), decisive) == Filter(Filter(events, decisive), early)
  {
    if events != [] {
      FilterTwice(events[1..], roles, mergedAt, relevant, decisive, early);
      var e := events[0];
      if relevant(e) { assert Filter(events, relevant)[1..] == Filter(events[1..], relevant); }
      if decisive(e) { assert Filter(events, decisive)[1..] == Filter(events[1..], decisive); }
    }
  }

  lemma LastIsLatest(events: seq<Event>, roles: map<string, string>, mergedAt: int,
                     relevant: Event -> bool, decisive: Event -> bool)
    requires forall e: Event :: relevant(e) <==> IsApprovalChange(e) && e.at <= mergedAt
    requires forall e: Event :: decisive(e) <==> IsDecisive(e, roles)
    ensures LastOf(Filter(Sort(ByTime, Filter(events, relevant)), decisive)) ==
            LatestUpTo(Decisive(events, roles), mergedAt)
  {
    var early := (e: Event) => e.at <= mergedAt;
    var kept := Filter(Filter(events, relevant), decisive);
    var sorted := Sort(ByTime, kept);
    FilterSort(Filter(events, relevant), decisive);
    FilterTwice(events, roles, mergedAt, relevant, decisive, early);
    FilterSame(events, decisive, e => IsDecisive(e, roles));
    LatestWithin(Decisive(events, roles), mergedAt, early);
    SortKeepsEnds(kept, mergedAt);
    SortSorts(ByTime, kept);
    SameElements(sorted, kept);
    FilterMembers(Filter(events, decisive), early);
    forall i | 0 <= i < |sorted| ensures sorted[i].at <= mergedAt { assert sorted[i] in sorted; }
    SortedLatest(sorted, mergedAt, |sorted|);
  }

  lemma {:induction false} FilterSame(events: seq<Event>, a: Event -> bool, b: Event -> bool)
    requires forall e | e in events :: a(e) == b(e)
    ensures Filter(events, a) == Filter(events, b)
  {
    if events != [] { FilterSame(events[1..], a, b); }
  }

  /** Labels by others than approvers, and events after the merge, could be
      deleted without changing the answer. */
  lemma ApprovalNeedsOnly(events: seq<Event>, roles: map<string, string>, mergedAt: int, keep: Event -> bool)
    requires forall e: Event :: keep(e) <== IsDecisive(e, roles) && e.at <= mergedAt
    ensures Approval(Filter(events, keep), roles, mergedAt) == Approval(events, roles, mergedAt)
  {
    var decisive := (e: Event) => IsDecisive(e, roles);
    var early := (e: Event) => e.at <= mergedAt;
    LatestWithin(Decisive(events, roles), mergedAt, early);
    LatestWithin(Decisive(Filter(events, keep), roles), mergedAt, early);
    FilterSame(events, decisive, e => IsDecisive(e, roles));
    FilterSame(Filter(events, keep), decisive, e => IsDecisive(e, roles));
    KeptDecisive(events, keep, decisive, early);
  }

  lemma {:induction false} KeptDecisive(events: seq<Event>, keep: Event -> bool, decisive: Event -> bool,
                                        early: Event -> bool)
    requires forall e: Event :: keep(e) <== decisive(e) && early(e)
    ensures Filter(Filter(Filter(events, keep), decisive), early) == Filter(Filter(events, decisive), early)
  {
    if events != [] {
      KeptDecisive(events[1..], keep, decisive, early);
      var e := events[0];
      if keep(e) {
        assert Filter(events, keep)[1..] == Filter(events[1..], keep);
        if decisive(e) {
          assert Filter(Filter(events, keep), decisive)[1..] == Filter(Filter(events[1..], keep), decisive);
        }
      }
      if decisive(e) { assert Filter(events, decisive)[1..] == Filter(events[1..], decisive); }
    }
  }
}
