/** The replays of a pull request's history, spelled out over its events. */
module HistoryLaws {
  import opened Outcomes
  import opened Sorting
  import opened History
  import opened LandingPairs

  // ----- open and ready -----

  /** Every closing up to the moment is followed by a reopening up to it. */
  ghost predicate Reopens(events: seq<Event>, moment: int) {
    forall c | c in events && c.kind == Closed && c.at <= moment ::
      exists r | r in events :: r.kind == Reopened && c.at <= r.at <= moment
  }

  /** Every return to draft up to the moment is followed by a release up to it. */
  ghost predicate Releases(events: seq<Event>, moment: int) {
    forall c | c in events && c.kind == ConvertToDraft && c.at <= moment ::
      exists r | r in events :: r.kind == ReadyForReview && c.at <= r.at <= moment
  }

  predicate Toggles(e: Event) {
    e.kind == ReadyForReview || e.kind == ConvertToDraft
  }

  /** Ready now with no toggle at all; by the toggles up to the moment; or, before
      them all, when the first of them returns the pull request to draft. */
  ghost predicate IsReady(isDraft: bool, events: seq<Event>, moment: int) {
    if forall e | e in events :: !Toggles(e) then !isDraft
    else if exists e | e in events :: Toggles(e) && e.at <= moment then Releases(events, moment)
    else exists c | c in events :: c.kind == ConvertToDraft && forall e | e in events && Toggles(e) :: c.at <= e.at
  }

  lemma SwitchEvents(events: seq<Event>, on: Kind, off: Kind)
    requires on != off
    ensures forall s :: s in Switches(events, on, off) <==> Event(s.at, if s.on then on else off) in events
    ensures forall e | e in events && e.kind == on :: Switch(e.at, true) in Switches(events, on, off)
    ensures forall e | e in events && e.kind == off :: Switch(e.at, false) in Switches(events, on, off)
  {
    forall s ensures s in Switches(events, on, off) <==> Event(s.at, if s.on then on else off) in events {
      SwitchMembers(events, on, off, s);
    }
    forall e | e in events && e.kind == on ensures Switch(e.at, true) in Switches(events, on, off) {
      assert e == Event(e.at, on);
    }
    forall e | e in events && e.kind == off ensures Switch(e.at, false) in Switches(events, on, off) {
      assert e == Event(e.at, off);
    }
  }

  /** Every switching off up to the moment is followed by a switching on. */
  ghost predicate Recovers(switches: seq<Switch>, moment: int) {
    forall c | c in switches && !c.on && c.at <= moment :: exists r | r in switches :: r.on && c.at <= r.at <= moment
  }

  lemma LastSwitch(switches: seq<Switch>, created: bool, moment: int)
    requires exists s | s in switches :: s.at <= moment
    ensures StateIs(switches, created, moment, true) <==> Recovers(switches, moment)
  {
    if StateIs(switches, created, moment, true) {
      var s :| s in switches && s.at <= moment && s.on && forall t | t in switches && t.at <= moment :: SwitchLe(t, s);
      forall c | c in switches && !c.on && c.at <= moment
        ensures exists r | r in switches :: r.on && c.at <= r.at <= moment
      {
        assert SwitchLe(c, s);
      }
    }
    if Recovers(switches, moment) {
      var s := LatestOf(switches, moment);
      assert !s.on ==> exists r | r in switches :: r.on && s.at <= r.at <= moment;
      assert s.on;
    }
  }

  lemma {:induction false} LatestOf(switches: seq<Switch>, moment: int) returns (s: Switch)
    requires exists s | s in switches :: s.at <= moment
    ensures s in switches && s.at <= moment && forall t | t in switches && t.at <= moment :: SwitchLe(t, s)
  {
    var n := |switches| - 1;
    var last := switches[n];
    assert switches == switches[..n] + [last];
    if exists t | t in switches[..n] :: t.at <= moment {
      var best := LatestOf(switches[..n], moment);
      s := if last.at <= moment && SwitchLe(best, last) then last else best;
    } else {
      s := last;
    }
  }

  /** A pull request is open when it is created, not finally closed, and reopened
      after every closing. */
  lemma OpenIff(createdAt: int, closedAt: Option<int>, events: seq<Event>, moment: int)
    ensures IsOpen(createdAt, closedAt, events, moment) <==>
            createdAt <= moment && (closedAt.Some? ==> moment < closedAt.value) && Reopens(events, moment)
  {
    var switches := Switches(events, Reopened, Closed);
    SwitchEvents(events, Reopened, Closed);
    if exists s | s in switches :: s.at <= moment {
      LastSwitch(switches, true, moment);
      RecoversIff(events, Reopened, Closed, moment);
    } else {
      forall c | c in events && c.kind == Closed ensures c.at > moment {
        assert Switch(c.at, false) in switches;
      }
    }
  }

  lemma RecoversIff(events: seq<Event>, on: Kind, off: Kind, moment: int)
    requires on != off
    ensures Recovers(Switches(events, on, off), moment) <==>
            forall c | c in events && c.kind == off && c.at <= moment ::
              exists r | r in events :: r.kind == on && c.at <= r.at <= moment
  {
    if Recovers(Switches(events, on, off), moment) { RecoversEvents(events, on, off, moment); }
    if forall c | c in events && c.kind == off && c.at <= moment ::
         exists r | r in events :: r.kind == on && c.at <= r.at <= moment {
      EventsRecover(events, on, off, moment);
    }
  }

  lemma RecoversEvents(events: seq<Event>, on: Kind, off: Kind, moment: int)
    requires on != off && Recovers(Switches(events, on, off), moment)
    ensures forall c | c in events && c.kind == off && c.at <= moment ::
              exists r | r in events :: r.kind == on && c.at <= r.at <= moment
  {
    var switches := Switches(events, on, off);
    SwitchEvents(events, on, off);
    forall c | c in events && c.kind == off && c.at <= moment
      ensures exists r | r in events :: r.kind == on && c.at <= r.at <= moment
    {
      assert Switch(c.at, false) in switches;
      var s :| s in switches && s.on && c.at <= s.at <= moment;
      assert Event(s.at, on) in events;
    }
  }

  lemma EventsRecover(events: seq<Event>, on: Kind, off: Kind, moment: int)
    requires on != off
    requires forall c | c in events && c.kind == off && c.at <= moment ::
               exists r | r in events :: r.kind == on && c.at <= r.at <= moment
    ensures Recovers(Switches(events, on, off), moment)
  {
    var switches := Switches(events, on, off);
    SwitchEvents(events, on, off);
    forall s | s in switches && !s.on && s.at <= moment
      ensures exists t | t in switches :: t.on && s.at <= t.at <= moment
    {
      assert Event(s.at, off) in events;
      var r :| r in events && r.kind == on && s.at <= r.at <= moment;
      assert Switch(r.at, true) in switches;
    }
  }

  /** What the replay of the toggles returns. */
  lemma ReadyIff(isDraft: bool, events: seq<Event>, moment: int, created: bool, ready: bool)
    requires CreatedReady(Switches(events, ReadyForReview, ConvertToDraft), isDraft, created)
    requires StateIs(Switches(events, ReadyForReview, ConvertToDraft), created, moment, ready)
    ensures ready <==> IsReady(isDraft, events, moment)
  {
    var switches := Switches(events, ReadyForReview, ConvertToDraft);
    ToggleSwitches(events, moment);
    if exists s | s in switches :: s.at <= moment {
      LastSwitch(switches, created, moment);
      RecoversIff(events, ReadyForReview, ConvertToDraft, moment);
      if StateIs(switches, created, moment, true) { StateUnique(switches, created, moment, ready, true); }
    } else {
      FirstToggle(isDraft, events, created);
    }
  }

  lemma ToggleSwitches(events: seq<Event>, moment: int)
    ensures (exists s | s in Switches(events, ReadyForReview, ConvertToDraft) :: s.at <= moment) <==>
            exists e | e in events :: Toggles(e) && e.at <= moment
  {
    var switches := Switches(events, ReadyForReview, ConvertToDraft);
    SwitchEvents(events, ReadyForReview, ConvertToDraft);
    if s :| s in switches && s.at <= moment {
      var e := Event(s.at, if s.on then ReadyForReview else ConvertToDraft);
      assert e in events && Toggles(e);
    }
    if e :| e in events && Toggles(e) && e.at <= moment {
      assert Switch(e.at, e.kind == ReadyForReview) in switches;
    }
  }

  lemma FirstToggle(isDraft: bool, events: seq<Event>, created: bool)
    requires CreatedReady(Switches(events, ReadyForReview, ConvertToDraft), isDraft, created)
    ensures created <==>
            if forall e | e in events :: !Toggles(e) then !isDraft
            else exists c | c in events :: c.kind == ConvertToDraft && forall e | e in events && Toggles(e) ::
              c.at <= e.at
  {
    var switches := Switches(events, ReadyForReview, ConvertToDraft);
    SwitchEvents(events, ReadyForReview, ConvertToDraft);
    if switches == [] {
      forall e | e in events ensures !Toggles(e) { }
    } else {
      var s :| s in switches && created == !s.on && forall t | t in switches :: SwitchLe(s, t);
      var first := Event(s.at, if s.on then ReadyForReview else ConvertToDraft);
      assert first in events && Toggles(first);
      forall e | e in events && Toggles(e) ensures s.at <= e.at {
        assert SwitchLe(s, Switch(e.at, e.kind == ReadyForReview));
      }
      if c :| c in events && c.kind == ConvertToDraft && forall e | e in events && Toggles(e) :: c.at <= e.at {
        assert SwitchLe(s, Switch(c.at, false)) && c.at <= first.at;
      }
    }
  }

  // ----- the latest of some events -----

  /** Position k holds the latest of the kept events up to the moment: none is
      later in time, nor in the list at the same time. */
  predicate LatestAt(events: seq<Event>, keep: Event -> bool, moment: int, k: int) {
    && 0 <= k < |events| && keep(events[k]) && events[k].at <= moment
    && forall j | 0 <= j < |events| && keep(events[j]) && events[j].at <= moment ::
         events[j].at < events[k].at || (events[j].at == events[k].at && j <= k)
  }

  lemma {:induction false} FilteredLatest(events: seq<Event>, keep: Event -> bool, moment: int) returns (k: int)
    ensures LatestUpTo(Filter(events, keep), moment).None? ==> forall e | e in events && keep(e) :: e.at > moment
    ensures LatestUpTo(Filter(events, keep), moment).Some? ==>
              LatestAt(events, keep, moment, k) && events[k] == LatestUpTo(Filter(events, keep), moment).value
  {
    k := 0;
    if events != [] {
      var rest := events[1..];
      var i := FilteredLatest(rest, keep, moment);
      assert events == [events[0]] + rest;
      assert forall j | 1 <= j < |events| :: events[j] == rest[j - 1];
      var later := LatestUpTo(Filter(rest, keep), moment);
      if keep(events[0]) { assert Filter(events, keep)[1..] == Filter(rest, keep); }
      if later.Some? && !(keep(events[0]) && events[0].at <= moment && events[0].at > later.value.at) {
        k := i + 1;
      } else if later.None? {
        forall j | 1 <= j < |events| && keep(events[j]) ensures events[j].at > moment { assert rest[j - 1] in rest; }
      }
    }
  }

  lemma LatestUnique(events: seq<Event>, keep: Event -> bool, moment: int, i: int, j: int)
    requires LatestAt(events, keep, moment, i) && LatestAt(events, keep, moment, j)
    ensures i == j
  {
  }

  /** A removal of the approval label, or its addition by an approver. */
  predicate Decides(e: Event, roles: map<string, string>) {
    || e.kind == Unlabeled("approved")
    || (e.kind.Labeled? && e.kind.name == "approved" && e.kind.user in roles &&
        roles[e.kind.user] in {"write", "maintain", "admin"})
  }

  lemma DecidesIff(e: Event, roles: map<string, string>)
    ensures Decides(e, roles) <==> IsDecisive(e, roles)
  {
  }

  /** The approval stands since t exactly when the last decision up to the merge is
      an approver's label at t. */
  lemma ApprovalIff(events: seq<Event>, roles: map<string, string>, mergedAt: int, t: int)
    ensures Approval(events, roles, mergedAt) == Some(t) <==>
            exists k :: LatestAt(events, e => Decides(e, roles), mergedAt, k) && events[k].kind.Labeled? &&
                events[k].at == t
  {
    var keep := (e: Event) => Decides(e, roles);
    forall e ensures Decides(e, roles) == IsDecisive(e, roles) { DecidesIff(e, roles); }
    FilterSame(events, keep, e => IsDecisive(e, roles));
    var i := FilteredLatest(events, keep, mergedAt);
    if k :| LatestAt(events, keep, mergedAt, k) && events[k].kind.Labeled? && events[k].at == t {
      assert events[k] in events;
      LatestUnique(events, keep, mergedAt, i, k);
    }
  }

  // ----- the base branch -----

  predicate Rebases(e: Event) {
    e.kind.BaseRefChanged?
  }

  lemma {:induction false} ChangesFiltered(events: seq<Event>)
    ensures Changes(events) == Filter(events, Rebases)
  {
    if events != [] {
      var n := |events| - 1;
      ChangesFiltered(events[..n]);
      FilterAppend(events[..n], [events[n]], Rebases);
      assert events == events[..n] + [events[n]] && [events[n]][1..] == [];
    }
  }

  /** Position k holds the first base change: none is earlier in time, nor in the
      list at the same time. */
  predicate FirstAt(events: seq<Event>, k: int) {
    && 0 <= k < |events| && Rebases(events[k])
    && forall j | 0 <= j < |events| && Rebases(events[j]) ::
         events[k].at < events[j].at || (events[j].at == events[k].at && k <= j)
  }

  lemma {:induction false} FilteredFirst(events: seq<Event>) returns (k: int)
    requires Filter(events, Rebases) != []
    ensures FirstAt(events, k) && events[k] == Earliest(Filter(events, Rebases))
  {
    var rest := events[1..];
    assert events == [events[0]] + rest;
    assert forall j | 1 <= j < |events| :: events[j] == rest[j - 1];
    if Filter(rest, Rebases) == [] {
      FilterMembers(rest, Rebases);
      forall j | 1 <= j < |events| ensures !Rebases(events[j]) { assert rest[j - 1] in rest; }
      k := 0;
    } else {
      var i := FilteredFirst(rest);
      if Rebases(events[0]) {
        assert Filter(events, Rebases)[1..] == Filter(rest, Rebases);
        k := if events[0].at <= rest[i].at then 0 else i + 1;
      } else {
        k := i + 1;
      }
    }
  }

  /** The base at a moment is what the latest change up to it set; before them all,
      what the first change replaced; and with none, the current one. */
  lemma BaseIs(current: string, events: seq<Event>, moment: int)
    ensures forall e | e in Changes(events) :: e.kind.BaseRefChanged?
    ensures (forall e | e in events :: !Rebases(e)) ==> BaseAt(current, Changes(events), moment) == current
    ensures forall k | LatestAt(events, Rebases, moment, k) ::
            BaseAt(current, Changes(events), moment) == events[k].kind.current
    ensures (forall e | e in events && Rebases(e) :: e.at > moment) ==>
              forall k | FirstAt(events, k) :: BaseAt(current, Changes(events), moment) == events[k].kind.previous
  {
    ChangesAreChanges(events);
    ChangesFiltered(events);
    FilterMembers(events, Rebases);
    var i := FilteredLatest(events, Rebases, moment);
    assert 0 <= i < |events| ==> events[i] in events;
    forall k | LatestAt(events, Rebases, moment, k)
      ensures BaseAt(current, Changes(events), moment) == events[k].kind.current
    {
      assert events[k] in events;
      LatestUnique(events, Rebases, moment, i, k);
    }
    if forall e | e in events && Rebases(e) :: e.at > moment {
      forall k | FirstAt(events, k) ensures BaseAt(current, Changes(events), moment) == events[k].kind.previous {
        assert events[k] in events;
        var j := FilteredFirst(events);
        assert j == k;
      }
    }
  }

  // ----- the landings -----

  /** The head is the last recorded one up to the moment; the final one when none
      is recorded; and unknown when all are recorded later. */
  lemma HeadIs(pr: PullRequest, moment: int)
    ensures pr.recorded == [] ==> HeadAt(pr, moment) == Some(pr.head)
    ensures pr.recorded != [] && (forall i | 0 <= i < |pr.recorded| :: pr.recorded[i].0 > moment) ==>
            HeadAt(pr, moment) == None
    ensures forall k | 0 <= k < |pr.recorded| && pr.recorded[k].0 <= moment &&
                       (forall i | k < i < |pr.recorded| :: pr.recorded[i].0 > moment) ::
              HeadAt(pr, moment) == Some(pr.recorded[k].1)
  {
    HeadUnknown(pr.recorded, pr.recorded, pr.head, moment);
    forall k | 0 <= k < |pr.recorded| && pr.recorded[k].0 <= moment &&
               (forall i | k < i < |pr.recorded| :: pr.recorded[i].0 > moment)
      ensures HeadAt(pr, moment) == Some(pr.recorded[k].1)
    {
      LastHead(pr.recorded, pr.recorded, pr.head, moment, k);
    }
  }

  lemma {:induction false} LastHead(front: seq<(int, string)>, recorded: seq<(int, string)>, final: string,
                                    moment: int, k: int)
    requires 0 <= k < |front| && front[k].0 <= moment && forall i | k < i < |front| :: front[i].0 > moment
    ensures HeadUpTo(front, recorded, final, moment) == Some(front[k].1)
  {
    if k < |front| - 1 { LastHead(front[..|front| - 1], recorded, final, moment, k); }
  }

  /** A landing in the window meets another pull request that is open, ready and on
      the default branch then. */
  lemma AffectsIff(prs: seq<PullRequest>, w: Window, i: nat, j: nat)
    ensures Affects(prs, w, i, j) <==>
            && i < |prs| && j < |prs| && i != j && prs[i].mergedAt.Some?
            && var t, pr := prs[i].mergedAt.value, prs[j];
               && w.since <= t < w.until
               && pr.createdAt <= t && (pr.closedAt.Some? ==> t < pr.closedAt.value) && Reopens(pr.events, t)
               && IsReady(pr.isDraft, pr.events, t)
               && (forall e | e in Changes(pr.events) :: e.kind.BaseRefChanged?)
               && BaseAt(pr.base, Changes(pr.events), t) == w.defaultBranch
  {
    if i < |prs| && j < |prs| && prs[i].mergedAt.Some? {
      var t, pr := prs[i].mergedAt.value, prs[j];
      OpenIff(pr.createdAt, pr.closedAt, pr.events, t);
      ReadyAtIff(pr, t);
    }
  }

  lemma ReadyAtIff(pr: PullRequest, moment: int)
    ensures LandingPairs.ReadyAt(pr, moment) <==> IsReady(pr.isDraft, pr.events, moment)
  {
    var toggles := Switches(pr.events, ReadyForReview, ConvertToDraft);
    var created, ready := SomeState(pr.isDraft, toggles, moment);
    ReadyIff(pr.isDraft, pr.events, moment, created, ready);
    ReadyUnique(pr, moment, created, ready);
  }

  /** There always is a state to replay to. */
  lemma SomeState(isDraft: bool, switches: seq<Switch>, moment: int) returns (created: bool, state: bool)
    ensures CreatedReady(switches, isDraft, created) && StateIs(switches, created, moment, state)
  {
    created := !isDraft;
    if switches != [] {
      var first := FirstOf(switches);
      created := !first.on;
    }
    state := created;
    if exists s | s in switches :: s.at <= moment {
      var last := LatestOf(switches, moment);
      state := last.on;
    }
  }

  lemma {:induction false} FirstOf(switches: seq<Switch>) returns (s: Switch)
    requires switches != []
    ensures s in switches && forall t | t in switches :: SwitchLe(s, t)
  {
    var n := |switches| - 1;
    var last := switches[n];
    assert switches == switches[..n] + [last];
    if n == 0 {
      s := last;
    } else {
      var best := FirstOf(switches[..n]);
      s := if SwitchLe(best, last) then best else last;
    }
  }
}
