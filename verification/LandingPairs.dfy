/** Which open pull requests each landing in the window could have affected. */
module LandingPairs {
  import opened Outcomes
  import opened History

  /** A pull request with its timeline and the heads recorded for it, oldest first. */
  datatype PullRequest = PullRequest(
    createdAt: int, closedAt: Option<int>, mergedAt: Option<int>, isDraft: bool, base: string, head: string,
    events: seq<Event>, recorded: seq<(int, string)>)

  /** The lander and the other pull request, by position, and the other's head then. */
  datatype Landing = Landing(lander: nat, other: nat, head: Option<string>)

  datatype Window = Window(since: int, until: int, defaultBranch: string)

  predicate MergedIn(pr: PullRequest, w: Window) {
    pr.mergedAt.Some? && w.since <= pr.mergedAt.value < w.until
  }

  // ----- the state of a pull request at a moment -----

  ghost predicate OpenAt(pr: PullRequest, moment: int) {
    IsOpen(pr.createdAt, pr.closedAt, pr.events, moment)
  }

  ghost predicate ReadyAt(pr: PullRequest, moment: int) {
    exists created ::
      && CreatedReady(Switches(pr.events, ReadyForReview, ConvertToDraft), pr.isDraft, created)
      && StateIs(Switches(pr.events, ReadyForReview, ConvertToDraft), created, moment, true)
  }

  ghost predicate BasedOn(pr: PullRequest, moment: int, branch: string) {
    && (forall e | e in Changes(pr.events) :: e.kind.BaseRefChanged?)
    && BaseAt(pr.base, Changes(pr.events), moment) == branch
  }

  /** With no event between two moments, a pull request waits at both or neither. */
  lemma WaitingSteady(pr: PullRequest, from: int, to: int, branch: string)
    requires from <= to && Outside(pr.createdAt, from, to) &&
             (pr.closedAt.Some? ==> Outside(pr.closedAt.value, from, to))
    requires forall e | e in pr.events :: Outside(e.at, from, to)
    ensures OpenAt(pr, from) <==> OpenAt(pr, to)
    ensures ReadyAt(pr, from) <==> ReadyAt(pr, to)
    ensures BasedOn(pr, from, branch) <==> BasedOn(pr, to, branch)
  {
    OpenSteady(pr.createdAt, pr.closedAt, pr.events, from, to);
    BaseSteady(pr.base, pr.events, from, to);
    var toggles := Switches(pr.events, ReadyForReview, ConvertToDraft);
    forall s | s in toggles ensures Outside(s.at, from, to) {
      SwitchMembers(pr.events, ReadyForReview, ConvertToDraft, s);
      assert Event(s.at, if s.on then ReadyForReview else ConvertToDraft) in pr.events;
    }
    forall created ensures StateIs(toggles, created, from, true) <==> StateIs(toggles, created, to, true) {
      StateSteady(toggles, created, from, to, true);
    }
  }

  /** The newest recorded head up to the moment, the final head when nothing is
      recorded at all, and otherwise unknown. */
  function HeadAt(pr: PullRequest, moment: int): Option<string> {
    HeadUpTo(pr.recorded, pr.recorded, pr.head, moment)
  }

  function HeadUpTo(front: seq<(int, string)>, recorded: seq<(int, string)>, final: string,
                    moment: int): Option<string>
  {
    if front == [] then (if recorded == [] then Some(final) else None)
    else if front[|front| - 1].0 <= moment then Some(front[|front| - 1].1)
    else HeadUpTo(front[..|front| - 1], recorded, final, moment)
  }

  /** The head is unknown exactly when every record, of at least one, is later. */
  lemma {:induction false} HeadUnknown(front: seq<(int, string)>, recorded: seq<(int, string)>, final: string,
                                       moment: int)
    ensures HeadUpTo(front, recorded, final, moment).None? <==>
            recorded != [] && forall i | 0 <= i < |front| :: front[i].0 > moment
  {
    if front != [] { HeadUnknown(front[..|front| - 1], recorded, final, moment); }
  }

  // ----- the pairs -----

  /** The landing at i met the pull request at j open, ready, and on the default branch. */
  ghost predicate Affects(prs: seq<PullRequest>, w: Window, i: nat, j: nat) {
    && i < |prs| && j < |prs| && i != j && MergedIn(prs[i], w)
    && var moment := prs[i].mergedAt.value;
       OpenAt(prs[j], moment) && ReadyAt(prs[j], moment) && BasedOn(prs[j], moment, w.defaultBranch)
  }

  predicate Earlier(a: Landing, b: Landing) {
    a.lander < b.lander || (a.lander == b.lander && a.other < b.other)
  }

  /** The affected pairs among the first landers, and among the first others of
      the next one: each once, in order, with the head at the landing. */
  ghost predicate Lists(pairs: seq<Landing>, prs: seq<PullRequest>, w: Window, landers: nat, others: nat) {
    && (forall i, j | 0 <= i < j < |pairs| :: Earlier(pairs[i], pairs[j]))
    && (forall p :: p in pairs <==>
          && Affects(prs, w, p.lander, p.other)
          && (p.lander < landers || (p.lander == landers && p.other < others))
          && p.head == HeadAt(prs[p.other], prs[p.lander].mergedAt.value))
  }

  lemma ReadyUnique(pr: PullRequest, moment: int, created: bool, ready: bool)
    requires CreatedReady(Switches(pr.events, ReadyForReview, ConvertToDraft), pr.isDraft, created)
    requires StateIs(Switches(pr.events, ReadyForReview, ConvertToDraft), created, moment, ready)
    ensures ready <==> ReadyAt(pr, moment)
  {
    var toggles := Switches(pr.events, ReadyForReview, ConvertToDraft);
    if other :| CreatedReady(toggles, pr.isDraft, other) && StateIs(toggles, other, moment, true) {
      CreatedUnique(toggles, pr.isDraft, created, other);
      StateUnique(toggles, created, moment, ready, true);
    }
  }

  /** Replays the three histories of one pull request, as far as needed. */
  method Waiting(pr: PullRequest, moment: int, branch: string) returns (waiting: bool)
    ensures waiting <==> OpenAt(pr, moment) && ReadyAt(pr, moment) && BasedOn(pr, moment, branch)
  {
    var open := OpenThen(pr.createdAt, pr.closedAt, pr.events, moment);
    if !open {
      return false;
    }
    var ready := ReadyThen(pr.isDraft, pr.events, moment);
    ghost var created :| CreatedReady(Switches(pr.events, ReadyForReview, ConvertToDraft), pr.isDraft, created) &&
                         StateIs(Switches(pr.events, ReadyForReview, ConvertToDraft), created, moment, ready);
    ReadyUnique(pr, moment, created, ready);
    if !ready {
      return false;
    }
    var base := BaseThen(pr.base, pr.events, moment);
    return base == branch;
  }

  lemma ListsNext(pairs: seq<Landing>, prs: seq<PullRequest>, w: Window, i: nat, j: nat)
    requires Lists(pairs, prs, w, i, j) && i < |prs| && j < |prs|
    ensures !Affects(prs, w, i, j) ==> Lists(pairs, prs, w, i, j + 1)
    ensures Affects(prs, w, i, j) ==>
      Lists(pairs + [Landing(i, j, HeadAt(prs[j], prs[i].mergedAt.value))], prs, w, i, j + 1)
  {
    if Affects(prs, w, i, j) {
      var p := Landing(i, j, HeadAt(prs[j], prs[i].mergedAt.value));
      forall k | 0 <= k < |pairs| ensures Earlier(pairs[k], p) { assert pairs[k] in pairs; }
    }
  }

  lemma ListsRow(pairs: seq<Landing>, prs: seq<PullRequest>, w: Window, i: nat)
    requires i < |prs| && (Lists(pairs, prs, w, i, |prs|) || (Lists(pairs, prs, w, i, 0) && !MergedIn(prs[i], w)))
    ensures Lists(pairs, prs, w, i + 1, 0)
  {
  }

  /** Every affected pair, once, landers and others in list order. */
  method FindPairs(prs: seq<PullRequest>, w: Window) returns (pairs: seq<Landing>)
    ensures Lists(pairs, prs, w, |prs|, 0)
  {
    pairs := [];
    for i := 0 to |prs|
      invariant Lists(pairs, prs, w, i, 0)
    {
      if MergedIn(prs[i], w) {
        var landed := prs[i].mergedAt.value;
        for j := 0 to |prs|
          invariant Lists(pairs, prs, w, i, j)
        {
          ListsNext(pairs, prs, w, i, j);
          if i != j {
            var waiting := Waiting(prs[j], landed, w.defaultBranch);
            if waiting {
              pairs := pairs + [Landing(i, j, HeadAt(prs[j], landed))];
            }
          }
        }
      }
      ListsRow(pairs, prs, w, i);
    }
  }

  /** The pull requests determine the list. */
  lemma {:induction false} PairsUnique(a: seq<Landing>, b: seq<Landing>)
    requires forall i, j | 0 <= i < j < |a| :: Earlier(a[i], a[j])
    requires forall i, j | 0 <= i < j < |b| :: Earlier(b[i], b[j])
    requires forall p :: p in a <==> p in b
    ensures a == b
  {
    assert b != [] ==> b[0] in a;
    if a != [] {
      assert a[0] in b;
      FirstEarliest(a, b[0]);
      FirstEarliest(b, a[0]);
      forall p ensures p in a[1..] <==> p in b[1..] { TailMember(a, p); TailMember(b, p); }
      PairsUnique(a[1..], b[1..]);
    }
  }

  lemma FirstEarliest(s: seq<Landing>, p: Landing)
    requires p in s && forall i, j | 0 <= i < j < |s| :: Earlier(s[i], s[j])
    ensures p == s[0] || Earlier(s[0], p)
  {
  }

  lemma TailMember(s: seq<Landing>, p: Landing)
    requires s != [] && forall i, j | 0 <= i < j < |s| :: Earlier(s[i], s[j])
    ensures p in s[1..] <==> p in s && p != s[0]
  {
    assert s == [s[0]] + s[1..];
    if p in s[1..] {
      var i :| 1 <= i < |s| && s[i] == p;
      assert Earlier(s[0], s[i]);
    }
  }

  /** Where merging closes a pull request, no two landings affect each other. */
  lemma LandingsOneWay(prs: seq<PullRequest>, w: Window, i: nat, j: nat)
    requires forall k | 0 <= k < |prs| && prs[k].mergedAt.Some? :: prs[k].closedAt == prs[k].mergedAt
    requires Affects(prs, w, i, j)
    ensures !Affects(prs, w, j, i)
  {
    assert MergedIn(prs[j], w) ==> prs[j].closedAt == prs[j].mergedAt;
    assert prs[i].closedAt == prs[i].mergedAt;
  }
}
