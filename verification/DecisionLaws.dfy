/** Decision commands, spelled out: which input each action takes, what a reason
    is trimmed to, and what text is recorded. */
module DecisionLaws {
  import opened Outcomes
  import opened Utf8
  import opened Sorting
  import opened Json
  import opened Messages
  import opened Decisions

  // ----- trimming -----

  /** The white space and line breaks that are trimmed. */
  lemma SpaceIff(c: char)
    ensures IsSpace(c) <==>
            || c in ['\t', '\n', '\U{000B}', '\U{000C}', '\r', ' ', '\U{0085}', '\U{00A0}', '\U{1680}']
            || '\U{2000}' <= c <= '\U{200A}'
            || c in ['\U{2028}', '\U{2029}', '\U{202F}', '\U{205F}', '\U{3000}']
  {
  }

  predicate Spaces(s: string) {
    forall i | 0 <= i < |s| :: IsSpace(s[i])
  }

  /** Text with no space at either end. */
  predicate Tight(s: string) {
    s != [] ==> !IsSpace(s[0]) && !IsSpace(s[|s| - 1])
  }

  lemma {:induction false} TrimStartMeaning(s: string) returns (front: string)
    ensures s == front + TrimStart(s) && Spaces(front) && (TrimStart(s) != [] ==> !IsSpace(TrimStart(s)[0]))
  {
    front := [];
    if s != [] && IsSpace(s[0]) {
      var rest := TrimStartMeaning(s[1..]);
      front := [s[0]] + rest;
      assert s == [s[0]] + s[1..];
    }
  }

  lemma {:induction false} TrimEndMeaning(s: string) returns (back: string)
    ensures s == TrimEnd(s) + back && Spaces(back) && (TrimEnd(s) != [] ==> !IsSpace(TrimEnd(s)[|TrimEnd(s)| - 1]))
  {
    back := [];
    if s != [] && IsSpace(s[|s| - 1]) {
      var rest := TrimEndMeaning(s[..|s| - 1]);
      back := rest + [s[|s| - 1]];
      assert s == s[..|s| - 1] + [s[|s| - 1]];
    }
  }

  /** Trimming cuts the spaces at both ends and nothing else. */
  lemma TrimMeaning(s: string) returns (front: string, back: string)
    ensures s == front + Trim(s) + back && Spaces(front) && Spaces(back) && Tight(Trim(s))
  {
    front := TrimStartMeaning(s);
    back := TrimEndMeaning(TrimStart(s));
    assert Trim(s) != [] ==> Trim(s)[0] == TrimStart(s)[0];
  }

  /** And only one text is left so. */
  lemma TrimUnique(s: string, front: string, t: string, back: string)
    requires s == front + t + back && Spaces(front) && Spaces(back) && Tight(t)
    ensures Trim(s) == t
  {
    if t == [] {
      AllTrimmed(s);
    } else {
      StartTrimmed(front, t + back);
      assert s == front + (t + back);
      EndTrimmed(t, back);
    }
  }

  lemma {:induction false} AllTrimmed(s: string)
    requires Spaces(s)
    ensures TrimStart(s) == []
  {
    if s != [] { AllTrimmed(s[1..]); }
  }

  lemma {:induction false} StartTrimmed(front: string, t: string)
    requires Spaces(front) && t != [] && !IsSpace(t[0])
    ensures TrimStart(front + t) == t
  {
    if front == [] {
      assert front + t == t;
    } else {
      assert (front + t)[1..] == front[1..] + t;
      StartTrimmed(front[1..], t);
    }
  }

  lemma {:induction false} EndTrimmed(t: string, back: string)
    requires Spaces(back) && t != [] && !IsSpace(t[|t| - 1])
    ensures TrimEnd(t + back) == t
  {
    if back == [] {
      assert t + back == t;
    } else {
      assert (t + back)[..|t| + |back| - 1] == t + back[..|back| - 1];
      EndTrimmed(t, back[..|back| - 1]);
    }
  }

  /** A reason can be sent when something of at most 2048 bytes is left of it. */
  lemma SendableIff(draft: string, t: string)
    ensures SendableReason(draft) == Some(t) <==>
            && t != [] && Tight(t) && |Encode(t)| <= 2048
            && exists front, back :: draft == front + t + back && Spaces(front) && Spaces(back)
  {
    LengthIsBytes(Trim(draft));
    LengthIsBytes(t);
    var front, back := TrimMeaning(draft);
    if Tight(t) && exists front, back :: draft == front + t + back && Spaces(front) && Spaces(back) {
      var front, back :| draft == front + t + back && Spaces(front) && Spaces(back);
      TrimUnique(draft, front, t, back);
    }
  }

  lemma BlankIff(s: string)
    ensures Trim(s) == [] <==> Spaces(s)
  {
    var front, back := TrimMeaning(s);
    if Spaces(s) {
      assert s == s + [] + [];
      TrimUnique(s, s, [], []);
    }
    if Trim(s) == [] {
      assert forall i | 0 <= i < |s| :: s[i] == if i < |front| then front[i] else back[i - |front|];
    }
  }

  // ----- the input of each action -----

  /** The actions that take free text. */
  predicate Speaks(action: Action) {
    action in {Discuss, RequestChanges, AnswerAndRetry, AnswerWithoutRetry, ReturnToAgent}
  }

  /** Each action takes its own input and no other: text, routes, a manifest, an
      agent, a revision, a time or alternatives; attachments only go with a
      discussion. */
  predicate OwnInput(p: Payload) {
    && (p.findingRoutes.Some? <==> p.action == AdjudicateFindings)
    && (p.manifestDigest.Some? <==> p.action == RetryWithCapabilities)
    && (p.alternateAgent.Some? <==> p.action == RetryWithAlternateAgent)
    && (p.taskRevision.Some? <==> p.action == StartWithChanges)
    && (p.effectRevision.Some? <==> p.action == ApproveWithChanges)
    && (p.snoozeUntil.Some? <==> p.action == Snooze)
    && (p.alternatives.Some? <==> p.action == ChooseAlternativeRoute)
    && (if Speaks(p.action) then p.message.Some? && !Spaces(p.message.value) else p.message in {None, Some("")})
    && (p.action == Discuss || p.attachments in {None, Some([])})
  }

  /** The input is within its bounds. */
  predicate InBounds(c: Command) {
    var p := c.payload;
    && (Speaks(p.action) && p.action != Discuss && p.message.Some? ==> |Encode(p.message.value)| <= 8192)
    && (p.action == AdjudicateFindings || (Speaks(p.action) && p.action != Discuss) ==> |Encode(c.commandId)| <= 256)
    && (p.manifestDigest != Some("")) && (p.alternateAgent != Some(""))
    && (p.taskRevision.Some? ==>
          && 1 <= p.taskRevision.value.expectedCostUnits <= 1_000_000
          && 1 <= p.taskRevision.value.componentCount <= 32 && 1 <= p.taskRevision.value.declaredPathCount <= 4096)
    && (p.alternatives.Some? ==>
          && p.alternatives.value != [] && (forall x | x in p.alternatives.value :: x.findingId != "")
          && forall i, j | 0 <= i < j < |p.alternatives.value| ::
               p.alternatives.value[i].findingId != p.alternatives.value[j].findingId)
    && (p.findingRoutes.Some? ==> RoutesInBounds(p.findingRoutes.value))
  }

  /** Routes of distinct findings; a reason that is given is sendable. */
  predicate RoutesInBounds(routes: seq<FindingRoute>) {
    && routes != [] && (forall x | x in routes :: x.findingId != "")
    && (forall i, j | 0 <= i < j < |routes| :: routes[i].findingId != routes[j].findingId)
    && forall x | x in routes :: x.reason in {None, Some("")} || SendableReason(x.reason.value).Some?
  }

  lemma NoText(message: Option<string>)
    ensures OrEmpty(message) == [] <==> message in {None, Some("")}
  {
  }

  lemma RoutesIff(routes: seq<FindingRoute>)
    ensures RoutesInBounds(routes) <==>
            routes != [] && (forall x | x in routes :: x.findingId != []) && DistinctRoutes(routes) &&
                ReasonsSendable(routes)
  {
    forall x: FindingRoute
      ensures (x.reason in {None, Some("")} || SendableReason(x.reason.value).Some?) <==>
              (OrEmpty(x.reason) == [] || SendableReason(OrEmpty(x.reason)).Some?)
    {
      NoText(x.reason);
    }
  }

  /** A decision's input is accepted exactly when it is its action's own and in bounds. */
  lemma InputIff(c: Command)
    ensures ValidActionInput(c) <==> OwnInput(c.payload) && InBounds(c)
  {
    match c.payload.action {
      case AdjudicateFindings => RoutesInput(c);
      case Discuss => DiscussInput(c);
      case RequestChanges => FeedbackInput(c);
      case AnswerAndRetry => FeedbackInput(c);
      case AnswerWithoutRetry => FeedbackInput(c);
      case ReturnToAgent => FeedbackInput(c);
      case StartWithChanges => StartInput(c);
      case ChooseAlternativeRoute => AlternativesInput(c);
      case _ => BareInput(c);
    }
  }

  predicate InputAgrees(c: Command) {
    ValidActionInput(c) <==> OwnInput(c.payload) && InBounds(c)
  }

  /** Empty text and attachments, and the byte counts. */
  lemma InputFacts(c: Command)
    ensures OrEmpty(c.payload.message) == [] <==> c.payload.message in {None, Some("")}
    ensures OrEmpty(c.payload.attachments) == [] <==> c.payload.attachments in {None, Some([])}
    ensures Utf8Length(c.commandId) == |Encode(c.commandId)|
    ensures c.payload.message.Some? ==>
              && Utf8Length(c.payload.message.value) == |Encode(c.payload.message.value)|
              && (Trim(c.payload.message.value) == [] <==> Spaces(c.payload.message.value))
  {
    LengthIsBytes(c.commandId);
    NoText(c.payload.message);
    if c.payload.message.Some? {
      LengthIsBytes(c.payload.message.value);
      BlankIff(c.payload.message.value);
    }
  }

  lemma RoutesInput(c: Command)
    requires c.payload.action == AdjudicateFindings
    ensures InputAgrees(c)
  {
    if c.payload.findingRoutes.Some? {
      InputFacts(c);
      RoutesIff(c.payload.findingRoutes.value);
      GivenRoutes(c);
      OwnRoutes(c);
    } else {
      assert !ValidActionInput(c) && !OwnInput(c.payload);
    }
  }

  lemma OwnRoutes(c: Command)
    requires c.payload.action == AdjudicateFindings && c.payload.findingRoutes.Some?
    ensures OwnInput(c.payload) && InBounds(c) <==>
            var p := c.payload;
            && RoutesInBounds(p.findingRoutes.value) && p.alternateAgent.None? && |Encode(c.commandId)| <= 256
            && p.alternatives.None? && p.manifestDigest.None?
            && p.taskRevision.None? && p.effectRevision.None? && p.snoozeUntil.None?
            && p.message in {None, Some("")} && p.attachments in {None, Some([])}
  {
  }

  lemma GivenRoutes(c: Command)
    requires c.payload.action == AdjudicateFindings && c.payload.findingRoutes.Some?
    ensures ValidActionInput(c) <==>
            var p, routes := c.payload, c.payload.findingRoutes.value;
            && (routes != [] && (forall x | x in routes :: x.findingId != []) && DistinctRoutes(routes) &&
                ReasonsSendable(routes))
            && p.alternateAgent.None? && Utf8Length(c.commandId) <= 256
            && p.alternatives.None? && Bare(p) && NoProposal(p) && p.manifestDigest.None?
  {
  }

  lemma DiscussInput(c: Command)
    requires c.payload.action == Discuss
    ensures InputAgrees(c)
  {
    InputFacts(c);
  }

  lemma FeedbackInput(c: Command)
    requires c.payload.action in {RequestChanges, AnswerAndRetry, AnswerWithoutRetry, ReturnToAgent}
    ensures InputAgrees(c)
  {
    InputFacts(c);
    assert ValidActionInput(c) <==> c.payload.findingRoutes.None? && c.payload.alternateAgent.None? && ValidFeedback(c);
  }

  lemma StartInput(c: Command)
    requires c.payload.action == StartWithChanges
    ensures InputAgrees(c)
  {
    InputFacts(c);
  }

  lemma AlternativesInput(c: Command)
    requires c.payload.action == ChooseAlternativeRoute
    ensures InputAgrees(c)
  {
    InputFacts(c);
  }

  lemma BareInput(c: Command)
    requires !Speaks(c.payload.action)
    requires c.payload.action !in {AdjudicateFindings, StartWithChanges, ChooseAlternativeRoute}
    ensures InputAgrees(c)
  {
    InputFacts(c);
  }

  /** The command's own members: identities are given, versions positive, digests
      not empty and attachments not repeated. */
  lemma StructureIff(c: Command)
    ensures ValidStructure(c) <==>
            && c.commandId != "" && c.deviceId != "" && c.payload.itemId != "" && c.payload.itemVersion >= 1
            && (exists n :: n >= 1 && c.expectedVersion == Some(n))
            && (forall d | d in c.payload.artifactDigests :: d != "")
            && (c.payload.attachments.Some? ==>
                  && (forall d | d in c.payload.attachments.value :: d != "")
                  && forall i, j | 0 <= i < j < |c.payload.attachments.value| ::
                       c.payload.attachments.value[i] != c.payload.attachments.value[j])
  {
  }

  // ----- the recorded text -----

  /** For an accepted closure revision the text says whether it resolves. */
  lemma ResolvesRecorded(c: Command, clock: int -> string)
    requires ValidActionInput(c) && c.payload.action == ApproveWithChanges
    ensures RecordedMessage(c.payload, clock) == "{\"resolves\":true}" <==> c.payload.effectRevision == Some(true)
    ensures RecordedMessage(c.payload, clock) == "{\"resolves\":false}" <==> c.payload.effectRevision == Some(false)
  {
    assert "{\"resolves\":" + "true" + "}" == "{\"resolves\":true}";
    assert "{\"resolves\":" + "false" + "}" == "{\"resolves\":false}";
    assert |"{\"resolves\":true}"| == 17 && |"{\"resolves\":false}"| == 18;
  }

  /** The text of the other inputs: a digest, an agent or free text as it stands, a
      time as its whole second, and the rest as JSON. */
  lemma InputRecorded(c: Command, clock: int -> string)
    requires ValidActionInput(c)
    ensures var p, text := c.payload, RecordedMessage(c.payload, clock);
            && (p.action == RetryWithCapabilities ==> p.manifestDigest == Some(text))
            && (p.action == RetryWithAlternateAgent ==> p.alternateAgent == Some(text))
            && (p.action == Snooze ==>
              exists second :: text == clock(second) && second as real <= p.snoozeUntil.value < (second + 1) as real)
            && (p.action == StartWithChanges ==> Read(text) == Some((RevisionValue(p.taskRevision.value), "")))
            && (p.action == ChooseAlternativeRoute ==>
                  Read(text) == Some((List(Values(Sort(ByAlternative, p.alternatives.value), AlternativeValue)), "")))
            && (p.action == AdjudicateFindings ==>
                  Read(text) == Some((List(Values(CanonicalRoutes(p.findingRoutes.value), RouteValue)), "")))
            && (Speaks(p.action) ==> p.message == Some(text))
  {
    var p, text := c.payload, RecordedMessage(c.payload, clock);
    match p.action {
      case StartWithChanges => RevisionReads(p.taskRevision.value, "");
        assert text + "" == text;
      case ChooseAlternativeRoute => AlternativesRead(p.alternatives.value, "");
        assert text + "" == text;
      case AdjudicateFindings => FindingRoutesRead(p.findingRoutes.value, "");
        assert text + "" == text;
      case Snooze =>
        var until := p.snoozeUntil.value;
        assert text == clock(until.Floor) && until.Floor as real <= until < (until.Floor + 1) as real;
      case _ =>
    }
  }

  /** The stored routes are the chosen ones with trimmed reasons, in the order of
      their findings. */
  lemma CanonicalIs(choices: seq<FindingRoute>)
    ensures var stored := CanonicalRoutes(choices);
            && |stored| == |choices|
            && (forall i, j | 0 <= i < j < |stored| :: LexLe(stored[i].findingId, stored[j].findingId))
            && (forall r :: r in stored <==> exists x | x in choices ::
                  r == StoredRoute(x.findingId, x.route, if x.reason.Some? then Trim(x.reason.value) else ""))
  {
    var sorted, stored := Sort(ByFinding, choices), CanonicalRoutes(choices);
    assert TotalPreorder(ByFinding) by { LexIsTotalOrder(); }
    SortSorts(ByFinding, choices);
    SameElements(sorted, choices);
    forall i, j | 0 <= i < j < |stored| ensures LexLe(stored[i].findingId, stored[j].findingId) {
      assert ByFinding(sorted[i], sorted[j]);
    }
    forall x | x in choices ensures Stored(x) in stored {
      var i :| 0 <= i < |sorted| && sorted[i] == x;
      assert stored[i] == Stored(x);
    }
    forall r | r in stored ensures exists x | x in choices :: r == Stored(x) {
      var i :| 0 <= i < |stored| && stored[i] == r;
      assert sorted[i] in sorted;
    }
  }

  /** The recorded alternatives are the chosen ones in the order of their findings. */
  lemma AlternativesInOrder(choices: seq<AlternativeChoice>)
    ensures var sorted := Sort(ByAlternative, choices);
            && multiset(sorted) == multiset(choices)
            && forall i, j | 0 <= i < j < |sorted| :: LexLe(sorted[i].findingId, sorted[j].findingId)
  {
    assert TotalPreorder(ByAlternative) by { LexIsTotalOrder(); }
    SortSorts(ByAlternative, choices);
    var sorted := Sort(ByAlternative, choices);
    forall i, j | 0 <= i < j < |sorted| ensures LexLe(sorted[i].findingId, sorted[j].findingId) {
      assert ByAlternative(sorted[i], sorted[j]);
    }
  }
}
