/** Decision commands: the validation they pass, the message the daemon records
    for them, and the canonical input that message stands for. */
module Decisions {
  import opened Outcomes
  import opened Utf8
  import opened Strings
  import opened Sorting
  import opened Decimal
  import opened GoJson
  import opened Json
  import opened Messages

  datatype Action =
    | Approve | RequestChanges | Discuss | Stop | FinishNow | ApplyThenFinish | ContinueUnderPolicy
    | ConvertToPolicy | Retry | RetryWithCapabilities | RetryWithAlternateAgent | AnswerAndRetry
    | AnswerWithoutRetry | RerunTrustEvaluation | InspectTrustFailure | OpenPr | ReturnToAgent | MarkSeen
    | Dismiss | Start | StartWithChanges | ApproveWithChanges | DeclineProposal | Snooze | Acknowledge | RunDoctor
    | StopUnattended | ResumeUnattended | RecoverReview | AdoptReviewConfiguration | ResolveReenrollment
    | AcceptRecommendedRoute | ChooseAlternativeRoute | AdjudicateFindings

  datatype Intent = ImplementSubject

  datatype TaskRevision = TaskRevision(
    intent: Intent, expectedCostUnits: int, componentCount: int, declaredPathCount: int, touchesControlPlane: bool)

  datatype AlternativeChoice = AlternativeChoice(findingId: string, route: Route)

  datatype AnswerRoute = RetryImplementation | ReviseSpecification

  datatype TaskLine = TaskLine(role: string, agent: string)

  /** Optional members are None when absent; `snoozeUntil` is an instant in
      seconds, `effectRevision` the resolve flag of the closure revision. */
  datatype Payload = Payload(
    itemId: string, action: Action, itemVersion: int, prHeadSha: string, artifactDigests: seq<string>,
    message: Option<string>, manifestDigest: Option<string>, alternateAgent: Option<string>,
    answerRoute: Option<AnswerRoute>, attachments: Option<seq<string>>, taskRevision: Option<TaskRevision>,
    effectRevision: Option<bool>, snoozeUntil: Option<real>, alternatives: Option<seq<AlternativeChoice>>,
    findingRoutes: Option<seq<FindingRoute>>, taskLines: Option<seq<TaskLine>>, surfaceDigest: Option<string>)

  datatype Command = Command(
    commandId: string, deviceId: string, expectedVersion: Option<int>, expectedBindings: Option<string>,
    payload: Payload)

  function OrEmpty<T>(value: Option<seq<T>>): seq<T> {
    match value case Some(s) => s case None => []
  }

  // ----- validation -----

  predicate ValidStructure(c: Command) {
    var p := c.payload;
    && c.commandId != [] && c.deviceId != [] && p.itemId != [] && p.itemVersion >= 1
    && c.expectedVersion.Some? && c.expectedVersion.value >= 1
    && [] !in p.artifactDigests
    && (p.attachments.Some? ==> [] !in p.attachments.value && Distinct(p.attachments.value))
  }

  predicate Bare(p: Payload) {
    OrEmpty(p.message) == [] && OrEmpty(p.attachments) == []
  }

  predicate NoProposal(p: Payload) {
    p.taskRevision.None? && p.effectRevision.None? && p.snoozeUntil.None?
  }

  predicate Blank(message: Option<string>) {
    message.None? || Trim(message.value) == []
  }

  predicate DistinctRoutes(choices: seq<FindingRoute>) {
    forall i, j | 0 <= i < j < |choices| :: choices[i].findingId != choices[j].findingId
  }

  predicate DistinctAlternatives(choices: seq<AlternativeChoice>) {
    forall i, j | 0 <= i < j < |choices| :: choices[i].findingId != choices[j].findingId
  }

  /** A given reason must be sendable; an absent or empty one is left out. */
  predicate ReasonsSendable(choices: seq<FindingRoute>) {
    forall x | x in choices :: OrEmpty(x.reason) == [] || SendableReason(OrEmpty(x.reason)).Some?
  }

  const MAX_MESSAGE_BYTES := 8192
  const MAX_COMMAND_ID_BYTES := 256

  /** Required feedback: bounded text alone. */
  predicate ValidFeedback(c: Command) {
    var p := c.payload;
    && !Blank(p.message) && Utf8Length(p.message.value) <= MAX_MESSAGE_BYTES
    && Utf8Length(c.commandId) <= MAX_COMMAND_ID_BYTES
    && OrEmpty(p.attachments) == []
    && p.manifestDigest.None? && NoProposal(p) && p.alternatives.None?
  }

  predicate ValidRevision(r: TaskRevision) {
    1 <= r.expectedCostUnits <= 1_000_000 && 1 <= r.componentCount <= 32 && 1 <= r.declaredPathCount <= 4096
  }

  predicate ValidActionInput(c: Command) {
    var p := c.payload;
    && (!p.action.AdjudicateFindings? ==> p.findingRoutes.None?)
    && (!p.action.RetryWithAlternateAgent? ==> p.alternateAgent.None?)
    && match p.action {
         case AdjudicateFindings =>
           && p.findingRoutes.Some? && p.findingRoutes.value != []
           && (forall x | x in p.findingRoutes.value :: x.findingId != []) && DistinctRoutes(p.findingRoutes.value)
           && Utf8Length(c.commandId) <= MAX_COMMAND_ID_BYTES
           && p.alternatives.None? && Bare(p) && NoProposal(p) && p.manifestDigest.None?
           && ReasonsSendable(p.findingRoutes.value)
         case RetryWithCapabilities =>
           p.manifestDigest.Some? && p.manifestDigest.value != [] && Bare(p) && NoProposal(p) && p.alternatives.None?
         case RetryWithAlternateAgent =>
           && p.alternateAgent.Some? && p.alternateAgent.value != [] && Bare(p)
           && p.manifestDigest.None? && NoProposal(p) && p.alternatives.None?
         case Discuss =>
           !Blank(p.message) && p.manifestDigest.None? && NoProposal(p) && p.alternatives.None?
         case RequestChanges => ValidFeedback(c)
         case AnswerAndRetry => ValidFeedback(c)
         case AnswerWithoutRetry => ValidFeedback(c)
         case ReturnToAgent => ValidFeedback(c)
         case StartWithChanges =>
           && p.taskRevision.Some? && p.effectRevision.None? && p.snoozeUntil.None? && Bare(p)
           && p.alternatives.None? && p.manifestDigest.None? && ValidRevision(p.taskRevision.value)
         case ApproveWithChanges =>
           && p.effectRevision.Some? && p.taskRevision.None? && p.snoozeUntil.None? && Bare(p)
           && p.alternatives.None? && p.manifestDigest.None?
         case Snooze =>
           && p.snoozeUntil.Some? && p.taskRevision.None? && p.effectRevision.None? && Bare(p)
           && p.alternatives.None? && p.manifestDigest.None?
         case ChooseAlternativeRoute =>
           && p.alternatives.Some? && p.alternatives.value != []
           && (forall x | x in p.alternatives.value :: x.findingId != []) && DistinctAlternatives(p.alternatives.value)
           && Bare(p) && NoProposal(p) && p.manifestDigest.None?
         case AcceptRecommendedRoute =>
           p.alternatives.None? && Bare(p) && NoProposal(p) && p.manifestDigest.None?
         case _ =>
           NoProposal(p) && p.alternatives.None? && p.manifestDigest.None? && Bare(p)
       }
  }

  predicate Valid(c: Command) {
    ValidStructure(c) && ValidActionInput(c)
  }

  // ----- the recorded message -----

  const INTENT_KEY := "{\"intent\":\"implement_subject\",\"expected_cost_units\":"
  const COMPONENTS_KEY := ",\"scope\":{\"component_count\":"
  const PATHS_KEY := ",\"declared_path_count\":"
  const CONTROL_KEY := ",\"touches_control_plane\":"

  function BoolText(b: bool): string {
    if b then "true" else "false"
  }

  function RevisionText(r: TaskRevision): string {
    INTENT_KEY + PrintInt(r.expectedCostUnits) + COMPONENTS_KEY + PrintInt(r.componentCount)
    + PATHS_KEY + PrintInt(r.declaredPathCount) + CONTROL_KEY + BoolText(r.touchesControlPlane) + "}}"
  }

  function ResolvesText(resolves: bool): string {
    "{\"resolves\":" + BoolText(resolves) + "}"
  }

  predicate ByAlternative(a: AlternativeChoice, b: AlternativeChoice) {
    LexLe(a.findingId, b.findingId)
  }

  /** JSONEncoder's form with sorted keys. */
  function AlternativeText(a: AlternativeChoice): string {
    FINDING_KEY + FoundationString(a.findingId) + ROUTE_KEY + FoundationString(RouteName(a.route)) + "}"
  }

  function AlternativesText(choices: seq<AlternativeChoice>): string {
    PrintList(Sort(ByAlternative, choices), AlternativeText)
  }

  /** The daemon's durable message for a decision. `clock` prints a whole second
      as an RFC 3339 instant. */
  function RecordedMessage(p: Payload, clock: int -> string): string {
    match p.action
    case RetryWithCapabilities => OrEmpty(p.manifestDigest)
    case RetryWithAlternateAgent => OrEmpty(p.alternateAgent)
    case StartWithChanges =>
      if p.taskRevision.Some? then RevisionText(p.taskRevision.value) else OrEmpty(p.message)
    case ApproveWithChanges =>
      if p.effectRevision.Some? then ResolvesText(p.effectRevision.value) else OrEmpty(p.message)
    case Snooze =>
      if p.snoozeUntil.Some? then clock(p.snoozeUntil.value.Floor) else OrEmpty(p.message)
    case ChooseAlternativeRoute =>
      if p.alternatives.Some? then AlternativesText(p.alternatives.value) else OrEmpty(p.message)
    case AdjudicateFindings =>
      if p.findingRoutes.Some? then FindingRoutesMessage(p.findingRoutes.value) else OrEmpty(p.message)
    case _ => OrEmpty(p.message)
  }

  /** What an action's input means, free of order, padding and sub-second time. */
  datatype Input =
    | Message(text: string)
    | Manifest(digest: string)
    | Agent(name: string)
    | Revised(revision: TaskRevision)
    | Resolves(resolves: bool)
    | Until(second: int)
    | Alternatives(choices: seq<AlternativeChoice>)
    | Routes(routes: seq<StoredRoute>)

  function CanonicalInput(p: Payload): Input {
    match p.action
    case RetryWithCapabilities => Manifest(OrEmpty(p.manifestDigest))
    case RetryWithAlternateAgent => Agent(OrEmpty(p.alternateAgent))
    case StartWithChanges => if p.taskRevision.Some? then Revised(p.taskRevision.value) else Message(OrEmpty(p.message))
    case ApproveWithChanges =>
      if p.effectRevision.Some? then Resolves(p.effectRevision.value) else Message(OrEmpty(p.message))
    case Snooze => if p.snoozeUntil.Some? then Until(p.snoozeUntil.value.Floor) else Message(OrEmpty(p.message))
    case ChooseAlternativeRoute =>
      if p.alternatives.Some? then Alternatives(Sort(ByAlternative, p.alternatives.value))
      else Message(OrEmpty(p.message))
    case AdjudicateFindings =>
      if p.findingRoutes.Some? then Routes(CanonicalRoutes(p.findingRoutes.value)) else Message(OrEmpty(p.message))
    case _ => Message(OrEmpty(p.message))
  }

  // ----- the message says the input -----

  /** A revised task as JSON. */
  function RevisionValue(r: TaskRevision): Value
    requires r.expectedCostUnits >= 0 && r.componentCount >= 0 && r.declaredPathCount >= 0
  {
    Record([Member("intent", Text("implement_subject")), Member("expected_cost_units", Number(r.expectedCostUnits)),
            Member("scope", Record([Member("component_count", Number(r.componentCount)),
                                    Member("declared_path_count", Number(r.declaredPathCount)),
                                    Member("touches_control_plane", Flag(r.touchesControlPlane))]))])
  }

  lemma RevisionNames()
    ensures IsName("intent") && IsName("implement_subject") && IsName("expected_cost_units") && IsName("scope")
    ensures IsName("component_count") && IsName("declared_path_count") && IsName("touches_control_plane")
  {
  }

  lemma IntentKeys()
    ensures "{\"" + "intent" + "\":" + ("\"" + "implement_subject" + "\"") +
            ",\"" + "expected_cost_units" + "\":" == INTENT_KEY
  {
    assert "{\"" + "intent" + "\":" == "{\"intent\":";
    assert "\"" + "implement_subject" + "\"" == "\"implement_subject\"";
    assert ",\"" + "expected_cost_units" + "\":" == ",\"expected_cost_units\":";
    IntentParts("{\"" + "intent" + "\":", "\"" + "implement_subject" + "\"", ",\"", "expected_cost_units", "\":");
  }

  lemma IntentParts(a: string, b: string, c: string, d: string, e: string)
    requires a == "{\"intent\":" && b == "\"implement_subject\"" && c + d + e == ",\"expected_cost_units\":"
    ensures a + b + c + d + e == INTENT_KEY
  {
    assert a + b + c + d + e == a + b + (c + d + e);
    assert a + b == "{\"intent\":\"implement_subject\"";
  }

  lemma ScopeKeys()
    ensures ",\"" + "scope" + "\":" + ("{\"" + "component_count" + "\":") == COMPONENTS_KEY
    ensures ",\"" + "declared_path_count" + "\":" == PATHS_KEY
    ensures ",\"" + "touches_control_plane" + "\":" == CONTROL_KEY
  {
  }

  /** The names of a revision's members, in order. */
  datatype Names = Names(intent: string, subject: string, cost: string, scope: string, components: string,
                         paths: string, control: string)

  predicate Spelled(n: Names) {
    && IsName(n.intent) && IsName(n.subject) && IsName(n.cost) && IsName(n.scope)
    && IsName(n.components) && IsName(n.paths) && IsName(n.control)
    && "{\"" + n.intent + "\":" + ("\"" + n.subject + "\"") + ",\"" + n.cost + "\":" == INTENT_KEY
    && ",\"" + n.scope + "\":" + ("{\"" + n.components + "\":") == COMPONENTS_KEY
    && ",\"" + n.paths + "\":" == PATHS_KEY && ",\"" + n.control + "\":" == CONTROL_KEY
  }

  function ScopeNamed(r: TaskRevision, n: Names): Value
    requires ValidRevision(r)
  {
    Record([Member(n.components, Number(r.componentCount)), Member(n.paths, Number(r.declaredPathCount)),
            Member(n.control, Flag(r.touchesControlPlane))])
  }

  function RevisionNamed(r: TaskRevision, n: Names): Value
    requires ValidRevision(r)
  {
    Record([Member(n.intent, Text(n.subject)), Member(n.cost, Number(r.expectedCostUnits)),
            Member(n.scope, ScopeNamed(r, n))])
  }

  /** The scope after its first key. */
  function ScopeTail(r: TaskRevision): string {
    PrintInt(r.componentCount) + PATHS_KEY + PrintInt(r.declaredPathCount) +
    CONTROL_KEY + BoolText(r.touchesControlPlane)
  }

  lemma ScopeWritten(r: TaskRevision, n: Names)
    requires ValidRevision(r) && Spelled(n) && Plain(GoJsonString)
    ensures Write(ScopeNamed(r, n), GoJsonString) == "{\"" + n.components + "\":" + ScopeTail(r) + "}"
  {
    ScopeWrite(n.components, r.componentCount, n.paths, r.declaredPathCount, n.control, r.touchesControlPlane);
    ScopeParts(r, n, "{\"" + n.components + "\":");
  }

  lemma ScopeWrite(k: string, c: nat, l: string, d: nat, m: string, t: bool)
    requires IsName(k) && IsName(l) && IsName(m) && Plain(GoJsonString)
    ensures Write(Record([Member(k, Number(c)), Member(l, Number(d)), Member(m, Flag(t))]), GoJsonString) ==
            "{\"" + k + "\":" + PrintNat(c) + ",\"" + l + "\":" + PrintNat(d) + ",\"" + m + "\":" + BoolText(t) + "}"
  {
    ThreeValues(k, Number(c), l, Number(d), m, Flag(t), GoJsonString);
  }

  lemma ScopeParts(r: TaskRevision, n: Names, key: string)
    requires ValidRevision(r) && Spelled(n)
    ensures key + PrintNat(r.componentCount) + ",\"" + n.paths + "\":" + PrintNat(r.declaredPathCount) +
            ",\"" + n.control + "\":" + BoolText(r.touchesControlPlane) + "}" == key + ScopeTail(r) + "}"
  {
    var first := key + PrintNat(r.componentCount);
    KeyMoved(first, n.paths, PATHS_KEY);
    KeyMoved(first + PATHS_KEY + PrintNat(r.declaredPathCount), n.control, CONTROL_KEY);
    ScopeGrouped(key, PrintNat(r.componentCount), PATHS_KEY, PrintNat(r.declaredPathCount),
                 CONTROL_KEY, BoolText(r.touchesControlPlane));
  }

  lemma ScopeGrouped(k: string, a: string, l: string, b: string, m: string, c: string)
    ensures k + a + l + b + m + c + "}" == k + (a + l + b + m + c) + "}"
  {
  }

  lemma RevisionGrouped(front: string, scope: string, key: string, a: string, l: string, b: string, m: string,
                        c: string)
    ensures front + scope + (key + (a + l + b + m + c) + "}") + "}" == front + (scope + key) + a + l + b + m + c + "}}"
  {
  }

  lemma RevisionWritten(r: TaskRevision, n: Names)
    requires ValidRevision(r) && Spelled(n) && Plain(GoJsonString)
    ensures Write(RevisionNamed(r, n), GoJsonString) == RevisionText(r)
  {
    ScopeWritten(r, n);
    RevisionNested(r, n, ScopeNamed(r, n));
  }

  lemma RevisionNested(r: TaskRevision, n: Names, scope: Value)
    requires ValidRevision(r) && Spelled(n) && Plain(GoJsonString)
    requires Write(scope, GoJsonString) == "{\"" + n.components + "\":" + ScopeTail(r) + "}"
    ensures Write(Record([Member(n.intent, Text(n.subject)), Member(n.cost, Number(r.expectedCostUnits)),
                          Member(n.scope, scope)]), GoJsonString) == RevisionText(r)
  {
    RevisionWrite(n.intent, n.subject, n.cost, r.expectedCostUnits, n.scope, scope);
    RevisionParts(r, n, Write(scope, GoJsonString));
  }

  lemma RevisionWrite(k: string, subject: string, l: string, cost: nat, m: string, scope: Value)
    requires IsName(k) && IsName(subject) && IsName(l) && IsName(m) && Plain(GoJsonString)
    ensures Write(Record([Member(k, Text(subject)), Member(l, Number(cost)), Member(m, scope)]), GoJsonString) ==
            "{\"" + k + "\":" + ("\"" + subject + "\"") + ",\"" + l + "\":" + PrintNat(cost) +
            ",\"" + m + "\":" + Write(scope, GoJsonString) + "}"
  {
    ThreeValues(k, Text(subject), l, Number(cost), m, scope, GoJsonString);
  }

  lemma RevisionParts(r: TaskRevision, n: Names, scope: string)
    requires ValidRevision(r) && Spelled(n) && scope == "{\"" + n.components + "\":" + ScopeTail(r) + "}"
    ensures "{\"" + n.intent + "\":" + ("\"" + n.subject + "\"") +
            ",\"" + n.cost + "\":" + PrintNat(r.expectedCostUnits) +
            ",\"" + n.scope + "\":" + scope + "}" == RevisionText(r)
  {
    var front := INTENT_KEY + PrintNat(r.expectedCostUnits);
    RevisionGrouped(front, ",\"" + n.scope + "\":", "{\"" + n.components + "\":", PrintNat(r.componentCount), PATHS_KEY,
                    PrintNat(r.declaredPathCount), CONTROL_KEY, BoolText(r.touchesControlPlane));
    ScopeMoved(front, n.scope, scope);
  }

  lemma ScopeMoved(front: string, name: string, scope: string)
    ensures front + ",\"" + name + "\":" + scope + "}" == front + (",\"" + name + "\":") + scope + "}"
  {
  }

  /** The recorded text of a valid revision is JSON: the intent, the cost, and the
      scope by components, paths and control plane. */
  lemma RevisionReads(r: TaskRevision, rest: string)
    requires ValidRevision(r)
    ensures Read(RevisionText(r) + rest) == Some((RevisionValue(r), rest))
  {
    RevisionNames();
    IntentKeys();
    ScopeKeys();
    RevisionSpelled(r, Names("intent", "implement_subject", "expected_cost_units", "scope", "component_count",
                             "declared_path_count", "touches_control_plane"), rest);
  }

  lemma RevisionSpelled(r: TaskRevision, n: Names, rest: string)
    requires ValidRevision(r) && Spelled(n)
    ensures Read(RevisionText(r) + rest) == Some((RevisionNamed(r, n), rest))
  {
    GoQuotes();
    RevisionWritten(r, n);
    WrittenReads(RevisionNamed(r, n), GoJsonString, rest);
  }

  /** The recorded text of a closure revision is JSON: whether it resolves. */
  lemma ResolvesReads(resolves: bool, rest: string)
    ensures Read(ResolvesText(resolves) + rest) == Some((Record([Member("resolves", Flag(resolves))]), rest))
  {
    ResolvesNamed(resolves, "resolves", rest);
  }

  lemma ResolvesNamed(resolves: bool, name: string, rest: string)
    requires IsName(name) && "{\"" + name + "\":" == "{\"resolves\":"
    ensures Read(ResolvesText(resolves) + rest) == Some((Record([Member(name, Flag(resolves))]), rest))
  {
    GoQuotes();
    OneValue(name, Flag(resolves), GoJsonString);
    WrittenReads(Record([Member(name, Flag(resolves))]), GoJsonString, rest);
  }

  function AlternativeValue(a: AlternativeChoice): Value {
    Record([Member("finding_id", Text(a.findingId)), Member("route", Text(RouteName(a.route)))])
  }

  lemma AlternativeWritten(a: AlternativeChoice)
    ensures AlternativeText(a) == Write(AlternativeValue(a), FoundationString)
  {
    RouteNames();
    FoundationQuotes();
    NamedAlternative(a, "finding_id", "route");
  }

  lemma NamedAlternative(a: AlternativeChoice, id: string, name: string)
    requires IsName(id) && IsName(name) && Plain(FoundationString)
    requires "{\"" + id + "\":" == FINDING_KEY && ",\"" + name + "\":" == ROUTE_KEY
    ensures AlternativeText(a) ==
            Write(Record([Member(id, Text(a.findingId)), Member(name, Text(RouteName(a.route)))]), FoundationString)
  {
    TwoValues(id, Text(a.findingId), name, Text(RouteName(a.route)), FoundationString);
    KeyMoved(FINDING_KEY + FoundationString(a.findingId), name, ROUTE_KEY);
  }

  /** The recorded alternatives are JSON: the list of the sorted choices. */
  lemma AlternativesRead(choices: seq<AlternativeChoice>, rest: string)
    ensures Read(AlternativesText(choices) + rest) ==
            Some((List(Values(Sort(ByAlternative, choices), AlternativeValue)), rest))
  {
    var sorted := Sort(ByAlternative, choices);
    forall x | x in sorted ensures AlternativeText(x) == Write(AlternativeValue(x), FoundationString) {
      AlternativeWritten(x);
    }
    ListWritten(sorted, AlternativeText, AlternativeValue, FoundationString);
    EncodedRead(Values(sorted, AlternativeValue), rest);
  }

  lemma EncodedRead(values: seq<Value>, rest: string)
    ensures Read(Write(List(values), FoundationString) + rest) == Some((List(values), rest))
  {
    FoundationQuotes();
    WrittenReads(List(values), FoundationString, rest);
  }

  lemma AlternativesDetermined(a: seq<AlternativeChoice>, b: seq<AlternativeChoice>)
    ensures AlternativesText(a) == AlternativesText(b) <==> Sort(ByAlternative, a) == Sort(ByAlternative, b)
  {
    var x, y := Sort(ByAlternative, a), Sort(ByAlternative, b);
    if AlternativesText(a) == AlternativesText(b) {
      AlternativesRead(a, []);
      AlternativesRead(b, []);
      var v, w := Values(x, AlternativeValue), Values(y, AlternativeValue);
      assert v == w;
      forall i | 0 <= i < |x| ensures x[i] == y[i] {
        assert v[i] == w[i] && v[i].members[0] == w[i].members[0] && v[i].members[1] == w[i].members[1];
        RouteNameReads(x[i].route);
        RouteNameReads(y[i].route);
      }
    }
  }

  lemma RevisionDetermined(a: TaskRevision, b: TaskRevision)
    requires ValidRevision(a) && ValidRevision(b)
    ensures RevisionText(a) == RevisionText(b) <==> a == b
  {
    if RevisionText(a) == RevisionText(b) {
      RevisionReads(a, []);
      RevisionReads(b, []);
      var x, y := RevisionValue(a).members, RevisionValue(b).members;
      assert x[1] == y[1] && x[2] == y[2];
      var s, t := x[2].value.members, y[2].value.members;
      assert s[0] == t[0] && s[1] == t[1] && s[2] == t[2];
    }
  }

  lemma ResolvesDetermined(a: bool, b: bool)
    ensures ResolvesText(a) == ResolvesText(b) <==> a == b
  {
    if ResolvesText(a) == ResolvesText(b) {
      ResolvesReads(a, []);
      ResolvesReads(b, []);
      var x, y := [Member("resolves", Flag(a))], [Member("resolves", Flag(b))];
      assert x == y && x[0] == y[0];
    }
  }

  ghost predicate Injective(clock: int -> string) {
    forall a, b :: clock(a) == clock(b) ==> a == b
  }

  /** Valid decisions of one action record one message exactly when their
      canonical inputs agree. */
  lemma MessageIsInput(c: Command, d: Command, clock: int -> string)
    requires Injective(clock) && ValidActionInput(c) && ValidActionInput(d) && c.payload.action == d.payload.action
    ensures RecordedMessage(c.payload, clock) == RecordedMessage(d.payload, clock) <==>
            CanonicalInput(c.payload) == CanonicalInput(d.payload)
  {
    var p, q := c.payload, d.payload;
    match p.action {
      case StartWithChanges => RevisionDetermined(p.taskRevision.value, q.taskRevision.value);
      case ApproveWithChanges => ResolvesDetermined(p.effectRevision.value, q.effectRevision.value);
      case ChooseAlternativeRoute => AlternativesDetermined(p.alternatives.value, q.alternatives.value);
      case AdjudicateFindings => RoutesDetermined(p.findingRoutes.value, q.findingRoutes.value);
      case _ =>
    }
  }
}
