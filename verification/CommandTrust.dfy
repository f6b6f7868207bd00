/** The client's trust gate for decision results: which durable record is
    accepted as the answer to which command. */
module CommandTrust {
  import opened Outcomes
  import opened Utf8
  import opened Sorting
  import opened Messages
  import opened Decisions

  datatype Source = DaemonPolicy | AgentJudgment | ProjectPolicy

  /** What the item recommended when the command was accepted. */
  datatype Recommendation = Recommendation(action: Action, source: Source)

  /** The decision context in a record; on the wire the last two may come apart. */
  datatype Evidence = Evidence(surfaceDigest: string, recommended: Option<Action>, source: Option<Source>)

  /** The durable record of a command; records of other kinds answer no decision. */
  datatype Record =
    | DecisionRecord(
        commandId: string, deviceId: string, itemId: string, itemVersion: int, prHeadSha: string,
        artifactDigests: seq<string>, action: Action, message: string, attachments: seq<string>,
        answerRoute: Option<AnswerRoute>, evidence: Option<Evidence>)
    | OtherRecord(kind: string)

  datatype CommandResult = CommandResult(record: Record, revision: int)

  // ----- a set of digests in order -----

  /** The distinct digests, sorted. */
  function SortedDigests(digests: seq<string>): seq<string> {
    Sort(LexLe, Dedup(digests))
  }

  /** Sorting the distinct digests is a canonical form of the set. */
  lemma SortedDigestsCanonical(a: seq<string>, b: seq<string>)
    ensures SortedDigests(a) == SortedDigests(b) <==> forall x :: x in a <==> x in b
  {
    SameElements(SortedDigests(a), Dedup(a));
    SameElements(SortedDigests(b), Dedup(b));
    if forall x :: x in a <==> x in b {
      DistinctSameMultiset(Dedup(a), Dedup(b));
      LexIsTotalOrder();
      SortCanonical(LexLe, Dedup(a), Dedup(b));
    }
  }

  /** Each digest once, in ascending order. */
  lemma DigestsAscend(digests: seq<string>)
    ensures forall x :: x in SortedDigests(digests) <==> x in digests
    ensures forall i, j | 0 <= i < j < |SortedDigests(digests)| ::
      LexLe(SortedDigests(digests)[i], SortedDigests(digests)[j]) &&
          SortedDigests(digests)[i] != SortedDigests(digests)[j]
  {
    var once, sorted := Dedup(digests), SortedDigests(digests);
    LexIsTotalOrder();
    SortSorts(LexLe, once);
    SameElements(sorted, once);
    DistinctIsMultiplicity(once);
    DistinctIsMultiplicity(sorted);
  }

  // ----- the gate -----

  /** The record is the one this decision would leave. */
  predicate Accepts(result: CommandResult, c: Command, clock: int -> string) {
    var r, p := result.record, c.payload;
    && result.revision >= 1 && r.DecisionRecord?
    && r.commandId == c.commandId && r.deviceId == c.deviceId
    && r.itemId == p.itemId && r.itemVersion == p.itemVersion && r.prHeadSha == p.prHeadSha
    && r.artifactDigests == SortedDigests(p.artifactDigests)
    && r.action == p.action && r.message == RecordedMessage(p, clock)
    && r.attachments == OrEmpty(p.attachments)
  }

  /** Two commands make one decision: the same command on the same item under
      the same bindings, with one canonical input. */
  ghost predicate SameDecision(c: Command, d: Command) {
    var p, q := c.payload, d.payload;
    && c.commandId == d.commandId && c.deviceId == d.deviceId
    && p.itemId == q.itemId && p.itemVersion == q.itemVersion && p.prHeadSha == q.prHeadSha
    && (forall x :: x in p.artifactDigests <==> x in q.artifactDigests)
    && p.action == q.action && OrEmpty(p.attachments) == OrEmpty(q.attachments)
    && CanonicalInput(p) == CanonicalInput(q)
  }

  /** One record, one decision. A record trusted for one valid command is
      trusted for another exactly when they make the same decision. */
  lemma OneRecordOneDecision(result: CommandResult, c: Command, d: Command, clock: int -> string)
    requires Injective(clock) && Valid(c) && Valid(d) && Accepts(result, c, clock)
    ensures Accepts(result, d, clock) <==> SameDecision(c, d)
  {
    SortedDigestsCanonical(c.payload.artifactDigests, d.payload.artifactDigests);
    if c.payload.action == d.payload.action { MessageIsInput(c, d, clock); }
  }

  // ----- the record a command leaves -----

  /** The evidence stamped on an accepted command: its action surface and the
      item's recommendation at that time, or nothing when it has neither. */
  function Stamped(c: Command, recommendation: Option<Recommendation>): Option<Evidence> {
    var digest := OrEmpty(c.payload.surfaceDigest);
    match recommendation
    case None => if digest == [] then None else Some(Evidence(digest, None, None))
    case Some(r) => Some(Evidence(digest, Some(r.action), Some(r.source)))
  }

  function RecordFor(c: Command, clock: int -> string, evidence: Option<Evidence>): (r: Record)
    ensures r.DecisionRecord?
  {
    var p := c.payload;
    DecisionRecord(c.commandId, c.deviceId, p.itemId, p.itemVersion, p.prHeadSha, SortedDigests(p.artifactDigests),
                   p.action, RecordedMessage(p, clock), OrEmpty(p.attachments), p.answerRoute, evidence)
  }

  /** The exact durable record: the one a command leaves, whatever was recommended. */
  ghost predicate Durable(r: Record, c: Command, clock: int -> string) {
    exists recommendation :: r == RecordFor(c, clock, Stamped(c, recommendation))
  }

  /** A command's own record is trusted for it. */
  lemma OwnRecordTrusted(c: Command, revision: int, clock: int -> string, evidence: Option<Evidence>)
    requires revision >= 1
    ensures Accepts(CommandResult(RecordFor(c, clock, evidence), revision), c, clock)
  {
  }

  /** What the gate does not bind: the version and bindings the client expected,
      the task lines, the surface digest and the answer route. */
  function Rebound(c: Command, d: Command): Command {
    c.(expectedVersion := d.expectedVersion, expectedBindings := d.expectedBindings,
       payload := c.payload.(answerRoute := d.payload.answerRoute, taskLines := d.payload.taskLines,
                             surfaceDigest := d.payload.surfaceDigest))
  }

  lemma UnboundMessage(c: Command, d: Command, clock: int -> string)
    ensures RecordedMessage(Rebound(c, d).payload, clock) == RecordedMessage(c.payload, clock)
  {
  }

  lemma UnboundInput(c: Command, d: Command)
    requires ValidActionInput(c)
    ensures ValidActionInput(Rebound(c, d))
  {
    var p, q := c.payload, Rebound(c, d).payload;
    assert q == p.(answerRoute := q.answerRoute, taskLines := q.taskLines, surfaceDigest := q.surfaceDigest);
    match p.action {
      case AdjudicateFindings =>
      case RetryWithCapabilities =>
      case StartWithChanges =>
      case ChooseAlternativeRoute =>
      case _ =>
    }
  }

  /** Changing the unbound members keeps a valid command valid and trusted alike. */
  lemma UnboundMembers(result: CommandResult, c: Command, d: Command, clock: int -> string)
    requires Valid(c) && ValidStructure(d)
    ensures Valid(Rebound(c, d))
    ensures Accepts(result, Rebound(c, d), clock) <==> Accepts(result, c, clock)
  {
    UnboundInput(c, d);
    UnboundMessage(c, d, clock);
  }

  // ----- what the gate leaves open -----

  /** Two results accepted for one command agree in every member but the answer
      route and the evidence, which the gate never compares. */
  lemma AcceptedAlike(a: CommandResult, b: CommandResult, c: Command, clock: int -> string)
    requires Accepts(a, c, clock)
    ensures Accepts(b, c, clock) <==>
            b.revision >= 1 && b.record.DecisionRecord? &&
            b.record == a.record.(answerRoute := b.record.answerRoute, evidence := b.record.evidence)
  {
  }

  /** The action surface a record's evidence names. */
  function SurfaceOf(evidence: Option<Evidence>): string {
    match evidence case Some(e) => e.surfaceDigest case None => []
  }

  /** The evidence has both halves of a recommendation or neither, and is left
      out when it would say nothing. */
  predicate Stampable(evidence: Option<Evidence>) {
    match evidence
    case None => true
    case Some(e) => e.recommended.Some? == e.source.Some? && (e.recommended.Some? || e.surfaceDigest != [])
  }

  /** Evidence was stamped on this command exactly when it could have been on
      some command and names this one's surface. */
  lemma StampedIff(c: Command, evidence: Option<Evidence>)
    ensures (exists recommendation :: evidence == Stamped(c, recommendation)) <==>
            Stampable(evidence) && SurfaceOf(evidence) == OrEmpty(c.payload.surfaceDigest)
  {
    if Stampable(evidence) && SurfaceOf(evidence) == OrEmpty(c.payload.surfaceDigest) {
      if evidence.Some? && evidence.value.recommended.Some? {
        var e := evidence.value;
        assert evidence == Stamped(c, Some(Recommendation(e.recommended.value, e.source.value)));
      } else {
        assert evidence == Stamped(c, None);
      }
    }
  }

  /** What the client can check from the record and its own command. */
  predicate Answers(r: Record, c: Command)
    requires r.DecisionRecord?
  {
    && r.answerRoute == c.payload.answerRoute
    && Stampable(r.evidence) && SurfaceOf(r.evidence) == OrEmpty(c.payload.surfaceDigest)
  }

  /** An accepted record is an exact durable one if and only if it also answers
      the command in the members that the gate skips. */
  lemma ExactRecord(result: CommandResult, c: Command, clock: int -> string)
    requires Accepts(result, c, clock)
    ensures Durable(result.record, c, clock) <==> Answers(result.record, c)
    ensures forall evidence :: result.record == RecordFor(c, clock, evidence) <==>
              result.record.answerRoute == c.payload.answerRoute && result.record.evidence == evidence
  {
    var r := result.record;
    StampedIff(c, r.evidence);
    if r.answerRoute == c.payload.answerRoute {
      forall recommendation
        ensures r == RecordFor(c, clock, Stamped(c, recommendation)) <==> r.evidence == Stamped(c, recommendation)
      {
      }
      if Answers(r, c) {
        var recommendation :| r.evidence == Stamped(c, recommendation);
        assert r == RecordFor(c, clock, Stamped(c, recommendation));
      }
    }
  }

  /** Two exact durable records of one command differ in the recommendation alone. */
  lemma DurableUpToRecommendation(r: Record, s: Record, c: Command, clock: int -> string)
    requires Durable(r, c, clock) && Durable(s, c, clock)
    ensures SurfaceOf(r.evidence) == SurfaceOf(s.evidence)
    ensures s == r.(evidence := s.evidence)
  {
  }

  /** A valid answer sent one way is answered by the record of the other way. */
  lemma AnswerRouteWitness(clock: int -> string) returns (c: Command, result: CommandResult)
    ensures Valid(c) && c.payload.action == AnswerAndRetry && Accepts(result, c, clock)
    ensures c.payload.answerRoute == Some(RetryImplementation) && result.record.DecisionRecord?
    ensures result.record.answerRoute == Some(ReviseSpecification)
    ensures result.record.evidence == Stamped(c, None) && !Durable(result.record, c, clock)
  {
    var p := Payload("i", AnswerAndRetry, 1, "", [], Some("a"), None, None, Some(RetryImplementation), None, None, None,
                     None, None, None, None, None);
    c := Command("c", "d", Some(1), None, p);
    var own := RecordFor(c, clock, Stamped(c, None));
    result := CommandResult(own.(answerRoute := Some(ReviseSpecification)), 1);
    assert TrimStart("a") == "a" && TrimEnd("a") == "a";
    assert Utf8Length("a") == 1 && Utf8Length("c") == 1;
  }

  /** A valid decision rendered from one action surface is answered by a record
      of another, with the same answer route. */
  lemma EvidenceWitness(clock: int -> string) returns (c: Command, result: CommandResult)
    ensures Valid(c) && c.payload.surfaceDigest == Some("s") && Accepts(result, c, clock)
    ensures result.record.DecisionRecord? && result.record.answerRoute == c.payload.answerRoute
    ensures SurfaceOf(result.record.evidence) == "t" && !Durable(result.record, c, clock)
  {
    var p := Payload("i", Approve, 1, "", [], None, None, None, None, None, None, None, None, None, None, None,
                     Some("s"));
    c := Command("c", "d", Some(1), None, p);
    result := CommandResult(RecordFor(c, clock, Some(Evidence("t", None, None))), 1);
    ExactRecord(result, c, clock);
  }

  // ----- a repeated command -----

  /** The message by which a repeated command is compared: malformed input falls
      back to its raw text. */
  function ReplayMessage(c: Command, clock: int -> string): string {
    if ValidActionInput(c) then RecordedMessage(c.payload, clock) else OrEmpty(c.payload.message)
  }

  /** The repeated command has the recorded one's normalized body, so it is
      answered by that one's record. */
  predicate Replays(original: Command, again: Command, clock: int -> string) {
    var p, q := original.payload, again.payload;
    && original.commandId == again.commandId && original.deviceId == again.deviceId
    && p.itemId == q.itemId && p.action == q.action && p.itemVersion == q.itemVersion && p.prHeadSha == q.prHeadSha
    && SortedDigests(p.artifactDigests) == SortedDigests(q.artifactDigests)
    && RecordedMessage(p, clock) == ReplayMessage(again, clock)
    && OrEmpty(p.attachments) == OrEmpty(q.attachments)
  }

  /** A well-formed command is answered by an earlier record exactly when the two
      make one decision; the gate then trusts the answer. */
  lemma ReplayIsTrusted(original: Command, again: Command, revision: int, clock: int -> string,
                        evidence: Option<Evidence>)
    requires Injective(clock) && Valid(original) && Valid(again) && revision >= 1
    ensures Replays(original, again, clock) <==> SameDecision(original, again)
    ensures Replays(original, again, clock) <==>
            Accepts(CommandResult(RecordFor(original, clock, evidence), revision), again, clock)
  {
    var result := CommandResult(RecordFor(original, clock, evidence), revision);
    OwnRecordTrusted(original, revision, clock, evidence);
    OneRecordOneDecision(result, original, again, clock);
  }

  /** A malformed repeat is answered too, and the gate trusts that answer exactly
      when its raw text is what its typed input would record. */
  lemma MalformedReplay(original: Command, again: Command, revision: int, clock: int -> string,
                        evidence: Option<Evidence>)
    requires Replays(original, again, clock) && revision >= 1
    ensures Accepts(CommandResult(RecordFor(original, clock, evidence), revision), again, clock) <==>
            ValidActionInput(again) || RecordedMessage(again.payload, clock) == OrEmpty(again.payload.message)
  {
  }

  /** A snooze repeated with another time and the first one's text is answered by
      the first one's record, which the gate then refuses. */
  lemma MalformedReplayWitness(clock: int -> string) returns (original: Command, again: Command)
    requires Injective(clock) && clock(0) != []
    ensures Valid(original) && ValidStructure(again) && Replays(original, again, clock)
    ensures !Accepts(CommandResult(RecordFor(original, clock, None), 1), again, clock)
  {
    var p := Payload("i", Snooze, 1, "", [], None, None, None, None, None, None, None, Some(0.0),
                     None, None, None, None);
    original := Command("c", "d", Some(1), None, p);
    again := original.(payload := p.(snoozeUntil := Some(1.0), message := Some(clock(0))));
    assert (0.0).Floor == 0 && (1.0).Floor == 1;
  }
}
