/** The cancellation fence: its target is written as a list of netstrings
    before hashing, which reads back to the fields it was written from. */
module Cancellation {
  import opened Outcomes
  import opened Utf8
  import opened Strings
  import opened Decimal
  import opened Messages

  datatype FencedRun = FencedRun(runId: string, campaignId: Option<string>)

  datatype Target = Target(taskId: string, projectId: string, episodeOrdinal: int, runs: seq<FencedRun>)

  /** The part of a cancellation the fence guard reads. */
  datatype Fence = Fence(
    requestId: string, syncEpoch: string, fenceRevision: int, target: Target, targetDigest: string, requestedAt: int)

  const VERSION := "task-cancellation-target-v1"

  // ----- netstrings -----

  function Netstring(field: string): string {
    PrintNat(Utf8Length(field)) + ":" + field
  }

  function Netstrings(fields: seq<string>): string {
    if fields == [] then [] else Netstring(fields[0]) + Netstrings(fields[1..])
  }

  /** The scalars of exactly n bytes at the front of s. */
  function TakeBytes(s: string, n: nat): Option<(string, string)>
    decreases |s|
  {
    if n == 0 then Some(([], s))
    else if s == [] || Utf8Width(s[0]) > n then None
    else
      match TakeBytes(s[1..], n - Utf8Width(s[0]))
      case Some((field, rest)) => Some(([s[0]] + field, rest))
      case None => None
  }

  function ParseNetstring(s: string): Option<(string, string)> {
    var digits := Digits(s);
    var rest := s[|digits|..];
    if digits == [] || rest == [] || rest[0] != ':' then None else TakeBytes(rest[1..], DecimalValue(digits))
  }

  function ParseNetstrings(s: string): Option<seq<string>>
    decreases |s|
  {
    if s == [] then Some([])
    else
      match ParseNetstring(s)
      case None => None
      case Some((field, rest)) =>
        if |rest| >= |s| then None
        else match ParseNetstrings(rest)
          case Some(fields) => Some([field] + fields)
          case None => None
  }

  lemma {:induction false} TakeBytesReads(field: string, rest: string)
    ensures TakeBytes(field + rest, Utf8Length(field)) == Some((field, rest))
  {
    if field == [] {
      assert field + rest == rest;
    } else {
      assert (field + rest)[1..] == field[1..] + rest;
      TakeBytesReads(field[1..], rest);
      assert field == [field[0]] + field[1..];
    }
  }

  lemma NetstringReads(field: string, rest: string)
    ensures ParseNetstring(Netstring(field) + rest) == Some((field, rest))
    ensures Netstring(field) != []
  {
    var n, tail := Utf8Length(field), ":" + (field + rest);
    Regroup(PrintNat(n) + ":", field, rest);
    Regroup(PrintNat(n), ":", field + rest);
    assert Netstring(field) + rest == PrintNat(n) + tail;
    PrintedReads(n, tail);
    assert tail[1..] == field + rest;
    TakeBytesReads(field, rest);
  }

  /** The fields read back. */
  lemma {:induction false} NetstringsRead(fields: seq<string>)
    ensures ParseNetstrings(Netstrings(fields)) == Some(fields)
  {
    if fields != [] {
      NetstringReads(fields[0], Netstrings(fields[1..]));
      NetstringsRead(fields[1..]);
      assert fields == [fields[0]] + fields[1..];
    }
  }

  // ----- the target's fields -----

  function CampaignField(run: FencedRun): string {
    if run.campaignId.Some? then run.campaignId.value else []
  }

  function RunFields(runs: seq<FencedRun>): seq<string> {
    if runs == [] then [] else RunFields(runs[..|runs| - 1]) + [runs[|runs| - 1].runId, CampaignField(runs[|runs| - 1])]
  }

  function Header(target: Target, epoch: string): seq<string> {
    [VERSION, epoch, target.taskId, target.projectId, PrintInt(target.episodeOrdinal), PrintNat(|target.runs|)]
  }

  /** The text whose SHA-256 is the target digest. */
  function TargetPreimage(target: Target, epoch: string): string {
    Netstrings(Header(target, epoch) + RunFields(target.runs))
  }

  method WriteTarget(target: Target, epoch: string) returns (text: string)
    ensures text == TargetPreimage(target, epoch)
  {
    var fields := Header(target, epoch);
    for k := 0 to |target.runs|
      invariant fields == Header(target, epoch) + RunFields(target.runs[..k])
    {
      var run := target.runs[k];
      assert target.runs[..k + 1][..k] == target.runs[..k];
      fields := fields + [run.runId, CampaignField(run)];
    }
    assert target.runs[..|target.runs|] == target.runs;
    text := Netstrings(fields);
  }

  // ----- injectivity -----

  lemma PrintNatInjective(a: nat, b: nat)
    requires PrintNat(a) == PrintNat(b)
    ensures a == b
  {
    PrintedValue(a);
    PrintedValue(b);
  }

  lemma PrintIntInjective(a: int, b: int)
    requires PrintInt(a) == PrintInt(b)
    ensures a == b
  {
    PrintIntSign(a);
    PrintIntSign(b);
    PrintNatInjective(if a < 0 then -a else a, if b < 0 then -b else b);
  }

  lemma PrintIntSign(n: int)
    ensures PrintInt(n) != [] && (IsDigit(PrintInt(n)[0]) <==> n >= 0)
    ensures n < 0 ==> PrintInt(n)[1..] == PrintNat(-n)
  {
    if n >= 0 { assert IsDigit(PrintNat(n)[0]); }
  }

  /** The preimage cannot tell an absent campaign from an empty one. */
  function Merged(run: FencedRun): FencedRun {
    if run.campaignId == Some("") then FencedRun(run.runId, None) else run
  }

  function MergedRuns(runs: seq<FencedRun>): seq<FencedRun> {
    if runs == [] then [] else MergedRuns(runs[..|runs| - 1]) + [Merged(runs[|runs| - 1])]
  }

  lemma {:induction false} RunFieldsLength(runs: seq<FencedRun>)
    ensures |RunFields(runs)| == 2 * |runs| && |MergedRuns(runs)| == |runs|
  {
    if runs != [] { RunFieldsLength(runs[..|runs| - 1]); }
  }

  lemma {:induction false} RunFieldsInjective(a: seq<FencedRun>, b: seq<FencedRun>)
    ensures RunFields(a) == RunFields(b) <==> MergedRuns(a) == MergedRuns(b)
  {
    RunFieldsLength(a);
    RunFieldsLength(b);
    if a != [] && |a| == |b| {
      var n := |a| - 1;
      RunFieldsInjective(a[..n], b[..n]);
      LastFields(a, b);
      LastMerged(a, b);
    }
  }

  lemma LastFields(a: seq<FencedRun>, b: seq<FencedRun>)
    requires a != [] && |a| == |b|
    ensures RunFields(a) == RunFields(b) <==>
            RunFields(a[..|a| - 1]) == RunFields(b[..|b| - 1]) && Merged(a[|a| - 1]) == Merged(b[|b| - 1])
  {
    var n := |a| - 1;
    RunFieldsLength(a[..n]);
    RunFieldsLength(b[..n]);
    var x, y := [a[n].runId, CampaignField(a[n])], [b[n].runId, CampaignField(b[n])];
    AppendEqual(RunFields(a[..n]), x, RunFields(b[..n]), y);
    PairEqual(a[n], b[n]);
  }

  lemma LastMerged(a: seq<FencedRun>, b: seq<FencedRun>)
    requires a != [] && |a| == |b|
    ensures MergedRuns(a) == MergedRuns(b) <==>
            MergedRuns(a[..|a| - 1]) == MergedRuns(b[..|b| - 1]) && Merged(a[|a| - 1]) == Merged(b[|b| - 1])
  {
    var n := |a| - 1;
    RunFieldsLength(a[..n]);
    RunFieldsLength(b[..n]);
    AppendEqual(MergedRuns(a[..n]), [Merged(a[n])], MergedRuns(b[..n]), [Merged(b[n])]);
    PairEqual(a[n], b[n]);
  }

  lemma AppendEqual<T>(s: seq<T>, x: seq<T>, t: seq<T>, y: seq<T>)
    requires |s| == |t|
    ensures s + x == t + y <==> s == t && x == y
  {
    if s + x == t + y {
      assert s == (s + x)[..|s|] && x == (s + x)[|s|..];
      assert t == (t + y)[..|t|] && y == (t + y)[|t|..];
    }
  }

  lemma PairEqual(a: FencedRun, b: FencedRun)
    ensures [a.runId, CampaignField(a)] == [b.runId, CampaignField(b)] <==> [Merged(a)] == [Merged(b)]
    ensures [Merged(a)] == [Merged(b)] <==> Merged(a) == Merged(b)
  {
    assert [a.runId, CampaignField(a)][0] == a.runId && [a.runId, CampaignField(a)][1] == CampaignField(a);
    assert [Merged(a)][0] == Merged(a);
  }

  function Identity(target: Target, epoch: string): (string, string, string, int, seq<FencedRun>) {
    (epoch, target.taskId, target.projectId, target.episodeOrdinal, MergedRuns(target.runs))
  }

  /** Two targets have one preimage exactly when they agree on everything but
      absent against empty campaigns. */
  lemma PreimageIdentity(a: Target, epochA: string, b: Target, epochB: string)
    ensures TargetPreimage(a, epochA) == TargetPreimage(b, epochB) <==> Identity(a, epochA) == Identity(b, epochB)
  {
    var x, y := Header(a, epochA) + RunFields(a.runs), Header(b, epochB) + RunFields(b.runs);
    RunFieldsInjective(a.runs, b.runs);
    RunFieldsLength(a.runs);
    RunFieldsLength(b.runs);
    if Netstrings(x) == Netstrings(y) {
      NetstringsRead(x);
      NetstringsRead(y);
      assert x == y;
      HeaderOf(a, epochA, x);
      HeaderOf(b, epochB, y);
      PrintIntInjective(a.episodeOrdinal, b.episodeOrdinal);
    }
    if Identity(a, epochA) == Identity(b, epochB) {
      assert Header(a, epochA) == Header(b, epochB);
    }
  }

  lemma HeaderOf(t: Target, epoch: string, fields: seq<string>)
    requires fields == Header(t, epoch) + RunFields(t.runs)
    ensures fields[1] == epoch && fields[2] == t.taskId && fields[3] == t.projectId
    ensures fields[4] == PrintInt(t.episodeOrdinal) && fields[6..] == RunFields(t.runs)
  {
  }

  // ----- the fence guard -----

  /** No run is blank or repeated and no campaign is empty. */
  predicate ValidRuns(runs: seq<FencedRun>) {
    && (forall i | 0 <= i < |runs| :: runs[i].runId != [] && runs[i].campaignId != Some(""))
    && (forall i, j | 0 <= i < j < |runs| :: runs[i].runId != runs[j].runId)
  }

  /** The opening guard of the fence check. */
  predicate FenceAccepted(c: Fence, digest: string -> string, zeroInstant: int) {
    && c.requestId != [] && c.syncEpoch != [] && c.fenceRevision >= 1
    && c.target.taskId != [] && c.target.projectId != [] && c.target.episodeOrdinal >= 0
    && ValidRuns(c.target.runs)
    && c.targetDigest == digest(TargetPreimage(c.target, c.syncEpoch))
    && c.requestedAt != zeroInstant
  }

  lemma {:induction false} ValidRunsUnmerged(runs: seq<FencedRun>)
    requires forall i | 0 <= i < |runs| :: runs[i].campaignId != Some("")
    ensures MergedRuns(runs) == runs
  {
    if runs != [] {
      var n := |runs| - 1;
      ValidRunsUnmerged(runs[..n]);
      assert runs == runs[..n] + [runs[n]];
    }
  }

  /** Two accepted fences of one digest fence the same epoch, task, project,
      episode and runs, in order, unless the hash itself collides. */
  lemma OneDigestOneTarget(a: Fence, b: Fence, digest: string -> string, zeroInstant: int)
    requires FenceAccepted(a, digest, zeroInstant) && FenceAccepted(b, digest, zeroInstant)
    requires a.targetDigest == b.targetDigest
    requires var p, q := TargetPreimage(a.target, a.syncEpoch), TargetPreimage(b.target, b.syncEpoch);
             digest(p) == digest(q) ==> p == q
    ensures a.syncEpoch == b.syncEpoch && a.target == b.target
  {
    PreimageIdentity(a.target, a.syncEpoch, b.target, b.syncEpoch);
    ValidRunsUnmerged(a.target.runs);
    ValidRunsUnmerged(b.target.runs);
  }

  /** Without the guard's ban on empty campaigns two targets share a preimage. */
  lemma EmptyCampaignCollides(t: Target, epoch: string, runId: string)
    ensures t.(runs := [FencedRun(runId, None)]) != t.(runs := [FencedRun(runId, Some(""))])
    ensures TargetPreimage(t.(runs := [FencedRun(runId, None)]), epoch) ==
            TargetPreimage(t.(runs := [FencedRun(runId, Some(""))]), epoch)
  {
    PreimageIdentity(t.(runs := [FencedRun(runId, None)]), epoch, t.(runs := [FencedRun(runId, Some(""))]), epoch);
    assert MergedRuns([FencedRun(runId, None)]) == MergedRuns([FencedRun(runId, Some(""))]);
  }

  // ----- spelled out -----

  /** A netstring is the number of the field's UTF-8 bytes, a colon and the field;
      a list of them is one after the other. */
  lemma NetstringIs(field: string, rest: seq<string>)
    ensures Netstring(field) == PrintNat(|Encode(field)|) + ":" + field
    ensures Netstrings([]) == "" && Netstrings([field] + rest) == Netstring(field) + Netstrings(rest)
  {
    LengthIsBytes(field);
    assert ([field] + rest)[1..] == rest;
  }

  lemma {:induction false} RunFieldAt(runs: seq<FencedRun>, i: nat)
    requires i < |runs|
    ensures |RunFields(runs)| == 2 * |runs|
    ensures RunFields(runs)[2 * i] == runs[i].runId
    ensures RunFields(runs)[2 * i + 1] == if runs[i].campaignId.Some? then runs[i].campaignId.value else ""
  {
    RunFieldsLength(runs);
    var n := |runs| - 1;
    RunFieldsLength(runs[..n]);
    if i < n { RunFieldAt(runs[..n], i); }
  }

  /** The fields are the version, the epoch, the task, the project, the ordinal and
      the number of runs, and then each run with its campaign, in order. */
  lemma TargetIs(target: Target, epoch: string) returns (fields: seq<string>)
    ensures TargetPreimage(target, epoch) == Netstrings(fields) && |fields| == 6 + 2 * |target.runs|
    ensures fields[0] == "task-cancellation-target-v1" && fields[1] == epoch
    ensures fields[2] == target.taskId && fields[3] == target.projectId
    ensures fields[4] == (if target.episodeOrdinal < 0 then "-" + PrintNat(-target.episodeOrdinal)
                          else PrintNat(target.episodeOrdinal))
    ensures fields[5] == PrintNat(|target.runs|)
    ensures forall i | 0 <= i < |target.runs| :: fields[6 + 2 * i] == target.runs[i].runId
    ensures forall i | 0 <= i < |target.runs| ::
      fields[7 + 2 * i] == if target.runs[i].campaignId.Some? then target.runs[i].campaignId.value else ""
  {
    fields := Header(target, epoch) + RunFields(target.runs);
    HeaderIs(target, epoch);
    RunsAfter(Header(target, epoch), target.runs);
  }

  lemma RunsAfter(head: seq<string>, runs: seq<FencedRun>)
    requires |head| == 6
    ensures var fields := head + RunFields(runs);
            && |fields| == 6 + 2 * |runs|
            && (forall i | 0 <= i < |runs| :: fields[6 + 2 * i] == runs[i].runId)
            && (forall i | 0 <= i < |runs| ::
                  fields[7 + 2 * i] == if runs[i].campaignId.Some? then runs[i].campaignId.value else "")
  {
    var fields := head + RunFields(runs);
    RunFieldsLength(runs);
    forall i | 0 <= i < |runs|
      ensures fields[6 + 2 * i] == runs[i].runId
      ensures fields[7 + 2 * i] == if runs[i].campaignId.Some? then runs[i].campaignId.value else ""
    {
      RunFieldAt(runs, i);
      assert fields[6 + 2 * i] == RunFields(runs)[2 * i];
      assert fields[7 + 2 * i] == RunFields(runs)[2 * i + 1];
    }
  }

  lemma HeaderIs(target: Target, epoch: string)
    ensures var head := Header(target, epoch);
            && |head| == 6 && head[0] == "task-cancellation-target-v1" && head[1] == epoch
            && head[2] == target.taskId && head[3] == target.projectId
            && head[4] == (if target.episodeOrdinal < 0 then "-" + PrintNat(-target.episodeOrdinal)
                           else PrintNat(target.episodeOrdinal))
            && head[5] == PrintNat(|target.runs|)
  {
  }

  /** A fence is accepted when its identities are given, its revision and ordinal
      count, its runs are given once each with no empty campaign, its digest is of
      its own target, and it has an instant. */
  lemma FenceIff(c: Fence, digest: string -> string, zeroInstant: int)
    ensures FenceAccepted(c, digest, zeroInstant) <==>
            && c.requestId != "" && c.syncEpoch != "" && 1 <= c.fenceRevision
            && c.target.taskId != "" && c.target.projectId != "" && 0 <= c.target.episodeOrdinal
            && (forall run | run in c.target.runs :: run.runId != "" && run.campaignId != Some(""))
            && (forall i, j | 0 <= i < |c.target.runs| && 0 <= j < |c.target.runs| &&
                              c.target.runs[i].runId == c.target.runs[j].runId :: i == j)
            && c.targetDigest == digest(TargetPreimage(c.target, c.syncEpoch))
            && c.requestedAt != zeroInstant
  {
    RunsIff(c.target.runs);
  }

  lemma RunsIff(runs: seq<FencedRun>)
    ensures ValidRuns(runs) <==>
            && (forall run | run in runs :: run.runId != "" && run.campaignId != Some(""))
            && (forall i, j | 0 <= i < |runs| && 0 <= j < |runs| && runs[i].runId == runs[j].runId :: i == j)
  {
    assert forall i | 0 <= i < |runs| :: runs[i] in runs;
  }
}
