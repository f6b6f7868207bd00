/** The evidence a shard leaves behind, and which of its attempts count. */
module Evidence {
  import opened Outcomes
  import opened Sorting
  import opened Accounting
  import opened Decimal

  /** A shard's kind as its report names it. */
  datatype Kind = Rest | Integration | Darwin | OtherKind(name: string)

  datatype ShardKey = ShardKey(kind: Kind, index: int, count: int)

  /** execution.json: what a shard claims about itself. */
  datatype Execution = Execution(shard: ShardKey, integrationCount: int, inventory: Inventory, report: Report)

  /** partition.json */
  datatype PartitionFile = PartitionFile(count: int, bins: seq<seq<string>>)

  /** One evidence directory: execution.json, packages.json, inventory.json,
      partition.json, metadata.json and the raw tests.jsonl. */
  datatype ShardEvidence = ShardEvidence(
    execution: Execution, packages: seq<string>, discovered: Inventory, partition: PartitionFile,
    metadata: map<string, string>, events: seq<Event>)

  /** The CI variables the aggregator reads; an unset one is empty or None. */
  datatype Environment = Environment(runId: string, sha: string, attempt: Option<int>)

  function ShardOf(e: ShardEvidence): ShardKey {
    e.execution.shard
  }

  function Get(metadata: map<string, string>, key: string): Option<string> {
    if key in metadata then Some(metadata[key]) else None
  }

  // ----- attempts -----

  /** The attempt number: 0 for local evidence, else a positive decimal. */
  function RunAttempt(metadata: map<string, string>): Option<nat> {
    match Get(metadata, "GITHUB_RUN_ATTEMPT")
    case None => None
    case Some(value) =>
      if value == [] then Some(0)
      else if AllDigits(value) && value[0] != '0' then Some(DecimalValue(value))
      else None
  }

  function AttemptOf(e: ShardEvidence): nat {
    match RunAttempt(e.metadata)
    case Some(attempt) => attempt
    case None => 0
  }

  /** The evidence that counts: of each shard, its greatest attempt. */
  ghost function Kept(paths: seq<ShardEvidence>): set<ShardEvidence> {
    set e | e in paths && forall f | f in paths && ShardOf(f) == ShardOf(e) :: AttemptOf(f) <= AttemptOf(e)
  }

  /** Every attempt number is well formed, no shard has two pieces of evidence
      of one attempt, and no evidence that counts is from the future. */
  ghost predicate AttemptsAccepted(paths: seq<ShardEvidence>, current: Option<int>) {
    && (forall e | e in paths :: RunAttempt(e.metadata).Some?)
    && AllNumbersDiffer(paths)
    && (current.Some? ==> forall e | e in Kept(paths) :: AttemptOf(e) <= current.value)
  }

  /** The evidence of one shard, in path order. */
  function Attempts(paths: seq<ShardEvidence>, shard: ShardKey): seq<ShardEvidence> {
    if paths == [] then []
    else
      var rest := Attempts(paths[..|paths| - 1], shard);
      if ShardOf(paths[|paths| - 1]) == shard then rest + [paths[|paths| - 1]] else rest
  }

  lemma {:induction false} AttemptsMember(paths: seq<ShardEvidence>, shard: ShardKey, e: ShardEvidence)
    ensures e in Attempts(paths, shard) <==> e in paths && ShardOf(e) == shard
  {
    if paths != [] {
      var n := |paths| - 1;
      AttemptsMember(paths[..n], shard, e);
      assert paths == paths[..n] + [paths[n]];
    }
  }

  predicate NumbersDiffer(group: seq<ShardEvidence>) {
    forall i, j | 0 <= i < j < |group| :: AttemptOf(group[i]) != AttemptOf(group[j])
  }

  ghost predicate AllNumbersDiffer(paths: seq<ShardEvidence>) {
    forall shard :: NumbersDiffer(Attempts(paths, shard))
  }

  /** The first of the greatest attempts. */
  function Greatest(group: seq<ShardEvidence>): (e: ShardEvidence)
    requires group != []
    ensures e in group
    ensures forall f | f in group :: AttemptOf(f) <= AttemptOf(e)
  {
    var n := |group| - 1;
    if n == 0 then group[0]
    else
      var best := Greatest(group[..n]);
      assert group == group[..n] + [group[n]];
      if AttemptOf(group[n]) > AttemptOf(best) then group[n] else best
  }

  predicate DistinctShards(kept: seq<ShardEvidence>) {
    forall i, j | 0 <= i < j < |kept| :: ShardOf(kept[i]) != ShardOf(kept[j])
  }

  /** A shard's greatest attempt is its kept evidence, and its only one. */
  lemma GreatestKept(paths: seq<ShardEvidence>, shard: ShardKey)
    requires Attempts(paths, shard) != []
    ensures Greatest(Attempts(paths, shard)) in Kept(paths) && ShardOf(Greatest(Attempts(paths, shard))) == shard
    ensures NumbersDiffer(Attempts(paths, shard)) ==>
      forall e | e in Kept(paths) && ShardOf(e) == shard :: e == Greatest(Attempts(paths, shard))
  {
    var group := Attempts(paths, shard);
    var best := Greatest(group);
    AttemptsMember(paths, shard, best);
    forall f | f in paths && ShardOf(f) == shard ensures AttemptOf(f) <= AttemptOf(best) {
      AttemptsMember(paths, shard, f);
    }
    if NumbersDiffer(group) {
      forall e | e in Kept(paths) && ShardOf(e) == shard ensures e == best {
        AttemptsMember(paths, shard, e);
        assert AttemptOf(e) == AttemptOf(best);
        var i :| 0 <= i < |group| && group[i] == e;
        var j :| 0 <= j < |group| && group[j] == best;
        assert i == j;
      }
    }
  }

  /** The dictionary of candidates: its keys in insertion order, each shard's
      evidence in path order. */
  ghost predicate Grouped(paths: seq<ShardEvidence>, order: seq<ShardKey>,
                          candidates: map<ShardKey, seq<ShardEvidence>>) {
    && Distinct(order)
    && (forall shard :: shard in order <==> shard in candidates)
    && (forall shard | shard in candidates :: candidates[shard] == Attempts(paths, shard) != [])
    && (forall shard | Attempts(paths, shard) != [] :: shard in candidates)
    && (paths == [] ==> order == [])
    && (paths != [] ==> order != [] && order[0] == ShardOf(paths[0]))
  }

  lemma AttemptsStep(paths: seq<ShardEvidence>, e: ShardEvidence, shard: ShardKey)
    ensures Attempts(paths + [e], shard) == Attempts(paths, shard) + if ShardOf(e) == shard then [e] else []
  {
    assert (paths + [e])[..|paths|] == paths;
  }

  lemma GroupAgain(paths: seq<ShardEvidence>, order: seq<ShardKey>, candidates: map<ShardKey, seq<ShardEvidence>>,
                   e: ShardEvidence)
    requires Grouped(paths, order, candidates) && ShardOf(e) in candidates
    ensures Grouped(paths + [e], order, candidates[ShardOf(e) := candidates[ShardOf(e)] + [e]])
  {
    forall shard
      ensures Attempts(paths + [e], shard) == Attempts(paths, shard) + if ShardOf(e) == shard then [e] else []
    {
      AttemptsStep(paths, e, shard);
    }
  }

  lemma GroupFirst(paths: seq<ShardEvidence>, order: seq<ShardKey>, candidates: map<ShardKey, seq<ShardEvidence>>,
                   e: ShardEvidence)
    requires Grouped(paths, order, candidates) && ShardOf(e) !in candidates
    ensures Grouped(paths + [e], order + [ShardOf(e)], candidates[ShardOf(e) := [e]])
  {
    forall shard
      ensures Attempts(paths + [e], shard) == Attempts(paths, shard) + if ShardOf(e) == shard then [e] else []
    {
      AttemptsStep(paths, e, shard);
    }
    assert Attempts(paths, ShardOf(e)) == [];
  }

  /** Groups the evidence by shard, in path order. */
  method GroupByShard(paths: seq<ShardEvidence>)
    returns (valid: bool, order: seq<ShardKey>, candidates: map<ShardKey, seq<ShardEvidence>>)
    ensures valid <==> forall e | e in paths :: RunAttempt(e.metadata).Some?
    ensures valid ==> Grouped(paths, order, candidates)
  {
    candidates, order := map[], [];
    for k := 0 to |paths|
      invariant forall e | e in paths[..k] :: RunAttempt(e.metadata).Some?
      invariant Grouped(paths[..k], order, candidates)
    {
      var e := paths[k];
      assert e in paths;
      assert paths[..k + 1] == paths[..k] + [e];
      if RunAttempt(e.metadata).None? {
        valid := false;
        return;
      }
      if ShardOf(e) in candidates {
        GroupAgain(paths[..k], order, candidates, e);
        candidates := candidates[ShardOf(e) := candidates[ShardOf(e)] + [e]];
      } else {
        GroupFirst(paths[..k], order, candidates, e);
        candidates, order := candidates[ShardOf(e) := [e]], order + [ShardOf(e)];
      }
    }
    assert paths[..|paths|] == paths;
    valid := true;
  }

  /** Keeps the greatest attempt of each group, unless two share a number. */
  method KeepGreatest(order: seq<ShardKey>, candidates: map<ShardKey, seq<ShardEvidence>>)
    returns (result: Result<seq<ShardEvidence>>)
    requires forall shard | shard in order :: shard in candidates && candidates[shard] != []
    ensures result.Rejected? ==> exists shard | shard in order :: !NumbersDiffer(candidates[shard])
    ensures result.Accepted? ==> |result.value| == |order|
    ensures result.Accepted? ==> forall k | 0 <= k < |order| ::
      NumbersDiffer(candidates[order[k]]) && result.value[k] == Greatest(candidates[order[k]])
  {
    var kept: seq<ShardEvidence> := [];
    for k := 0 to |order|
      invariant |kept| == k
      invariant forall j | 0 <= j < k ::
                NumbersDiffer(candidates[order[j]]) && kept[j] == Greatest(candidates[order[j]])
    {
      assert order[k] in order;
      if !NumbersDiffer(candidates[order[k]]) {
        return Rejected;
      }
      kept := kept + [Greatest(candidates[order[k]])];
    }
    return Accepted(kept);
  }

  method LatestAttempts(paths: seq<ShardEvidence>, current: Option<int>) returns (result: Result<seq<ShardEvidence>>)
    ensures result.Accepted? <==> AttemptsAccepted(paths, current)
    ensures result.Accepted? ==> DistinctShards(result.value) && forall e :: e in result.value <==> e in Kept(paths)
    ensures result.Accepted? && paths != [] ==> result.value != [] && ShardOf(result.value[0]) == ShardOf(paths[0])
  {
    var valid, order, candidates := GroupByShard(paths);
    if !valid {
      return Rejected;
    }
    result := KeepGreatest(order, candidates);
    if result.Rejected? {
      GroupClash(paths, order, candidates);
      return;
    }
    KeptDecides(paths, order, candidates, result.value, current);
    if current.Some? && exists e | e in result.value :: AttemptOf(e) > current.value {
      return Rejected;
    }
  }

  lemma GroupClash(paths: seq<ShardEvidence>, order: seq<ShardKey>, candidates: map<ShardKey, seq<ShardEvidence>>)
    requires Grouped(paths, order, candidates)
    requires exists shard | shard in order :: !NumbersDiffer(candidates[shard])
    ensures !AllNumbersDiffer(paths)
  {
    var shard :| shard in order && !NumbersDiffer(candidates[shard]);
    assert !NumbersDiffer(Attempts(paths, shard));
  }

  lemma KeptDecides(paths: seq<ShardEvidence>, order: seq<ShardKey>, candidates: map<ShardKey, seq<ShardEvidence>>,
                    kept: seq<ShardEvidence>, current: Option<int>)
    requires Grouped(paths, order, candidates) && |kept| == |order|
    requires forall k | 0 <= k < |order| ::
             NumbersDiffer(candidates[order[k]]) && kept[k] == Greatest(candidates[order[k]])
    requires forall e | e in paths :: RunAttempt(e.metadata).Some?
    ensures DistinctShards(kept) && forall e :: e in kept <==> e in Kept(paths)
    ensures paths != [] ==> kept != [] && ShardOf(kept[0]) == ShardOf(paths[0])
    ensures AttemptsAccepted(paths, current) <==>
            !(current.Some? && exists e | e in kept :: AttemptOf(e) > current.value)
  {
    KeptComplete(paths, order, candidates, kept);
    KeptExceeds(paths, kept, current);
  }

  lemma KeptExceeds(paths: seq<ShardEvidence>, kept: seq<ShardEvidence>, current: Option<int>)
    requires forall e :: e in kept <==> e in Kept(paths)
    requires AllNumbersDiffer(paths) && forall e | e in paths :: RunAttempt(e.metadata).Some?
    ensures AttemptsAccepted(paths, current) <==>
            !(current.Some? && exists e | e in kept :: AttemptOf(e) > current.value)
  {
  }

  lemma KeptComplete(paths: seq<ShardEvidence>, order: seq<ShardKey>, candidates: map<ShardKey, seq<ShardEvidence>>,
                     kept: seq<ShardEvidence>)
    requires Grouped(paths, order, candidates) && |kept| == |order|
    requires forall k | 0 <= k < |order| ::
             NumbersDiffer(candidates[order[k]]) && kept[k] == Greatest(candidates[order[k]])
    ensures DistinctShards(kept)
    ensures forall e :: e in kept <==> e in Kept(paths)
    ensures AllNumbersDiffer(paths)
    ensures paths != [] ==> ShardOf(kept[0]) == ShardOf(paths[0])
  {
    forall k | 0 <= k < |order| ensures ShardOf(kept[k]) == order[k] && kept[k] in Kept(paths) {
      assert order[k] in order;
      GreatestKept(paths, order[k]);
    }
    forall e | e in Kept(paths) ensures e in kept {
      AttemptsMember(paths, ShardOf(e), e);
      assert ShardOf(e) in order;
      var k :| 0 <= k < |order| && order[k] == ShardOf(e);
      GreatestKept(paths, order[k]);
      assert kept[k] == e;
    }
    forall shard ensures NumbersDiffer(Attempts(paths, shard)) {
      if shard in order {
        var k :| 0 <= k < |order| && order[k] == shard;
      } else {
        assert Attempts(paths, shard) == [];
      }
    }
  }

  // ----- what a rerun changes -----

  lemma {:induction false} AttemptsAppend(a: seq<ShardEvidence>, b: seq<ShardEvidence>, shard: ShardKey)
    ensures Attempts(a + b, shard) == Attempts(a, shard) + Attempts(b, shard)
  {
    if b == [] {
      assert a + b == a;
    } else {
      var n := |b| - 1;
      assert (a + b)[..|a| + n] == a + b[..n];
      AttemptsAppend(a, b[..n], shard);
    }
  }

  /** Evidence x slipped in anywhere among the paths a + b. */
  lemma AttemptsInsert(a: seq<ShardEvidence>, x: ShardEvidence, b: seq<ShardEvidence>, shard: ShardKey)
    ensures ShardOf(x) != shard ==> Attempts(a + [x] + b, shard) == Attempts(a + b, shard)
    ensures ShardOf(x) == shard ==> Attempts(a + [x] + b, shard) == Attempts(a, shard) + [x] + Attempts(b, shard)
    ensures Attempts(a + b, shard) == Attempts(a, shard) + Attempts(b, shard)
  {
    AttemptsAppend(a + [x], b, shard);
    AttemptsStep(a, x, shard);
    AttemptsAppend(a, b, shard);
  }

  /** The attempt numbers of a shard stay different exactly when the new one is new. */
  lemma NumbersInsert(a: seq<ShardEvidence>, x: ShardEvidence, b: seq<ShardEvidence>)
    ensures NumbersDiffer(a + [x] + b) <==>
            NumbersDiffer(a + b) && forall e | e in a + b :: AttemptOf(e) != AttemptOf(x)
  {
    var with, without := a + [x] + b, a + b;
    if NumbersDiffer(with) {
      forall e | e in without ensures AttemptOf(e) != AttemptOf(x) {
        var k :| 0 <= k < |without| && without[k] == e;
        assert with[|a|] == x && with[if k < |a| then k else k + 1] == e;
      }
      forall i, j | 0 <= i < j < |without| ensures AttemptOf(without[i]) != AttemptOf(without[j]) {
        assert without[i] == with[if i < |a| then i else i + 1];
        assert without[j] == with[if j < |a| then j else j + 1];
      }
    }
    if NumbersDiffer(without) && forall e | e in without :: AttemptOf(e) != AttemptOf(x) {
      forall i, j | 0 <= i < j < |with| ensures AttemptOf(with[i]) != AttemptOf(with[j]) {
        assert i != |a| ==> with[i] == without[if i < |a| then i else i - 1];
        assert j != |a| ==> with[j] == without[if j < |a| then j else j - 1];
      }
    }
  }

  /** The attempt numbers on a path list with one more piece of evidence. */
  lemma AllNumbersInsert(a: seq<ShardEvidence>, x: ShardEvidence, b: seq<ShardEvidence>)
    ensures AllNumbersDiffer(a + [x] + b) <==>
            AllNumbersDiffer(a + b) && forall e | e in a + b && ShardOf(e) == ShardOf(x) :: AttemptOf(e) != AttemptOf(x)
  {
    var with, without, own := a + [x] + b, a + b, ShardOf(x);
    AttemptsInsert(a, x, b, own);
    NumbersInsert(Attempts(a, own), x, Attempts(b, own));
    forall e ensures e in Attempts(without, own) <==> e in without && ShardOf(e) == own {
      AttemptsMember(without, own, e);
    }
    assert NumbersDiffer(Attempts(with, own)) <==>
      NumbersDiffer(Attempts(without, own)) && forall e | e in without && ShardOf(e) == own ::
        AttemptOf(e) != AttemptOf(x);
    forall shard | shard != own ensures Attempts(with, shard) == Attempts(without, shard) {
      AttemptsInsert(a, x, b, shard);
    }
    if AllNumbersDiffer(with) {
      forall shard ensures NumbersDiffer(Attempts(without, shard)) {
        assert NumbersDiffer(Attempts(with, shard));
      }
    }
    if AllNumbersDiffer(without) && NumbersDiffer(Attempts(with, own)) {
      forall shard ensures NumbersDiffer(Attempts(with, shard)) {
        assert NumbersDiffer(Attempts(without, shard));
      }
    }
  }

  /** An earlier attempt of a shard that has a later one changes nothing that
      counts, wherever it stands in the list. */
  lemma EarlierAttemptInert(a: seq<ShardEvidence>, x: ShardEvidence, b: seq<ShardEvidence>, later: ShardEvidence,
                            current: Option<int>)
    requires later in a + b && ShardOf(later) == ShardOf(x) && AttemptOf(x) < AttemptOf(later)
    requires RunAttempt(x.metadata).Some?
    requires forall e | e in a + b && ShardOf(e) == ShardOf(x) :: AttemptOf(e) != AttemptOf(x)
    ensures Kept(a + [x] + b) == Kept(a + b)
    ensures AttemptsAccepted(a + [x] + b, current) <==> AttemptsAccepted(a + b, current)
  {
    var with, without := a + [x] + b, a + b;
    assert forall e :: e in with <==> e in without || e == x;
    assert x !in Kept(with);
    forall e ensures e in Kept(with) <==> e in Kept(without) {
      if e in Kept(without) && ShardOf(e) == ShardOf(x) {
        assert AttemptOf(later) <= AttemptOf(e);
      }
    }
    AllNumbersInsert(a, x, b);
    if AttemptsAccepted(with, current) {
      forall e | e in without ensures RunAttempt(e.metadata).Some? { assert e in with; }
    }
  }

  /** A later attempt replaces its own shard's evidence and touches no other. */
  lemma LaterAttemptReplaces(a: seq<ShardEvidence>, x: ShardEvidence, b: seq<ShardEvidence>, current: Option<int>)
    requires forall e | e in a + b && ShardOf(e) == ShardOf(x) :: AttemptOf(e) < AttemptOf(x)
    requires RunAttempt(x.metadata).Some? && (current.Some? ==> AttemptOf(x) <= current.value)
    requires AttemptsAccepted(a + b, current)
    ensures AttemptsAccepted(a + [x] + b, current)
    ensures Kept(a + [x] + b) == {x} + set e | e in Kept(a + b) && ShardOf(e) != ShardOf(x)
  {
    var with, without := a + [x] + b, a + b;
    assert forall e :: e in with <==> e in without || e == x;
    forall e ensures e in Kept(with) <==> e == x || (e in Kept(without) && ShardOf(e) != ShardOf(x)) {
    }
    AllNumbersInsert(a, x, b);
  }
}
