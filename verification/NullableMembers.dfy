/** The wire patch for required nullable members: an encoder that drops absent
    optionals is followed by a pass that adds each required member back as null
    and does nothing else. */
module NullableMembers {
  import opened Outcomes

  datatype Json =
    | Null
    | Scalar(text: string)
    | Array(items: seq<Json>)
    | Object(members: map<string, Json>)

  // ----- which members are required -----

  /** The nullable members a task timeline requires of an object, by the member
      that holds it. */
  function TimelineKeys(member: Option<string>): set<string> {
    match member
    case None => {}
    case Some(name) =>
      if name == "events" then
        {"campaign_id", "run_id", "approved_spec_digest", "specification_run_id", "pr_number",
         "merge_commit_sha", "milestone", "review", "verification"}
      else if name == "sections" then {"campaign_id"}
      else if name == "runs" then
        {"role", "attempt_number", "attempt_reason", "parent_run_id", "superseded_by", "hold"}
      else if name == "milestones" || name == "milestone" then {"invocation_id", "terminal", "outcome", "reason"}
      else if name == "review" then {"outcome", "failure"}
      else if name == "hold" then {"invocation_id"}
      else {}
  }

  const RUN_KEYS := {"created_at", "last_activity_at", "campaign_id", "attempt_number",
                     "attempt_reason", "parent_run_id", "revises_run_id", "hold_usage_pool"}

  const ITEM_KEYS := {"readiness", "readiness_detail", "yield_history"}

  /** An attention item, known by two of its members. */
  predicate IsItem(members: map<string, Json>) {
    "item_version" in members && "requested_decision" in members
  }

  /** The members required of an object at this place. */
  function Required(members: map<string, Json>, timeline: bool, member: Option<string>): set<string> {
    (if timeline then TimelineKeys(member) else {}) + (if IsItem(members) then ITEM_KEYS else {})
  }

  // ----- the patch -----

  /** Adds each missing key as null. */
  function AddNulls(members: map<string, Json>, keys: set<string>): map<string, Json> {
    map k | k in members.Keys + keys :: if k in members then members[k] else Null
  }

  /** An object under "run" is given the run members. */
  function PatchRun(members: map<string, Json>): map<string, Json> {
    if "run" in members && members["run"].Object?
    then members["run" := Object(AddNulls(members["run"].members, RUN_KEYS))] else members
  }

  /** Completes an object whose members are patched already. */
  function Complete(nested: map<string, Json>, timeline: bool, member: Option<string>): map<string, Json> {
    var patched := PatchRun(AddNulls(nested, if timeline then TimelineKeys(member) else {}));
    AddNulls(patched, if IsItem(patched) then ITEM_KEYS else {})
  }

  function Insert(value: Json, timeline: bool, member: Option<string>): Json
    decreases value, 1
  {
    match value
    case Array(items) => Array(seq(|items|, i requires 0 <= i < |items| => Insert(items[i], timeline, member)))
    case Object(members) =>
      Object(Complete(InsertBelow(value, timeline), timeline, member))
    case _ => value
  }

  function InsertBelow(value: Json, timeline: bool): map<string, Json>
    requires value.Object?
    decreases value, 0
  {
    map k | k in value.members :: Insert(value.members[k], timeline, Some(k))
  }

  // ----- what the patch means -----

  /** b is a with null members added, at any depth, and nothing else. */
  predicate Adds(a: Json, b: Json)
    decreases a
  {
    match a
    case Array(items) =>
      b.Array? && |items| == |b.items| && forall i | 0 <= i < |items| :: Adds(items[i], b.items[i])
    case Object(members) =>
      && b.Object? && members.Keys <= b.members.Keys
      && (forall k | k in members :: Adds(members[k], b.members[k]))
      && (forall k | k in b.members && k !in members :: b.members[k] == Null)
    case _ => a == b
  }

  /** Every object holds the members required where it stands. */
  predicate Governed(value: Json, timeline: bool, member: Option<string>)
    decreases value
  {
    match value
    case Array(items) => forall i | 0 <= i < |items| :: Governed(items[i], timeline, member)
    case Object(members) =>
      && (forall k | k in members :: Governed(members[k], timeline, Some(k)))
      && Required(members, timeline, member) <= members.Keys
      && ("run" in members && members["run"].Object? ==> RUN_KEYS <= members["run"].members.Keys)
    case _ => true
  }

  /** No key the patch adds changes which members are required. */
  ghost predicate Apart(keys: set<string>) {
    "run" !in keys && "item_version" !in keys && "requested_decision" !in keys
  }

  lemma TimelineKeysApart(member: Option<string>)
    ensures Apart(TimelineKeys(member))
  {
  }

  lemma FixedKeysApart()
    ensures Apart(RUN_KEYS) && Apart(ITEM_KEYS)
  {
  }

  lemma NullsKeepGoverned(members: map<string, Json>, keys: set<string>, timeline: bool, member: Option<string>)
    requires Governed(Object(members), timeline, member) && Apart(keys)
    ensures Governed(Object(AddNulls(members, keys)), timeline, member)
  {
    var more := AddNulls(members, keys);
    assert IsItem(more) <==> IsItem(members);
    assert members.Keys <= more.Keys;
    assert "run" in more <==> "run" in members;
  }

  /** The steps of the patch on an object whose members are patched already. */
  lemma ObjectGoverned(nested: map<string, Json>, timeline: bool, member: Option<string>)
    requires forall k | k in nested :: Governed(nested[k], timeline, Some(k))
    ensures Governed(Object(Complete(nested, timeline, member)), timeline, member)
  {
    var keys := if timeline then TimelineKeys(member) else {};
    var dated := AddNulls(nested, keys);
    var patched := PatchRun(dated);
    var whole := AddNulls(patched, if IsItem(patched) then ITEM_KEYS else {});
    TimelineKeysApart(member);
    FixedKeysApart();
    assert keys <= dated.Keys;
    assert patched.Keys == dated.Keys;
    RunGoverned(dated, timeline);
    forall k | k in whole ensures Governed(whole[k], timeline, Some(k)) {
      if k in patched && k in nested && k != "run" { assert whole[k] == nested[k]; }
    }
    assert IsItem(whole) <==> IsItem(patched);
    assert "run" in whole <==> "run" in patched;
  }

  lemma RunGoverned(dated: map<string, Json>, timeline: bool)
    requires "run" in dated ==> Governed(dated["run"], timeline, Some("run"))
    ensures "run" in PatchRun(dated) <==> "run" in dated
    ensures "run" in dated ==> Governed(PatchRun(dated)["run"], timeline, Some("run"))
    ensures "run" in dated && PatchRun(dated)["run"].Object? ==> RUN_KEYS <= PatchRun(dated)["run"].members.Keys
    ensures forall k | k in dated && k != "run" :: PatchRun(dated)[k] == dated[k]
  {
    FixedKeysApart();
    if "run" in dated && dated["run"].Object? {
      NullsKeepGoverned(dated["run"].members, RUN_KEYS, timeline, Some("run"));
    }
  }

  /** Every required member is present after the patch, at every depth. */
  lemma {:induction false} InsertGoverned(value: Json, timeline: bool, member: Option<string>)
    ensures Governed(Insert(value, timeline, member), timeline, member)
    decreases value
  {
    match value {
      case Array(items) =>
        forall i | 0 <= i < |items| ensures Governed(Insert(items[i], timeline, member), timeline, member) {
          InsertGoverned(items[i], timeline, member);
        }
      case Object(members) =>
        var nested := InsertBelow(value, timeline);
        forall k | k in nested ensures Governed(nested[k], timeline, Some(k)) {
          InsertGoverned(members[k], timeline, Some(k));
        }
        ObjectGoverned(nested, timeline, member);
      case _ =>
    }
  }

  lemma NullsAdd(a: Json, members: map<string, Json>, keys: set<string>)
    requires Adds(a, Object(members))
    ensures Adds(a, Object(AddNulls(members, keys)))
  {
  }

  lemma PatchRunAdds(a: map<string, Json>, members: map<string, Json>)
    requires Adds(Object(a), Object(members))
    ensures Adds(Object(a), Object(PatchRun(members)))
  {
    var patched := PatchRun(members);
    if "run" in members && members["run"].Object? && "run" in a {
      assert Adds(a["run"], members["run"]);
      NullsAdd(a["run"], members["run"].members, RUN_KEYS);
    }
    forall k | k in a ensures Adds(a[k], patched[k]) {
      assert Adds(a[k], members[k]);
    }
  }

  /** The patch only adds null members: no member is removed or changed. */
  lemma {:induction false} InsertAdds(value: Json, timeline: bool, member: Option<string>)
    ensures Adds(value, Insert(value, timeline, member))
    decreases value
  {
    match value {
      case Array(items) =>
        forall i | 0 <= i < |items| ensures Adds(items[i], Insert(items[i], timeline, member)) {
          InsertAdds(items[i], timeline, member);
        }
      case Object(members) =>
        var nested := InsertBelow(value, timeline);
        forall k | k in members ensures Adds(members[k], nested[k]) { InsertAdds(members[k], timeline, Some(k)); }
        assert Adds(value, Object(nested));
        var dated := AddNulls(nested, if timeline then TimelineKeys(member) else {});
        NullsAdd(value, nested, if timeline then TimelineKeys(member) else {});
        PatchRunAdds(members, dated);
        var patched := PatchRun(dated);
        NullsAdd(value, patched, if IsItem(patched) then ITEM_KEYS else {});
      case _ =>
    }
  }

  lemma NullsFixed(members: map<string, Json>, keys: set<string>)
    requires keys <= members.Keys
    ensures AddNulls(members, keys) == members
  {
  }

  /** A tree that lacks nothing is left as it is. */
  lemma {:induction false} GovernedFixed(value: Json, timeline: bool, member: Option<string>)
    requires Governed(value, timeline, member)
    ensures Insert(value, timeline, member) == value
    decreases value
  {
    match value {
      case Array(items) =>
        forall i | 0 <= i < |items| ensures Insert(items[i], timeline, member) == items[i] {
          GovernedFixed(items[i], timeline, member);
        }
      case Object(members) =>
        forall k | k in members ensures Insert(members[k], timeline, Some(k)) == members[k] {
          GovernedFixed(members[k], timeline, Some(k));
        }
        var nested := InsertBelow(value, timeline);
        assert nested == members;
        NullsFixed(members, if timeline then TimelineKeys(member) else {});
        if "run" in members && members["run"].Object? {
          NullsFixed(members["run"].members, RUN_KEYS);
          assert members["run" := members["run"]] == members;
        }
        NullsFixed(members, if IsItem(members) then ITEM_KEYS else {});
      case _ =>
    }
  }

  /** The patch changes exactly the trees that lack a required member, and a
      second patch changes nothing. */
  lemma InsertIdempotent(value: Json, timeline: bool, member: Option<string>)
    ensures Insert(Insert(value, timeline, member), timeline, member) == Insert(value, timeline, member)
    ensures Insert(value, timeline, member) == value <==> Governed(value, timeline, member)
  {
    InsertGoverned(value, timeline, member);
    GovernedFixed(Insert(value, timeline, member), timeline, member);
    if Governed(value, timeline, member) { GovernedFixed(value, timeline, member); }
  }

  // ----- the patch adds no more than it must -----

  lemma NullsLeast(members: map<string, Json>, keys: set<string>, other: Json)
    requires Adds(Object(members), other) && keys <= other.members.Keys
    ensures Adds(Object(AddNulls(members, keys)), other)
  {
  }

  lemma PatchRunLeast(members: map<string, Json>, other: Json)
    requires Adds(Object(members), other)
    requires "run" in other.members && other.members["run"].Object? ==> RUN_KEYS <= other.members["run"].members.Keys
    ensures Adds(Object(PatchRun(members)), other)
  {
    if "run" in members && members["run"].Object? {
      assert Adds(members["run"], other.members["run"]);
      NullsLeast(members["run"].members, RUN_KEYS, other.members["run"]);
    }
    forall k | k in members ensures Adds(PatchRun(members)[k], other.members[k]) {
      assert Adds(members[k], other.members[k]);
    }
  }

  /** Among the trees that extend the value by nulls and lack nothing, the
      patched one is the least: it adds no null that they do not have. */
  lemma {:induction false} InsertLeast(value: Json, other: Json, timeline: bool, member: Option<string>)
    requires Adds(value, other) && Governed(other, timeline, member)
    ensures Adds(Insert(value, timeline, member), other)
    decreases value
  {
    match value {
      case Array(items) =>
        forall i | 0 <= i < |items| ensures Adds(Insert(items[i], timeline, member), other.items[i]) {
          InsertLeast(items[i], other.items[i], timeline, member);
        }
      case Object(members) =>
        var nested := InsertBelow(value, timeline);
        forall k | k in nested ensures Adds(nested[k], other.members[k]) {
          InsertLeast(members[k], other.members[k], timeline, Some(k));
        }
        ObjectLeast(nested, other, timeline, member);
      case _ =>
    }
  }

  lemma ObjectLeast(nested: map<string, Json>, other: Json, timeline: bool, member: Option<string>)
    requires Adds(Object(nested), other) && Governed(other, timeline, member)
    ensures Adds(Object(Complete(nested, timeline, member)), other)
  {
    var keys := if timeline then TimelineKeys(member) else {};
    assert keys <= Required(other.members, timeline, member);
    NullsLeast(nested, keys, other);
    var dated := AddNulls(nested, keys);
    PatchRunLeast(dated, other);
    var patched := PatchRun(dated);
    assert IsItem(patched) ==> IsItem(other.members);
    NullsLeast(patched, if IsItem(patched) then ITEM_KEYS else {}, other);
  }

  // ----- the pass itself -----

  method FillNulls(members: map<string, Json>, keys: set<string>) returns (filled: map<string, Json>)
    ensures filled == AddNulls(members, keys)
  {
    filled := members;
    var left := keys;
    while left != {}
      invariant left <= keys && filled == AddNulls(members, keys - left)
    {
      var key :| key in left;
      if key !in filled {
        filled := filled[key := Null];
      }
      left := left - {key};
    }
    assert keys - left == keys;
  }

  method InsertMembers(value: Json, timeline: bool, member: Option<string>) returns (result: Json)
    ensures result == Insert(value, timeline, member)
    decreases value, 1
  {
    match value {
      case Array(items) =>
        var patched := InsertItems(value, timeline, member);
        return Array(patched);
      case Object(members) =>
        var nested := InsertNested(value, timeline);
        var filled := CompleteObject(nested, timeline, member);
        return Object(filled);
      case _ =>
        return value;
    }
  }

  method CompleteObject(nested: map<string, Json>, timeline: bool, member: Option<string>)
    returns (filled: map<string, Json>)
    ensures filled == Complete(nested, timeline, member)
  {
    filled := FillNulls(nested, if timeline then TimelineKeys(member) else {});
    if "run" in filled && filled["run"].Object? {
      var run := FillNulls(filled["run"].members, RUN_KEYS);
      filled := filled["run" := Object(run)];
    }
    filled := FillNulls(filled, if IsItem(filled) then ITEM_KEYS else {});
  }

  method InsertItems(value: Json, timeline: bool, member: Option<string>) returns (patched: seq<Json>)
    requires value.Array?
    ensures Array(patched) == Insert(value, timeline, member)
    decreases value, 0
  {
    patched := [];
    for i := 0 to |value.items|
      invariant |patched| == i && forall j | 0 <= j < i :: patched[j] == Insert(value.items[j], timeline, member)
    {
      var item := InsertMembers(value.items[i], timeline, member);
      patched := patched + [item];
    }
  }

  method InsertNested(value: Json, timeline: bool) returns (filled: map<string, Json>)
    requires value.Object?
    ensures filled == InsertBelow(value, timeline)
    decreases value, 0
  {
    filled := value.members;
    var left := value.members.Keys;
    while left != {}
      invariant left <= value.members.Keys == filled.Keys
      invariant forall k | k in value.members ::
        filled[k] == if k in left then value.members[k] else Insert(value.members[k], timeline, Some(k))
    {
      var key :| key in left;
      var nested := InsertMembers(value.members[key], timeline, Some(key));
      filled := filled[key := nested];
      left := left - {key};
    }
  }
}
