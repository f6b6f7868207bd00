/** The wire patch, place by place: which members an object gains where it stands. */
module NullableLaws {
  import opened Outcomes
  import opened NullableMembers

  /** A step down a JSON tree. */
  datatype Step = Key(name: string) | Index(i: nat)

  function At(v: Json, path: seq<Step>): Option<Json>
    decreases |path|
  {
    if path == [] then Some(v)
    else
      match path[0]
      case Key(name) => if v.Object? && name in v.members then At(v.members[name], path[1..]) else None
      case Index(i) => if v.Array? && i < |v.items| then At(v.items[i], path[1..]) else None
  }

  /** The member that holds the place: the last key on the way, past any indices. */
  function Holder(path: seq<Step>, member: Option<string>): Option<string>
    decreases |path|
  {
    if path == [] then member
    else Holder(path[1..], match path[0] case Key(name) => Some(name) case Index(_) => member)
  }

  /** The nullable members of a task timeline, by the member that holds the object. */
  predicate TimelineWants(holder: Option<string>, k: string) {
    || (holder == Some("events") &&
        k in ["campaign_id", "run_id", "approved_spec_digest", "specification_run_id", "pr_number", "merge_commit_sha",
              "milestone", "review", "verification"])
    || (holder == Some("sections") && k == "campaign_id")
    || (holder == Some("runs") &&
        k in ["role", "attempt_number", "attempt_reason", "parent_run_id", "superseded_by", "hold"])
    || ((holder == Some("milestones") || holder == Some("milestone")) &&
        k in ["invocation_id", "terminal", "outcome", "reason"])
    || (holder == Some("review") && k in ["outcome", "failure"])
    || (holder == Some("hold") && k == "invocation_id")
  }

  /** The nullable members of a run that stands directly under "run". */
  predicate RunWants(k: string) {
    k in ["created_at", "last_activity_at", "campaign_id", "attempt_number", "attempt_reason", "parent_run_id",
          "revises_run_id", "hold_usage_pool"]
  }

  /** The nullable members of an attention item. */
  predicate ItemWants(k: string) {
    k in ["readiness", "readiness_detail", "yield_history"]
  }

  predicate IsRunPlace(path: seq<Step>) {
    path != [] && path[|path| - 1] == Key("run")
  }

  /** The member is wanted of this object at this place. */
  predicate Wanted(o: map<string, Json>, path: seq<Step>, timeline: bool, member: Option<string>, k: string) {
    || (timeline && TimelineWants(Holder(path, member), k))
    || (IsRunPlace(path) && RunWants(k))
    || ("item_version" in o && "requested_decision" in o && ItemWants(k))
  }

  lemma TimelineIff(holder: Option<string>, k: string)
    ensures k in TimelineKeys(holder) <==> TimelineWants(holder, k)
  {
  }

  lemma RunIff(k: string)
    ensures k in RUN_KEYS <==> RunWants(k)
  {
  }

  lemma ItemIff(k: string)
    ensures k in ITEM_KEYS <==> ItemWants(k)
  {
  }

  /** The members of a patched object. */
  function Filled(members: map<string, Json>, timeline: bool, member: Option<string>): map<string, Json> {
    Complete(InsertBelow(Object(members), timeline), timeline, member)
  }

  /** What a patched object holds under a key it had. */
  lemma FilledAt(members: map<string, Json>, timeline: bool, member: Option<string>, name: string)
    requires name in members
    ensures name in Filled(members, timeline, member)
    ensures var inner := Insert(members[name], timeline, Some(name));
            Filled(members, timeline, member)[name] ==
            if name == "run" && inner.Object? then Object(AddNulls(inner.members, RUN_KEYS)) else inner
  {
    var below := InsertBelow(Object(members), timeline);
    assert below[name] == Insert(members[name], timeline, Some(name));
  }

  lemma FilledKeys(members: map<string, Json>, timeline: bool, member: Option<string>, k: string)
    ensures k in Filled(members, timeline, member) <==> k in members || Wanted(members, [], timeline, member, k)
  {
    TimelineIff(member, k);
    ItemIff(k);
    TimelineKeysApart(member);
  }

  lemma AddedAt(members: map<string, Json>, keys: set<string>, path: seq<Step>)
    requires path != [] && At(Object(members), path).Some?
    ensures At(Object(AddNulls(members, keys)), path) == At(Object(members), path)
  {
  }

  /** A place that the tree has, the patched tree has too. */
  lemma {:induction false} PlaceKept(value: Json, timeline: bool, member: Option<string>, path: seq<Step>)
    requires At(value, path).Some?
    ensures At(Insert(value, timeline, member), path).Some?
    decreases |path|
  {
    if path != [] {
      match path[0] {
        case Index(i) => PlaceKept(value.items[i], timeline, member, path[1..]);
        case Key(name) =>
          PlaceKept(value.members[name], timeline, Some(name), path[1..]);
          FilledAt(value.members, timeline, member, name);
          var inner := Insert(value.members[name], timeline, Some(name));
          if name == "run" && inner.Object? && path[1..] != [] { AddedAt(inner.members, RUN_KEYS, path[1..]); }
      }
    }
  }

  /** At every place, a patched object has the members it had and those wanted
      there, and no others. */
  lemma {:induction false} ExactMembers(value: Json, timeline: bool, member: Option<string>, path: seq<Step>,
                                        o: map<string, Json>, k: string)
    requires At(value, path) == Some(Object(o))
    ensures At(Insert(value, timeline, member), path).Some? && At(Insert(value, timeline, member), path).value.Object?
    ensures k in At(Insert(value, timeline, member), path).value.members <==>
            k in o || Wanted(o, path, timeline, member, k)
    decreases |path|
  {
    if path == [] {
      FilledKeys(o, timeline, member, k);
    } else {
      match path[0] {
        case Index(i) => ExactMembers(value.items[i], timeline, member, path[1..], o, k);
        case Key(name) =>
          ExactMembers(value.members[name], timeline, Some(name), path[1..], o, k);
          ExactKey(value, timeline, member, path, name, o, k);
      }
    }
  }

  lemma ExactKey(value: Json, timeline: bool, member: Option<string>, path: seq<Step>, name: string,
                 o: map<string, Json>, k: string)
    requires path != [] && path[0] == Key(name) && value.Object? && name in value.members
    requires At(value.members[name], path[1..]) == Some(Object(o))
    requires var w := At(Insert(value.members[name], timeline, Some(name)), path[1..]);
             && w.Some? && w.value.Object?
             && (k in w.value.members <==> k in o || Wanted(o, path[1..], timeline, Some(name), k))
    ensures At(Insert(value, timeline, member), path).Some? && At(Insert(value, timeline, member), path).value.Object?
    ensures k in At(Insert(value, timeline, member), path).value.members <==>
            k in o || Wanted(o, path, timeline, member, k)
  {
    if path[1..] == [] {
      UnderKey(value, timeline, member, path, name, o, k);
    } else {
      BelowKey(value, timeline, member, path, name, Insert(value.members[name], timeline, Some(name)));
      WantedBelow(o, timeline, member, path, name, k);
    }
  }

  lemma UnderKey(value: Json, timeline: bool, member: Option<string>, path: seq<Step>, name: string,
                 o: map<string, Json>, k: string)
    requires path == [Key(name)] && value.Object? && name in value.members && value.members[name] == Object(o)
    ensures At(Insert(value, timeline, member), path).Some? && At(Insert(value, timeline, member), path).value.Object?
    ensures k in At(Insert(value, timeline, member), path).value.members <==>
            k in o || Wanted(o, path, timeline, member, k)
  {
    FilledAt(value.members, timeline, member, name);
    FilledKeys(o, timeline, Some(name), k);
    RunIff(k);
    WantedUnderKey(o, timeline, member, path, name, k);
    OneStep(Insert(value, timeline, member), path, name);
  }

  lemma OneStep(v: Json, path: seq<Step>, name: string)
    requires path == [Key(name)] && v.Object? && name in v.members
    ensures At(v, path) == Some(v.members[name])
  {
    assert path[1..] == [];
  }

  lemma WantedUnderKey(o: map<string, Json>, timeline: bool, member: Option<string>, path: seq<Step>, name: string,
                       k: string)
    requires path == [Key(name)]
    ensures Wanted(o, path, timeline, member, k) <==>
            Wanted(o, [], timeline, Some(name), k) || (name == "run" && RunWants(k))
  {
    assert path[1..] == [] && path[|path| - 1] == Key(name);
    assert Holder(path, member) == Some(name) == Holder([], Some(name));
  }

  lemma WantedBelow(o: map<string, Json>, timeline: bool, member: Option<string>, path: seq<Step>, name: string,
                    k: string)
    requires |path| > 1 && path[0] == Key(name)
    ensures Wanted(o, path, timeline, member, k) <==> Wanted(o, path[1..], timeline, Some(name), k)
  {
    assert path[1..][|path| - 2] == path[|path| - 1];
  }

  lemma BelowKey(value: Json, timeline: bool, member: Option<string>, path: seq<Step>, name: string, inner: Json)
    requires |path| > 1 && path[0] == Key(name) && value.Object? && name in value.members
    requires inner == Insert(value.members[name], timeline, Some(name)) && At(inner, path[1..]).Some?
    ensures At(Insert(value, timeline, member), path) == At(inner, path[1..])
  {
    FilledAt(value.members, timeline, member, name);
    if name == "run" && inner.Object? { AddedAt(inner.members, RUN_KEYS, path[1..]); }
  }

  /** A place that holds no object keeps what it holds; an array, its length. */
  lemma {:induction false} OthersKept(value: Json, timeline: bool, member: Option<string>, path: seq<Step>, v: Json)
    requires At(value, path) == Some(v) && !v.Object?
    ensures At(Insert(value, timeline, member), path).Some?
    ensures var w := At(Insert(value, timeline, member), path).value;
            if v.Array? then w.Array? && |w.items| == |v.items| else w == v
    decreases |path|
  {
    if path != [] {
      match path[0] {
        case Index(i) => OthersKept(value.items[i], timeline, member, path[1..], v);
        case Key(name) =>
          OthersKept(value.members[name], timeline, Some(name), path[1..], v);
          OtherBelow(value, timeline, member, path, name, v);
      }
    }
  }

  lemma OtherBelow(value: Json, timeline: bool, member: Option<string>, path: seq<Step>, name: string, v: Json)
    requires path != [] && path[0] == Key(name) && value.Object? && name in value.members
    requires At(value.members[name], path[1..]) == Some(v) && !v.Object?
    requires var inner := Insert(value.members[name], timeline, Some(name));
             At(inner, path[1..]).Some? && (path[1..] == [] ==> !inner.Object?)
    ensures At(Insert(value, timeline, member), path) ==
            At(Insert(value.members[name], timeline, Some(name)), path[1..])
  {
    var inner := Insert(value.members[name], timeline, Some(name));
    FilledAt(value.members, timeline, member, name);
    if path[1..] != [] && name == "run" && inner.Object? { AddedAt(inner.members, RUN_KEYS, path[1..]); }
  }

  /** A member that an object gains is null. */
  lemma {:induction false} GainedNull(a: Json, b: Json, path: seq<Step>, k: string)
    requires Adds(a, b) && At(a, path).Some? && At(a, path).value.Object? && At(b, path).Some? &&
             At(b, path).value.Object?
    requires k in At(b, path).value.members && k !in At(a, path).value.members
    ensures At(b, path).value.members[k] == Null
    decreases |path|
  {
    if path != [] {
      match path[0] {
        case Index(i) => GainedNull(a.items[i], b.items[i], path[1..], k);
        case Key(name) => GainedNull(a.members[name], b.members[name], path[1..], k);
      }
    }
  }

  /** So is one that the patch adds. */
  lemma AddedNull(value: Json, timeline: bool, member: Option<string>, path: seq<Step>, o: map<string, Json>, k: string)
    requires At(value, path) == Some(Object(o)) && k !in o
    ensures var w := At(Insert(value, timeline, member), path);
            w.Some? && w.value.Object? && (k in w.value.members ==> w.value.members[k] == Null)
  {
    ExactMembers(value, timeline, member, path, o, k);
    InsertAdds(value, timeline, member);
    if k in At(Insert(value, timeline, member), path).value.members {
      GainedNull(value, Insert(value, timeline, member), path, k);
    }
  }
}
