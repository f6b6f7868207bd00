/** The canonical JSON the daemon stores or digests, and its readers: each
    text parses back to the canonical input it was written from. */
module Messages {
  import opened Outcomes
  import opened Strings
  import opened Utf8
  import opened Sorting
  import opened GoJson
  import opened Json
  import opened Decimal

  // ----- text bounds -----

  /** The members of Foundation's whitespacesAndNewlines set. */
  predicate IsSpace(c: char) {
    || c == ' ' || '\t' <= c <= '\r' || c == '\U{0085}' || c == '\U{00A0}' || c == '\U{1680}'
    || '\U{2000}' <= c <= '\U{200A}' || c == '\U{2028}' || c == '\U{2029}' || c == '\U{202F}'
    || c == '\U{205F}' || c == '\U{3000}'
  }

  function TrimStart(s: string): string {
    if s != [] && IsSpace(s[0]) then TrimStart(s[1..]) else s
  }

  function TrimEnd(s: string): string {
    if s != [] && IsSpace(s[|s| - 1]) then TrimEnd(s[..|s| - 1]) else s
  }

  function Trim(s: string): string {
    TrimEnd(TrimStart(s))
  }

  const MAX_REASON_BYTES := 2048

  /** The reason as the daemon stores it, or None. */
  function SendableReason(draft: string): Option<string> {
    var trimmed := Trim(draft);
    if trimmed == [] || Utf8Length(trimmed) > MAX_REASON_BYTES then None else Some(trimmed)
  }

  // ----- adjudication routes -----

  datatype Route =
    | Remediate | ParkRevision | ParkSeparateWork | AttentionHumanDecision | ParkUnknown
    | Defer | Decline | Dispute | AttentionUnclear

  function RouteName(route: Route): string {
    match route
    case Remediate => "remediate"
    case ParkRevision => "park_revision"
    case ParkSeparateWork => "park_separate_work"
    case AttentionHumanDecision => "attention_human_decision"
    case ParkUnknown => "park_unknown"
    case Defer => "defer"
    case Decline => "decline"
    case Dispute => "dispute"
    case AttentionUnclear => "attention_unclear"
  }

  function RouteNamed(name: string): Option<Route> {
    if name == "remediate" then Some(Remediate)
    else if name == "park_revision" then Some(ParkRevision)
    else if name == "park_separate_work" then Some(ParkSeparateWork)
    else if name == "attention_human_decision" then Some(AttentionHumanDecision)
    else if name == "park_unknown" then Some(ParkUnknown)
    else if name == "defer" then Some(Defer)
    else if name == "decline" then Some(Decline)
    else if name == "dispute" then Some(Dispute)
    else if name == "attention_unclear" then Some(AttentionUnclear)
    else None
  }

  lemma RouteNameReads(route: Route)
    ensures RouteNamed(RouteName(route)) == Some(route)
  {
  }

  // ----- finding routes -----

  datatype FindingRoute = FindingRoute(findingId: string, route: Route, reason: Option<string>)

  /** A finding route as stored: its reason trimmed, an absent one empty. */
  datatype StoredRoute = StoredRoute(findingId: string, route: Route, reason: string)

  function Stored(choice: FindingRoute): StoredRoute {
    StoredRoute(choice.findingId, choice.route, if choice.reason.Some? then Trim(choice.reason.value) else [])
  }

  function StoredAll(choices: seq<FindingRoute>): seq<StoredRoute> {
    seq(|choices|, i requires 0 <= i < |choices| => Stored(choices[i]))
  }

  predicate ByFinding(a: FindingRoute, b: FindingRoute) {
    LexLe(a.findingId, b.findingId)
  }

  /** The stored routes in finding order. */
  function CanonicalRoutes(choices: seq<FindingRoute>): seq<StoredRoute> {
    StoredAll(Sort(ByFinding, choices))
  }

  const FINDING_KEY := "{\"finding_id\":"
  const ROUTE_KEY := ",\"route\":"
  const REASON_KEY := ",\"reason\":"
  const COMMENT_KEY := "{\"comment_id\":"
  const RESPONSE_KEY := ",\"response\":"

  function ReasonText(reason: string): string {
    if reason == [] then [] else REASON_KEY + GoJsonString(reason)
  }

  function RouteText(choice: StoredRoute): string {
    FINDING_KEY + GoJsonString(choice.findingId) + ROUTE_KEY + GoJsonString(RouteName(choice.route))
    + ReasonText(choice.reason) + "}"
  }

  function FindingRoutesMessage(choices: seq<FindingRoute>): string {
    PrintList(CanonicalRoutes(choices), RouteText)
  }

  /** A stored route as JSON; an empty reason is left out. */
  function RouteValue(choice: StoredRoute): Value {
    Record([Member("finding_id", Text(choice.findingId)), Member("route", Text(RouteName(choice.route)))] +
           if choice.reason == "" then [] else [Member("reason", Text(choice.reason))])
  }

  lemma RouteNames()
    ensures IsName("finding_id") && IsName("route") && IsName("reason")
    ensures "{\"" + "finding_id" + "\":" == FINDING_KEY
    ensures ",\"" + "route" + "\":" == ROUTE_KEY
    ensures ",\"" + "reason" + "\":" == REASON_KEY
  {
  }

  lemma RouteWritten(choice: StoredRoute)
    ensures RouteText(choice) == Write(RouteValue(choice), GoJsonString)
  {
    var id, name := "finding_id", "route";
    RouteNames();
    GoQuotes();
    NamedRoute(choice, id, name, "reason");
  }

  lemma NamedRoute(choice: StoredRoute, id: string, name: string, reason: string)
    requires IsName(id) && IsName(name) && IsName(reason) && Plain(GoJsonString)
    requires "{\"" + id + "\":" == FINDING_KEY && ",\"" + name + "\":" == ROUTE_KEY &&
             ",\"" + reason + "\":" == REASON_KEY
    ensures RouteText(choice) ==
            Write(Record([Member(id, Text(choice.findingId)), Member(name, Text(RouteName(choice.route)))] +
                         if choice.reason == "" then [] else [Member(reason, Text(choice.reason))]), GoJsonString)
  {
    var two := [Member(id, Text(choice.findingId)), Member(name, Text(RouteName(choice.route)))];
    if choice.reason == "" {
      assert two + [] == two;
      UnreasonedRoute(choice, id, name);
    } else {
      var third := Member(reason, Text(choice.reason));
      assert two + [third] == [two[0], two[1], third];
      ReasonedRoute(choice, id, name, reason);
    }
  }

  lemma UnreasonedRoute(choice: StoredRoute, id: string, name: string)
    requires IsName(id) && IsName(name) && Plain(GoJsonString) && choice.reason == ""
    requires "{\"" + id + "\":" == FINDING_KEY && ",\"" + name + "\":" == ROUTE_KEY
    ensures RouteText(choice) ==
            Write(Record([Member(id, Text(choice.findingId)), Member(name, Text(RouteName(choice.route)))]),
                  GoJsonString)
  {
    TwoValues(id, Text(choice.findingId), name, Text(RouteName(choice.route)), GoJsonString);
    KeyMoved(FINDING_KEY + GoJsonString(choice.findingId), name, ROUTE_KEY);
  }

  lemma ReasonedRoute(choice: StoredRoute, id: string, name: string, reason: string)
    requires IsName(id) && IsName(name) && IsName(reason) && Plain(GoJsonString) && choice.reason != ""
    requires "{\"" + id + "\":" == FINDING_KEY && ",\"" + name + "\":" == ROUTE_KEY &&
             ",\"" + reason + "\":" == REASON_KEY
    ensures RouteText(choice) ==
            Write(Record([Member(id, Text(choice.findingId)), Member(name, Text(RouteName(choice.route))),
                          Member(reason, Text(choice.reason))]), GoJsonString)
  {
    var front := FINDING_KEY + GoJsonString(choice.findingId);
    ThreeValues(id, Text(choice.findingId), name, Text(RouteName(choice.route)),
                reason, Text(choice.reason), GoJsonString);
    KeyMoved(front, name, ROUTE_KEY);
    KeyMoved(front + ROUTE_KEY + GoJsonString(RouteName(choice.route)), reason, REASON_KEY);
    ReasonRegrouped(choice);
  }

  lemma KeyMoved(front: string, name: string, key: string)
    requires ",\"" + name + "\":" == key
    ensures front + ",\"" + name + "\":" == front + key
  {
  }

  lemma ReasonRegrouped(choice: StoredRoute)
    requires choice.reason != ""
    ensures RouteText(choice) == FINDING_KEY + GoJsonString(choice.findingId) + ROUTE_KEY +
                                 GoJsonString(RouteName(choice.route)) + REASON_KEY + GoJsonString(choice.reason) + "}"
  {
    var front := FINDING_KEY + GoJsonString(choice.findingId) + ROUTE_KEY + GoJsonString(RouteName(choice.route));
    Regroup(front, REASON_KEY, GoJsonString(choice.reason));
  }

  lemma ValuesRead(values: seq<Value>, rest: string)
    ensures Read(Write(List(values), GoJsonString) + rest) == Some((List(values), rest))
  {
    GoQuotes();
    WrittenReads(List(values), GoJsonString, rest);
  }

  /** The stored message is JSON: the list of the canonical routes. */
  lemma FindingRoutesRead(choices: seq<FindingRoute>, rest: string)
    ensures Read(FindingRoutesMessage(choices) + rest) ==
            Some((List(Values(CanonicalRoutes(choices), RouteValue)), rest))
  {
    var routes := CanonicalRoutes(choices);
    forall x | x in routes ensures RouteText(x) == Write(RouteValue(x), GoJsonString) { RouteWritten(x); }
    ListWritten(routes, RouteText, RouteValue, GoJsonString);
    ValuesRead(Values(routes, RouteValue), rest);
  }

  lemma RouteValueInjective(a: StoredRoute, b: StoredRoute)
    requires RouteValue(a) == RouteValue(b)
    ensures a == b
  {
    var x, y := RouteValue(a).members, RouteValue(b).members;
    assert x[0] == y[0] && x[1] == y[1] && |x| == |y|;
    RouteNameReads(a.route);
    RouteNameReads(b.route);
    if a.reason != "" { assert x[2] == y[2]; }
  }

  /** The message tells the canonical routes. */
  lemma RoutesDetermined(a: seq<FindingRoute>, b: seq<FindingRoute>)
    ensures FindingRoutesMessage(a) == FindingRoutesMessage(b) <==> CanonicalRoutes(a) == CanonicalRoutes(b)
  {
    var x, y := CanonicalRoutes(a), CanonicalRoutes(b);
    if FindingRoutesMessage(a) == FindingRoutesMessage(b) {
      FindingRoutesRead(a, []);
      FindingRoutesRead(b, []);
      var v, w := Values(x, RouteValue), Values(y, RouteValue);
      assert v == w;
      forall i | 0 <= i < |x| ensures x[i] == y[i] {
        assert v[i] == w[i];
        RouteValueInjective(x[i], y[i]);
      }
    }
  }

  /** Distinct findings make the canonical routes a function of the set of
      choices: any order of the same choices stores the same message. */
  lemma CanonicalRoutesUnordered(a: seq<FindingRoute>, b: seq<FindingRoute>)
    requires multiset(a) == multiset(b)
    requires forall i, j | 0 <= i < j < |a| :: a[i].findingId != a[j].findingId
    ensures CanonicalRoutes(a) == CanonicalRoutes(b)
  {
    var le := ByFinding;
    assert TotalPreorder(le) by { LexIsTotalOrder(); }
    SortSorts(le, a);
    SortSorts(le, b);
    SameElements(Sort(le, a), a);
    SortedByFinding(Sort(le, a), Sort(le, b), a);
  }

  lemma {:induction false} SortedByFinding(s: seq<FindingRoute>, t: seq<FindingRoute>, all: seq<FindingRoute>)
    requires SortedBy(ByFinding, s) && SortedBy(ByFinding, t) && multiset(s) == multiset(t)
    requires forall x | x in s :: x in all
    requires forall i, j | 0 <= i < j < |all| :: all[i].findingId != all[j].findingId
    ensures s == t
  {
    SameElements(s, t);
    assert |s| == |multiset(s)| == |multiset(t)| == |t|;
    if s != [] {
      assert s[0] in t && t[0] in s;
      LexAntisymmetricAt(s, t);
      assert s[0] in all && t[0] in all;
      assert s[0] == t[0];
      RemoveMiddle(s, 0);
      RemoveMiddle(t, 0);
      assert s[..0] + s[1..] == s[1..] && t[..0] + t[1..] == t[1..];
      SortedByFinding(s[1..], t[1..], all);
    }
  }

  lemma LexAntisymmetricAt(s: seq<FindingRoute>, t: seq<FindingRoute>)
    requires s != [] && t != [] && SortedBy(ByFinding, s) && SortedBy(ByFinding, t)
    requires s[0] in t && t[0] in s
    ensures s[0].findingId == t[0].findingId
  {
    var i :| 0 <= i < |t| && t[i] == s[0];
    var j :| 0 <= j < |s| && s[j] == t[0];
    if i > 0 && j > 0 {
      assert ByFinding(t[0], t[i]) && ByFinding(s[0], s[j]);
      LexAntisymmetric(s[0].findingId, t[0].findingId);
    }
  }

  // ----- digest preimages -----

  datatype Addressal = Addressal(commentId: string, response: string)

  function AddressalText(a: Addressal): string {
    COMMENT_KEY + GoJsonString(a.commentId) + RESPONSE_KEY + GoJsonString(a.response) + "}"
  }

  /** The text whose SHA-256 addresses a list of addressals. */
  function AddressalsPreimage(addressals: seq<Addressal>): string {
    PrintList(addressals, AddressalText)
  }

  function AddressalValue(a: Addressal): Value {
    Record([Member("comment_id", Text(a.commentId)), Member("response", Text(a.response))])
  }

  lemma AddressalNames()
    ensures IsName("comment_id") && IsName("response")
    ensures "{\"" + "comment_id" + "\":" == COMMENT_KEY && ",\"" + "response" + "\":" == RESPONSE_KEY
  {
  }

  lemma AddressalWritten(a: Addressal)
    ensures AddressalText(a) == Write(AddressalValue(a), GoJsonString)
  {
    AddressalNames();
    GoQuotes();
    NamedAddressal(a, "comment_id", "response");
  }

  lemma NamedAddressal(a: Addressal, id: string, name: string)
    requires IsName(id) && IsName(name) && Plain(GoJsonString)
    requires "{\"" + id + "\":" == COMMENT_KEY && ",\"" + name + "\":" == RESPONSE_KEY
    ensures AddressalText(a) ==
            Write(Record([Member(id, Text(a.commentId)), Member(name, Text(a.response))]), GoJsonString)
  {
    TwoValues(id, Text(a.commentId), name, Text(a.response), GoJsonString);
    KeyMoved(COMMENT_KEY + GoJsonString(a.commentId), name, RESPONSE_KEY);
  }

  /** The digested text is JSON: the list of the addressals. */
  lemma AddressalsRead(addressals: seq<Addressal>, rest: string)
    ensures Read(AddressalsPreimage(addressals) + rest) == Some((List(Values(addressals, AddressalValue)), rest))
  {
    forall x | x in addressals ensures AddressalText(x) == Write(AddressalValue(x), GoJsonString) {
      AddressalWritten(x);
    }
    ListWritten(addressals, AddressalText, AddressalValue, GoJsonString);
    ValuesRead(Values(addressals, AddressalValue), rest);
  }

  /** The digested text tells the addressals. */
  lemma AddressalsDetermined(a: seq<Addressal>, b: seq<Addressal>)
    ensures AddressalsPreimage(a) == AddressalsPreimage(b) <==> a == b
  {
    if AddressalsPreimage(a) == AddressalsPreimage(b) {
      AddressalsRead(a, []);
      AddressalsRead(b, []);
      var v, w := Values(a, AddressalValue), Values(b, AddressalValue);
      assert v == w;
      forall i | 0 <= i < |a| ensures a[i] == b[i] {
        assert v[i] == w[i] && v[i].members[0] == w[i].members[0] && v[i].members[1] == w[i].members[1];
      }
    }
  }

  const MANIFEST_NAME_KEY := "{\"encoding_version\":1,\"name\":"
  const MANIFEST_EGRESS_KEY := ",\"egress_profile\":"

  /** The text whose SHA-256 addresses a capability manifest. */
  function ManifestPreimage(name: string, egressProfile: string): string {
    MANIFEST_NAME_KEY + GoJsonString(name) + MANIFEST_EGRESS_KEY + GoJsonString(egressProfile) + "}"
  }

  function ManifestValue(name: string, egressProfile: string): Value {
    Record([Member("encoding_version", Number(1)), Member("name", Text(name)),
            Member("egress_profile", Text(egressProfile))])
  }

  /** The digested text is JSON: the encoding version, the name and the profile. */
  lemma ManifestReads(name: string, egressProfile: string, rest: string)
    ensures Read(ManifestPreimage(name, egressProfile) + rest) == Some((ManifestValue(name, egressProfile), rest))
  {
    ManifestNames();
    ManifestNamed(name, egressProfile, "encoding_version", "name", "egress_profile", 1, rest);
  }

  lemma ManifestNames()
    ensures IsName("encoding_version") && IsName("name") && IsName("egress_profile")
    ensures "{\"" + "encoding_version" + "\":" + "1" + ",\"" + "name" + "\":" == MANIFEST_NAME_KEY
    ensures ",\"" + "egress_profile" + "\":" == MANIFEST_EGRESS_KEY
  {
  }

  lemma PrintOne(n: nat)
    requires n == 1
    ensures PrintNat(n) == "1"
  {
  }

  lemma ManifestNamed(name: string, egressProfile: string, k: string, l: string, m: string, version: nat, rest: string)
    requires IsName(k) && IsName(l) && IsName(m) && version == 1
    requires "{\"" + k + "\":" + "1" + ",\"" + l + "\":" == MANIFEST_NAME_KEY &&
             ",\"" + m + "\":" == MANIFEST_EGRESS_KEY
    ensures Read(ManifestPreimage(name, egressProfile) + rest) ==
            Some((Record([Member(k, Number(version)), Member(l, Text(name)), Member(m, Text(egressProfile))]), rest))
  {
    GoQuotes();
    PrintOne(version);
    NamedManifest(name, egressProfile, k, l, m, version, rest);
  }

  lemma NamedManifest(name: string, egressProfile: string, k: string, l: string, m: string, version: nat, rest: string)
    requires IsName(k) && IsName(l) && IsName(m) && Quotes(GoJsonString) && Plain(GoJsonString) &&
             PrintNat(version) == "1"
    requires "{\"" + k + "\":" + "1" + ",\"" + l + "\":" == MANIFEST_NAME_KEY &&
             ",\"" + m + "\":" == MANIFEST_EGRESS_KEY
    ensures Read(ManifestPreimage(name, egressProfile) + rest) ==
            Some((Record([Member(k, Number(version)), Member(l, Text(name)), Member(m, Text(egressProfile))]), rest))
  {
    var value := Record([Member(k, Number(version)), Member(l, Text(name)), Member(m, Text(egressProfile))]);
    ThreeValues(k, Number(version), l, Text(name), m, Text(egressProfile), GoJsonString);
    KeyMoved(MANIFEST_NAME_KEY + GoJsonString(name), m, MANIFEST_EGRESS_KEY);
    WrittenReads(value, GoJsonString, rest);
  }
}
