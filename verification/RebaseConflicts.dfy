/** The conflicts a landing forces on open pull requests, found by merges whose
    results are cached under an unordered pair of commits. */
module RebaseConflicts {
  import opened Outcomes
  import opened Sorting

  /** The result of one prospective merge. */
  datatype MergeOutcome = Conflicts(paths: seq<string>) | Failed(message: string)

  /** git merge-tree, as a function of its two commits. */
  type MergeOracle = (string, string) -> MergeOutcome

  ghost predicate Symmetric(git: MergeOracle) {
    forall a, b :: git(a, b) == git(b, a)
  }

  // ----- the cache -----

  /** The cache key: both commits in order, joined by a space. */
  function CacheKey(a: string, b: string): string {
    if LexLe(a, b) then a + " " + b else b + " " + a
  }

  /** The smaller commit comes first. */
  lemma KeyIs(a: string, b: string)
    requires LexLe(a, b)
    ensures CacheKey(a, b) == a + " " + b == CacheKey(b, a)
  {
    if LexLe(b, a) { LexAntisymmetric(a, b); }
  }

  predicate NoSpace(s: string) {
    ' ' !in s
  }

  /** Every entry a pair of space-free commits can reach is what git says. */
  ghost predicate Agrees(entries: map<string, MergeOutcome>, git: MergeOracle) {
    forall a, b | NoSpace(a) && NoSpace(b) && CacheKey(a, b) in entries :: entries[CacheKey(a, b)] == git(a, b)
  }

  lemma StartsWithSpace(a: string, b: string)
    requires NoSpace(a)
    ensures (a + " " + b)[0] == ' ' <==> a == []
  {
    if a != [] { assert a[0] in a; }
  }

  lemma {:induction false} SplitAtSpace(a: string, b: string, c: string, d: string)
    requires NoSpace(a) && NoSpace(c) && a + " " + b == c + " " + d
    ensures a == c && b == d
  {
    if a == [] || c == [] {
      StartsWithSpace(a, b);
      StartsWithSpace(c, d);
      assert (a + " " + b)[1..] == b && (c + " " + d)[1..] == d;
    } else {
      assert a[0] == (a + " " + b)[0] == (c + " " + d)[0] == c[0];
      assert (a + " " + b)[1..] == a[1..] + " " + b && (c + " " + d)[1..] == c[1..] + " " + d;
      SplitAtSpace(a[1..], b, c[1..], d);
      assert a == [a[0]] + a[1..] && c == [c[0]] + c[1..];
    }
  }

  /** A key names one unordered pair of space-free commits. */
  lemma KeyNamesPair(a: string, b: string, c: string, d: string)
    requires NoSpace(a) && NoSpace(b) && NoSpace(c) && NoSpace(d) && CacheKey(a, b) == CacheKey(c, d)
    ensures (a == c && b == d) || (a == d && b == c)
  {
    var x, y := if LexLe(a, b) then a else b, if LexLe(a, b) then b else a;
    var z, w := if LexLe(c, d) then c else d, if LexLe(c, d) then d else c;
    SplitAtSpace(x, y, z, w);
  }

  /** The order of the two commits does not matter to the key. */
  lemma KeyUnordered(a: string, b: string)
    ensures CacheKey(a, b) == CacheKey(b, a)
  {
    LexTotal(a, b);
    if LexLe(a, b) && LexLe(b, a) { LexAntisymmetric(a, b); }
  }

  /** Commits with spaces would share keys: the restriction is needed. */
  lemma SpacedKeysCollide()
    ensures CacheKey("a b", "c") == CacheKey("a", "b c") && "a b" != "a" && "a b" != "b c"
  {
    assert "a b" + " " + "c" == "a b c" && "a" + " " + "b c" == "a b c";
    assert |"a b"| == 3 && |"a"| == 1 && "a b"[0] != "b c"[0];
  }

  lemma AgreesAfter(entries: map<string, MergeOutcome>, git: MergeOracle, a: string, b: string)
    requires Agrees(entries, git) && Symmetric(git) && NoSpace(a) && NoSpace(b)
    ensures Agrees(entries[CacheKey(a, b) := git(a, b)], git)
  {
    forall c, d | NoSpace(c) && NoSpace(d) && CacheKey(c, d) == CacheKey(a, b) ensures git(c, d) == git(a, b) {
      KeyNamesPair(a, b, c, d);
    }
  }

  class MergeCache {
    var entries: map<string, MergeOutcome>

    constructor (saved: map<string, MergeOutcome>)
      ensures entries == saved
    {
      entries := saved;
    }

    /** The merge's result, from the cache or from git, which it then caches. */
    method MergeTree(ours: string, theirs: string, git: MergeOracle) returns (outcome: MergeOutcome)
      requires Symmetric(git) && Agrees(entries, git) && NoSpace(ours) && NoSpace(theirs)
      modifies this
      ensures outcome == git(ours, theirs)
      ensures entries == old(entries)[CacheKey(ours, theirs) := outcome]
      ensures CacheKey(ours, theirs) in old(entries) ==> entries == old(entries)
      ensures Agrees(entries, git)
      ensures forall k | k in old(entries) :: k in entries && entries[k] == old(entries)[k]
    {
      var key := CacheKey(ours, theirs);
      if key in entries {
        assert entries == entries[key := entries[key]];
        return entries[key];
      }
      outcome := git(ours, theirs);
      AgreesAfter(entries, git, ours, theirs);
      entries := entries[key := outcome];
    }
  }

  // ----- what the pairs come to -----

  /** A landed pull request, another one open at that moment, and its head then. */
  datatype Pair = Pair(lander: nat, mergeCommit: string, other: nat, head: Option<string>)

  datatype Conflict = Conflict(lander: nat, other: nat, paths: seq<string>)

  datatype Notice = Notice(lander: nat, other: nat, reason: string)

  /** How one pair is counted: its head unknown, a merge failed, or checked. */
  datatype Judgement = Gap | Error(message: string) | Checked(forced: seq<string>)

  function Without(s: seq<string>, t: seq<string>): seq<string> {
    if s == [] then []
    else
      var front := Without(s[..|s| - 1], t);
      if s[|s| - 1] in t then front else front + [s[|s| - 1]]
  }

  /** The paths that conflict after the landing and not before, sorted. */
  function Forced(before: seq<string>, after: seq<string>): seq<string> {
    Sort(LexLe, Dedup(Without(after, before)))
  }

  function Weigh(before: MergeOutcome, after: MergeOutcome): Judgement {
    if before.Failed? then Error(before.message)
    else if after.Failed? then Error(after.message)
    else Checked(Forced(before.paths, after.paths))
  }

  /** Merges the head with main just before and just after the landing. */
  function Judge(pair: Pair, git: MergeOracle): Judgement {
    match pair.head
    case None => Gap
    case Some(head) => Weigh(git(pair.mergeCommit + "^1", head), git(pair.mergeCommit, head))
  }

  const UNRECORDED := "head at the landing not recorded"

  datatype Tally = Tally(checked: nat, conflicting: seq<Conflict>, gaps: seq<Notice>, errors: seq<Notice>)

  function Count(t: Tally, pair: Pair, j: Judgement): Tally {
    match j
    case Gap => t.(gaps := t.gaps + [Notice(pair.lander, pair.other, UNRECORDED)])
    case Error(message) => t.(errors := t.errors + [Notice(pair.lander, pair.other, message)])
    case Checked(forced) =>
      t.(checked := t.checked + 1,
         conflicting := t.conflicting + if forced == [] then [] else [Conflict(pair.lander, pair.other, forced)])
  }

  /** The tally of pairs judged by git alone, with no cache. */
  function Judged(pairs: seq<Pair>, git: MergeOracle): Tally {
    if pairs == [] then Tally(0, [], [], [])
    else
      var last := pairs[|pairs| - 1];
      Count(Judged(pairs[..|pairs| - 1], git), last, Judge(last, git))
  }

  /** Every pair is counted exactly once, as checked, a gap or an error. */
  lemma {:induction false} EveryPairCounted(pairs: seq<Pair>, git: MergeOracle)
    ensures var t := Judged(pairs, git); t.checked + |t.gaps| + |t.errors| == |pairs|
    ensures |Judged(pairs, git).conflicting| <= Judged(pairs, git).checked
  {
    if pairs != [] { EveryPairCounted(pairs[..|pairs| - 1], git); }
  }

  lemma {:induction false} WithoutMembers(s: seq<string>, t: seq<string>, x: string)
    ensures x in Without(s, t) <==> x in s && x !in t
  {
    if s != [] {
      WithoutMembers(s[..|s| - 1], t, x);
      assert s == s[..|s| - 1] + [s[|s| - 1]];
    }
  }

  /** The forced paths: each once, in order, exactly those the landing added. */
  lemma ForcedMeaning(before: seq<string>, after: seq<string>)
    ensures forall x :: x in Forced(before, after) <==> x in after && x !in before
    ensures Distinct(Forced(before, after)) && SortedBy(LexLe, Forced(before, after))
  {
    var added := Dedup(Without(after, before));
    SameElements(Forced(before, after), added);
    forall x ensures x in Forced(before, after) <==> x in after && x !in before {
      WithoutMembers(after, before, x);
    }
    DistinctIsMultiplicity(added);
    DistinctIsMultiplicity(Forced(before, after));
    assert SortedBy(LexLe, Forced(before, after)) by {
      LexIsTotalOrder();
      SortSorts(LexLe, added);
    }
  }

  // ----- the table of files -----

  datatype Row = Row(path: string, count: nat, prs: set<nat>)

  /** How many conflicting pairs list a path, and the pull requests in them. */
  function Listings(conflicts: seq<Conflict>, path: string): nat {
    if conflicts == [] then 0
    else Listings(conflicts[..|conflicts| - 1], path) + if path in conflicts[|conflicts| - 1].paths then 1 else 0
  }

  function Involved(conflicts: seq<Conflict>, path: string): set<nat> {
    if conflicts == [] then {}
    else
      var last := conflicts[|conflicts| - 1];
      Involved(conflicts[..|conflicts| - 1], path) + if path in last.paths then {last.lander, last.other} else {}
  }

  /** Most listed first, then by path. */
  predicate RowLe(a: Row, b: Row) {
    a.count > b.count || (a.count == b.count && LexLe(a.path, b.path))
  }

  /** One row for each listed path, with its count and pull requests, in order. */
  ghost predicate IsTable(table: seq<Row>, conflicts: seq<Conflict>) {
    && SortedBy(RowLe, table) && Distinct(table)
    && forall row :: row in table <==>
         row.count == Listings(conflicts, row.path) > 0 && row.prs == Involved(conflicts, row.path)
  }

  lemma RowOrder(a: Row, b: Row)
    requires RowLe(a, b) && RowLe(b, a)
    ensures a.count == b.count && a.path == b.path
  {
    LexAntisymmetric(a.path, b.path);
  }

  /** The conflicts determine the table. */
  lemma TableUnique(s: seq<Row>, t: seq<Row>, conflicts: seq<Conflict>)
    requires IsTable(s, conflicts) && IsTable(t, conflicts)
    ensures s == t
  {
    DistinctSameMultiset(s, t);
    RowsUnique(s, t, conflicts);
  }

  lemma {:induction false} RowsUnique(s: seq<Row>, t: seq<Row>, conflicts: seq<Conflict>)
    requires SortedBy(RowLe, s) && SortedBy(RowLe, t) && multiset(s) == multiset(t)
    requires forall row | row in s :: row.prs == Involved(conflicts, row.path)
    ensures s == t
  {
    SameElements(s, t);
    assert |s| == |multiset(s)| == |multiset(t)| == |t|;
    if s != [] {
      assert s[0] in t && t[0] in s;
      HeadsAgree(s, t);
      assert s[0] == t[0];
      RemoveMiddle(s, 0);
      RemoveMiddle(t, 0);
      assert s[..0] + s[1..] == s[1..] && t[..0] + t[1..] == t[1..];
      RowsUnique(s[1..], t[1..], conflicts);
    }
  }

  lemma HeadsAgree(s: seq<Row>, t: seq<Row>)
    requires s != [] && t != [] && SortedBy(RowLe, s) && SortedBy(RowLe, t) && s[0] in t && t[0] in s
    ensures s[0].count == t[0].count && s[0].path == t[0].path
  {
    var i :| 0 <= i < |t| && t[i] == s[0];
    var j :| 0 <= j < |s| && s[j] == t[0];
    if i > 0 && j > 0 {
      assert RowLe(t[0], t[i]) && RowLe(s[0], s[j]);
      RowOrder(s[0], t[0]);
    }
  }

  // ----- the reporter -----

  /** The files met so far, in the order met. */
  ghost predicate Represents(files: map<string, Row>, order: seq<string>, conflicts: seq<Conflict>) {
    && Distinct(order)
    && (forall x :: x in order <==> x in files)
    && (forall x :: x in files <==> Listings(conflicts, x) > 0)
    && (forall x | x in files :: files[x] == Row(x, Listings(conflicts, x), Involved(conflicts, x)))
  }

  lemma PartialStep(conflicts: seq<Conflict>, lander: nat, other: nat, paths: seq<string>, x: string, p: string)
    requires x !in paths
    ensures Listings(conflicts + [Conflict(lander, other, paths + [x])], p) ==
            Listings(conflicts + [Conflict(lander, other, paths)], p) + if p == x then 1 else 0
    ensures Involved(conflicts + [Conflict(lander, other, paths + [x])], p) ==
            Involved(conflicts + [Conflict(lander, other, paths)], p) + if p == x then {lander, other} else {}
  {
    var s, t := conflicts + [Conflict(lander, other, paths + [x])], conflicts + [Conflict(lander, other, paths)];
    assert s[..|s| - 1] == conflicts && t[..|t| - 1] == conflicts;
  }

  lemma PartialNone(conflicts: seq<Conflict>, lander: nat, other: nat, p: string)
    ensures Listings(conflicts + [Conflict(lander, other, [])], p) == Listings(conflicts, p)
    ensures Involved(conflicts + [Conflict(lander, other, [])], p) == Involved(conflicts, p)
  {
    var s := conflicts + [Conflict(lander, other, [])];
    assert s[..|s| - 1] == conflicts;
  }

  /** The row of a path once it is listed again. */
  function Relist(files: map<string, Row>, path: string, lander: nat, other: nat): Row {
    if path in files then Row(path, files[path].count + 1, files[path].prs + {lander, other})
    else Row(path, 1, {lander, other})
  }

  lemma RelistRepresents(files: map<string, Row>, order: seq<string>, conflicts: seq<Conflict>,
                         lander: nat, other: nat, paths: seq<string>, x: string)
    requires Represents(files, order, conflicts + [Conflict(lander, other, paths)]) && x !in paths
    ensures Represents(files[x := Relist(files, x, lander, other)], if x in files then order else order + [x],
                       conflicts + [Conflict(lander, other, paths + [x])])
  {
    forall p
      ensures Listings(conflicts + [Conflict(lander, other, paths + [x])], p) ==
              Listings(conflicts + [Conflict(lander, other, paths)], p) + if p == x then 1 else 0
      ensures Involved(conflicts + [Conflict(lander, other, paths + [x])], p) ==
              Involved(conflicts + [Conflict(lander, other, paths)], p) + if p == x then {lander, other} else {}
    {
      PartialStep(conflicts, lander, other, paths, x, p);
    }
    InvolvedNone(conflicts + [Conflict(lander, other, paths)], x);
  }

  lemma {:induction false} InvolvedNone(conflicts: seq<Conflict>, p: string)
    ensures Listings(conflicts, p) == 0 ==> Involved(conflicts, p) == {}
  {
    if conflicts != [] { InvolvedNone(conflicts[..|conflicts| - 1], p); }
  }

  /** Adds one conflict's paths to the files. */
  method ListPaths(before: map<string, Row>, met: seq<string>, ghost conflicts: seq<Conflict>, c: Conflict)
    returns (files: map<string, Row>, order: seq<string>)
    requires Represents(before, met, conflicts) && Distinct(c.paths)
    ensures Represents(files, order, conflicts + [c])
  {
    files, order := before, met;
    forall p
      ensures Listings(conflicts + [Conflict(c.lander, c.other, [])], p) == Listings(conflicts, p)
      ensures Involved(conflicts + [Conflict(c.lander, c.other, [])], p) == Involved(conflicts, p)
    {
      PartialNone(conflicts, c.lander, c.other, p);
    }
    for k := 0 to |c.paths|
      invariant Represents(files, order, conflicts + [Conflict(c.lander, c.other, c.paths[..k])])
    {
      var path := c.paths[k];
      assert c.paths[..k + 1] == c.paths[..k] + [path];
      RelistRepresents(files, order, conflicts, c.lander, c.other, c.paths[..k], path);
      order := if path in files then order else order + [path];
      files := files[path := Relist(files, path, c.lander, c.other)];
    }
    assert c.paths[..|c.paths|] == c.paths;
  }

  lemma RowLeIsPreorder()
    ensures TotalPreorder(RowLe)
  {
    forall a, b ensures RowLe(a, b) || RowLe(b, a) { LexTotal(a.path, b.path); }
    forall a, b, c | RowLe(a, b) && RowLe(b, c) ensures RowLe(a, c) {
      if a.count == b.count == c.count { LexTransitive(a.path, b.path, c.path); }
    }
  }

  function Rows(files: map<string, Row>, order: seq<string>): (rows: seq<Row>)
    requires forall i | 0 <= i < |order| :: order[i] in files
    ensures |rows| == |order| && forall i | 0 <= i < |rows| :: rows[i] == files[order[i]]
  {
    seq(|order|, i requires 0 <= i < |order| => files[order[i]])
  }

  lemma RowsTable(files: map<string, Row>, order: seq<string>, conflicts: seq<Conflict>)
    requires Represents(files, order, conflicts) && forall i | 0 <= i < |order| :: order[i] in files
    ensures IsTable(Sort(RowLe, Rows(files, order)), conflicts)
  {
    var rows := Rows(files, order);
    var table := Sort(RowLe, rows);
    assert SortedBy(RowLe, table) by { RowLeIsPreorder(); SortSorts(RowLe, rows); }
    SameElements(table, rows);
    forall i, j | 0 <= i < j < |rows| ensures rows[i] != rows[j] {
      assert rows[i].path == order[i] && rows[j].path == order[j];
    }
    DistinctIsMultiplicity(rows);
    DistinctIsMultiplicity(table);
    forall row
      ensures row in table <==>
              row.count == Listings(conflicts, row.path) > 0 && row.prs == Involved(conflicts, row.path)
    {
      if row in rows {
        var i :| 0 <= i < |rows| && rows[i] == row;
        assert order[i] in files;
      }
      if row.count == Listings(conflicts, row.path) > 0 && row.prs == Involved(conflicts, row.path) {
        assert row.path in order;
        var i :| 0 <= i < |order| && order[i] == row.path;
        assert rows[i] == row;
      }
    }
  }

  // ----- the printed table -----

  /** A row as printed, its pull requests in order. */
  datatype PrintedRow = PrintedRow(path: string, count: nat, prs: seq<nat>)

  predicate Rising(s: seq<nat>) {
    forall i, j | 0 <= i < j < |s| :: s[i] < s[j]
  }

  function Numbers(s: seq<nat>): set<nat> {
    set x | x in s
  }

  function RowOf(row: PrintedRow): Row {
    Row(row.path, row.count, Numbers(row.prs))
  }

  function RowsOf(table: seq<PrintedRow>): (rows: seq<Row>)
    ensures |rows| == |table| && forall i | 0 <= i < |rows| :: rows[i] == RowOf(table[i])
  {
    seq(|table|, i requires 0 <= i < |table| => RowOf(table[i]))
  }

  /** The table of the conflicts, with every row's pull requests in order. */
  ghost predicate IsPrinted(table: seq<PrintedRow>, conflicts: seq<Conflict>) {
    IsTable(RowsOf(table), conflicts) && forall i | 0 <= i < |table| :: Rising(table[i].prs)
  }

  lemma {:induction false} RisingUnique(s: seq<nat>, t: seq<nat>)
    requires Rising(s) && Rising(t) && forall x :: x in s <==> x in t
    ensures s == t
  {
    assert s == [] <==> t == [] by {
      assert s != [] ==> s[0] in t;
      assert t != [] ==> t[0] in s;
    }
    if s != [] && t != [] {
      assert s[0] in t && t[0] in s;
      forall x ensures x in s[1..] <==> x in t[1..] {
        RisingTail(s, x);
        RisingTail(t, x);
      }
      RisingUnique(s[1..], t[1..]);
    }
  }

  lemma RisingTail(s: seq<nat>, x: nat)
    requires s != [] && Rising(s)
    ensures x in s[1..] <==> x in s && x != s[0]
  {
    assert s == [s[0]] + s[1..];
  }

  /** The conflicts determine the printed table. */
  lemma PrintedUnique(s: seq<PrintedRow>, t: seq<PrintedRow>, conflicts: seq<Conflict>)
    requires IsPrinted(s, conflicts) && IsPrinted(t, conflicts)
    ensures s == t
  {
    TableUnique(RowsOf(s), RowsOf(t), conflicts);
    assert |s| == |RowsOf(s)| == |RowsOf(t)| == |t|;
    forall i | 0 <= i < |s| ensures s[i] == t[i] {
      assert RowOf(s[i]) == RowsOf(s)[i] == RowsOf(t)[i] == RowOf(t[i]);
      forall x ensures x in s[i].prs <==> x in t[i].prs {
        assert x in Numbers(s[i].prs) <==> x in Numbers(t[i].prs);
      }
      RisingUnique(s[i].prs, t[i].prs);
    }
  }

  predicate NumberLe(a: nat, b: nat) {
    a <= b
  }

  method InOrder(numbers: set<nat>) returns (list: seq<nat>)
    ensures Rising(list) && Numbers(list) == numbers
  {
    list := [];
    var rest := numbers;
    while rest != {}
      invariant rest <= numbers && Numbers(list) == numbers - rest && Distinct(list)
      decreases rest
    {
      var x :| x in rest;
      assert Numbers(list + [x]) == Numbers(list) + {x} && x !in Numbers(list);
      list, rest := list + [x], rest - {x};
    }
    DistinctRises(list);
    list := Sort(NumberLe, list);
  }

  lemma DistinctRises(list: seq<nat>)
    requires Distinct(list)
    ensures Rising(Sort(NumberLe, list)) && Numbers(Sort(NumberLe, list)) == Numbers(list)
  {
    var sorted := Sort(NumberLe, list);
    SortSorts(NumberLe, list);
    SameElements(sorted, list);
    DistinctIsMultiplicity(list);
    DistinctIsMultiplicity(sorted);
    forall i, j | 0 <= i < j < |sorted| ensures sorted[i] < sorted[j] {
      assert NumberLe(sorted[i], sorted[j]);
    }
  }

  method PrintRows(rows: seq<Row>) returns (table: seq<PrintedRow>)
    ensures RowsOf(table) == rows && forall i | 0 <= i < |table| :: Rising(table[i].prs)
  {
    table := [];
    for k := 0 to |rows|
      invariant RowsOf(table) == rows[..k]
      invariant forall i | 0 <= i < |table| :: Rising(table[i].prs)
    {
      var prs := InOrder(rows[k].prs);
      var row := PrintedRow(rows[k].path, rows[k].count, prs);
      assert RowsOf(table + [row]) == RowsOf(table) + [RowOf(row)];
      table := table + [row];
    }
  }

  /** Counts the listings of every file, then sorts and prints the rows. */
  method FileTable(conflicts: seq<Conflict>) returns (table: seq<PrintedRow>)
    requires forall c | c in conflicts :: Distinct(c.paths)
    ensures IsPrinted(table, conflicts)
  {
    var files: map<string, Row>, order: seq<string> := map[], [];
    for k := 0 to |conflicts|
      invariant Represents(files, order, conflicts[..k])
    {
      assert conflicts[k] in conflicts;
      assert conflicts[..k + 1] == conflicts[..k] + [conflicts[k]];
      files, order := ListPaths(files, order, conflicts[..k], conflicts[k]);
    }
    assert conflicts[..|conflicts|] == conflicts;
    forall i | 0 <= i < |order| ensures order[i] in files { assert order[i] in order; }
    RowsTable(files, order, conflicts);
    table := PrintRows(Sort(RowLe, Rows(files, order)));
  }

  lemma {:induction false} ConflictsDistinct(pairs: seq<Pair>, git: MergeOracle)
    ensures forall c | c in Judged(pairs, git).conflicting :: Distinct(c.paths) && c.paths != []
  {
    if pairs != [] {
      var last := pairs[|pairs| - 1];
      ConflictsDistinct(pairs[..|pairs| - 1], git);
      match Judge(last, git) {
        case Checked(forced) =>
          var before, after := git(last.mergeCommit + "^1", last.head.value), git(last.mergeCommit, last.head.value);
          ForcedMeaning(before.paths, after.paths);
        case _ =>
      }
    }
  }

  /** The commit names that reach git hold no space. */
  predicate CleanCommits(pair: Pair) {
    NoSpace(pair.mergeCommit) && (pair.head.Some? ==> NoSpace(pair.head.value))
  }
}
