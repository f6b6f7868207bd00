/** The report on forced conflicts, spelled out over git and the pairs: which
    pairs conflict, fail or are unknown, in their order, and what the table counts. */
module ConflictReport {
  import opened Outcomes
  import opened Sorting
  import opened RebaseConflicts

  /** The merge with main before the landing, and the one after it. */
  predicate Known(pair: Pair) {
    pair.head.Some?
  }

  function Before(pair: Pair, git: MergeOracle): MergeOutcome
    requires Known(pair)
  {
    git(pair.mergeCommit + "^1", pair.head.value)
  }

  function After(pair: Pair, git: MergeOracle): MergeOutcome
    requires Known(pair)
  {
    git(pair.mergeCommit, pair.head.value)
  }

  predicate Checkable(pair: Pair, git: MergeOracle) {
    Known(pair) && Before(pair, git).Conflicts? && After(pair, git).Conflicts?
  }

  /** The landing makes this file conflict: it conflicts after it and not before. */
  predicate Forces(pair: Pair, git: MergeOracle, x: string)
    requires Checkable(pair, git)
  {
    x in After(pair, git).paths && x !in Before(pair, git).paths
  }

  ghost predicate ForcesAny(pair: Pair, git: MergeOracle) {
    Checkable(pair, git) && exists x :: Forces(pair, git, x)
  }

  /** The conflict is the pair's, with the forced files in ascending order. */
  ghost predicate IsConflict(pair: Pair, git: MergeOracle, c: Conflict)
  {
    && Checkable(pair, git) && c.lander == pair.lander && c.other == pair.other
    && (forall i, j | 0 <= i < j < |c.paths| :: LexLe(c.paths[i], c.paths[j]) && c.paths[i] != c.paths[j])
    && (forall x :: x in c.paths <==> Forces(pair, git, x))
  }

  predicate Fails(pair: Pair, git: MergeOracle) {
    Known(pair) && (Before(pair, git).Failed? || After(pair, git).Failed?)
  }

  /** The notice is the pair's, with the message of the first merge that failed. */
  predicate IsError(pair: Pair, git: MergeOracle, n: Notice) {
    && Fails(pair, git) && n.lander == pair.lander && n.other == pair.other
    && n.reason == if Before(pair, git).Failed? then Before(pair, git).message else After(pair, git).message
  }

  predicate IsGap(pair: Pair, n: Notice) {
    pair.head.None? && n == Notice(pair.lander, pair.other, "head at the landing not recorded")
  }

  // ----- lists made from some of the pairs, in order -----

  /** The list has one item for each pair with the property, in pair order; `at`
      says which pair each item comes from. */
  ghost predicate Lists<T(!new)>(list: seq<T>, pairs: seq<Pair>, has: Pair -> bool, from: (Pair, T) -> bool,
                          at: seq<int>) {
    && |at| == |list|
    && (forall i, j | 0 <= i < j < |at| :: at[i] < at[j])
    && (forall i :: i in at <==> 0 <= i < |pairs| && has(pairs[i]))
    && (forall k | 0 <= k < |list| :: 0 <= at[k] < |pairs| && from(pairs[at[k]], list[k]))
  }

  lemma ListsMore<T(!new)>(list: seq<T>, pairs: seq<Pair>, has: Pair -> bool, from: (Pair, T) -> bool, at: seq<int>,
                           pair: Pair, item: T)
    requires Lists(list, pairs, has, from, at) && has(pair) && from(pair, item)
    ensures Lists(list + [item], pairs + [pair], has, from, at + [|pairs|])
  {
    var next := at + [|pairs|];
    forall i ensures i in next <==> 0 <= i < |pairs| + 1 && has((pairs + [pair])[i]) {
      assert i in next <==> i in at || i == |pairs|;
    }
    forall i, j | 0 <= i < j < |next| ensures next[i] < next[j] {
      if j == |at| { assert at[i] in at; }
    }
  }

  lemma ListsNoMore<T(!new)>(list: seq<T>, pairs: seq<Pair>, has: Pair -> bool, from: (Pair, T) -> bool, at: seq<int>,
                             pair: Pair)
    requires Lists(list, pairs, has, from, at) && !has(pair)
    ensures Lists(list, pairs + [pair], has, from, at)
  {
  }

  /** The pairs whose two merges both went through. */
  function CheckedPairs(pairs: seq<Pair>, git: MergeOracle): set<int> {
    set i | 0 <= i < |pairs| && Checkable(pairs[i], git)
  }

  /** What a report lists, and how many pairs it checked. */
  ghost predicate SaysAt(t: Tally, pairs: seq<Pair>, git: MergeOracle, conflicts: seq<int>, errors: seq<int>,
                         gaps: seq<int>) {
    && Lists(t.conflicting, pairs, p => ForcesAny(p, git), (p, c) => IsConflict(p, git, c), conflicts)
    && Lists(t.errors, pairs, p => Fails(p, git), (p, n) => IsError(p, git, n), errors)
    && Lists(t.gaps, pairs, (p: Pair) => p.head.None?, (p, n) => IsGap(p, n), gaps)
    && t.checked == |CheckedPairs(pairs, git)|
  }

  lemma CheckedMore(pairs: seq<Pair>, pair: Pair, git: MergeOracle)
    ensures |CheckedPairs(pairs + [pair], git)| == |CheckedPairs(pairs, git)| + if Checkable(pair, git) then 1 else 0
  {
    var before, after := CheckedPairs(pairs, git), CheckedPairs(pairs + [pair], git);
    assert after == if Checkable(pair, git) then before + {|pairs|} else before;
  }

  lemma ForcedIs(pair: Pair, git: MergeOracle)
    requires Checkable(pair, git)
    ensures var paths := Forced(Before(pair, git).paths, After(pair, git).paths);
            IsConflict(pair, git, Conflict(pair.lander, pair.other, paths)) && (ForcesAny(pair, git) <==> paths != [])
  {
    var paths := Forced(Before(pair, git).paths, After(pair, git).paths);
    ForcedMeaning(Before(pair, git).paths, After(pair, git).paths);
    if paths != [] { assert paths[0] in paths && Forces(pair, git, paths[0]); }
    if x :| Forces(pair, git, x) { assert x in paths; }
  }

  lemma SaysNext(t: Tally, pairs: seq<Pair>, git: MergeOracle, conflicts: seq<int>, errors: seq<int>, gaps: seq<int>,
                 pair: Pair)
    returns (c: seq<int>, e: seq<int>, g: seq<int>)
    requires SaysAt(t, pairs, git, conflicts, errors, gaps)
    ensures SaysAt(Count(t, pair, Judge(pair, git)), pairs + [pair], git, c, e, g)
  {
    var next := Count(t, pair, Judge(pair, git));
    var n := |pairs|;
    CheckedMore(pairs, pair, git);
    c := if ForcesAny(pair, git) then conflicts + [n] else conflicts;
    e := if Fails(pair, git) then errors + [n] else errors;
    g := if pair.head.None? then gaps + [n] else gaps;
    NextConflicts(t, pairs, git, conflicts, pair);
    NextErrors(t, pairs, git, errors, pair);
    NextGaps(t, pairs, git, gaps, pair);
  }

  lemma NextConflicts(t: Tally, pairs: seq<Pair>, git: MergeOracle, at: seq<int>, pair: Pair)
    requires Lists(t.conflicting, pairs, p => ForcesAny(p, git), (p, c) => IsConflict(p, git, c), at)
    ensures Lists(Count(t, pair, Judge(pair, git)).conflicting, pairs + [pair], p => ForcesAny(p, git),
                  (p, c) => IsConflict(p, git, c), if ForcesAny(pair, git) then at + [|pairs|] else at)
  {
    if Checkable(pair, git) { ForcedIs(pair, git); }
    ConflictCounted(t, pair, git);
    if ForcesAny(pair, git) {
      var paths := Forced(Before(pair, git).paths, After(pair, git).paths);
      ListsMore(t.conflicting, pairs, (p: Pair) => ForcesAny(p, git), (p: Pair, c: Conflict) => IsConflict(p, git, c),
                at, pair, Conflict(pair.lander, pair.other, paths));
    } else {
      ListsNoMore(t.conflicting, pairs, (p: Pair) => ForcesAny(p, git),
                  (p: Pair, c: Conflict) => IsConflict(p, git, c), at, pair);
    }
  }

  lemma ConflictCounted(t: Tally, pair: Pair, git: MergeOracle)
    ensures Count(t, pair, Judge(pair, git)).conflicting ==
            if !Checkable(pair, git) then t.conflicting
            else
              var paths := Forced(Before(pair, git).paths, After(pair, git).paths);
              if paths == [] then t.conflicting else t.conflicting + [Conflict(pair.lander, pair.other, paths)]
  {
    assert t.conflicting + [] == t.conflicting;
  }

  lemma NextErrors(t: Tally, pairs: seq<Pair>, git: MergeOracle, at: seq<int>, pair: Pair)
    requires Lists(t.errors, pairs, p => Fails(p, git), (p, n) => IsError(p, git, n), at)
    ensures Lists(Count(t, pair, Judge(pair, git)).errors, pairs + [pair], p => Fails(p, git),
                  (p, n) => IsError(p, git, n), if Fails(pair, git) then at + [|pairs|] else at)
  {
    var has, from := (p: Pair) => Fails(p, git), (p: Pair, n: Notice) => IsError(p, git, n);
    if Fails(pair, git) {
      var message := if Before(pair, git).Failed? then Before(pair, git).message else After(pair, git).message;
      ListsMore(t.errors, pairs, has, from, at, pair, Notice(pair.lander, pair.other, message));
    } else {
      ListsNoMore(t.errors, pairs, has, from, at, pair);
    }
  }

  lemma NextGaps(t: Tally, pairs: seq<Pair>, git: MergeOracle, at: seq<int>, pair: Pair)
    requires Lists(t.gaps, pairs, (p: Pair) => p.head.None?, (p, n) => IsGap(p, n), at)
    ensures Lists(Count(t, pair, Judge(pair, git)).gaps, pairs + [pair], (p: Pair) => p.head.None?,
                  (p, n) => IsGap(p, n), if pair.head.None? then at + [|pairs|] else at)
  {
    var has, from := (p: Pair) => p.head.None?, (p: Pair, n: Notice) => IsGap(p, n);
    if pair.head.None? {
      ListsMore(t.gaps, pairs, has, from, at, pair,
                Notice(pair.lander, pair.other, "head at the landing not recorded"));
    } else {
      ListsNoMore(t.gaps, pairs, has, from, at, pair);
    }
  }

  /** The tally of the pairs lists exactly the pairs' conflicts, errors and gaps. */
  lemma {:induction false} TallySays(pairs: seq<Pair>, git: MergeOracle) returns (c: seq<int>, e: seq<int>, g: seq<int>)
    ensures SaysAt(Judged(pairs, git), pairs, git, c, e, g)
  {
    if pairs == [] {
      c, e, g := [], [], [];
      assert CheckedPairs([], git) == {};
    } else {
      var front, last := pairs[..|pairs| - 1], pairs[|pairs| - 1];
      c, e, g := TallySays(front, git);
      c, e, g := SaysNext(Judged(front, git), front, git, c, e, g, last);
      assert front + [last] == pairs;
    }
  }

  lemma ConflictUnique(pair: Pair, git: MergeOracle, c: Conflict, d: Conflict)
    requires IsConflict(pair, git, c) && IsConflict(pair, git, d)
    ensures c == d
  {
    DistinctSameMultiset(c.paths, d.paths);
    LexIsTotalOrder();
    SortedUnique(LexLe, c.paths, d.paths);
  }

  /** A conflict is reported exactly when it is some pair's and forced on it. */
  lemma ConflictIff(t: Tally, pairs: seq<Pair>, git: MergeOracle, at: seq<int>, e: seq<int>, g: seq<int>, c: Conflict)
    requires SaysAt(t, pairs, git, at, e, g)
    ensures c in t.conflicting <==> c.paths != [] && exists pair | pair in pairs :: IsConflict(pair, git, c)
  {
    if c in t.conflicting {
      var k :| 0 <= k < |t.conflicting| && t.conflicting[k] == c;
      assert at[k] in at;
      var pair := pairs[at[k]];
      assert pair in pairs && IsConflict(pair, git, c) && ForcesAny(pair, git);
      var x :| Forces(pair, git, x);
      assert x in c.paths;
    }
    if c.paths != [] && exists pair | pair in pairs :: IsConflict(pair, git, c) {
      var pair :| pair in pairs && IsConflict(pair, git, c);
      assert c.paths[0] in c.paths && Forces(pair, git, c.paths[0]);
      var i :| 0 <= i < |pairs| && pairs[i] == pair;
      assert i in at;
      var k :| 0 <= k < |at| && at[k] == i;
      ConflictUnique(pair, git, c, t.conflicting[k]);
    }
  }

  // ----- the table -----

  /** The conflicts that list a file. */
  function Listing(conflicts: seq<Conflict>, path: string): set<int> {
    set i | 0 <= i < |conflicts| && path in conflicts[i].paths
  }

  lemma {:induction false} ListingsCount(conflicts: seq<Conflict>, path: string)
    ensures Listings(conflicts, path) == |Listing(conflicts, path)|
  {
    if conflicts == [] {
      assert Listing(conflicts, path) == {};
    } else {
      var n := |conflicts| - 1;
      ListingsCount(conflicts[..n], path);
      ListingNext(conflicts, path);
    }
  }

  lemma ListingNext(conflicts: seq<Conflict>, path: string)
    requires conflicts != []
    ensures var n := |conflicts| - 1;
            |Listing(conflicts, path)| == |Listing(conflicts[..n], path)| + if path in conflicts[n].paths then 1 else 0
  {
    var n := |conflicts| - 1;
    var before, after := Listing(conflicts[..n], path), Listing(conflicts, path);
    assert after == if path in conflicts[n].paths then before + {n} else before;
  }

  lemma {:induction false} InvolvedIn(conflicts: seq<Conflict>, path: string, n: nat)
    ensures n in Involved(conflicts, path) <==>
            exists c | c in conflicts :: path in c.paths && (n == c.lander || n == c.other)
  {
    if conflicts != [] {
      var last := conflicts[|conflicts| - 1];
      InvolvedIn(conflicts[..|conflicts| - 1], path, n);
      assert conflicts == conflicts[..|conflicts| - 1] + [last];
    }
  }

  /** The table has a row for each file of a conflict, the most listed first and
      then by name, with the number of its conflicts and, in order, the pull
      requests of those conflicts. */
  lemma TableSays(table: seq<PrintedRow>, conflicts: seq<Conflict>)
    requires IsPrinted(table, conflicts)
    ensures forall i, j | 0 <= i < j < |table| ::
      table[i].count > table[j].count ||
      (table[i].count == table[j].count && LexLe(table[i].path, table[j].path) && table[i].path != table[j].path)
    ensures forall row | row in table :: row.count == |Listing(conflicts, row.path)| > 0
    ensures forall row, n: nat | row in table :: n in row.prs <==>
              exists c | c in conflicts :: row.path in c.paths && (n == c.lander || n == c.other)
    ensures forall row, i, j | row in table && 0 <= i < j < |row.prs| :: row.prs[i] < row.prs[j]
    ensures forall c, path | c in conflicts && path in c.paths :: exists row | row in table :: row.path == path
  {
    var rows := RowsOf(table);
    forall i | 0 <= i < |table|
      ensures table[i].count == |Listing(conflicts, table[i].path)| > 0
      ensures Numbers(table[i].prs) == Involved(conflicts, table[i].path)
    {
      RowSays(table, conflicts, i);
    }
    forall i, j | 0 <= i < j < |table|
      ensures table[i].count > table[j].count ||
              (table[i].count == table[j].count && LexLe(table[i].path, table[j].path) &&
                  table[i].path != table[j].path)
    {
      RowsApart(table, conflicts, i, j);
    }
    forall row, n: nat | row in table
      ensures n in row.prs <==> exists c | c in conflicts :: row.path in c.paths && (n == c.lander || n == c.other)
    {
      InvolvedIn(conflicts, row.path, n);
      assert n in row.prs <==> n in Numbers(row.prs);
    }
    forall c, path | c in conflicts && path in c.paths ensures exists row | row in table :: row.path == path {
      FileHasRow(table, conflicts, c, path);
    }
  }

  lemma RowSays(table: seq<PrintedRow>, conflicts: seq<Conflict>, i: nat)
    requires IsPrinted(table, conflicts) && i < |table|
    ensures table[i].count == |Listing(conflicts, table[i].path)| > 0
    ensures Numbers(table[i].prs) == Involved(conflicts, table[i].path)
  {
    assert RowsOf(table)[i] == RowOf(table[i]) && RowsOf(table)[i] in RowsOf(table);
    ListingsCount(conflicts, table[i].path);
  }

  lemma RowsApart(table: seq<PrintedRow>, conflicts: seq<Conflict>, i: nat, j: nat)
    requires IsPrinted(table, conflicts) && i < j < |table|
    ensures table[i].count > table[j].count ||
            (table[i].count == table[j].count && LexLe(table[i].path, table[j].path) && table[i].path != table[j].path)
  {
    var rows := RowsOf(table);
    assert RowLe(rows[i], rows[j]) && rows[i] != rows[j];
    RowSays(table, conflicts, i);
    RowSays(table, conflicts, j);
  }

  lemma FileHasRow(table: seq<PrintedRow>, conflicts: seq<Conflict>, c: Conflict, path: string)
    requires IsPrinted(table, conflicts) && c in conflicts && path in c.paths
    ensures exists row | row in table :: row.path == path
  {
    ListingsCount(conflicts, path);
    var k :| 0 <= k < |conflicts| && conflicts[k] == c;
    assert k in Listing(conflicts, path);
    var row := Row(path, Listings(conflicts, path), Involved(conflicts, path));
    assert row in RowsOf(table);
    var i :| 0 <= i < |table| && RowsOf(table)[i] == row;
    assert table[i] in table && table[i].path == path;
  }

  // ----- the reporter -----

  /** Whatever agreeing cache it starts from, the report is what git alone says;
      the cache keeps its entries and still agrees. */
  method ReportConflicts(pairs: seq<Pair>, cache: MergeCache, git: MergeOracle)
    returns (tally: Tally, files: seq<PrintedRow>)
    requires Symmetric(git) && Agrees(cache.entries, git)
    requires forall pair | pair in pairs :: CleanCommits(pair)
    modifies cache
    ensures exists c, e, g :: SaysAt(tally, pairs, git, c, e, g)
    ensures tally == Judged(pairs, git)
    ensures IsPrinted(files, tally.conflicting)
    ensures Agrees(cache.entries, git)
    ensures forall k | k in old(cache.entries) :: k in cache.entries && cache.entries[k] == old(cache.entries)[k]
  {
    tally := Tally(0, [], [], []);
    for k := 0 to |pairs|
      invariant tally == Judged(pairs[..k], git)
      invariant Agrees(cache.entries, git)
      invariant forall k | k in old(cache.entries) :: k in cache.entries && cache.entries[k] == old(cache.entries)[k]
    {
      var pair := pairs[k];
      assert pair in pairs;
      assert pairs[..k + 1][..k] == pairs[..k];
      match pair.head {
        case None =>
          tally := Count(tally, pair, Gap);
        case Some(head) =>
          var before := cache.MergeTree(pair.mergeCommit + "^1", head, git);
          var after := cache.MergeTree(pair.mergeCommit, head, git);
          tally := Count(tally, pair, Weigh(before, after));
      }
    }
    assert pairs[..|pairs|] == pairs;
    ConflictsDistinct(pairs, git);
    ghost var c, e, g := TallySays(pairs, git);
    files := FileTable(tally.conflicting);
  }
}
