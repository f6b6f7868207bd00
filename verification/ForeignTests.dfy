/** Test runs on the machine that are not this process's own: the process table
    is closed under descent from the own process, and a test run outside that
    closure is foreign. */
module ForeignTests {
  import opened Strings
  import opened Sorting

  /** A row of the process table: the parent and the command's words. */
  datatype Process = Process(parent: int, words: seq<string>)

  type Table = map<int, Process>

  // ----- what counts as a test run -----

  /** The last component of a path, "." and empty components dropped. */
  function PathName(path: string): string {
    var parts := Components(path);
    if parts == [] then [] else parts[|parts| - 1]
  }

  function Components(path: string): seq<string>
    decreases |path|
  {
    if path == [] then []
    else
      var head := FirstPart(path);
      var rest := path[|head|..];
      var tail := Components(if rest == [] then [] else rest[1..]);
      if head == [] || head == "." then tail else [head] + tail
  }

  function FirstPart(path: string): (head: string)
    ensures |head| <= |path| && head <= path
    ensures path != [] && head == [] ==> path[0] == '/'
  {
    if path == [] || path[0] == '/' then [] else [path[0]] + FirstPart(path[1..])
  }

  function Drop(words: seq<string>, n: nat): seq<string> {
    if n <= |words| then words[n..] else []
  }

  /** The arguments past a leading change of directory. */
  function Arguments(words: seq<string>): seq<string>
    requires words != []
  {
    var arguments := words[1..];
    if arguments != [] && arguments[0] == "-C" then Drop(arguments, 2)
    else if arguments != [] && "-C=" <= arguments[0] then arguments[1..]
    else arguments
  }

  /** A compiled test binary, or `go test`. */
  predicate IsTestRun(words: seq<string>)
    requires words != []
  {
    var program, arguments := PathName(words[0]), Arguments(words);
    EndsWith(program, ".test") || (program == "go" && arguments != [] && arguments[0] == "test")
  }

  // ----- descent -----

  /** A chain of parents through the table, from its first pid to its last. */
  predicate IsChain(table: Table, chain: seq<int>) {
    && chain != []
    && forall i | 0 <= i < |chain| - 1 :: chain[i] in table && table[chain[i]].parent == chain[i + 1]
  }

  ghost predicate Reaches(table: Table, pid: int, own: int) {
    exists chain :: IsChain(table, chain) && chain[0] == pid && chain[|chain| - 1] == own
  }

  lemma ReachesSelf(table: Table, own: int)
    ensures Reaches(table, own, own)
  {
    assert IsChain(table, [own]);
  }

  lemma ReachesThrough(table: Table, pid: int, own: int)
    requires pid in table && Reaches(table, table[pid].parent, own)
    ensures Reaches(table, pid, own)
  {
    var chain :| IsChain(table, chain) && chain[0] == table[pid].parent && chain[|chain| - 1] == own;
    var longer := [pid] + chain;
    assert forall i | 1 <= i < |longer| :: longer[i] == chain[i - 1];
    assert IsChain(table, longer);
  }

  /** A set holding `own` and every child of its members holds all descendants. */
  lemma {:induction false} ClosedHoldsChain(table: Table, family: set<int>, chain: seq<int>)
    requires forall pid | pid in table && table[pid].parent in family :: pid in family
    requires IsChain(table, chain) && chain[|chain| - 1] in family
    ensures chain[0] in family
    decreases |chain|
  {
    if |chain| > 1 {
      var tail := chain[1..];
      assert forall i | 0 <= i < |tail| :: tail[i] == chain[i + 1];
      ClosedHoldsChain(table, family, tail);
    }
  }

  method Descendants(table: Table, ownPid: int) returns (own: set<int>)
    ensures forall pid :: pid in own <==> Reaches(table, pid, ownPid)
  {
    own := {ownPid};
    ReachesSelf(table, ownPid);
    while true
      invariant ownPid in own
      invariant forall pid | pid in own :: Reaches(table, pid, ownPid)
      decreases table.Keys - own
    {
      var children := set pid | pid in table && table[pid].parent in own;
      if children <= own {
        break;
      }
      forall pid | pid in children ensures Reaches(table, pid, ownPid) { ReachesThrough(table, pid, ownPid); }
      own := own + children;
    }
    forall pid | Reaches(table, pid, ownPid) ensures pid in own {
      var chain :| IsChain(table, chain) && chain[0] == pid && chain[|chain| - 1] == ownPid;
      ClosedHoldsChain(table, own, chain);
    }
  }

  // ----- the report -----

  /** The table of a listing: a later row of a pid replaces an earlier one. */
  function Latest(rows: seq<(int, Process)>): Table {
    if rows == [] then map[] else Latest(rows[..|rows| - 1])[rows[|rows| - 1].0 := rows[|rows| - 1].1]
  }

  /** The pids in the order first listed. */
  function Listed(rows: seq<(int, Process)>): (order: seq<int>)
    ensures Distinct(order) && forall pid :: pid in order <==> pid in Latest(rows)
  {
    if rows == [] then []
    else
      var front, pid := Listed(rows[..|rows| - 1]), rows[|rows| - 1].0;
      if pid in front then front else front + [pid]
  }

  lemma {:induction false} LatestHasWords(rows: seq<(int, Process)>)
    requires forall i | 0 <= i < |rows| :: rows[i].1.words != []
    ensures forall pid | pid in Latest(rows) :: Latest(rows)[pid].words != []
  {
    if rows != [] { LatestHasWords(rows[..|rows| - 1]); }
  }

  method Tabulate(rows: seq<(int, Process)>) returns (table: Table, order: seq<int>)
    ensures table == Latest(rows) && order == Listed(rows)
  {
    table, order := map[], [];
    for k := 0 to |rows|
      invariant table == Latest(rows[..k]) && order == Listed(rows[..k])
    {
      assert rows[..k + 1][..k] == rows[..k];
      order := if rows[k].0 in table then order else order + [rows[k].0];
      table := table[rows[k].0 := rows[k].1];
    }
    assert rows[..|rows|] == rows;
  }

  /** Every listed pid has a command. */
  predicate Runnable(order: seq<int>, table: Table) {
    forall i | 0 <= i < |order| :: order[i] in table && table[order[i]].words != []
  }

  lemma ListedRunnable(rows: seq<(int, Process)>)
    requires forall i | 0 <= i < |rows| :: rows[i].1.words != []
    ensures Runnable(Listed(rows), Latest(rows))
  {
    LatestHasWords(rows);
    forall i | 0 <= i < |Listed(rows)| ensures Listed(rows)[i] in Latest(rows) {
      assert Listed(rows)[i] in Listed(rows);
    }
  }

  /** The pids outside the own family whose command is a test run. */
  ghost function Outsiders(order: seq<int>, table: Table, ownPid: int): seq<int>
    requires Runnable(order, table)
  {
    if order == [] then []
    else
      var n := |order| - 1;
      var front := Outsiders(order[..n], table, ownPid);
      if IsTestRun(table[order[n]].words) && !Reaches(table, order[n], ownPid) then front + [order[n]] else front
  }

  /** A pid is reported, once, exactly when its latest command is a test run and
      no chain of parents leads from it to the own pid. */
  lemma {:induction false} OutsidersMeaning(order: seq<int>, table: Table, ownPid: int)
    requires Distinct(order) && Runnable(order, table)
    ensures Distinct(Outsiders(order, table, ownPid))
    ensures forall pid :: pid in Outsiders(order, table, ownPid) <==>
              pid in order && IsTestRun(table[pid].words) && !Reaches(table, pid, ownPid)
  {
    if order != [] {
      var n := |order| - 1;
      assert order == order[..n] + [order[n]];
      assert order[n] in order && order[n] !in order[..n];
      OutsidersMeaning(order[..n], table, ownPid);
    }
  }

  lemma OutsidersStep(order: seq<int>, table: Table, ownPid: int, k: nat)
    requires Runnable(order, table) && k < |order|
    ensures Runnable(order[..k], table) && Runnable(order[..k + 1], table)
    ensures order[k] in table && table[order[k]].words != []
    ensures Outsiders(order[..k + 1], table, ownPid) ==
            Outsiders(order[..k], table, ownPid) +
            if IsTestRun(table[order[k]].words) && !Reaches(table, order[k], ownPid) then [order[k]] else []
  {
    assert order[..k + 1][..k] == order[..k];
  }

  method ForeignTestRuns(rows: seq<(int, Process)>, ownPid: int) returns (found: seq<int>)
    requires forall i | 0 <= i < |rows| :: rows[i].1.words != []
    ensures Runnable(Listed(rows), Latest(rows))
    ensures found == Outsiders(Listed(rows), Latest(rows), ownPid)
  {
    var processes, order := Tabulate(rows);
    ListedRunnable(rows);
    var own := Descendants(processes, ownPid);
    found := [];
    for k := 0 to |order|
      invariant Runnable(order[..k], processes)
      invariant found == Outsiders(order[..k], processes, ownPid)
    {
      var pid := order[k];
      OutsidersStep(order, processes, ownPid, k);
      if IsTestRun(processes[pid].words) && pid !in own {
        found := found + [pid];
      }
    }
    assert order[..|order|] == order;
  }

  // ----- spelled out -----

  lemma {:induction false} ComponentsJoin(a: string, b: string)
    ensures Components(a + "/" + b) == Components(a) + Components(b)
    decreases |a|
  {
    var rest := a[|FirstPart(a)|..];
    FirstJoin(a, b);
    if rest == [] {
      JoinAtEnd(a, b);
    } else {
      ComponentsJoin(rest[1..], b);
      JoinInside(a, b);
    }
  }

  lemma JoinAtEnd(a: string, b: string)
    requires FirstPart(a) == a && FirstPart(a + "/" + b) == a
    ensures Components(a + "/" + b) == Components(a) + Components(b)
  {
    EndJoined(a, b);
    ComponentsStep(a + "/" + b);
    if a != [] { ComponentsStep(a); }
    WholeComponents(a);
  }

  lemma EndJoined(a: string, b: string)
    ensures (a + "/" + b)[|a|..] != [] && (a + "/" + b)[|a|..][1..] == b
  {
  }

  lemma WholeComponents(a: string)
    requires FirstPart(a) == a
    ensures Components(a) == if a == [] || a == "." then [] else [a]
  {
    if a != [] {
      ComponentsStep(a);
      assert a[|a|..] == [] && Components([]) == [];
    }
  }

  lemma JoinInside(a: string, b: string)
    requires FirstPart(a + "/" + b) == FirstPart(a) && a[|FirstPart(a)|..] != []
    requires var rest := a[|FirstPart(a)|..]; Components(rest[1..] + "/" + b) == Components(rest[1..]) + Components(b)
    ensures Components(a + "/" + b) == Components(a) + Components(b)
  {
    var head := FirstPart(a);
    var rest := a[|head|..];
    RestJoined(a, b, |head|);
    ComponentsStep(a + "/" + b);
    ComponentsStep(a);
    Grouped(if head == [] || head == "." then [] else [head], Components(rest[1..]), Components(b));
  }

  lemma RestJoined(a: string, b: string, n: nat)
    requires n < |a|
    ensures (a + "/" + b)[n..] != [] && (a + "/" + b)[n..][1..] == a[n..][1..] + "/" + b
  {
  }

  lemma Grouped(x: seq<string>, y: seq<string>, z: seq<string>)
    ensures x + (y + z) == x + y + z
  {
  }

  lemma ComponentsStep(s: string)
    requires s != []
    ensures var head := FirstPart(s);
            var rest := s[|head|..];
            Components(s) == (if head == [] || head == "." then [] else [head]) +
                             Components(if rest == [] then [] else rest[1..])
  {
  }

  lemma {:induction false} FirstJoin(a: string, b: string)
    ensures FirstPart(a + "/" + b) == FirstPart(a)
  {
    var s := a + "/" + b;
    if a == [] {
      assert s[0] == '/';
    } else {
      assert s[0] == a[0] && s[1..] == a[1..] + "/" + b;
      FirstJoin(a[1..], b);
    }
  }

  lemma {:induction false} FirstWhole(base: string)
    requires '/' !in base
    ensures FirstPart(base) == base
  {
    if base != [] {
      FirstWhole(base[1..]);
      assert base == [base[0]] + base[1..];
    }
  }

  lemma ComponentsOne(base: string)
    requires '/' !in base
    ensures Components(base) == if base == "" || base == "." then [] else [base]
  {
    FirstWhole(base);
    if base != [] { assert base[|base|..] == []; }
  }

  /** The name of a path is what follows its last slash, where trailing slashes and
      "." parts do not count. */
  lemma PathNameIs(dir: string, base: string)
    requires '/' !in base
    ensures base != "" && base != "." ==> PathName(base) == base && PathName(dir + "/" + base) == base
    ensures base == "" || base == "." ==> PathName(base) == "" && PathName(dir + "/" + base) == PathName(dir)
  {
    ComponentsOne(base);
    ComponentsJoin(dir, base);
    assert Components(dir) + [] == Components(dir);
  }

  /** A test run is a program whose name ends in ".test", or "go" with "test" as its
      first argument after a change of directory. */
  lemma TestRunIff(words: seq<string>)
    requires words != []
    ensures IsTestRun(words) <==>
            var name, n := PathName(words[0]), |words|;
            || (|name| >= 5 && name[|name| - 5..] == ".test")
            || (name == "go" && (|| (n > 1 && words[1] == "test")
                                 || (n > 3 && words[1] == "-C" && words[3] == "test")
                                 || (n > 2 && "-C=" <= words[1] && words[2] == "test")))
  {
    var arguments := words[1..];
    assert |".test"| == 5;
    if |words| > 1 {
      assert arguments[0] == words[1];
      assert words[1] == "test" ==> words[1] != "-C" && !("-C=" <= words[1]) by {
        if words[1] == "test" { assert words[1][0] == 't' && "-C="[0] == '-' && "-C"[0] == '-'; }
      }
      assert words[1] == "-C" ==> !("-C=" <= words[1]);
    }
  }

  lemma {:induction false} LatestRow(rows: seq<(int, Process)>, k: int)
    requires 0 <= k < |rows| && forall i | k < i < |rows| :: rows[i].0 != rows[k].0
    ensures rows[k].0 in Latest(rows) && Latest(rows)[rows[k].0] == rows[k].1
  {
    if k < |rows| - 1 { LatestRow(rows[..|rows| - 1], k); }
  }

  /** The last row of each pid is the one that counts. */
  lemma {:induction false} RowOfPid(rows: seq<(int, Process)>, pid: int) returns (k: int)
    requires pid in Latest(rows)
    ensures 0 <= k < |rows| && rows[k].0 == pid && Latest(rows)[pid] == rows[k].1
    ensures forall i | k < i < |rows| :: rows[i].0 != pid
  {
    var n := |rows| - 1;
    k := n;
    if rows[n].0 != pid { k := RowOfPid(rows[..n], pid); }
  }

  /** The found pids are those whose last row is a test run and whose parents, by
      the last rows, do not lead to the own pid. */
  lemma FoundIff(rows: seq<(int, Process)>, ownPid: int, pid: int)
    requires forall i | 0 <= i < |rows| :: rows[i].1.words != []
    ensures Runnable(Listed(rows), Latest(rows))
    ensures pid in Outsiders(Listed(rows), Latest(rows), ownPid) <==>
            (exists k | 0 <= k < |rows| :: rows[k].0 == pid && IsTestRun(rows[k].1.words) &&
                                           forall i | k < i < |rows| :: rows[i].0 != pid) &&
            !Reaches(Latest(rows), pid, ownPid)
  {
    ListedRunnable(rows);
    OutsidersMeaning(Listed(rows), Latest(rows), ownPid);
    if pid in Latest(rows) { var k := RowOfPid(rows, pid); }
    if k :| 0 <= k < |rows| && rows[k].0 == pid && IsTestRun(rows[k].1.words) && forall i | k < i < |rows| ::
      rows[i].0 != pid {
      LatestRow(rows, k);
    }
  }
}
