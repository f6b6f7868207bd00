/** Attachment names as paths. The byte scan that decides whether a list of
    names can coexist refines a file tree: it finds no conflict exactly when
    the names can be created as files one after another, in any order. */
module Attachments {
  import opened Outcomes
  import opened Utf8
  import opened Sorting

  /** A name is its UTF-8 bytes. */
  type Name = seq<Byte>

  const SLASH: Byte := 0x2F
  const DOT: Byte := 0x2E
  const MAX_NAME_BYTES := 1024
  const MAX_SEGMENT_BYTES := 255

  // ----- the byte-level rules -----

  /** The parts between slashes, empty ones included. */
  function Split(name: Name): (segments: seq<Name>)
    ensures segments != []
  {
    if name == [] then [[]]
    else
      var rest := Split(name[1..]);
      if name[0] == SLASH then [[]] + rest else [[name[0]] + rest[0]] + rest[1..]
  }

  /** A control character of category Cc: C0, DEL, or C1 in two bytes. */
  predicate HasControl(name: Name) {
    exists i | 0 <= i < |name| ::
      || name[i] < 0x20 || name[i] == 0x7F
      || (name[i] == 0xC2 && i + 1 < |name| && 0x80 <= name[i + 1] < 0xA0)
  }

  predicate ValidSegment(segment: Name) {
    segment != [] && segment != [DOT] && segment != [DOT, DOT] && |segment| <= MAX_SEGMENT_BYTES
  }

  predicate ValidName(name: Name) {
    && name != [] && |name| <= MAX_NAME_BYTES && name[0] != SLASH
    && !HasControl(name)
    && forall i | 0 <= i < |Split(name)| :: ValidSegment(Split(name)[i])
  }

  /** A repeated name, or one that is a directory of another. */
  predicate NamesConflict(names: seq<Name>) {
    || !Distinct(names)
    || exists name | name in names :: exists end | 0 <= end < |name| :: name[end] == SLASH && name[..end] in names
  }

  // ----- byte prefixes before a slash are prefixes of the path -----

  function Join(segments: seq<Name>): Name
    requires segments != []
  {
    if |segments| == 1 then segments[0] else segments[0] + [SLASH] + Join(segments[1..])
  }

  lemma JoinPrepend(c: Byte, rest: seq<Name>)
    requires rest != []
    ensures Join([[c] + rest[0]] + rest[1..]) == [c] + Join(rest)
  {
    var longer := [[c] + rest[0]] + rest[1..];
    assert longer[1..] == rest[1..];
    if |rest| > 1 {
      assert Join(longer) == ([c] + rest[0]) + [SLASH] + Join(rest[1..]);
    }
  }

  lemma {:induction false} JoinSplit(name: Name)
    ensures Join(Split(name)) == name
  {
    if name != [] {
      var rest := Split(name[1..]);
      JoinSplit(name[1..]);
      if name[0] == SLASH {
        assert Split(name)[1..] == rest;
        assert [] + [SLASH] + name[1..] == name;
      } else {
        JoinPrepend(name[0], rest);
        assert name == [name[0]] + name[1..];
      }
    }
  }

  lemma SplitStep(c: Byte, rest: seq<Name>, tail: seq<Name>)
    requires rest != []
    ensures [[]] + (rest + tail) == [[]] + rest + tail
    ensures [[c] + (rest + tail)[0]] + (rest + tail)[1..] == [[c] + rest[0]] + rest[1..] + tail
  {
  }

  lemma {:induction false} SplitAppend(a: Name, b: Name)
    ensures Split(a + [SLASH] + b) == Split(a) + Split(b)
  {
    var s := a + [SLASH] + b;
    if a == [] {
      assert s[1..] == b;
    } else {
      assert s[1..] == a[1..] + [SLASH] + b;
      SplitAppend(a[1..], b);
      var rest := Split(a[1..]);
      assert s[0] == a[0];
      SplitStep(a[0], rest, Split(b));
    }
  }

  lemma {:induction false} JoinAppend(a: seq<Name>, b: seq<Name>)
    requires a != [] && b != []
    ensures Join(a + b) == Join(a) + [SLASH] + Join(b)
  {
    assert (a + b)[1..] == a[1..] + b;
    if |a| == 1 {
      assert a[1..] + b == b;
    } else {
      JoinAppend(a[1..], b);
    }
  }

  /** a is b, or the directory part of b up to one of its slashes. */
  predicate CutsTo(b: Name, a: Name) {
    a == b || exists end | 0 <= end < |b| :: b[end] == SLASH && b[..end] == a
  }

  lemma CutIsPathPrefix(a: Name, b: Name)
    ensures CutsTo(b, a) <==> Split(a) <= Split(b)
  {
    if end :| 0 <= end < |b| && b[end] == SLASH && b[..end] == a {
      assert b == a + [SLASH] + b[end + 1..];
      SplitAppend(a, b[end + 1..]);
    }
    if Split(a) <= Split(b) {
      var tail := Split(b)[|Split(a)|..];
      assert Split(b) == Split(a) + tail;
      JoinSplit(a);
      JoinSplit(b);
      if tail == [] {
        assert Split(a) == Split(b);
      } else {
        JoinAppend(Split(a), tail);
        assert b[..|a|] == a && b[|a|] == SLASH;
      }
    }
  }

  // ----- a tree of files and directories -----

  datatype Tree = File | Dir(children: map<Name, Tree>)

  const EMPTY := Dir(map[])

  /** Creates a file, and its directories as needed. It fails where a file
      stands in the way or something already has the name. */
  function Create(tree: Tree, path: seq<Name>): Option<Tree>
    requires path != []
    decreases |path|
  {
    if tree.File? then None
    else if |path| == 1 then
      if path[0] in tree.children then None else Some(Dir(tree.children[path[0] := File]))
    else
      match Create(if path[0] in tree.children then tree.children[path[0]] else EMPTY, path[1..])
      case Some(child) => Some(Dir(tree.children[path[0] := child]))
      case None => None
  }

  function CreateAll(names: seq<Name>): Option<Tree> {
    if names == [] then Some(EMPTY)
    else match CreateAll(names[..|names| - 1])
      case Some(tree) => Create(tree, Split(names[|names| - 1]))
      case None => None
  }

  predicate IsFile(tree: Tree, path: seq<Name>)
    decreases |path|
  {
    if path == [] then tree.File?
    else tree.Dir? && path[0] in tree.children && IsFile(tree.children[path[0]], path[1..])
  }

  predicate IsDir(tree: Tree, path: seq<Name>)
    decreases |path|
  {
    if path == [] then tree.Dir?
    else tree.Dir? && path[0] in tree.children && IsDir(tree.children[path[0]], path[1..])
  }

  lemma PrefixTail(q: seq<Name>, p: seq<Name>)
    requires q != [] && p != []
    ensures q <= p <==> q[0] == p[0] && q[1..] <= p[1..]
    ensures q < p <==> q[0] == p[0] && q[1..] < p[1..]
    ensures q == p <==> q[0] == p[0] && q[1..] == p[1..]
  {
    if q[0] == p[0] && q[1..] <= p[1..] {
      assert q == [q[0]] + q[1..] && p == [p[0]] + p[1..];
    }
  }

  lemma EmptyTree(path: seq<Name>)
    ensures !IsFile(EMPTY, path) && (IsDir(EMPTY, path) <==> path == [])
  {
  }

  /** Creation succeeds unless a file stands at a prefix of the path or a
      directory at the path itself. */
  lemma {:induction false} CreateSucceeds(tree: Tree, path: seq<Name>)
    requires path != []
    ensures Create(tree, path).Some? <==> !IsDir(tree, path) && forall q | q <= path :: !IsFile(tree, q)
    decreases |path|
  {
    if tree.File? {
      assert IsFile(tree, []);
      assert exists q :: q <= path && IsFile(tree, q);
    } else if |path| == 1 {
      assert path[1..] == [];
      forall q | q <= path
        ensures IsFile(tree, q) <==> q == path && path[0] in tree.children && tree.children[path[0]].File?
      {
        if q != [] { assert q == path; }
      }
      if path[0] in tree.children {
        var child := tree.children[path[0]];
        assert Create(tree, path).None?;
        if child.File? {
          assert IsFile(child, path[1..]);
          assert IsFile(tree, path);
          assert exists q :: q <= path && IsFile(tree, q);
        } else {
          assert IsDir(child, path[1..]);
          assert IsDir(tree, path);
        }
      } else {
        assert !IsDir(tree, path);
      }
    } else {
      var child := if path[0] in tree.children then tree.children[path[0]] else EMPTY;
      CreateSucceeds(child, path[1..]);
      EmptyTree(path[1..]);
      if r :| r <= path[1..] && IsFile(child, r) {
        EmptyTree(r);
        var q := [path[0]] + r;
        assert q[1..] == r;
        assert q[0] == path[0] && path[0] in tree.children;
        PrefixTail(q, path);
        assert IsFile(tree, q);
        assert exists p :: p <= path && IsFile(tree, p);
      }
      assert IsDir(tree, path) <==> IsDir(child, path[1..]);
      if q :| q <= path && IsFile(tree, q) {
        PrefixTail(q, path);
        assert IsFile(child, q[1..]);
        assert exists r :: r <= path[1..] && IsFile(child, r);
      }
    }
  }

  /** A successful creation adds one file, and makes its proper prefixes directories. */
  lemma {:induction false} CreateAdds(tree: Tree, path: seq<Name>, q: seq<Name>)
    requires path != [] && Create(tree, path).Some?
    ensures IsFile(Create(tree, path).value, q) <==> IsFile(tree, q) || q == path
    ensures IsDir(Create(tree, path).value, q) <==> IsDir(tree, q) || q < path
    decreases |path|
  {
    if q != [] {
      PrefixTail(q, path);
      if |path| == 1 {
        assert path[1..] == [];
        assert q[0] == path[0] ==> !IsFile(tree, q) && !IsDir(tree, q);
      } else {
        var child := if path[0] in tree.children then tree.children[path[0]] else EMPTY;
        if q[0] == path[0] {
          CreateAdds(child, path[1..], q[1..]);
          EmptyTree(q[1..]);
          if path[0] !in tree.children && IsDir(EMPTY, q[1..]) { assert q[1..] < path[1..]; }
        }
      }
    }
  }

  /** Every two names split into unrelated paths. */
  predicate Unrelated(names: seq<Name>) {
    forall i, j | 0 <= i < |names| && 0 <= j < |names| && i != j :: !(Split(names[i]) <= Split(names[j]))
  }

  predicate Holds(names: seq<Name>, path: seq<Name>) {
    exists i | 0 <= i < |names| :: Split(names[i]) == path
  }

  predicate Above(names: seq<Name>, path: seq<Name>) {
    exists i | 0 <= i < |names| :: path < Split(names[i])
  }

  /** The tree's files are exactly the names, its directories their parents. */
  ghost predicate Mirrors(tree: Tree, names: seq<Name>) {
    && (forall q :: IsFile(tree, q) <==> Holds(names, q))
    && (forall q :: IsDir(tree, q) <==> q == [] || Above(names, q))
  }

  lemma CreatedApart(tree: Tree, names: seq<Name>, path: seq<Name>, i: nat)
    requires Mirrors(tree, names) && i < |names| && path != []
    requires !IsDir(tree, path) && forall q | q <= path :: !IsFile(tree, q)
    ensures !(Split(names[i]) <= path) && !(path <= Split(names[i]))
  {
    var own := Split(names[i]);
    assert Holds(names, own);
    assert IsFile(tree, own);
    assert path < own ==> Above(names, path);
  }

  lemma MirrorStep(tree: Tree, names: seq<Name>, name: Name)
    requires Mirrors(tree, names)
    ensures Create(tree, Split(name)).Some? <==>
            forall i | 0 <= i < |names| :: !(Split(names[i]) <= Split(name)) && !(Split(name) <= Split(names[i]))
    ensures Create(tree, Split(name)).Some? ==> Mirrors(Create(tree, Split(name)).value, names + [name])
  {
    var path, more := Split(name), names + [name];
    CreateSucceeds(tree, path);
    if Create(tree, path).Some? {
      forall i | 0 <= i < |names| ensures !(Split(names[i]) <= path) && !(path <= Split(names[i])) {
        CreatedApart(tree, names, path, i);
      }
      forall q
        ensures IsFile(Create(tree, path).value, q) <==> Holds(more, q)
        ensures IsDir(Create(tree, path).value, q) <==> q == [] || Above(more, q)
      {
        CreateAdds(tree, path, q);
        HoldsAppend(names, name, q);
      }
    } else if IsDir(tree, path) {
      assert Above(names, path);
    } else {
      var q :| q <= path && IsFile(tree, q);
      assert Holds(names, q);
    }
  }

  lemma HoldsAppend(names: seq<Name>, name: Name, q: seq<Name>)
    ensures Holds(names + [name], q) <==> Holds(names, q) || Split(name) == q
    ensures Above(names + [name], q) <==> Above(names, q) || q < Split(name)
  {
    var more := names + [name];
    assert forall i | 0 <= i < |names| :: more[i] == names[i];
    assert more[|names|] == name;
  }

  lemma UnrelatedAppend(names: seq<Name>, name: Name)
    ensures Unrelated(names + [name]) <==>
            (Unrelated(names) &&
             forall i | 0 <= i < |names| :: !(Split(names[i]) <= Split(name)) && !(Split(name) <= Split(names[i])))
  {
    var more := names + [name];
    assert forall i | 0 <= i < |names| :: more[i] == names[i];
    assert more[|names|] == name;
  }

  /** The names can be created in this order exactly when no path is a prefix of
      another, and then the tree holds exactly them. */
  lemma {:induction false} CreateAllIff(names: seq<Name>)
    ensures CreateAll(names).Some? <==> Unrelated(names)
    ensures CreateAll(names).Some? ==> Mirrors(CreateAll(names).value, names)
  {
    if names == [] {
      forall q ensures !IsFile(EMPTY, q) && (IsDir(EMPTY, q) <==> q == []) { EmptyTree(q); }
    } else {
      var front, last := names[..|names| - 1], names[|names| - 1];
      assert names == front + [last];
      CreateAllIff(front);
      UnrelatedAppend(front, last);
      if CreateAll(front).Some? { MirrorStep(CreateAll(front).value, front, last); }
    }
  }

  /** The byte scan sees a conflict exactly when two paths are related. */
  lemma ConflictIsRelation(names: seq<Name>)
    ensures NamesConflict(names) <==> !Unrelated(names)
  {
    if !Distinct(names) {
      var i, j :| 0 <= i < j < |names| && names[i] == names[j];
      assert Split(names[i]) <= Split(names[j]);
    }
    if name, end :| name in names && 0 <= end < |name| && name[end] == SLASH && name[..end] in names {
      var j :| 0 <= j < |names| && names[j] == name;
      var i :| 0 <= i < |names| && names[i] == name[..end];
      CutIsPathPrefix(name[..end], name);
      assert Split(names[i]) <= Split(names[j]) && i != j;
    }
    if !Unrelated(names) {
      var i, j :| 0 <= i < |names| && 0 <= j < |names| && i != j && Split(names[i]) <= Split(names[j]);
      CutIsPathPrefix(names[i], names[j]);
      if names[i] != names[j] {
        var end :| 0 <= end < |names[j]| && names[j][end] == SLASH && names[j][..end] == names[i];
        assert names[j] in names && names[j][..end] in names;
      }
    }
  }

  /** No conflict exactly when the names, in this or any other order, can be
      created as files; the tree's files are then exactly the names. */
  lemma ConflictFreeIsATree(names: seq<Name>, order: seq<Name>)
    requires multiset(order) == multiset(names)
    ensures !NamesConflict(names) <==> CreateAll(order).Some?
    ensures !NamesConflict(names) ==> Mirrors(CreateAll(order).value, order)
    ensures !NamesConflict(names) ==> forall q :: IsFile(CreateAll(order).value, q) <==> Holds(names, q)
  {
    ConflictIsRelation(order);
    CreateAllIff(order);
    ConflictUnordered(names, order);
    forall q ensures Holds(names, q) <==> Holds(order, q) { HoldsUnordered(names, order, q); }
  }

  lemma ConflictUnordered(a: seq<Name>, b: seq<Name>)
    requires multiset(a) == multiset(b)
    ensures NamesConflict(a) <==> NamesConflict(b)
  {
    SameElements(a, b);
    DistinctIsMultiplicity(a);
    DistinctIsMultiplicity(b);
  }

  lemma HoldsUnordered(a: seq<Name>, b: seq<Name>, q: seq<Name>)
    requires multiset(a) == multiset(b)
    ensures Holds(a, q) <==> Holds(b, q)
  {
    SameElements(a, b);
    if i :| 0 <= i < |a| && Split(a[i]) == q { assert a[i] in b; }
    if i :| 0 <= i < |b| && Split(b[i]) == q { assert b[i] in a; }
  }

  /** Every directory above a valid name is itself a valid name. */
  lemma ParentValid(name: Name, end: nat)
    requires ValidName(name) && end < |name| && name[end] == SLASH
    ensures ValidName(name[..end])
  {
    var parent := name[..end];
    assert name == parent + [SLASH] + name[end + 1..];
    SplitAppend(parent, name[end + 1..]);
    forall i | 0 <= i < |Split(parent)| ensures ValidSegment(Split(parent)[i]) {
      assert Split(name)[i] == Split(parent)[i];
    }
    assert parent != [];
    assert forall i | 0 <= i < |parent| :: parent[i] == name[i];
  }
}
