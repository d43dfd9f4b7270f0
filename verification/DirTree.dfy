/** Directory paths and their order, said of their bytes. */
module DirTree {
  import opened Bits
  import opened DirPath
  import opened Orders

  // ---------------------------------------------------------------- order

  /** The paths are equal up to i, and there a ends, or has a slash, or the lower byte and b
      has no slash. */
  ghost predicate FirstBefore(a: Path, b: Path, i: nat) {
    && i <= |a| && i < |b| && a[..i] == b[..i]
    && (i < |a| ==> a[i] != b[i] && (a[i] == '/' as int || (b[i] != '/' as int && a[i] < b[i])))
  }

  lemma {:induction false} EqualUpTo(a: Path, b: Path, i: nat)
    requires i <= |a| && i <= |b| && a[..i] == b[..i]
    ensures forall k :: 0 <= k < i ==> a[k] == b[k]
  {
    assert forall k :: 0 <= k < i ==> a[k] == a[..i][k] && b[k] == b[..i][k];
  }

  lemma {:induction false} LessAtFirstDifference(a: Path, b: Path)
    ensures DirLess(a, b) <==> exists i: nat :: FirstBefore(a, b, i)
  {
    if a == [] || b == [] {
      if a == [] && b != [] { assert FirstBefore(a, b, 0); }
    } else if a[0] != b[0] {
      if DirLess(a, b) { assert FirstBefore(a, b, 0); }
      forall i: nat | FirstBefore(a, b, i) ensures i == 0 { EqualUpTo(a, b, i); }
    } else {
      LessAtFirstDifference(a[1..], b[1..]);
      if i: nat :| FirstBefore(a, b, i) { LessInTails(a, b, i); }
      if i: nat :| FirstBefore(a[1..], b[1..], i) { LessWithHead(a, b, i); }
    }
  }

  lemma {:induction false} LessInTails(a: Path, b: Path, i: nat)
    requires a != [] && b != [] && a[0] == b[0] && FirstBefore(a, b, i)
    ensures i > 0 && FirstBefore(a[1..], b[1..], i - 1)
  {
    if i > 0 { assert a[1..][..i - 1] == a[..i][1..] == b[..i][1..] == b[1..][..i - 1]; }
  }

  lemma {:induction false} LessWithHead(a: Path, b: Path, i: nat)
    requires a != [] && b != [] && a[0] == b[0] && FirstBefore(a[1..], b[1..], i)
    ensures FirstBefore(a, b, i + 1)
  {
    assert a[..i + 1] == [a[0]] + a[1..][..i] && b[..i + 1] == [b[0]] + b[1..][..i];
  }

  // ---------------------------------------------------------------- paths

  ghost predicate EndsInSlash(p: Path) {
    p != [] && p[|p| - 1] == '/' as int
  }

  ghost predicate DoubleSlash(p: Path) {
    exists i :: 0 < i < |p| && p[i - 1] == p[i] == '/' as int
  }

  /** Below a directory is what goes on with a slash; below the root, what begins with one. */
  lemma {:induction false} WithinMeans(p: Path, dir: Path)
    requires dir != []
    ensures !EndsInSlash(dir) ==>
      (Within(p, dir) <==> p == dir || (|p| > |dir| && p[..|dir|] == dir && p[|dir|] == '/' as int))
    ensures dir == ['/' as int] ==> (Within(p, dir) <==> p != [] && p[0] == '/' as int)
  {
    if |p| > |dir| { assert p[..|dir| + 1] == p[..|dir|] + [p[|dir|]]; }
  }

  /** No directory is reached by two slashes in a row. */
  lemma {:induction false} SingleSlashes(root: Path, d: Dir, p: Path)
    requires Proper(d) && !DoubleSlash(root) && p in AllDirs(root, d)
    ensures !DoubleSlash(p)
    decreases d
  {
    hide AllDirs, ChildPath;
    AllBelow(root, d, p);
    if p != root {
      var i :| 0 <= i < |d.children| && p in AllDirs(ChildPath(root, d.names[i]), d.children[i]);
      ChildSlashes(root, d.names[i]);
      SingleSlashes(ChildPath(root, d.names[i]), d.children[i], p);
    }
  }

  lemma {:induction false} ChildSlashes(path: Path, name: Path)
    requires name != [] && '/' as int !in name
    ensures !DoubleSlash(path) ==> !DoubleSlash(ChildPath(path, name))
    ensures !EndsInSlash(ChildPath(path, name))
    ensures ChildPath(path, name) == if EndsInSlash(path) then path + name else path + ['/' as int] + name
  {
    var base, c := PlusSlash(path), ChildPath(path, name);
    assert c[|c| - 1] == name[|name| - 1] && name[|name| - 1] in name;
    forall i | |base| <= i < |c| ensures c[i] != '/' as int { assert c[i] == name[i - |base|] && c[i] in name; }
  }

  /** Every directory but the root is another one, a slash and a name; the root brings its own
      slash if it ends in one. */
  lemma {:induction false} ParentAndName(root: Path, d: Dir, p: Path) returns (parent: Path, name: Path)
    requires Proper(d) && p in AllDirs(root, d) && p != root
    ensures parent in AllDirs(root, d) && name != [] && '/' as int !in name
    ensures p == if parent == root && EndsInSlash(root) then parent + name else parent + ['/' as int] + name
    decreases d
  {
    hide Scanned, ChildPath;
    AllBelow(root, d, p);
    AllBelow(root, d, root);
    var i :| 0 <= i < |d.children| && p in AllDirs(ChildPath(root, d.names[i]), d.children[i]);
    var c := ChildPath(root, d.names[i]);
    ChildSlashes(root, d.names[i]);
    if p == c {
      parent, name := root, d.names[i];
    } else {
      parent, name := ParentAndName(c, d.children[i], p);
      AllBelow(root, d, parent);
      ScannedAreWithin(c, d.children[i], [], parent);
      BelowNotRoot(root, d.names[i], parent);
    }
  }

  lemma {:induction false} BelowNotRoot(root: Path, name: Path, p: Path)
    requires Name(name) && Within(p, ChildPath(root, name))
    ensures p != root
  {
  }

  /** A tree of any shape will do, with the names in each directory in byte order. */
  lemma {:induction false} ProperIf(d: Dir)
    requires |d.names| == |d.children|
    requires forall i :: 0 <= i < |d.names| ==> d.names[i] != [] && '/' as int !in d.names[i]
    requires forall i, k :: 0 <= i < k < |d.names| ==> exists m: nat :: FirstBelow(d.names[i], d.names[k], m)
    requires forall i :: 0 <= i < |d.children| ==> Proper(d.children[i])
    ensures Proper(d)
  {
    hide FirstBelow;
    forall i, k | 0 <= i < k < |d.names| ensures NameLess(d.names[i], d.names[k]) {
      LessAtDifference(d.names[i], d.names[k]);
    }
  }

  /** In the root with directories p and q, leaving out /p leaves the root and /q. */
  lemma {:induction false} PrunedRoot()
    ensures var p, q, slash := 'p' as int, 'q' as int, '/' as int;
      var d := Dir([[p], [q]], [Dir([], []), Dir([], [])]);
      Proper(d) && Scanned([slash], d, [[slash, p]]) == [[slash], [slash, q]]
  {
    var p, q, slash := 'p' as int, 'q' as int, '/' as int;
    var leaf := Dir([], []);
    var d := Dir([[p], [q]], [leaf, leaf]);
    var list: seq<Path> := [[slash, p]];
    assert Proper(leaf);
    assert Proper(d);
    assert ChildPath([slash], [p]) == [slash, p] && ChildPath([slash], [q]) == [slash, q];
    assert ScannedBelow([slash, q], leaf, list, 0) == [];
    assert Scanned([slash, p], leaf, list) == [] && Scanned([slash, q], leaf, list) == [[slash, q]];
    assert ScannedBelow([slash], d, list, 0) == [];
    assert ScannedBelow([slash], d, list, 1) == [];
    assert ScannedBelow([slash], d, list, 2) == [[slash, q]];
    assert Scanned([slash], d, list) == [[slash]] + [[slash, q]];
  }
}
