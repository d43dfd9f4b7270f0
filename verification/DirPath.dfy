/** The order of directories in the database, and the list of directories to leave out. */
module DirPath {
  import opened Bits
  import opened Orders

  type Path = seq<byte>

  const SLASH: byte := 47

  /** Negative, zero or positive as a comes before, is, or comes after b. */
  function DirPathCmp(a: Path, b: Path): int {
    if a == [] && b == [] then 0
    else if a == [] then -1
    else if b == [] then 1
    else if a[0] == b[0] then DirPathCmp(a[1..], b[1..])
    else if a[0] == SLASH then -1
    else if b[0] == SLASH then 1
    else a[0] as int - b[0] as int
  }

  predicate DirLess(a: Path, b: Path) {
    DirPathCmp(a, b) < 0
  }

  /** The order of single bytes that the comparison amounts to. */
  function Rank(c: byte): nat {
    if c == SLASH then 0 else c + 1
  }

  function Ranks(a: Path): (r: seq<nat>)
    ensures |r| == |a|
  {
    if a == [] then [] else [Rank(a[0])] + Ranks(a[1..])
  }

  /** Plain lexicographic order, with the slash as the lowest byte. */
  lemma {:induction false} CmpIsRankOrder(a: Path, b: Path)
    ensures DirLess(a, b) <==> ListLess(Ranks(a), Ranks(b))
    ensures DirPathCmp(a, b) == 0 <==> a == b
    ensures DirPathCmp(a, b) > 0 <==> DirLess(b, a)
    ensures Ranks(a) == Ranks(b) <==> a == b
  {
    if a != [] && b != [] {
      assert Ranks(a)[0] == Rank(a[0]) && Ranks(b)[0] == Rank(b[0]);
      assert Ranks(a)[1..] == Ranks(a[1..]) && Ranks(b)[1..] == Ranks(b[1..]);
      assert a == [a[0]] + a[1..] && b == [b[0]] + b[1..];
      CmpIsRankOrder(a[1..], b[1..]);
    }
  }

  lemma {:induction false} DirOrder()
    ensures StrictTotal(DirLess)
  {
    hide ListLess, DirPathCmp;
    forall x: Path, y: Path ensures !(DirLess(x, y) && DirLess(y, x)) && (x == y || DirLess(x, y) || DirLess(y, x)) {
      CmpIsRankOrder(x, y);
      CmpIsRankOrder(y, x);
      ListLessTotal(Ranks(x), Ranks(y));
    }
    forall x: Path, y: Path, z: Path | DirLess(x, y) && DirLess(y, z) ensures DirLess(x, z) {
      CmpIsRankOrder(x, y);
      CmpIsRankOrder(y, z);
      CmpIsRankOrder(x, z);
      ListLessTransitive(Ranks(x), Ranks(y), Ranks(z));
    }
  }

  lemma {:induction false} CommonPrefix(p: Path, a: Path, b: Path)
    ensures DirPathCmp(p + a, p + b) == DirPathCmp(a, b)
  {
    if p == [] {
      assert p + a == a && p + b == b;
    } else {
      assert (p + a)[1..] == p[1..] + a && (p + b)[1..] == p[1..] + b;
      CommonPrefix(p[1..], a, b);
    }
  }

  // ---------------------------------------------------------------- the traversal

  /** A directory with the directories in it, by name. */
  datatype Dir = Dir(names: seq<Path>, children: seq<Dir>)

  /** The order in which a directory's entries are sorted. */
  predicate NameLess(a: Path, b: Path) {
    ListLess(a, b)
  }

  predicate Name(n: Path) {
    n != [] && SLASH !in n
  }

  ghost predicate Proper(d: Dir)
    decreases d
  {
    && |d.names| == |d.children|
    && (forall i :: 0 <= i < |d.names| ==> Name(d.names[i]))
    && Sorted(d.names, NameLess)
    && forall i :: 0 <= i < |d.children| ==> Proper(d.children[i])
  }

  function PlusSlash(path: Path): Path {
    if path != [] && path[|path| - 1] == SLASH then path else path + [SLASH]
  }

  function ChildPath(path: Path, name: Path): Path {
    PlusSlash(path) + name
  }

  /** p is the directory or something below it. */
  ghost predicate Within(p: Path, dir: Path) {
    p == dir || PlusSlash(dir) <= p
  }

  lemma {:induction false} ParentFirst(path: Path, name: Path)
    requires name != []
    ensures DirLess(path, ChildPath(path, name))
  {
    var rest := ChildPath(path, name)[|path|..];
    assert ChildPath(path, name) == path + rest;
    assert path + [] == path;
    CommonPrefix(path, [], rest);
  }

  /** Names without slashes, in plain order: everything under the first comes first. */
  lemma {:induction false} NameThenSlash(a: Path, b: Path, rest: Path)
    requires SLASH !in a && SLASH !in b && ListLess(a, b)
    ensures DirLess(a, b) && DirLess(a + [SLASH] + rest, b)
  {
    var x := a + [SLASH] + rest;
    if a == [] {
      assert x[0] == SLASH && b[0] in b;
    } else {
      assert x[0] == a[0] && x[1..] == a[1..] + [SLASH] + rest;
      assert a[0] in a && b[0] in b;
      if a[0] == b[0] { NameThenSlash(a[1..], b[1..], rest); }
    }
  }

  lemma {:induction false} SiblingsInOrder(path: Path, a: Path, b: Path, p: Path)
    requires Name(a) && Name(b) && ListLess(a, b) && Within(p, ChildPath(path, a))
    ensures DirLess(p, ChildPath(path, b))
  {
    hide DirPathCmp, ListLess;
    var base := PlusSlash(path);
    var x := ChildPath(path, a);
    LastByte(base, a);
    if p == x {
      NameThenSlash(a, b, []);
      CommonPrefix(base, a, b);
    } else {
      var rest := p[|x| + 1..];
      assert p == PlusSlash(x) + rest == base + (a + [SLASH] + rest);
      NameThenSlash(a, b, rest);
      CommonPrefix(base, a + [SLASH] + rest, b);
    }
  }

  lemma {:induction false} LastByte(base: Path, a: Path)
    requires Name(a)
    ensures PlusSlash(base + a) == base + a + [SLASH]
  {
    assert (base + a)[|base + a| - 1] == a[|a| - 1] && a[|a| - 1] in a;
  }

  lemma {:induction false} BelowIsWithin(path: Path, name: Path, p: Path)
    requires Name(name) && Within(p, ChildPath(path, name))
    ensures Within(p, path)
  {
    LastByte(PlusSlash(path), name);
  }

  // ---------------------------------------------------------------- leaving out directories

  /** A sorted list of directories with a place in it that only moves forward. */
  class PruneList {
    const list: seq<Path>
    var index: nat
    /** The last directory asked about. */
    ghost var asked: seq<Path>

    ghost predicate Valid()
      reads this
    {
      && index <= |list|
      && (forall i, k :: 0 <= i < k < |list| ==> list[i] == list[k] || DirLess(list[i], list[k]))
      && (index > 0 ==>
        asked != [] && (list[index - 1] == asked[|asked| - 1] || DirLess(list[index - 1], asked[|asked| - 1])))
    }

    ghost predicate Ready(path: Path)
      reads this
    {
      asked == [] || DirLess(asked[|asked| - 1], path)
    }

    constructor (list: seq<Path>)
      requires forall i, k :: 0 <= i < k < |list| ==> list[i] == list[k] || DirLess(list[i], list[k])
      ensures Valid() && asked == [] && this.list == list
    {
      this.list := list;
      index := 0;
      asked := [];
    }

    /** string_list_contains_dir_path: exact, as long as the questions come in order. */
    method Contains(path: Path) returns (found: bool)
      requires Valid() && Ready(path)
      modifies this`index, this`asked
      ensures Valid() && asked == old(asked) + [path]
      ensures found <==> path in list
    {
      hide DirLess, DirPathCmp;
      var cmp := 0;
      Behind(path);
      while index < |list|
        invariant index <= |list| && asked == old(asked)
        invariant forall i :: 0 <= i < index ==> DirLess(list[i], path)
      {
        cmp := DirPathCmp(list[index], path);
        CmpSign(list[index], path);
        if cmp >= 0 {
          break;
        }
        index := index + 1;
      }
      asked := asked + [path];
      if index < |list| && cmp == 0 {
        index := index + 1;
        return true;
      }
      NotListed(path);
      found := false;
    }

    lemma {:induction false} Behind(path: Path)
      requires Valid() && Ready(path)
      ensures forall i :: 0 <= i < index ==> DirLess(list[i], path)
    {
      hide DirPathCmp, DirLess;
      forall i | 0 <= i < index ensures DirLess(list[i], path) {
        var last := asked[|asked| - 1];
        assert i < index - 1 ==> list[i] == list[index - 1] || DirLess(list[i], list[index - 1]);
        if list[index - 1] != last { DirTransitive(list[index - 1], last, path); }
        if list[i] != list[index - 1] { DirTransitive(list[i], list[index - 1], path); }
      }
    }

    lemma {:induction false} NotListed(path: Path)
      requires index <= |list|
      requires (forall i, k :: 0 <= i < k < |list| ==> list[i] == list[k] || DirLess(list[i], list[k]))
      requires forall i :: 0 <= i < index ==> DirLess(list[i], path)
      requires index < |list| ==> DirLess(path, list[index])
      ensures path !in list
    {
      hide DirPathCmp, DirLess;
      forall i | 0 <= i < |list| ensures list[i] != path {
        CmpSign(path, path);
        if i > index && list[i] != list[index] { DirTransitive(path, list[index], list[i]); }
      }
    }
  }

  lemma {:induction false} CmpSign(a: Path, b: Path)
    ensures DirPathCmp(a, b) < 0 <==> DirLess(a, b)
    ensures DirPathCmp(a, b) == 0 <==> a == b
    ensures DirPathCmp(a, b) > 0 <==> DirLess(b, a)
    ensures DirLess(a, b) ==> a != b
  {
    hide DirPathCmp;
    CmpIsRankOrder(a, b);
    if a == b { CmpIsRankOrder(b, a); }
  }

  lemma {:induction false} DirTransitive(a: Path, b: Path, c: Path)
    requires DirLess(a, b) && DirLess(b, c)
    ensures DirLess(a, c)
  {
    hide DirPathCmp;
    DirOrder();
  }

  /** The directories of a tree that are scanned: not in the list, nor below one that is. */
  function Scanned(path: Path, d: Dir, list: seq<Path>): seq<Path>
    requires Proper(d)
    decreases d, 1
  {
    if path in list then [] else [path] + ScannedBelow(path, d, list, |d.children|)
  }

  function ScannedBelow(path: Path, d: Dir, list: seq<Path>, n: nat): seq<Path>
    requires Proper(d) && n <= |d.children|
    decreases d, 0, n
  {
    if n == 0 then []
    else ScannedBelow(path, d, list, n - 1) + Scanned(ChildPath(path, d.names[n - 1]), d.children[n - 1], list)
  }

  /** Everything asked about by a scan of path is within it, in strictly increasing order. */
  ghost predicate AskedWithin(before: seq<Path>, after: seq<Path>, path: Path) {
    && before < after
    && forall i :: |before| <= i < |after| ==> Within(after[i], path) && (i > 0 ==> DirLess(after[i - 1], after[i]))
  }

  /** scan, as far as directories go: which ones are entered, in which order. */
  method Scan(prune: PruneList, path: Path, d: Dir) returns (scanned: seq<Path>)
    requires prune.Valid() && Proper(d) && prune.Ready(path)
    modifies prune`index, prune`asked
    decreases d, 1
    ensures prune.Valid() && AskedWithin(old(prune.asked), prune.asked, path)
    ensures scanned == Scanned(path, d, prune.list)
  {
    hide DirPathCmp, ListLess, PruneList.Valid;
    var found := prune.Contains(path);
    if found {
      return [];
    }
    var below := ScanBelow(prune, path, d, old(prune.asked));
    scanned := [path] + below;
  }

  method ScanBelow(prune: PruneList, path: Path, d: Dir, ghost before: seq<Path>) returns (scanned: seq<Path>)
    requires prune.Valid() && Proper(d) && prune.asked == before + [path]
    requires AskedWithin(before, prune.asked, path)
    modifies prune`index, prune`asked
    decreases d, 0
    ensures prune.Valid() && AskedWithin(before, prune.asked, path)
    ensures scanned == ScannedBelow(path, d, prune.list, |d.children|)
  {
    hide DirPathCmp, ListLess, PruneList.Valid, DirLess, Within, ChildPath;
    scanned := [];
    for i := 0 to |d.children|
      invariant prune.Valid() && AskedWithin(before, prune.asked, path)
      invariant scanned == ScannedBelow(path, d, prune.list, i)
      invariant i == 0 ==> prune.asked[|prune.asked| - 1] == path
      invariant i > 0 ==> Within(prune.asked[|prune.asked| - 1], ChildPath(path, d.names[i - 1]))
    {
      var child := ChildPath(path, d.names[i]);
      ghost var was := prune.asked;
      if i == 0 {
        ParentFirst(path, d.names[0]);
      } else {
        assert NameLess(d.names[i - 1], d.names[i]);
        SiblingsInOrder(path, d.names[i - 1], d.names[i], was[|was| - 1]);
      }
      var more := Scan(prune, child, d.children[i]);
      AskedMore(before, was, prune.asked, path, d.names[i]);
      scanned := scanned + more;
    }
  }

  lemma {:induction false} AskedMore(before: seq<Path>, was: seq<Path>, now: seq<Path>, path: Path, name: Path)
    requires AskedWithin(before, was, path) && AskedWithin(was, now, ChildPath(path, name)) && Name(name)
    ensures AskedWithin(before, now, path)
    ensures Within(now[|now| - 1], ChildPath(path, name))
  {
    hide DirLess, Within, ChildPath;
    forall i | |before| <= i < |now| ensures Within(now[i], path) && (i > 0 ==> DirLess(now[i - 1], now[i])) {
      if i < |was| {
        assert now[i] == was[i] && (i > 0 ==> now[i - 1] == was[i - 1]);
      } else {
        BelowIsWithin(path, name, now[i]);
      }
    }
  }

  // ---------------------------------------------------------------- which directories are scanned

  /** All directories of a tree. */
  function AllDirs(path: Path, d: Dir): seq<Path>
    requires Proper(d)
  {
    Scanned(path, d, [])
  }

  lemma {:induction false} BelowIsSome(path: Path, d: Dir, list: seq<Path>, n: nat, p: Path)
    requires Proper(d) && n <= |d.children|
    ensures p in ScannedBelow(path, d, list, n)
      <==> exists i :: 0 <= i < n && p in Scanned(ChildPath(path, d.names[i]), d.children[i], list)
  {
    hide Scanned, ChildPath, Proper;
    if n > 0 { BelowIsSome(path, d, list, n - 1, p); }
  }

  lemma {:induction false} ScannedAreWithin(path: Path, d: Dir, list: seq<Path>, p: Path)
    requires Proper(d) && p in Scanned(path, d, list)
    ensures Within(p, path)
    decreases d
  {
    hide ScannedBelow, ChildPath, PlusSlash;
    if p != path {
      BelowIsSome(path, d, list, |d.children|, p);
      var i :| 0 <= i < |d.children| && p in Scanned(ChildPath(path, d.names[i]), d.children[i], list);
      ScannedAreWithin(ChildPath(path, d.names[i]), d.children[i], list, p);
      BelowIsWithin(path, d.names[i], p);
    }
  }

  lemma {:induction false} WithinBoth(a: Path, b: Path)
    requires Within(a, b) && Within(b, a)
    ensures a == b
  {
  }

  lemma {:induction false} WithinTransitive(a: Path, b: Path, c: Path)
    requires Within(a, b) && Within(b, c)
    ensures Within(a, c)
  {
  }

  /** Nothing is within two siblings. */
  lemma {:induction false} SiblingsApart(path: Path, a: Path, b: Path, p: Path)
    requires Name(a) && Name(b) && ListLess(a, b) && Within(p, ChildPath(path, a))
    ensures !Within(p, ChildPath(path, b))
  {
    hide DirPathCmp, ListLess, DirLess, ChildPath;
    var c := ChildPath(path, b);
    SiblingsInOrder(path, a, b, p);
    CmpSign(p, c);
    if Within(p, c) && p != c {
      PrefixFirst(c, p);
      DirTransitive(p, c, p);
      CmpSign(p, p);
    }
  }

  lemma {:induction false} PrefixFirst(a: Path, b: Path)
    requires PlusSlash(a) <= b && a != b
    ensures DirLess(a, b)
  {
    var rest := b[|a|..];
    assert b == a + rest && a == a + [];
    CommonPrefix(a, [], rest);
  }

  /** A directory in the list that p is within. */
  ghost predicate Barred(path: Path, d: Dir, list: seq<Path>, p: Path)
    requires Proper(d)
  {
    exists q :: q in list && q in AllDirs(path, d) && Within(p, q)
  }

  lemma {:induction false} BarredInChild(path: Path, d: Dir, list: seq<Path>, p: Path, i: nat)
    requires Proper(d) && i < |d.children| && path !in list
    requires Within(p, ChildPath(path, d.names[i])) && Barred(path, d, list, p)
    ensures Barred(ChildPath(path, d.names[i]), d.children[i], list, p)
  {
    hide Within, ChildPath, Scanned, ScannedBelow, ListLess;
    var q :| q in list && q in AllDirs(path, d) && Within(p, q);
    AllBelow(path, d, q);
    var k :| 0 <= k < |d.children| && q in AllDirs(ChildPath(path, d.names[k]), d.children[k]);
    ScannedAreWithin(ChildPath(path, d.names[k]), d.children[k], [], q);
    WithinTransitive(p, q, ChildPath(path, d.names[k]));
    if k < i {
      assert NameLess(d.names[k], d.names[i]);
      SiblingsApart(path, d.names[k], d.names[i], p);
    } else if i < k {
      assert NameLess(d.names[i], d.names[k]);
      SiblingsApart(path, d.names[i], d.names[k], p);
    }
  }

  lemma {:induction false} AllBelow(path: Path, d: Dir, q: Path)
    requires Proper(d)
    ensures q in AllDirs(path, d)
      <==> q == path || exists i :: 0 <= i < |d.children| && q in AllDirs(ChildPath(path, d.names[i]), d.children[i])
  {
    hide ChildPath, ScannedBelow;
    BelowIsSome(path, d, [], |d.children|, q);
  }

  /** The directories scanned are exactly those of the tree that are neither in the list nor
      within one that is. */
  lemma {:induction false} ScannedExactly(path: Path, d: Dir, list: seq<Path>, p: Path)
    requires Proper(d)
    ensures p in Scanned(path, d, list) <==> p in AllDirs(path, d) && !Barred(path, d, list, p)
    decreases d, 1
  {
    hide Within, ChildPath, ScannedBelow, AllDirs, Barred;
    AllBelow(path, d, path);
    SelfWithin(path);
    if path in list {
      if p in AllDirs(path, d) { RootBars(path, d, list, p); }
    } else if p == path {
      RootNotBarred(path, d, list);
    } else {
      AllBelow(path, d, p);
      BelowIsSome(path, d, list, |d.children|, p);
      forall i | 0 <= i < |d.children|
        ensures p in Scanned(ChildPath(path, d.names[i]), d.children[i], list)
          <==> p in AllDirs(ChildPath(path, d.names[i]), d.children[i]) && !Barred(path, d, list, p)
      {
        ChildExactly(path, d, list, p, i);
      }
    }
  }

  lemma {:induction false} ChildExactly(path: Path, d: Dir, list: seq<Path>, p: Path, i: nat)
    requires Proper(d) && i < |d.children| && path !in list
    ensures p in Scanned(ChildPath(path, d.names[i]), d.children[i], list)
      <==> p in AllDirs(ChildPath(path, d.names[i]), d.children[i]) && !Barred(path, d, list, p)
    decreases d, 0
  {
    hide Within, ChildPath, ScannedBelow, Scanned;
    var c := ChildPath(path, d.names[i]);
    ScannedExactly(c, d.children[i], list, p);
    if p in AllDirs(c, d.children[i]) {
      ScannedAreWithin(c, d.children[i], [], p);
      if Barred(path, d, list, p) { BarredInChild(path, d, list, p, i); }
      if q :| q in list && q in AllDirs(c, d.children[i]) && Within(p, q) { AllBelow(path, d, q); }
    }
  }

  lemma {:induction false} SelfWithin(path: Path)
    ensures Within(path, path)
  {
  }

  lemma {:induction false} RootBars(path: Path, d: Dir, list: seq<Path>, p: Path)
    requires Proper(d) && path in list && p in AllDirs(path, d)
    ensures Barred(path, d, list, p)
  {
    hide ScannedBelow, Within;
    ScannedAreWithin(path, d, [], p);
    AllBelow(path, d, path);
  }

  lemma {:induction false} RootNotBarred(path: Path, d: Dir, list: seq<Path>)
    requires Proper(d) && path !in list
    ensures !Barred(path, d, list, path)
  {
    hide ScannedBelow, Within;
    forall q | q in list && q in AllDirs(path, d) ensures !Within(path, q) {
      ScannedAreWithin(path, d, [], q);
      if Within(path, q) { WithinBoth(path, q); }
    }
  }
}
