/** Increasing docid lists as sets: union and intersection by merging. */
module SortedLists {
  import opened Bits
  import opened EncodingCorpora

  function Members(s: seq<uint32>): set<uint32> {
    set d | d in s
  }

  function Union(a: seq<uint32>, b: seq<uint32>): seq<uint32> {
    if a == [] then b
    else if b == [] then a
    else if a[0] < b[0] then [a[0]] + Union(a[1..], b)
    else if b[0] < a[0] then [b[0]] + Union(a, b[1..])
    else [a[0]] + Union(a[1..], b[1..])
  }

  function Intersection(a: seq<uint32>, b: seq<uint32>): seq<uint32> {
    if a == [] || b == [] then []
    else if a[0] < b[0] then Intersection(a[1..], b)
    else if b[0] < a[0] then Intersection(a, b[1..])
    else [a[0]] + Intersection(a[1..], b[1..])
  }

  ghost predicate AllAbove(s: seq<uint32>, x: uint32) {
    forall d :: d in s ==> d > x
  }

  lemma {:induction false} IncreasingCons(x: uint32, s: seq<uint32>)
    requires Increasing(s) && AllAbove(s, x)
    ensures Increasing([x] + s)
  {
    assert forall i :: 0 <= i < |s| ==> s[i] in s;
  }

  lemma {:induction false} IncreasingTail(s: seq<uint32>)
    requires s != [] && Increasing(s)
    ensures Increasing(s[1..]) && AllAbove(s[1..], s[0])
    ensures forall d :: d in s <==> d == s[0] || d in s[1..]
  {
    assert s == [s[0]] + s[1..];
  }

  /** std::set_union on increasing lists. */
  lemma {:induction false} UnionIsUnion(a: seq<uint32>, b: seq<uint32>)
    requires Increasing(a) && Increasing(b)
    ensures Increasing(Union(a, b))
    ensures forall d :: d in Union(a, b) <==> d in a || d in b
    decreases |a| + |b|
  {
    hide Increasing;
    if a != [] && b != [] {
      IncreasingTail(a);
      IncreasingTail(b);
      if a[0] < b[0] {
        UnionIsUnion(a[1..], b);
        IncreasingCons(a[0], Union(a[1..], b));
      } else if b[0] < a[0] {
        UnionIsUnion(a, b[1..]);
        IncreasingCons(b[0], Union(a, b[1..]));
      } else {
        UnionIsUnion(a[1..], b[1..]);
        IncreasingCons(a[0], Union(a[1..], b[1..]));
      }
    }
  }

  /** std::set_intersection on increasing lists. */
  lemma {:induction false} IntersectionIsIntersection(a: seq<uint32>, b: seq<uint32>)
    requires Increasing(a) && Increasing(b)
    ensures Increasing(Intersection(a, b))
    ensures forall d :: d in Intersection(a, b) <==> d in a && d in b
    decreases |a| + |b|
  {
    hide Increasing;
    if a == [] || b == [] {
      assert Increasing([]) by { NoneIncreasing(); }
    } else {
      IncreasingTail(a);
      IncreasingTail(b);
      if a[0] < b[0] {
        IntersectionIsIntersection(a[1..], b);
      } else if b[0] < a[0] {
        IntersectionIsIntersection(a, b[1..]);
      } else {
        IntersectionIsIntersection(a[1..], b[1..]);
        IncreasingCons(a[0], Intersection(a[1..], b[1..]));
      }
    }
  }

  lemma {:induction false} NoneIncreasing()
    ensures Increasing([])
  {
  }
}
