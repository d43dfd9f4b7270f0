/** Strict orders, and sorting with duplicates removed. */
module Orders {
  ghost predicate StrictTotal<T(!new)>(lt: (T, T) -> bool) {
    && (forall x, y :: !(lt(x, y) && lt(y, x)))
    && (forall x, y :: x == y || lt(x, y) || lt(y, x))
    && (forall x, y, z :: lt(x, y) && lt(y, z) ==> lt(x, z))
  }

  ghost predicate Sorted<T(!new)>(s: seq<T>, lt: (T, T) -> bool) {
    forall i, k :: 0 <= i < k < |s| ==> lt(s[i], s[k])
  }

  /** Sorting with duplicates removed: the same elements, each once, in order. */
  method UniqueSort<T(!new, ==)>(s: seq<T>, lt: (T, T) -> bool) returns (r: seq<T>)
    requires StrictTotal(lt)
    ensures Sorted(r, lt) && |r| <= |s|
    ensures forall i, k :: 0 <= i < k < |r| ==> lt(r[i], r[k])
    ensures forall x :: x in r <==> x in s
  {
    r := [];
    for i := 0 to |s|
      invariant Sorted(r, lt) && |r| <= i
      invariant forall x :: x in r <==> x in s[..i]
    {
      var k := 0;
      while k < |r| && lt(r[k], s[i])
        invariant 0 <= k <= |r| && forall j :: 0 <= j < k ==> lt(r[j], s[i])
      {
        k := k + 1;
      }
      assert s[..i + 1] == s[..i] + [s[i]];
      if k == |r| || r[k] != s[i] {
        assert forall j :: k <= j < |r| ==> r[j] == r[k] || lt(r[k], r[j]);
        assert forall x :: x in r <==> x in r[..k] || x in r[k..];
        r := r[..k] + [s[i]] + r[k..];
      }
    }
    assert s[..|s|] == s;
  }

  predicate ListLess(a: seq<nat>, b: seq<nat>) {
    if b == [] then false
    else if a == [] then true
    else a[0] < b[0] || (a[0] == b[0] && ListLess(a[1..], b[1..]))
  }

  /** Up to i the lists are equal; there a ends, or has the smaller element. */
  ghost predicate FirstBelow(a: seq<nat>, b: seq<nat>, i: nat) {
    && i <= |a| && i < |b| && (forall k :: 0 <= k < i ==> a[k] == b[k])
    && (i < |a| ==> a[i] < b[i])
  }

  lemma {:induction false} LessAtDifference(a: seq<nat>, b: seq<nat>)
    ensures ListLess(a, b) <==> exists i: nat :: FirstBelow(a, b, i)
  {
    if a == [] || b == [] || a[0] != b[0] {
      if ListLess(a, b) { assert FirstBelow(a, b, 0); }
    } else {
      LessAtDifference(a[1..], b[1..]);
      if i: nat :| FirstBelow(a, b, i) { assert i > 0 && FirstBelow(a[1..], b[1..], i - 1); }
      if i: nat :| FirstBelow(a[1..], b[1..], i) { assert FirstBelow(a, b, i + 1); }
    }
  }

  lemma {:induction false} ListLessTotal(a: seq<nat>, b: seq<nat>)
    ensures !(ListLess(a, b) && ListLess(b, a))
    ensures a == b || ListLess(a, b) || ListLess(b, a)
  {
    if a != [] && b != [] {
      ListLessTotal(a[1..], b[1..]);
      assert a == [a[0]] + a[1..] && b == [b[0]] + b[1..];
    }
  }

  lemma {:induction false} ListLessTransitive(a: seq<nat>, b: seq<nat>, c: seq<nat>)
    requires ListLess(a, b) && ListLess(b, c)
    ensures ListLess(a, c)
  {
    if a != [] && a[0] == b[0] == c[0] { ListLessTransitive(a[1..], b[1..], c[1..]); }
  }

  lemma {:induction false} ListOrder()
    ensures StrictTotal(ListLess)
  {
    forall x: seq<nat>, y: seq<nat>
      ensures !(ListLess(x, y) && ListLess(y, x)) && (x == y || ListLess(x, y) || ListLess(y, x))
    {
      ListLessTotal(x, y);
    }
    forall x: seq<nat>, y: seq<nat>, z: seq<nat> | ListLess(x, y) && ListLess(y, z) ensures ListLess(x, z) {
      ListLessTransitive(x, y, z);
    }
  }

  predicate NatLess(a: nat, b: nat) {
    a < b
  }
}
