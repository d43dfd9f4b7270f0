/** Filename blocks and the trigrams indexed for them. */
module TrigramIndex {
  import opened Bits

  type Path = seq<byte>

  ghost predicate NulFree(s: seq<byte>) {
    forall i :: 0 <= i < |s| ==> s[i] != 0
  }

  /** The NUL-separated pieces of a block. */
  function SplitPaths(s: seq<byte>): (r: seq<Path>)
    ensures r != []
  {
    if s == [] then [[]]
    else
      var r := SplitPaths(s[..|s| - 1]);
      var n := |r| - 1;
      if s[|s| - 1] == 0 then r + [[]] else r[..n] + [r[n] + [s[|s| - 1]]]
  }

  /** Paths with a NUL between each two. */
  function JoinPaths(paths: seq<Path>): seq<byte> {
    if paths == [] then []
    else if |paths| == 1 then paths[0]
    else JoinPaths(paths[..|paths| - 1]) + [0] + paths[|paths| - 1]
  }

  // ---------------------------------------------------------------- trigrams

  function Trigram(a: byte, b: byte, c: byte): (t: nat)
    ensures t < 0x100_0000
  {
    a as nat + 0x100 * b as nat + 0x1_0000 * c as nat
  }

  /** A trigram is its three bytes, the first one lowest. */
  lemma {:induction false} TrigramBytes(a: byte, b: byte, c: byte)
    ensures LEBytes(Trigram(a, b, c), 3) == [a, b, c]
  {
    var t := Trigram(a, b, c);
    assert t % 0x100 == a && t / 0x100 == b + 0x100 * c;
    assert LEBytes(t / 0x100, 2) == [b] + LEBytes(c, 1);
    assert LEBytes(c, 1) == [c] + LEBytes(c / 0x100, 0);
  }

  predicate OccursAt(s: seq<byte>, p: nat, t: nat) {
    p + 3 <= |s| && Trigram(s[p], s[p + 1], s[p + 2]) == t
  }

  /** The trigrams of a path. */
  function TrigramsIn(s: Path): set<nat> {
    if |s| < 3 then {}
    else TrigramsIn(s[..|s| - 1]) + {Trigram(s[|s| - 3], s[|s| - 2], s[|s| - 1])}
  }

  lemma {:induction false} TrigramsOccur(s: Path, t: nat)
    ensures t in TrigramsIn(s) <==> exists p: nat :: OccursAt(s, p, t)
  {
    if |s| >= 3 {
      var r := s[..|s| - 1];
      TrigramsOccur(r, t);
      if t in TrigramsIn(r) {
        var p: nat :| OccursAt(r, p, t);
        assert OccursAt(s, p, t);
      } else if t in TrigramsIn(s) {
        assert OccursAt(s, |s| - 3, t);
      }
      if p: nat :| OccursAt(s, p, t) {
        if p + 3 < |s| { assert OccursAt(r, p, t); }
      }
    }
  }

  function PathTrigrams(paths: seq<Path>): set<nat> {
    if paths == [] then {} else PathTrigrams(paths[..|paths| - 1]) + TrigramsIn(paths[|paths| - 1])
  }

  lemma {:induction false} TrigramsOfSome(paths: seq<Path>, t: nat)
    ensures t in PathTrigrams(paths) <==> exists i :: 0 <= i < |paths| && t in TrigramsIn(paths[i])
  {
    if paths != [] {
      var n := |paths| - 1;
      TrigramsOfSome(paths[..n], t);
      assert forall i :: 0 <= i < n ==> paths[..n][i] == paths[i];
    }
  }

  /** Three bytes at p inside one path of the block. */
  predicate Window(block: seq<byte>, p: nat) {
    p + 3 <= |block| && block[p] != 0 && block[p + 1] != 0 && block[p + 2] != 0
  }

  function WindowTrigram(block: seq<byte>, p: nat): (r: set<nat>) {
    if Window(block, p) then {Trigram(block[p], block[p + 1], block[p + 2])} else {}
  }

  /** The trigrams of all windows that start before p. */
  function WindowsBefore(block: seq<byte>, p: nat): set<nat> {
    if p == 0 then {} else WindowsBefore(block, p - 1) + WindowTrigram(block, p - 1)
  }

  // ---------------------------------------------------------------- blocks and their paths

  /** Where the last piece begins. */
  function LastStart(s: seq<byte>): (p: nat)
    ensures p <= |s|
    ensures p == 0 || s[p - 1] == 0
    ensures forall i :: p <= i < |s| ==> s[i] != 0
  {
    if s == [] then 0 else if s[|s| - 1] == 0 then |s| else LastStart(s[..|s| - 1])
  }

  lemma {:induction false} SplitStep(s: seq<byte>)
    requires s != []
    ensures var r, c := SplitPaths(s[..|s| - 1]), s[|s| - 1];
      SplitPaths(s) == if c == 0 then r + [[]] else r[..|r| - 1] + [r[|r| - 1] + [c]]
    ensures LastStart(s) == if s[|s| - 1] == 0 then |s| else LastStart(s[..|s| - 1])
  {
  }

  lemma {:induction false} SplitNothing()
    ensures SplitPaths([]) == [[]] && LastStart([]) == 0
  {
  }

  lemma {:induction false} GrowLast(r: seq<Path>, t: seq<byte>, c: byte, p: nat)
    requires r != [] && p <= |t| && r[|r| - 1] == t[p..]
    ensures var n := |r| - 1;
      var g := r[..n] + [r[n] + [c]];
      |g| == |r| && g[..n] == r[..n] && g[n] == (t + [c])[p..]
  {
  }

  lemma {:induction false} SplitEnd(s: seq<byte>, r: seq<Path>, p: nat)
    requires r == SplitPaths(s) && p == LastStart(s)
    ensures r != [] && p <= |s| && r[|r| - 1] == s[p..]
    ensures p > 0 ==> r[..|r| - 1] == SplitPaths(s[..p - 1])
    ensures p == 0 ==> |r| == 1
  {
    hide SplitPaths, LastStart;
    if s == [] {
      SplitNothing();
      assert s[0..] == [];
    } else {
      var t, c := s[..|s| - 1], s[|s| - 1];
      SplitStep(s);
      if c == 0 {
        assert s[|s|..] == [];
        assert r[..|r| - 1] == SplitPaths(t) && s[..|s| - 1] == t;
      } else {
        SplitEnd(t, SplitPaths(t), p);
        GrowLast(SplitPaths(t), t, c, p);
        assert s == t + [c];
        assert p > 0 ==> t[..p - 1] == s[..p - 1];
      }
    }
  }

  lemma {:induction false} SplitLast(s: seq<byte>)
    ensures SplitPaths(s)[|SplitPaths(s)| - 1] == s[LastStart(s)..]
    ensures LastStart(s) > 0 ==> SplitPaths(s)[..|SplitPaths(s)| - 1] == SplitPaths(s[..LastStart(s) - 1])
    ensures LastStart(s) == 0 ==> |SplitPaths(s)| == 1
  {
    hide SplitPaths, LastStart;
    SplitEnd(s, SplitPaths(s), LastStart(s));
  }

  lemma {:induction false} WindowsOfPrefix(s: seq<byte>, k: nat, p: nat)
    requires k <= |s| && p + 2 <= k
    ensures WindowsBefore(s[..k], p) == WindowsBefore(s, p)
  {
    if p > 0 { WindowsOfPrefix(s, k, p - 1); }
  }

  /** No window starts in the last two bytes, or further on. */
  lemma {:induction false} WindowsPastEnd(s: seq<byte>, p: nat, q: nat)
    requires |s| <= p + 2 && p <= q
    ensures WindowsBefore(s, q) == WindowsBefore(s, p)
  {
    if p < q { WindowsPastEnd(s, p, q - 1); }
  }

  /** No window crosses a NUL. */
  lemma {:induction false} WindowsAcrossNul(s: seq<byte>, b: nat)
    requires 0 < b <= |s| && s[b - 1] == 0
    ensures WindowsBefore(s, b) == WindowsBefore(s[..b - 1], b)
  {
    var f := s[..b - 1];
    var p := if b >= 3 then b - 3 else 0;
    if b >= 3 { WindowsOfPrefix(s, b - 1, p); }
    WindowsPastEnd(f, p, b);
    assert forall q :: p <= q < b ==> WindowTrigram(s, q) == {};
    Skip(s, p, b);
  }

  lemma {:induction false} Skip(s: seq<byte>, p: nat, q: nat)
    requires p <= q && forall i :: p <= i < q ==> WindowTrigram(s, i) == {}
    ensures WindowsBefore(s, q) == WindowsBefore(s, p)
  {
    if p < q { Skip(s, p, q - 1); }
  }

  /** A path's own windows. */
  lemma {:induction false} PathWindows(s: seq<byte>, b: nat, n: nat)
    requires b + n <= |s| && forall i :: b <= i < b + n ==> s[i] != 0
    ensures n >= 2 ==> WindowsBefore(s, b + n - 2) == WindowsBefore(s, b) + TrigramsIn(s[b..b + n])
    ensures n < 2 ==> TrigramsIn(s[b..b + n]) == {}
  {
    hide Trigram;
    if n >= 3 {
      PathWindows(s, b, n - 1);
      var path := s[b..b + n];
      assert path[..n - 1] == s[b..b + n - 1];
      assert path[n - 3] == s[b + n - 3] && path[n - 2] == s[b + n - 2] && path[n - 1] == s[b + n - 1];
      assert Window(s, b + n - 3);
    }
  }

  /** The windows of a block are the trigrams of its paths; none spans a NUL. */
  lemma {:induction false} WindowsArePathTrigrams(s: seq<byte>)
    ensures WindowsBefore(s, |s|) == PathTrigrams(SplitPaths(s))
    decreases |s|
  {
    hide LastStart, SplitPaths, TrigramsIn;
    var b := LastStart(s);
    var n := |s| - b;
    var paths := SplitPaths(s);
    SplitLast(s);
    PathWindows(s, b, n);
    assert s[b..b + n] == s[b..];
    if n >= 2 { WindowsPastEnd(s, |s| - 2, |s|); } else { WindowsPastEnd(s, b, |s|); }
    if b > 0 {
      WindowsAcrossNul(s, b);
      WindowsPastEnd(s[..b - 1], b - 1, b);
      WindowsArePathTrigrams(s[..b - 1]);
    } else {
      assert paths[..0] == [];
    }
  }

  // ---------------------------------------------------------------- the pointer walk

  /** Paths that the walk covers: a last one of exactly three bytes is missed. */
  function IndexedPaths(block: seq<byte>): seq<Path> {
    var paths := SplitPaths(block);
    var n := |paths| - 1;
    if |paths[n]| == 3 then paths[..n] else paths
  }

  /** Between paths, or past a last path of more than three bytes. */
  ghost predicate AtPathStart(block: seq<byte>, ptr: int) {
    var b := LastStart(block);
    || (0 <= ptr <= b && (ptr == 0 || block[ptr - 1] == 0))
    || (ptr == |block| + 1 && |block| - b > 3)
  }

  lemma {:induction false} NoWindows(block: seq<byte>)
    ensures WindowsBefore(block, 0) == {}
  {
  }

  lemma {:induction false} OneWindow(block: seq<byte>, p: nat)
    requires Window(block, p)
    ensures WindowsBefore(block, p + 1) == WindowsBefore(block, p) + {Trigram(block[p], block[p + 1], block[p + 2])}
  {
  }

  /** When the walk stops, only a last path of exactly three bytes can be left. */
  lemma {:induction false} WalkDone(block: seq<byte>, ptr: int)
    requires ptr >= |block| - 3 && AtPathStart(block, ptr)
    ensures ptr >= 0 && WindowsBefore(block, ptr) == PathTrigrams(IndexedPaths(block))
  {
    hide LastStart, SplitPaths, WindowsBefore;
    var b := LastStart(block);
    var n := |SplitPaths(block)| - 1;
    SplitLast(block);
    if |block| - b == 3 {
      assert ptr == b;
      if b > 0 {
        WindowsAcrossNul(block, b);
        WindowsPastEnd(block[..b - 1], b - 1, b);
        WindowsArePathTrigrams(block[..b - 1]);
      } else {
        NoWindows(block);
      }
    } else {
      WindowsArePathTrigrams(block);
      if ptr == |block| - 3 {
        Skip(block, ptr, ptr + 1);
        WindowsPastEnd(block, ptr + 1, |block|);
      } else if ptr <= |block| {
        WindowsPastEnd(block, ptr, |block|);
      } else {
        WindowsPastEnd(block, |block|, ptr);
      }
    }
  }

  /** The index misses a trigram of the block exactly if the last path has three bytes and
      its trigram is in no other path of the block. */
  lemma {:induction false} ExactUnlessShortLast(block: seq<byte>)
    ensures var paths := SplitPaths(block);
      var last := paths[|paths| - 1];
      PathTrigrams(IndexedPaths(block)) == PathTrigrams(paths)
      <==> (|last| == 3 ==> Trigram(last[0], last[1], last[2]) in PathTrigrams(paths[..|paths| - 1]))
  {
    var paths := SplitPaths(block);
    var n := |paths| - 1;
    var last := paths[n];
    if |last| == 3 {
      assert TrigramsIn(last[..2]) == {};
    }
  }

  /** "abc" alone in its block is in no posting list. */
  lemma {:induction false} ShortLastPathIsMissed()
    ensures var block: seq<byte> := [97, 98, 99];
      Trigram(97, 98, 99) in PathTrigrams(SplitPaths(block)) && PathTrigrams(IndexedPaths(block)) == {}
  {
    var block: seq<byte> := [97, 98, 99];
    SplitLast(block);
    assert LastStart(block) == 0;
    assert block[0..] == block;
    var paths := SplitPaths(block);
    assert paths[..0] == [];
    TrigramsOccur(block, Trigram(97, 98, 99));
    assert OccursAt(block, 0, Trigram(97, 98, 99));
  }
}
