/** What a search shows, and what its needles and patterns mean, said of the paths and the
    bytes themselves. */
module SearchMeaning {
  import opened Bits
  import opened TrigramIndex
  import opened ParseTrigrams
  import opened IgnoreCase
  import opened Serializing
  import opened BlockScan
  import opened EndToEnd
  import Database
  import EncodingCorpora
  import HashTable

  // ---------------------------------------------------------------- what is shown

  function Under(directory: seq<byte>, name: seq<byte>): Path {
    directory + ['/' as int] + name
  }

  /** What is after the last slash, or all of it. */
  ghost predicate LastComponent(p: Path, h: seq<byte>) {
    '/' as int !in h && (h == p || exists directory :: p == Under(directory, h))
  }

  /** What the needles are matched against. */
  ghost predicate Tested(p: Path, matchBasename: bool, h: seq<byte>) {
    if matchBasename then LastComponent(p, h) else h == p
  }

  /** The path may be shown, and each needle accepts it or its last component. */
  ghost predicate Shows(p: Path, needles: seq<Needle>, matchBasename: bool, ok: Path -> bool) {
    ok(p) && exists h :: Tested(p, matchBasename, h) && forall i :: 0 <= i < |needles| ==> needles[i](h)
  }

  lemma {:induction false} BasenameIsLast(p: Path)
    ensures LastComponent(p, Basename(p))
  {
    hide Basename;
    var b := Basename(p);
    if b != p { assert p == Under(p[..|p| - |b| - 1], b); }
  }

  /** Two ends of a path that begin at its start or after a slash, and have none, are one. */
  lemma {:induction false} SameEnd(p: Path, a: nat, b: nat)
    requires a <= |p| && b <= |p| && '/' as int !in p[a..] && '/' as int !in p[b..]
    requires (a == 0 || p[a - 1] == '/' as int) && (b == 0 || p[b - 1] == '/' as int)
    ensures a == b
  {
    assert forall k :: a <= k < |p| ==> p[k] == p[a..][k - a];
    assert forall k :: b <= k < |p| ==> p[k] == p[b..][k - b];
  }

  lemma {:induction false} OneComponent(p: Path, h: seq<byte>)
    ensures LastComponent(p, h) <==> h == Basename(p)
  {
    hide Basename;
    var b := Basename(p);
    BasenameIsLast(p);
    if LastComponent(p, h) {
      var a := |p| - |h|;
      if h != p {
        var d :| p == Under(d, h);
        assert |d| == a - 1 && p[|d|] == '/' as int;
      }
      assert p[a..] == h && p[|p| - |b|..] == b;
      SameEnd(p, a, |p| - |b|);
    }
  }

  lemma {:induction false} ShowsIs(p: Path, needles: seq<Needle>, matchBasename: bool, ok: Path -> bool)
    ensures Shows(p, needles, matchBasename, ok) <==> ok(p) && MatchesAll(needles, Haystack(p, matchBasename))
  {
    hide Basename, LastComponent;
    forall h ensures Tested(p, matchBasename, h) <==> h == Haystack(p, matchBasename) { OneComponent(p, h); }
    assert Tested(p, matchBasename, Haystack(p, matchBasename));
  }

  /** The hits lie in order at these places, which are those of the paths to keep. */
  ghost predicate InPlace(paths: seq<Path>, at: seq<nat>, hits: seq<Path>, keep: Path -> bool) {
    && |hits| == |at|
    && (forall i, k :: 0 <= i < k < |at| ==> at[i] < at[k])
    && (forall i :: 0 <= i < |at| ==> at[i] < |paths| && hits[i] == paths[at[i]])
    && forall k :: 0 <= k < |paths| ==> (k in at <==> keep(paths[k]))
  }

  lemma {:induction false} NoneInPlace(keep: Path -> bool)
    ensures InPlace([], [], [], keep)
  {
  }

  lemma {:induction false} InPlaceMore(paths: seq<Path>, at: seq<nat>, hits: seq<Path>, keep: Path -> bool)
    requires paths != [] && InPlace(paths[..|paths| - 1], at, hits, keep)
    ensures var n := |paths| - 1;
      var more := keep(paths[n]);
      InPlace(paths, if more then at + [n] else at, if more then hits + [paths[n]] else hits, keep)
  {
    var n := |paths| - 1;
    assert forall k :: 0 <= k < n ==> paths[..n][k] == paths[k];
    assert forall k :: k in at ==> k < n;
  }

  lemma {:induction false} NoHits(needles: seq<Needle>, matchBasename: bool, ok: Path -> bool)
    ensures Allowed(Found([], needles, matchBasename), ok) == []
  {
  }

  lemma {:induction false} OneMorePath(paths: seq<Path>, needles: seq<Needle>, matchBasename: bool, ok: Path -> bool)
    requires paths != []
    ensures var n := |paths| - 1;
      Allowed(Found(paths, needles, matchBasename), ok)
      == Allowed(Found(paths[..n], needles, matchBasename), ok)
          + (if Shows(paths[n], needles, matchBasename, ok) then [paths[n]] else [])
  {
    hide Shows, Found, Allowed, MatchesAll, Haystack;
    var n := |paths| - 1;
    ShowsIs(paths[n], needles, matchBasename, ok);
    assert paths == paths[..n] + [paths[n]];
    var before := Found(paths[..n], needles, matchBasename);
    FoundMore(paths[..n], paths[n], needles, matchBasename);
    AllowedMore(before, paths[n], ok);
    assert before + [] == before && Allowed(before, ok) + [] == Allowed(before, ok);
  }

  lemma {:induction false} HitsInPlace(paths: seq<Path>, needles: seq<Needle>, matchBasename: bool, ok: Path -> bool,
                                       keep: Path -> bool)
    returns (at: seq<nat>)
    requires forall p :: keep(p) <==> Shows(p, needles, matchBasename, ok)
    ensures InPlace(paths, at, Allowed(Found(paths, needles, matchBasename), ok), keep)
  {
    hide Shows, Found, Allowed, InPlace;
    if paths == [] {
      at := [];
      NoHits(needles, matchBasename, ok);
      NoneInPlace(keep);
    } else {
      var n := |paths| - 1;
      var before := HitsInPlace(paths[..n], needles, matchBasename, ok, keep);
      OneMorePath(paths, needles, matchBasename, ok);
      var hits := Allowed(Found(paths[..n], needles, matchBasename), ok);
      InPlaceMore(paths, before, hits, keep);
      at := if keep(paths[n]) then before + [n] else before;
      assert hits + [] == hits;
    }
  }

  /** The hits are the paths that show, each where it stands, in order. */
  lemma {:induction false} HitsShow(paths: seq<Path>, needles: seq<Needle>, matchBasename: bool, ok: Path -> bool)
    returns (at: seq<nat>)
    ensures var hits := Allowed(Found(paths, needles, matchBasename), ok);
      && |hits| == |at|
      && (forall i, k :: 0 <= i < k < |at| ==> at[i] < at[k])
      && (forall i :: 0 <= i < |at| ==> at[i] < |paths| && hits[i] == paths[at[i]])
      && forall k :: 0 <= k < |paths| ==> (k in at <==> Shows(paths[k], needles, matchBasename, ok))
  {
    hide Shows, Found, Allowed;
    at := HitsInPlace(paths, needles, matchBasename, ok, p => Shows(p, needles, matchBasename, ok));
  }

  /** What is printed is the front of the hits, as many as the limit lets through. */
  lemma {:induction false} AnswerIsFront(texts: seq<seq<byte>>, onlyCount: bool, limit: nat, output: seq<seq<byte>>,
                                         count: nat)
    ensures Answer(texts, onlyCount, limit, output, count) <==>
      && (onlyCount ==> output == [] && count == if |texts| < limit then |texts| else limit)
      && (!onlyCount ==> output <= texts && |output| == if |texts| < limit then |texts| else limit)
      && (!onlyCount && |texts| < limit ==> count == |texts|)
  {
    if output <= texts { assert output == texts[..|output|]; }
    assert texts == texts[..|texts|];
  }

  // ---------------------------------------------------------------- what a search asks for

  lemma {:induction false} ChunkMembers(paths: seq<Path>, blockSize: nat, chunk: seq<Path>)
    requires blockSize > 0 && chunk in EncodingCorpora.Chunks(paths, blockSize)
    ensures chunk != [] && forall p :: p in chunk ==> p in paths
  {
    var p, rest := paths[|paths| - 1], paths[..|paths| - 1];
    var r := EncodingCorpora.Chunks(rest, blockSize);
    var n := |r| - 1;
    if chunk in r {
      ChunkMembers(rest, blockSize, chunk);
    } else if r != [] && |r[n]| < blockSize {
      assert chunk in r[..n] || chunk == r[n] + [p];
      ChunkMembers(rest, blockSize, r[n]);
    } else {
      assert chunk == [p];
    }
  }

  /** Files without a path of just three bytes can be indexed and searched, as long as each
      block stays under four gigabytes. */
  lemma {:induction false} LongPathsFit(paths: seq<Path>, blockSize: nat)
    requires blockSize > 0
    requires forall i :: 0 <= i < |paths| ==> paths[i] != [] && |paths[i]| != 3 && 0 !in paths[i]
    requires var chunks := EncodingCorpora.Chunks(paths, blockSize);
      forall i :: 0 <= i < |chunks| ==> |JoinPaths(chunks[i])| < 0x1_0000_0000
    ensures EncodingCorpora.Storable(paths)
    ensures var chunks := EncodingCorpora.Chunks(paths, blockSize);
      forall i :: 0 <= i < |chunks| ==> chunks[i] != [] && ChunkFits(chunks[i])
  {
    hide EncodingCorpora.Chunks, JoinPaths;
    var chunks := EncodingCorpora.Chunks(paths, blockSize);
    forall i | 0 <= i < |chunks| ensures chunks[i] != [] && ChunkFits(chunks[i]) {
      ChunkMembers(paths, blockSize, chunks[i]);
      assert chunks[i][|chunks[i]| - 1] in paths;
    }
  }

  /** Each trigram of the index in a slot of its own, no more than so many past its home. */
  ghost predicate Slotted(fed: map<nat, seq<uint32>>, f: map<uint32, nat>, size: nat, slots: nat)
    requires size > 0
  {
    && (forall t: uint32 :: t in fed ==> t in f && HashTable.Hash(t, size) <= f[t] <= HashTable.Hash(t, size) + slots)
    && (forall t, u :: t in f && u in f && t != u ==> f[t] != f[u])
  }

  /** An index that cannot be built has no such table of any size, or its lists would end
      beyond what 64 bits can address. */
  lemma {:induction false} UnbuildableMeans(fed: map<nat, seq<uint32>>, sizes: seq<nat>, slots: nat, start: nat)
    requires Database.Unbuildable(fed, sizes, slots, start) && forall i :: 0 <= i < |sizes| ==> sizes[i] > 0
    ensures
      || (forall i, f :: 0 <= i < |sizes| ==> !Slotted(fed, f, sizes[i], slots))
      || exists size, s, lists :: size in sizes && HashTable.Covers(lists, s)
           && start + 16 * (size + slots + 1) + |HashTable.ListsBefore(s, lists, |s|)| >= 0x1_0000_0000_0000_0000
  {
    hide HashTable.Hash, Database.Encoded, HashTable.ListsBefore, HashTable.Layout;
    var trigrams, lists, choices :| Database.Encoded(Database.Stored(fed), lists, choices)
      && Database.Misfit(trigrams, lists, sizes, slots, start)
      && forall t :: t in trigrams <==> t in Database.Stored(fed);
    forall i, f | 0 <= i < |sizes| && Slotted(fed, f, sizes[i], slots)
      ensures HashTable.Placeable(trigrams, sizes[i], slots)
    {
      var g := map t | t in trigrams :: f[t];
      assert HashTable.Placement(g, sizes[i], slots);
    }
    if !Database.NonePlaceable(trigrams, sizes, slots) {
      var size :| Database.FirstPlaceable(trigrams, sizes, slots, size)
        && HashTable.TooLong(trigrams, lists, size, slots, Database.ListsBase(start, size, slots));
      var s :| HashTable.Layout(s, size, slots) && HashTable.Covers(lists, s)
        && Database.ListsBase(start, size, slots) + |HashTable.ListsBefore(s, lists, |s|)| >= 0x1_0000_0000_0000_0000;
      assert size in sizes;
    }
  }
}
