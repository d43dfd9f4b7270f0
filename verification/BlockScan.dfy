/** Scanning a filename block: which paths are hits, and which sequence numbers they get. */
module BlockScan {
  import opened Bits
  import opened Wrappers
  import opened TrigramIndex
  import opened EncodingCorpora
  import opened ParseTrigrams
  import opened Serializing

  const BLOCK_NUMBERS := 0x1_0000_0000

  type Needle = seq<byte> -> bool

  ghost predicate MatchesAll(needles: seq<Needle>, haystack: seq<byte>) {
    forall i :: 0 <= i < |needles| ==> needles[i](haystack)
  }

  function Haystack(path: Path, matchBasename: bool): seq<byte> {
    if matchBasename then Basename(path) else path
  }

  /** The names that match all needles, in order. */
  ghost function Found(names: seq<Path>, needles: seq<Needle>, matchBasename: bool): seq<Path> {
    if names == [] then []
    else
      var n := |names| - 1;
      Found(names[..n], needles, matchBasename) +
      (if MatchesAll(needles, Haystack(names[n], matchBasename)) then [names[n]] else [])
  }

  /** Those of the names that may be shown. */
  function Allowed(names: seq<Path>, ok: Path -> bool): seq<Path> {
    if names == [] then []
    else Allowed(names[..|names| - 1], ok) + (if ok(names[|names| - 1]) then [names[|names| - 1]] else [])
  }

  // ---------------------------------------------------------------- walking a block

  function FindNul(s: seq<byte>, p: nat): (r: nat)
    requires p <= |s|
    ensures p <= r <= |s| && (r < |s| ==> s[r] == 0)
    ensures forall i :: p <= i < r ==> s[i] != 0
    decreases |s| - p
  {
    if p == |s| || s[p] == 0 then p else FindNul(s, p + 1)
  }

  lemma {:induction false} SplitMore(s: seq<byte>, c: byte)
    ensures var r := SplitPaths(s);
      SplitPaths(s + [c]) == if c == 0 then r + [[]] else r[..|r| - 1] + [r[|r| - 1] + [c]]
  {
    assert (s + [c])[..|s|] == s;
  }

  lemma {:induction false} SplitFront(p: Path, rest: seq<byte>)
    requires NulFree(p)
    ensures SplitPaths(p + [0] + rest) == [p] + SplitPaths(rest)
  {
    hide SplitPaths, NulFree;
    if rest == [] {
      assert p + [0] + rest == p + [0];
      SplitMore(p, 0);
      SplitOne(p);
      EmptyBlock();
    } else {
      var n := |rest| - 1;
      var c := rest[n];
      var r := SplitPaths(rest[..n]);
      SplitFront(p, rest[..n]);
      assert p + [0] + rest == p + [0] + rest[..n] + [c];
      assert rest == rest[..n] + [c];
      SplitMore(p + [0] + rest[..n], c);
      SplitMore(rest[..n], c);
      assert ([p] + r)[..|r|] == [p] + r[..|r| - 1];
    }
  }

  lemma {:induction false} EmptyBlock()
    ensures SplitPaths([]) == [[]]
  {
  }

  lemma {:induction false} FoundMore(names: seq<Path>, name: Path, needles: seq<Needle>, matchBasename: bool)
    ensures Found(names + [name], needles, matchBasename)
      == Found(names, needles, matchBasename)
          + (if MatchesAll(needles, Haystack(name, matchBasename)) then [name] else [])
  {
    assert (names + [name])[..|names|] == names;
  }

  /** What is shown for a name, after the checks of access and existence. */
  function Text(name: Path, ok: Path -> bool): seq<byte> {
    if ok(name) then name else []
  }

  /** One number for each name, from start on. */
  function Singles(names: seq<Path>, ok: Path -> bool, start: nat): seq<Message> {
    seq(|names|, i requires 0 <= i < |names| => Message(start + i, 1, Text(names[i], ok)))
  }

  /** The messages of a block: the last takes all numbers up to the end of the block. */
  function BlockPlan(found: seq<Path>, ok: Path -> bool, seqno: nat): seq<Message> {
    var start := seqno * BLOCK_NUMBERS;
    if found == [] then [Message(start, BLOCK_NUMBERS, [])]
    else
      var n := |found| - 1;
      Singles(found[..n], ok, start)
      + [Message(start + n, if n < BLOCK_NUMBERS then BLOCK_NUMBERS - n else 0, Text(found[n], ok))]
  }

  lemma {:induction false} SinglesMore(names: seq<Path>, name: Path, ok: Path -> bool, start: nat)
    ensures Singles(names + [name], ok, start)
      == Singles(names, ok, start) + [Message(start + |names|, 1, Text(name, ok))]
  {
  }

  method AllMatch(needles: seq<Needle>, haystack: seq<byte>) returns (found: bool)
    ensures found <==> MatchesAll(needles, haystack)
  {
    found := true;
    for i := 0 to |needles|
      invariant found && forall k :: 0 <= k < i ==> needles[k](haystack)
    {
      if !needles[i](haystack) {
        return false;
      }
    }
  }

  /** scan_file_block: the messages, in the order in which they are begun. One candidate is
      held back, since its numbers depend on whether another one follows. */
  method ScanFileBlock(block: seq<byte>, needles: seq<Needle>, matchBasename: bool, ok: Path -> bool, seqno: nat)
    returns (plan: seq<Message>)
    requires |block| < BLOCK_NUMBERS
    ensures plan == BlockPlan(Found(SplitPaths(block), needles, matchBasename), ok, seqno)
  {
    hide SplitPaths, NulFree, Basename, Found;
    var data := block + [0];
    var localSeq := seqno * BLOCK_NUMBERS;
    plan := [];
    var pendingCandidate: Option<Path> := None;
    var filename := 0;
    ghost var names := [];
    ghost var found := [];
    NoneFound(needles, matchBasename);
    assert block[0..] == block;
    while filename != |data|
      invariant 0 <= filename <= |data| && |names| <= filename
      invariant if filename == |data| then SplitPaths(block) == names
                else SplitPaths(block) == names + SplitPaths(block[filename..])
      invariant found == Found(names, needles, matchBasename) && |found| <= |names|
      invariant if found == [] then pendingCandidate == None && plan == [] && localSeq == seqno * BLOCK_NUMBERS
                else
                  && pendingCandidate == Some(found[|found| - 1])
                  && plan == Singles(found[..|found| - 1], ok, seqno * BLOCK_NUMBERS)
                  && localSeq == seqno * BLOCK_NUMBERS + |found| - 1
      decreases |data| - filename
    {
      var end := FindNul(data, filename);
      var name := data[filename..end];
      NextName(block, filename, end, names);
      var haystack := Haystack(name, matchBasename);
      var isMatch := AllMatch(needles, haystack);
      FoundMore(names, name, needles, matchBasename);
      if isMatch {
        if pendingCandidate.Some? {
          SinglesMore(found[..|found| - 1], pendingCandidate.value, ok, seqno * BLOCK_NUMBERS);
          assert found[..|found| - 1] + [found[|found| - 1]] == found;
          plan := plan + [Message(localSeq, 1, Text(pendingCandidate.value, ok))];
          localSeq := localSeq + 1;
        }
        pendingCandidate := Some(name);
        assert (found + [name])[..|found|] == found;
        found := found + [name];
      }
      names := names + [name];
      filename := end + 1;
    }
    if pendingCandidate == None {
      plan := [Message(seqno * BLOCK_NUMBERS, BLOCK_NUMBERS, [])];
    } else {
      plan := plan + [Message(localSeq, (seqno + 1) * BLOCK_NUMBERS - localSeq, Text(pendingCandidate.value, ok))];
    }
  }

  lemma {:induction false} NoneFound(needles: seq<Needle>, matchBasename: bool)
    ensures Found([], needles, matchBasename) == []
  {
  }

  /** One step of the walk. */
  lemma {:induction false} NextName(block: seq<byte>, p: nat, end: nat, names: seq<Path>)
    requires p <= |block| && SplitPaths(block) == names + SplitPaths(block[p..])
    requires end == FindNul(block + [0], p)
    ensures end <= |block|
    ensures var name := (block + [0])[p..end];
      if end == |block| then SplitPaths(block) == names + [name]
      else SplitPaths(block) == names + [name] + SplitPaths(block[end + 1..])
  {
    hide SplitPaths;
    var data := block + [0];
    assert data[|block|] == 0;
    var name := data[p..end];
    if end == |block| {
      assert name == block[p..];
      SplitOne(name);
    } else {
      assert block[p..] == name + [0] + block[end + 1..];
      SplitFront(name, block[end + 1..]);
    }
  }

  // ---------------------------------------------------------------- the plan of a scan

  lemma {:induction false} SinglesTile(names: seq<Path>, ok: Path -> bool, start: nat)
    ensures Tiling(Singles(names, ok, start), start, start + |names|)
  {
  }

  lemma {:induction false} OneTile(m: Message)
    requires m.skip > 0
    ensures Tiling([m], m.start, m.start + m.skip)
  {
  }

  /** A block's messages tile its range of numbers. */
  lemma {:induction false} BlockTiles(found: seq<Path>, ok: Path -> bool, seqno: nat)
    requires |found| <= BLOCK_NUMBERS
    ensures Tiling(BlockPlan(found, ok, seqno), seqno * BLOCK_NUMBERS, (seqno + 1) * BLOCK_NUMBERS)
  {
    hide Tiling, Singles, Text;
    var start := seqno * BLOCK_NUMBERS;
    if found == [] {
      OneTile(Message(start, BLOCK_NUMBERS, []));
    } else {
      var n := |found| - 1;
      SinglesTile(found[..n], ok, start);
      var last := Message(start + n, BLOCK_NUMBERS - n, Text(found[n], ok));
      OneTile(last);
      TilingJoins(Singles(found[..n], ok, start), [last], start, start + n, (seqno + 1) * BLOCK_NUMBERS);
    }
  }

  lemma {:induction false} SinglesTexts(names: seq<Path>, ok: Path -> bool, start: nat)
    requires forall i :: 0 <= i < |names| ==> names[i] != []
    ensures Texts(Singles(names, ok, start)) == Allowed(names, ok)
  {
    if names != [] {
      var n := |names| - 1;
      SinglesTexts(names[..n], ok, start);
      assert Singles(names, ok, start)[..n] == Singles(names[..n], ok, start);
    }
  }

  /** A block's texts are its matches that may be shown. */
  lemma {:induction false} BlockTexts(found: seq<Path>, ok: Path -> bool, seqno: nat)
    requires forall i :: 0 <= i < |found| ==> found[i] != []
    ensures Texts(BlockPlan(found, ok, seqno)) == Allowed(found, ok)
  {
    var start := seqno * BLOCK_NUMBERS;
    if found == [] {
      assert BlockPlan(found, ok, seqno)[..0] == [];
    } else {
      var n := |found| - 1;
      SinglesTexts(found[..n], ok, start);
      var plan := BlockPlan(found, ok, seqno);
      assert plan[..|plan| - 1] == Singles(found[..n], ok, start);
    }
  }

  /** The messages of some blocks, numbered in this order. */
  ghost function ScanPlan(blocks: seq<seq<byte>>, needles: seq<Needle>, matchBasename: bool, ok: Path -> bool)
    : seq<Message> {
    if blocks == [] then []
    else
      var n := |blocks| - 1;
      ScanPlan(blocks[..n], needles, matchBasename, ok)
          + BlockPlan(Found(SplitPaths(blocks[n]), needles, matchBasename), ok, n)
  }

  /** What a scan of the blocks has to print. */
  ghost function Hits(blocks: seq<seq<byte>>, needles: seq<Needle>, matchBasename: bool, ok: Path -> bool): seq<Path> {
    if blocks == [] then []
    else
      var n := |blocks| - 1;
      Hits(blocks[..n], needles, matchBasename, ok) + Allowed(Found(SplitPaths(blocks[n]), needles, matchBasename), ok)
  }

  ghost predicate ScannableBlock(block: seq<byte>) {
    |block| < BLOCK_NUMBERS && forall i :: 0 <= i < |SplitPaths(block)| ==> SplitPaths(block)[i] != []
  }

  /** Blocks of nonempty paths, of less than four gigabytes each. */
  ghost predicate Scannable(blocks: seq<seq<byte>>) {
    forall d :: 0 <= d < |blocks| ==> ScannableBlock(blocks[d])
  }

  lemma {:induction false} FoundAmong(names: seq<Path>, needles: seq<Needle>, matchBasename: bool)
    ensures |Found(names, needles, matchBasename)| <= |names|
    ensures forall p ::
      p in Found(names, needles, matchBasename) <==> p in names && MatchesAll(needles, Haystack(p, matchBasename))
  {
    hide MatchesAll, Basename;
    if names != [] {
      var n := |names| - 1;
      FoundAmong(names[..n], needles, matchBasename);
      assert names == names[..n] + [names[n]];
    }
  }

  lemma {:induction false} FewPaths(s: seq<byte>)
    ensures |SplitPaths(s)| <= |s| + 1
  {
    if s != [] { FewPaths(s[..|s| - 1]); }
  }

  /** A scan's messages tile the numbers from zero, and their texts are the hits. */
  lemma {:induction false} PlanOfScan(blocks: seq<seq<byte>>, needles: seq<Needle>, matchBasename: bool,
                                      ok: Path -> bool)
    requires Scannable(blocks)
    ensures Tiling(ScanPlan(blocks, needles, matchBasename, ok), 0, |blocks| * BLOCK_NUMBERS)
    ensures Texts(ScanPlan(blocks, needles, matchBasename, ok)) == Hits(blocks, needles, matchBasename, ok)
  {
    hide SplitPaths, Found, Allowed, BlockPlan, Tiling, Texts;
    if blocks == [] {
      NoPlan();
    } else {
      var n := |blocks| - 1;
      var names := SplitPaths(blocks[n]);
      var found := Found(names, needles, matchBasename);
      var before, last := ScanPlan(blocks[..n], needles, matchBasename, ok), BlockPlan(found, ok, n);
      PlanOfScan(blocks[..n], needles, matchBasename, ok);
      FoundAmong(names, needles, matchBasename);
      FewPaths(blocks[n]);
      assert forall i :: 0 <= i < |found| ==> found[i] in found;
      BlockTiles(found, ok, n);
      BlockTexts(found, ok, n);
      TilingJoins(before, last, 0, n * BLOCK_NUMBERS, (n + 1) * BLOCK_NUMBERS);
      TextsJoin(before, last);
    }
  }

  lemma {:induction false} NoPlan()
    ensures Tiling([], 0, 0) && Texts([]) == []
  {
  }

  method ScanBlocks(blocks: seq<seq<byte>>, needles: seq<Needle>, matchBasename: bool, ok: Path -> bool)
    returns (plan: seq<Message>)
    requires Scannable(blocks)
    ensures plan == ScanPlan(blocks, needles, matchBasename, ok)
  {
    hide SplitPaths, Found, BlockPlan;
    plan := [];
    for i := 0 to |blocks|
      invariant plan == ScanPlan(blocks[..i], needles, matchBasename, ok)
    {
      var more := ScanFileBlock(blocks[i], needles, matchBasename, ok, i);
      assert blocks[..i + 1][..i] == blocks[..i];
      plan := plan + more;
    }
    assert blocks[..|blocks|] == blocks;
  }
}
