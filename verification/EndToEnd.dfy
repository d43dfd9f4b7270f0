/** Indexed search against a plain scan, and a whole run from paths to printed matches. */
module EndToEnd {
  import opened Bits
  import opened Orders
  import opened Wrappers
  import opened TrigramIndex
  import opened EncodingCorpora
  import opened FileRecords
  import opened HashTable
  import opened ParseTrigrams
  import opened IgnoreCase
  import opened Serializing
  import opened BlockScan
  import opened SortedLists
  import BlockFormat
  import PostingList
  import Database
  import Search

  // ---------------------------------------------------------------- patterns

  /** A plain text to find, a glob, a glob that ignores case, given by the spellings of its
      code points, or a regular expression, from which no trigrams are taken. */
  datatype Pattern = Plain(text: seq<byte>) | Glob(text: seq<byte>) | Folded(alts: Alternatives) | Regex

  type Wildcards = (seq<byte>, seq<byte>) -> bool

  ghost predicate PatternMatches(p: Pattern, h: seq<byte>, wild: Wildcards) {
    match p
    case Plain(text) => Contains(h, text)
    case Glob(text) => Matches(Tokenize(text), h, wild)
    case Folded(alts) => exists w :: Spells(alts, 0, w) && Matches(Tokenize(w), h, wild)
    case Regex => true
  }

  /** Patterns whose trigrams can be trusted: no plain text with a trigram that is only
      there because a literal backslash has been read as an escape. */
  ghost predicate Trusted(p: Pattern) {
    match p
    case Plain(text) => EscapesOccur(text, text)
    case Glob(_) => true
    case Folded(alts) => Spellable(alts)
    case Regex => true
  }

  ghost predicate GroupOccurs(h: seq<byte>, group: seq<nat>) {
    exists t :: t in group && Occurs(h, t)
  }

  /** Each match of the pattern has a trigram of the group. */
  ghost predicate GroupNeeded(p: Pattern, group: seq<nat>, wild: Wildcards) {
    forall h :: PatternMatches(p, h, wild) ==> GroupOccurs(h, group)
  }

  method ParsePattern(p: Pattern, ghost wild: Wildcards) returns (groups: seq<seq<nat>>)
    requires Trusted(p)
    ensures forall g :: g in groups ==> ProperGroup(g) && GroupNeeded(p, g, wild)
  {
    hide Tokenize, TokenTrigrams, Matches, Occurs, EscapesOccur, Spells, AreGroups, RunsOut;
    match p
    case Plain(text) =>
      groups := ParseCaseSensitive(text);
      PlainNeedle(text);
      forall g | g in groups ensures ProperGroup(g) && GroupNeeded(p, g, wild) {
        var i :| 0 <= i < |groups| && groups[i] == g;
        assert TokenTrigrams(Tokenize(text))[i] in TokenTrigrams(Tokenize(text)) && g[0] in g;
      }
    case Glob(text) =>
      groups := ParseCaseSensitive(text);
      forall g | g in groups ensures ProperGroup(g) && GroupNeeded(p, g, wild) {
        var i :| 0 <= i < |groups| && groups[i] == g;
        assert TokenTrigrams(Tokenize(text))[i] in TokenTrigrams(Tokenize(text)) && g[0] in g;
        forall h | PatternMatches(p, h, wild)
          ensures GroupOccurs(h, g)
        {
          TrigramsNecessary(Tokenize(text), h, wild, g[0]);
        }
      }
    case Folded(alts) =>
      ghost var rounds;
      groups, rounds := ParseTrigramsIgnoreCase(alts);
      forall g | g in groups ensures GroupNeeded(p, g, wild) {
        forall h | PatternMatches(p, h, wild) ensures GroupOccurs(h, g) {
          var w :| Spells(alts, 0, w) && Matches(Tokenize(w), h, wild);
          SpellingNecessary(alts, g, w, h, wild);
        }
      }
    case Regex =>
      groups := [];
  }

  ghost predicate AllPatterns(patterns: seq<Pattern>, h: seq<byte>, wild: Wildcards) {
    forall i :: 0 <= i < |patterns| ==> PatternMatches(patterns[i], h, wild)
  }

  /** Whatever matches all patterns has a trigram of the group. */
  ghost predicate JointlyNeeded(patterns: seq<Pattern>, group: seq<nat>, wild: Wildcards) {
    forall h :: AllPatterns(patterns, h, wild) ==> GroupOccurs(h, group)
  }

  /** The groups of all patterns, sorted and without duplicates. */
  method ParsePatterns(patterns: seq<Pattern>, ghost wild: Wildcards) returns (groups: seq<seq<nat>>)
    requires forall i :: 0 <= i < |patterns| ==> Trusted(patterns[i])
    ensures forall g :: g in groups ==> ProperGroup(g) && JointlyNeeded(patterns, g, wild)
  {
    hide PatternMatches, GroupOccurs, ProperGroup, Trusted;
    var all: seq<seq<nat>> := [];
    for i := 0 to |patterns|
      invariant forall g :: g in all ==> ProperGroup(g) && JointlyNeeded(patterns, g, wild)
    {
      var groups := ParsePattern(patterns[i], wild);
      all := all + groups;
    }
    ListOrder();
    groups := UniqueSort(all, ListLess);
  }

  // ---------------------------------------------------------------- blocks with a hit

  /** The needles as libc decides them, on the patterns they were made from. */
  ghost predicate Decides(needles: seq<Needle>, patterns: seq<Pattern>, wild: Wildcards) {
    |needles| == |patterns| && forall i, h :: 0 <= i < |needles| && needles[i](h) ==>
      PatternMatches(patterns[i], h, wild)
  }

  ghost predicate ExactBlock(block: seq<byte>) {
    PathTrigrams(IndexedPaths(block)) == PathTrigrams(SplitPaths(block))
  }

  ghost function BlockHits(block: seq<byte>, needles: seq<Needle>, matchBasename: bool, ok: Path -> bool): seq<Path> {
    Allowed(Found(SplitPaths(block), needles, matchBasename), ok)
  }

  lemma {:induction false} AllowedAmong(names: seq<Path>, ok: Path -> bool)
    ensures forall p :: p in Allowed(names, ok) <==> p in names && ok(p)
  {
    if names != [] {
      AllowedAmong(names[..|names| - 1], ok);
      assert names == names[..|names| - 1] + [names[|names| - 1]];
    }
  }

  lemma {:induction false} OccursInPath(p: Path, matchBasename: bool, t: nat)
    requires Occurs(Haystack(p, matchBasename), t)
    ensures t in TrigramsIn(p)
  {
    hide OccursAt, TrigramsIn, Basename;
    if matchBasename {
      var n := |p| - |Basename(p)|;
      assert p[n..] == Basename(p);
      OccursInTail(p, n, t);
    }
    assert exists q: nat :: OccursAt(p, q, t);
    TrigramsOccur(p, t);
  }

  /** A block with a hit has a trigram of every group. */
  lemma {:induction false} HitHasTrigram(block: seq<byte>, needles: seq<Needle>, matchBasename: bool, ok: Path -> bool,
                                         patterns: seq<Pattern>, wild: Wildcards, group: seq<nat>) returns (t: nat)
    requires BlockHits(block, needles, matchBasename, ok) != [] && Decides(needles, patterns, wild)
    requires JointlyNeeded(patterns, group, wild) && ProperGroup(group)
    ensures t in group && t < 0x100_0000 && t in PathTrigrams(SplitPaths(block))
  {
    hide PatternMatches, SplitPaths, TrigramsIn, PathTrigrams, Basename, Occurs;
    var names := SplitPaths(block);
    var found := Found(names, needles, matchBasename);
    AllowedAmong(found, ok);
    FoundAmong(names, needles, matchBasename);
    var p := Allowed(found, ok)[0];
    assert p in found && p in names;
    assert AllPatterns(patterns, Haystack(p, matchBasename), wild);
    t :| t in group && Occurs(Haystack(p, matchBasename), t);
    OccursInPath(p, matchBasename, t);
    var i :| 0 <= i < |names| && names[i] == p;
    TrigramsOfSome(names, t);
  }

  ghost function Wanted(blocks: seq<seq<byte>>, needles: seq<Needle>, matchBasename: bool, ok: Path -> bool)
    : set<uint32> {
    set d: uint32 | 0 <= d < |blocks| && BlockHits(blocks[d], needles, matchBasename, ok) != []
  }

  /** Each group has a list with each block that has a hit. */
  lemma {:induction false} WantedGathered(blocks: seq<seq<byte>>, needles: seq<Needle>, matchBasename: bool,
                                          ok: Path -> bool, patterns: seq<Pattern>, wild: Wildcards,
                                          fed: map<nat, seq<uint32>>, group: seq<uint32>)
    requires Indexes(fed, blocks) && Decides(needles, patterns, wild)
    requires forall d :: 0 <= d < |blocks| ==> ExactBlock(blocks[d])
    requires JointlyNeeded(patterns, group, wild) && ProperGroup(group)
    ensures Wanted(blocks, needles, matchBasename, ok) <= Search.Gathered(Database.Stored(fed), Members(group))
  {
    hide BlockHits, JointlyNeeded, ProperGroup, Decides, PathTrigrams, IndexedPaths, SplitPaths, PostingList.Dedup;
    var stored := Database.Stored(fed);
    forall d | d in Wanted(blocks, needles, matchBasename, ok)
      ensures d in Search.Gathered(stored, Members(group))
    {
      var t := HitHasTrigram(blocks[d], needles, matchBasename, ok, patterns, wild, group);
      assert ExactBlock(blocks[d]);
      assert d in Docs(fed, t);
      ListIsBlocks(fed, blocks, t);
      assert t in stored && d in stored[t] && t in Members(group);
    }
  }

  // ---------------------------------------------------------------- scanning only some blocks

  function Select(blocks: seq<seq<byte>>, docids: seq<uint32>): seq<seq<byte>>
    requires Below(docids, |blocks|)
  {
    seq(|docids|, i requires 0 <= i < |docids| => assert docids[i] in docids; blocks[docids[i]])
  }

  ghost predicate Below(docids: seq<uint32>, n: nat) {
    forall d :: d in docids ==> d < n
  }

  /** The last of some increasing docids up to n: either n, and the others are less, or all
      are less. */
  /** Blocks that are indexed in full are not more than the search needs: a block that is not
      ends in a path of three bytes that is a hit for itself as a plain text, but the block is
      missing from the list of its trigram. */
  lemma {:induction false} InexactIsMissed(blocks: seq<seq<byte>>, fed: map<nat, seq<uint32>>, d: uint32,
                                           wild: Wildcards)
    requires Indexes(fed, blocks) && d < |blocks| <= 0x1_0000_0000 && !ExactBlock(blocks[d])
    ensures var paths := SplitPaths(blocks[d]);
      var text := paths[|paths| - 1];
      && |text| == 3
      && var t := TrigramIndex.Trigram(text[0], text[1], text[2]);
         var needle: Needle := h => Contains(h, text);
      && Decides([needle], [Plain(text)], wild) && GroupNeeded(Plain(text), [t], wild)
      && d in Wanted(blocks, [needle], false, _ => true)
      && d !in Search.Gathered(Database.Stored(fed), {t})
      && ((forall i :: 0 <= i < 3 ==> !Special(text[i])) ==> TokenTrigrams(Tokenize(text)) == [t])
  {
    hide PathTrigrams, SplitPaths, IndexedPaths, PostingList.Dedup, Tokenize, TokenTrigrams;
    var block := blocks[d];
    var paths := SplitPaths(block);
    var text := paths[|paths| - 1];
    ExactUnlessShortLast(block);
    LastIsLost(block);
    var t := TrigramIndex.Trigram(text[0], text[1], text[2]);
    var needle: Needle := h => Contains(h, text);
    ContainsItself(text);
    FoundAmong(paths, [needle], false);
    AllowedAmong(Found(paths, [needle], false), _ => true);
    assert text in BlockHits(block, [needle], false, _ => true);
    assert OccursAt(text, 0, t) && Occurs(text, t);
    forall h | Contains(h, text) ensures Occurs(h, t) { OccursInside(h, text, t); }
    assert t in [t];
    if t in fed { ListIsBlocks(fed, blocks, t); }
    if forall i :: 0 <= i < 3 ==> !Special(text[i]) { PlainTriple(text); }
  }

  lemma {:induction false} ContainsItself(text: seq<byte>)
    ensures Contains(text, text)
  {
    assert ParseTrigrams.FoundAt(text, 0, text);
  }

  /** The trigram of the path that is left out is in none of the others. */
  lemma {:induction false} LastIsLost(block: seq<byte>)
    requires !ExactBlock(block)
    ensures var paths := SplitPaths(block);
      var last := paths[|paths| - 1];
      |last| == 3 && TrigramIndex.Trigram(last[0], last[1], last[2]) !in PathTrigrams(IndexedPaths(block))
  {
    hide PathTrigrams, SplitPaths;
    ExactUnlessShortLast(block);
  }

  lemma {:induction false} PlainTriple(s: seq<byte>)
    requires |s| == 3 && forall i :: 0 <= i < 3 ==> !Special(s[i])
    ensures TokenTrigrams(Tokenize(s)) == [TrigramIndex.Trigram(s[0], s[1], s[2])]
  {
    hide TokenTrigrams, TrigramIndex.Trigram;
    assert ReadUnigram(s, 0) == (s[0], 1) && ReadUnigram(s, 1) == (s[1], 1) && ReadUnigram(s, 2) == (s[2], 1);
    TrigramIsFront(s);
    ListStep(s);
    var rest := s[1..];
    assert ReadUnigram(rest, 0) == (rest[0], 1) && ReadUnigram(rest, 1) == (rest[1], 1) && ReadUnigram(rest,
                       2) == (PREMATURE_END, 0);
    NoneToCome(rest);
  }

  lemma {:induction false} LastDocid(docids: seq<uint32>, n: nat)
    requires Increasing(docids) && Below(docids, n + 1)
    ensures docids != [] && docids[|docids| - 1] == n ==>
      Increasing(docids[..|docids| - 1]) && Below(docids[..|docids| - 1], n)
    ensures (docids == [] || docids[|docids| - 1] != n) ==> Below(docids, n)
  {
    if docids != [] {
      var m := |docids| - 1;
      assert docids[m] in docids;
      assert forall i :: 0 <= i < m ==> docids[i] < docids[m];
      assert docids == docids[..m] + [docids[m]];
    }
  }

  lemma {:induction false} SelectFrom(blocks: seq<seq<byte>>, docids: seq<uint32>, n: nat)
    requires n <= |blocks| && Below(docids, n)
    ensures Below(docids, |blocks|) && Select(blocks[..n], docids) == Select(blocks, docids)
  {
    assert forall i :: 0 <= i < |docids| ==> docids[i] in docids;
  }

  lemma {:induction false} SelectLast(blocks: seq<seq<byte>>, rest: seq<uint32>, last: uint32)
    requires Below(rest + [last], |blocks|)
    ensures Below(rest, |blocks|) && last < |blocks|
    ensures Select(blocks, rest + [last]) == Select(blocks, rest) + [blocks[last]]
  {
    assert (rest + [last])[|rest|] in rest + [last];
    forall d | d in rest ensures d in rest + [last] {}
    assert Below(rest, |blocks|);
  }

  /** Leaving out blocks without a hit changes nothing in what is printed. */
  lemma {:induction false} SelectedHits(blocks: seq<seq<byte>>, docids: seq<uint32>, needles: seq<Needle>,
                                        matchBasename: bool, ok: Path -> bool)
    requires Increasing(docids) && Below(docids, |blocks|)
    requires forall d: uint32 :: d < |blocks| && d !in docids ==> BlockHits(blocks[d], needles, matchBasename, ok) == []
    requires |blocks| <= 0x1_0000_0000
    ensures Hits(Select(blocks, docids), needles, matchBasename, ok) == Hits(blocks, needles, matchBasename, ok)
  {
    hide BlockHits, Hits, Increasing, Select;
    if docids != [] { assert docids[0] in docids; }
    if blocks == [] {
      assert docids == [];
      assert Select(blocks, docids) == [] by { SelectNone(blocks); }
    } else {
      var n := |blocks| - 1;
      LastDocid(docids, n);
      HitsStep(blocks, needles, matchBasename, ok);
      if docids != [] && docids[|docids| - 1] == n {
        var rest := docids[..|docids| - 1];
        assert docids == rest + [n];
        SelectLast(blocks, rest, n);
        SelectFrom(blocks, rest, n);
        SelectedHits(blocks[..n], rest, needles, matchBasename, ok);
        HitsStep(Select(blocks, docids), needles, matchBasename, ok);
      } else {
        SelectFrom(blocks, docids, n);
        SelectedHits(blocks[..n], docids, needles, matchBasename, ok);
        assert n !in docids;
      }
    }
  }

  lemma {:induction false} SelectNone(blocks: seq<seq<byte>>)
    ensures Select(blocks, []) == []
  {
  }

  lemma {:induction false} SelectScannable(blocks: seq<seq<byte>>, docids: seq<uint32>)
    requires Scannable(blocks) && Below(docids, |blocks|)
    ensures Scannable(Select(blocks, docids))
  {
    hide ScannableBlock;
    forall i | 0 <= i < |docids| ensures ScannableBlock(Select(blocks, docids)[i]) { assert docids[i] in docids; }
  }

  lemma {:induction false} HitsStep(blocks: seq<seq<byte>>, needles: seq<Needle>, matchBasename: bool, ok: Path -> bool)
    requires blocks != []
    ensures Hits(blocks, needles, matchBasename, ok)
      == Hits(blocks[..|blocks| - 1], needles, matchBasename, ok)
          + BlockHits(blocks[|blocks| - 1], needles, matchBasename, ok)
  {
  }

  // ---------------------------------------------------------------- searching a database

  /** A finished database: its blocks, the docids fed for each trigram, and the file with the
      table and the lists. */
  ghost predicate Holds(file: Database.File, blocks: seq<seq<byte>>, fed: map<nat, seq<uint32>>, trigrams: seq<uint32>,
                        corpus: map<uint32, BuiltList>, choices: map<uint32, seq<BlockFormat.Choice>>) {
    && Indexes(fed, blocks) && |blocks| <= 0x100_0000
    && Database.Stores(file, Database.Stored(fed), trigrams, corpus, choices)
  }

  lemma {:induction false} ListsSound(blocks: seq<seq<byte>>, fed: map<nat, seq<uint32>>, t: uint32)
    requires Indexes(fed, blocks) && t in fed
    ensures var list := PostingList.Dedup(fed[t]); Increasing(list) && list != [] && forall d :: d in list ==>
      d < |blocks|
  {
    hide PathTrigrams, IndexedPaths;
    ListIsBlocks(fed, blocks, t);
  }

  /** The candidates for the groups of a search: increasing, and none left out that holds a
      match. */
  method FindBlocks(file: Database.File, blocks: seq<seq<byte>>, groups: seq<seq<uint32>>, needles: seq<Needle>,
                    matchBasename: bool, ok: Path -> bool, ignoreCase: bool, sse2: bool, inForkedChild: bool,
                    ghost patterns: seq<Pattern>, ghost wild: Wildcards, ghost fed: map<nat, seq<uint32>>,
                    ghost trigrams: seq<uint32>, ghost corpus: map<uint32, BuiltList>,
                    ghost choices: map<uint32, seq<BlockFormat.Choice>>) returns (candidates: seq<uint32>)
    requires Holds(file, blocks, fed, trigrams, corpus, choices) && Decides(needles, patterns, wild)
    requires forall d :: 0 <= d < |blocks| ==> ExactBlock(blocks[d])
    requires groups != [] && forall g :: g in groups ==> ProperGroup(g) && JointlyNeeded(patterns, g, wild)
    ensures Increasing(candidates) && forall d :: d in candidates ==> d < |blocks|
    ensures forall d: uint32 :: d < |blocks| && d !in candidates ==>
      BlockHits(blocks[d], needles, matchBasename, ok) == []
  {
    hide Indexes, Database.Stores, Decides, ExactBlock, JointlyNeeded, BlockHits, Increasing, Search.Gathered,
         PostingList.Dedup, Members;
    ghost var wanted := Wanted(blocks, needles, matchBasename, ok);
    var searcher := new Search.Searcher(file, ignoreCase, sse2, inForkedChild, Database.Stored(fed), trigrams, corpus,
                                        choices, |blocks|, wanted);
    forall t | t in searcher.index
      ensures Increasing(searcher.index[t]) && searcher.index[t] != [] && forall d :: d in searcher.index[t] ==>
        d < |blocks|
    {
      ListsSound(blocks, fed, t);
    }
    forall i | 0 <= i < |groups|
      ensures groups[i] != [] && Search.AllDifferent(groups[i]) && forall t :: t in groups[i] ==> t < 0x100_0000
      ensures wanted <= Search.Gathered(searcher.index, Members(groups[i]))
    {
      assert groups[i] in groups;
      WantedGathered(blocks, needles, matchBasename, ok, patterns, wild, fed, groups[i]);
    }
    candidates := searcher.FindCandidates(groups);
    forall d: uint32 | d < |blocks| && d !in candidates ensures BlockHits(blocks[d], needles, matchBasename, ok) == [] {
      Search.InMembers(candidates, d);
      assert d !in wanted;
    }
  }

  /** The plain scan: all blocks, by worker threads. */
  method ScanAllDocids(blocks: seq<seq<byte>>, needles: seq<Needle>, matchBasename: bool, ok: Path -> bool,
                       workers: nat, onlyCount: bool, limit: nat)
    returns (output: seq<Path>, count: nat)
    requires Scannable(blocks) && workers > 0 && limit >= 1
    ensures Answer(Hits(blocks, needles, matchBasename, ok), onlyCount, limit, output, count)
  {
    hide Scannable, ScanPlan, Hits, Tiling, Texts, Answer;
    var plan := ScanBlocks(blocks, needles, matchBasename, ok);
    PlanOfScan(blocks, needles, matchBasename, ok);
    output, count := ScanInParallel(plan, |blocks| * BLOCK_NUMBERS, workers, onlyCount, limit);
  }

  /** The scan of some blocks, as reads and checks complete. */
  method ScanDocids(blocks: seq<seq<byte>>, needles: seq<Needle>, matchBasename: bool, ok: Path -> bool,
                    onlyCount: bool, limit: nat)
    returns (output: seq<Path>, count: nat)
    requires Scannable(blocks) && limit >= 1
    ensures Answer(Hits(blocks, needles, matchBasename, ok), onlyCount, limit, output, count)
  {
    hide Scannable, ScanPlan, Hits, Tiling, Texts, Answer;
    var plan := ScanBlocks(blocks, needles, matchBasename, ok);
    PlanOfScan(blocks, needles, matchBasename, ok);
    output, count := PrintInAnyOrder(plan, |blocks| * BLOCK_NUMBERS, onlyCount, limit);
  }

  /** A search prints what a scan of all blocks prints, in the same order, whatever the order
      in which lookups, lists, blocks and checks of access come back. */
  method DoSearchFile(file: Database.File, blocks: seq<seq<byte>>, patterns: seq<Pattern>, needles: seq<Needle>,
                      matchBasename: bool, ok: Path -> bool, ignoreCase: bool, sse2: bool, inForkedChild: bool,
                      workers: nat, onlyCount: bool, limit: nat, ghost wild: Wildcards,
                      ghost fed: map<nat, seq<uint32>>, ghost trigrams: seq<uint32>,
                      ghost corpus: map<uint32, BuiltList>, ghost choices: map<uint32, seq<BlockFormat.Choice>>)
    returns (output: seq<Path>, count: nat)
    requires Holds(file, blocks, fed, trigrams, corpus, choices) && Scannable(blocks) && workers > 0 && limit >= 1
    requires Decides(needles, patterns, wild) && forall i :: 0 <= i < |patterns| ==> Trusted(patterns[i])
    requires forall d :: 0 <= d < |blocks| ==> ExactBlock(blocks[d])
    ensures Answer(Hits(blocks, needles, matchBasename, ok), onlyCount, limit, output, count)
  {
    hide Trusted, Decides, ExactBlock, JointlyNeeded, BlockHits, Increasing, Hits, ScannableBlock, Indexes,
         Database.Stores, Answer;
    var groups := ParsePatterns(patterns, wild);
    if groups == [] {
      output, count := ScanAllDocids(blocks, needles, matchBasename, ok, workers, onlyCount, limit);
      return;
    }
    AsTrigrams(groups);
    var candidates := FindBlocks(file, blocks, groups, needles, matchBasename, ok, ignoreCase, sse2, inForkedChild,
                                 patterns, wild, fed, trigrams, corpus, choices);
    SelectedHits(blocks, candidates, needles, matchBasename, ok);
    SelectScannable(blocks, candidates);
    output, count := ScanDocids(Select(blocks, candidates), needles, matchBasename, ok, onlyCount, limit);
  }

  lemma {:induction false} AsTrigrams(groups: seq<seq<nat>>)
    requires forall g :: g in groups ==> ProperGroup(g)
    ensures forall i :: 0 <= i < |groups| ==> forall k :: 0 <= k < |groups[i]| ==> groups[i][k] < 0x1_0000_0000
  {
    forall i, k | 0 <= i < |groups| && 0 <= k < |groups[i]| ensures groups[i][k] < 0x1_0000_0000 {
      assert groups[i] in groups;
      assert groups[i][k] in groups[i];
    }
  }

  // ---------------------------------------------------------------- from paths to matches

  /** The hits of a scan are those among all paths, in the order in which they were added. */
  lemma {:induction false} HitsAreFiltered(blocks: seq<seq<byte>>, needles: seq<Needle>, matchBasename: bool,
                                           ok: Path -> bool)
    ensures Hits(blocks, needles, matchBasename, ok) == Allowed(Found(Files(blocks), needles, matchBasename), ok)
  {
    hide SplitPaths, Haystack, MatchesAll;
    if blocks != [] {
      var n := |blocks| - 1;
      HitsAreFiltered(blocks[..n], needles, matchBasename, ok);
      FoundJoins(Files(blocks[..n]), SplitPaths(blocks[n]), needles, matchBasename);
      AllowedJoins(Found(Files(blocks[..n]), needles, matchBasename),
                   Found(SplitPaths(blocks[n]), needles, matchBasename), ok);
    }
  }

  lemma {:induction false} FoundJoins(a: seq<Path>, b: seq<Path>, needles: seq<Needle>, matchBasename: bool)
    ensures Found(a + b, needles, matchBasename) == Found(a, needles, matchBasename) + Found(b, needles, matchBasename)
  {
    hide Haystack, MatchesAll;
    if b == [] {
      assert a + b == a;
    } else {
      var n := |b| - 1;
      FoundJoins(a, b[..n], needles, matchBasename);
      assert (a + b)[..|a + b| - 1] == a + b[..n];
    }
  }

  lemma {:induction false} AllowedNone(ok: Path -> bool)
    ensures Allowed([], ok) == []
  {
  }

  lemma {:induction false} AllowedMore(names: seq<Path>, name: Path, ok: Path -> bool)
    ensures Allowed(names + [name], ok) == Allowed(names, ok) + (if ok(name) then [name] else [])
  {
    assert (names + [name])[..|names|] == names;
  }

  lemma {:induction false} AllowedJoins(a: seq<Path>, b: seq<Path>, ok: Path -> bool)
    ensures Allowed(a + b, ok) == Allowed(a, ok) + Allowed(b, ok)
  {
    hide Allowed;
    if b == [] {
      assert a + b == a && Allowed(b, ok) == [] by { AllowedNone(ok); }
    } else {
      var n := |b| - 1;
      AllowedJoins(a, b[..n], ok);
      AllowedMore(a + b[..n], b[n], ok);
      AllowedMore(b[..n], b[n], ok);
      assert a + b[..n] + [b[n]] == a + b && b[..n] + [b[n]] == b;
    }
  }

  /** A block that can be indexed in full and scanned: under four gigabytes, and if its last
      path is three bytes long, its trigram is in another path of the block. */
  ghost predicate ChunkFits(chunk: seq<Path>)
    requires chunk != []
  {
    var n := |chunk| - 1;
    && |JoinPaths(chunk)| < BLOCK_NUMBERS
    && (|chunk[n]| == 3 ==> TrigramIndex.Trigram(chunk[n][0], chunk[n][1], chunk[n][2]) in PathTrigrams(chunk[..n]))
  }

  lemma {:induction false} ChunkIsExact(chunk: seq<Path>)
    requires chunk != [] && Storable(chunk) && ChunkFits(chunk)
    ensures ExactBlock(JoinPaths(chunk)) && ScannableBlock(JoinPaths(chunk))
  {
    hide JoinPaths, SplitPaths, PathTrigrams, IndexedPaths;
    SplitJoin(chunk);
    ExactUnlessShortLast(JoinPaths(chunk));
  }

  /** From the files of a file system to what a search prints: the matches among their paths,
      in the order in which they were added. built is false only if no table of the given
      sizes and slots can hold the trigrams, or the file would be too long. */
  method Locate(records: seq<FileRecord>, blockSize: nat, header: seq<byte>, compress: seq<byte> -> seq<byte>,
                decompress: seq<byte> -> seq<byte>, sizes: seq<nat>, slots: nat, start: nat, patterns: seq<Pattern>,
                needles: seq<Needle>, matchBasename: bool, ok: Path -> bool, ignoreCase: bool, sse2: bool, workers: nat,
                onlyCount: bool, limit: nat, ghost wild: Wildcards)
    returns (built: bool, output: seq<Path>, count: nat)
    requires Storable(PathsOf(records)) && blockSize > 0 && workers > 0 && limit >= 1 && forall i ::
      0 <= i < |sizes| ==> sizes[i] > 0
    requires |records| <= 0x100_0000 && forall b :: decompress(compress(b)) == b
    requires var chunks := Chunks(PathsOf(records), blockSize); forall i :: 0 <= i < |chunks| ==>
      chunks[i] != [] && ChunkFits(chunks[i])
    requires Decides(needles, patterns, wild) && forall i :: 0 <= i < |patterns| ==> Trusted(patterns[i])
    ensures built ||
      exists blocks, fed :: Indexes(fed, blocks) && Joined(blocks, Chunks(PathsOf(records), blockSize))
        && Database.Unbuildable(fed, sizes, slots, start)
    ensures built ==>
      Answer(Allowed(Found(PathsOf(records), needles, matchBasename), ok), onlyCount, limit, output, count)
  {
    hide Indexes, Files, Chunks, ChunkFits, Trusted, Decides, Allowed, Found, Hits, ExactBlock, Database.Encodable,
         Database.Stored, JoinPaths, ScannableBlock, Database.Unbuildable, Database.FirstPlaceable, Answer, Written,
         NulFree, EncodingCorpus.Live;
    built, output, count := false, [], 0;
    forall i | 0 <= i < |records|
      ensures records[i].path != [] && NulFree(records[i].path)
    {
      assert PathsOf(records)[i] == records[i].path;
    }
    var corpus := AddAll(records, blockSize, header, compress, true, true);
    var blocks := ReadBlocks(corpus.output, corpus.filenameBlocks, decompress, corpus.blocks, compress);
    ghost var fed := corpus.fed;
    forall d | 0 <= d < |blocks| ensures ExactBlock(blocks[d]) && ScannableBlock(blocks[d]) {
      ChunkIsExact(Chunks(PathsOf(records), blockSize)[d]);
    }
    FewBlocks(blocks);
    FedEncodable(fed, blocks);
    var file;
    ghost var trigrams, lists, choices;
    file, trigrams, lists, choices := Database.FinishCorpus(corpus, sizes, slots, start);
    if file.Some? {
      built := true;
      output, count := DoSearchFile(file.value, blocks, patterns, needles, matchBasename, ok, ignoreCase, sse2, false,
          workers, onlyCount,
                                    limit, wild, fed, trigrams, lists, choices);
      HitsAreFiltered(blocks, needles, matchBasename, ok);
    }
  }

  lemma {:induction false} FewBlocks(blocks: seq<seq<byte>>)
    ensures |blocks| <= |Files(blocks)|
  {
    hide SplitPaths;
    if blocks != [] { FewBlocks(blocks[..|blocks| - 1]); }
  }

  lemma {:induction false} FedEncodable(fed: map<nat, seq<uint32>>, blocks: seq<seq<byte>>)
    requires Indexes(fed, blocks) && |blocks| <= 0x100_0000
    ensures Database.Encodable(fed)
  {
    hide IndexedPaths, PostingList.Dedup, PostingList.Feedable;
    forall t | t in fed
      ensures t < Database.NUM_TRIGRAMS && PostingList.Feedable(fed[t]) && |PostingList.Dedup(fed[t])| < 0x1_0000_0000
    {
      ListIsBlocks(fed, blocks, t);
      assert fed[t] == Docs(fed, t) && fed[t][0] in Docs(fed, t);
      TrigramsInRange(IndexedPaths(blocks[fed[t][0]]), t);
      ShortList(PostingList.Dedup(fed[t]), |blocks|);
    }
  }

  lemma {:induction false} TrigramsInRange(paths: seq<Path>, t: nat)
    requires t in PathTrigrams(paths)
    ensures t < 0x100_0000
  {
    hide TrigramsIn, OccursAt;
    TrigramsOfSome(paths, t);
    var i :| 0 <= i < |paths| && t in TrigramsIn(paths[i]);
    TrigramsOccur(paths[i], t);
    var p: nat :| OccursAt(paths[i], p, t);
    OccursInRange(paths[i], p, t);
  }

  lemma {:induction false} OccursInRange(s: seq<byte>, p: nat, t: nat)
    requires OccursAt(s, p, t)
    ensures t < 0x100_0000
  {
  }

  lemma {:induction false} ShortList(s: seq<uint32>, n: nat)
    requires Increasing(s) && forall d :: d in s ==> d < n
    ensures |s| <= n
  {
    if s != [] {
      var m := |s| - 1;
      var last := s[m];
      assert last in s;
      var rest := s[..m];
      assert forall i :: 0 <= i < m ==> s[i] < last;
      ShortList(rest, last);
    }
  }
}
