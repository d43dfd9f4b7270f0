/** The database file: from the docids fed to each trigram to the hash table and posting
    lists on disk, and back. */
module Database {
  import opened Bits
  import opened Wrappers
  import opened HashTable
  import opened BlockFormat
  import opened PostingList
  import opened EncodingCorpora

  const NUM_TRIGRAMS := 0x100_0000
  /** Size of an entry of the hash table. */
  const TRIGRAM_BYTES := 16

  /** Table and posting lists; the lists start at offset base of the file. */
  datatype File = File(table: seq<Entry>, lists: seq<byte>, size: nat, slots: nat, base: nat)

  /** The file holds exactly these lists. */
  ghost predicate Stores(file: File, index: map<uint32, seq<uint32>>, trigrams: seq<uint32>,
                         corpus: map<uint32, BuiltList>, choices: map<uint32, seq<Choice>>) {
    && Indexed(file.table, file.lists, trigrams, corpus, file.size, file.slots, file.base)
    && (forall t :: t in trigrams <==> t in index)
    && Encoded(index, corpus, choices)
  }

  ghost predicate Encoded(index: map<uint32, seq<uint32>>, corpus: map<uint32, BuiltList>,
                          choices: map<uint32, seq<Choice>>) {
    forall t :: t in index ==>
      && t in corpus && t in choices
      && Encodes(corpus[t].encoded, index[t], choices[t]) && corpus[t].numDocids == |index[t]|
  }

  /** The lists that feeding gives, as long as each one can be encoded and counted. */
  ghost predicate Encodable(fed: map<nat, seq<uint32>>) {
    forall t :: t in fed ==> t < NUM_TRIGRAMS && Feedable(fed[t]) && |Dedup(fed[t])| < 0x1_0000_0000
  }

  function Stored(fed: map<nat, seq<uint32>>): map<uint32, seq<uint32>> {
    map t: uint32 | t in fed :: Dedup(fed[t])
  }

  /** Finishes one posting list. */
  method FinishList(builder: PostingListBuilder, ghost docids: seq<uint32>)
    returns (list: BuiltList, ghost choices: seq<Choice>)
    requires Took(builder, docids) && |Dedup(docids)| < 0x1_0000_0000
    modifies builder
    ensures Encodes(list.encoded, Dedup(docids), choices) && list.numDocids == |Dedup(docids)| > 0
  {
    hide Encodes, PostingListBuilder.Valid, Feedable;
    NonemptyDedup(docids);
    builder.Finish();
    var num := builder.GetNumDocids();
    list, choices := BuiltList(builder.encoded, num), builder.choices;
  }

  /** Finishes all posting lists, in trigram order. */
  method BuildLists(corpus: EncodingCorpus)
    returns (trigrams: seq<uint32>, lists: map<uint32, BuiltList>, ghost choices: map<uint32, seq<Choice>>)
    requires corpus.Live() && Encodable(corpus.fed)
    modifies corpus.invindex.Values
    ensures Listed(trigrams, lists) && Encoded(Stored(corpus.fed), lists, choices)
    ensures forall t :: t in trigrams <==> t in Stored(corpus.fed)
  {
    hide Encodes, Dedup, Feedable, Took;
    trigrams, lists, choices := [], map[], map[];
    ghost var fed := corpus.fed;
    for trgm: nat := 0 to NUM_TRIGRAMS
      invariant Listed(trigrams, lists)
      invariant forall t :: t in corpus.invindex && trgm <= t ==> Took(corpus.invindex[t], fed[t])
      invariant forall t :: t in trigrams <==> t in fed && t < trgm
      invariant forall t :: t in trigrams ==>
        t in choices && Encodes(lists[t].encoded, Dedup(fed[t]), choices[t]) && lists[t].numDocids == |Dedup(fed[t])|
    {
      if trgm in corpus.invindex {
        var list;
        ghost var c;
        list, c := FinishList(corpus.invindex[trgm], fed[trgm]);
        trigrams := trigrams + [trgm];
        lists := lists[trgm := list];
        choices := choices[trgm := c];
      }
    }
  }

  lemma {:induction false} NonemptyDedup(s: seq<uint32>)
    requires Feedable(s)
    ensures |Dedup(s)| > 0
  {
  }

  /** Where the lists begin, with the table right before them. */
  function ListsBase(start: nat, size: nat, slots: nat): nat {
    start + TRIGRAM_BYTES * (size + slots + 1)
  }

  ghost predicate NonePlaceable(trigrams: seq<uint32>, sizes: seq<nat>, slots: nat) {
    forall i :: 0 <= i < |sizes| ==> !Placeable(trigrams, sizes[i], slots)
  }

  /** The first of the sizes that will do. */
  ghost predicate FirstPlaceable(trigrams: seq<uint32>, sizes: seq<nat>, slots: nat, size: nat) {
    exists i :: 0 <= i < |sizes| && sizes[i] == size && NonePlaceable(trigrams, sizes[..i], slots)
  }

  /** No table of these sizes can hold the trigrams, or with the first one that can, the lists
      take the file beyond 64-bit offsets. */
  ghost predicate Misfit(trigrams: seq<uint32>, lists: map<uint32, BuiltList>, sizes: seq<nat>, slots: nat, start: nat)
    {
    || NonePlaceable(trigrams, sizes, slots)
    || exists size :: FirstPlaceable(trigrams, sizes, slots, size)
         && TooLong(trigrams, lists, size, slots, ListsBase(start, size, slots))
  }

  ghost predicate Unbuildable(fed: map<nat, seq<uint32>>, sizes: seq<nat>, slots: nat, start: nat) {
    exists trigrams, lists, choices :: Encoded(Stored(fed), lists, choices)
      && Misfit(trigrams, lists, sizes, slots, start)
      && forall t :: t in trigrams <==> t in Stored(fed)
  }

  /** Tries one table size after the other. */
  method PlaceLists(trigrams: seq<uint32>, lists: map<uint32, BuiltList>, sizes: seq<nat>, slots: nat, start: nat)
    returns (file: Option<File>)
    requires Listed(trigrams, lists) && forall i :: 0 <= i < |sizes| ==> sizes[i] > 0
    ensures file.None? ==> Misfit(trigrams, lists, sizes, slots, start)
    ensures file.Some? ==>
      && FirstPlaceable(trigrams, sizes, slots, file.value.size)
      && var f := file.value; Indexed(f.table, f.lists, trigrams, lists, f.size, f.slots, f.base)
  {
    hide Indexed, Placeable, TooLong, Listed, ListsBase;
    for i := 0 to |sizes|
      invariant NonePlaceable(trigrams, sizes[..i], slots)
    {
      var base := ListsBase(start, sizes[i], slots);
      var ht, bytes, fits := BuildIndex(trigrams, lists, sizes[i], slots, base);
      if ht != null {
        assert FirstPlaceable(trigrams, sizes, slots, sizes[i]);
        return if fits then Some(File(ht[..], bytes, sizes[i], slots, base)) else None;
      }
    }
    assert sizes[..|sizes|] == sizes;
    file := None;
  }

  /** finish_corpus, with the table sizes that it tries. */
  method FinishCorpus(corpus: EncodingCorpus, sizes: seq<nat>, slots: nat, start: nat)
    returns (file: Option<File>, ghost trigrams: seq<uint32>, ghost lists: map<uint32, BuiltList>,
            ghost choices: map<uint32, seq<Choice>>)
    requires corpus.Live() && Encodable(corpus.fed) && forall i :: 0 <= i < |sizes| ==> sizes[i] > 0
    modifies corpus.invindex.Values
    ensures forall t :: t in trigrams <==> t in Stored(corpus.fed)
    ensures file.None? ==> Unbuildable(corpus.fed, sizes, slots, start)
    ensures file.Some? ==> Stores(file.value, Stored(corpus.fed), trigrams, lists, choices)
    ensures file.Some? ==> FirstPlaceable(trigrams, sizes, slots, file.value.size)
  {
    hide Encodable, Encoded, Stored, Indexed, Misfit, FirstPlaceable, Listed, EncodingCorpus.Live;
    var all, built;
    all, built, choices := BuildLists(corpus);
    trigrams, lists := all, built;
    file := PlaceLists(all, built, sizes, slots, start);
  }

  method Find(file: File, trgm: uint32, ghost index: map<uint32, seq<uint32>>, ghost trigrams: seq<uint32>,
              ghost corpus: map<uint32, BuiltList>, ghost choices: map<uint32, seq<Choice>>)
    returns (r: Option<(Entry, nat)>)
    requires Stores(file, index, trigrams, corpus, choices) && trgm < 0x100_0000
    ensures r.Some? <==> trgm in index
    ensures r.Some? ==>
      r.value.0.trgm == trgm && trgm in corpus && PointsAt(file.lists, file.base, r.value.0, r.value.1, corpus[trgm])
  {
    hide Indexed, Encodes;
    r := Lookup(file.table, file.lists, trgm, file.size, file.slots, file.base, trigrams, corpus);
  }

  /** Reads the list an entry points at, with whatever follows it in the read buffer. */
  method ReadList(file: File, entry: Entry, len: nat, slop: seq<byte>, sse2: bool,
                  ghost index: map<uint32, seq<uint32>>, ghost trigrams: seq<uint32>,
                  ghost corpus: map<uint32, BuiltList>, ghost choices: map<uint32, seq<Choice>>)
    returns (decoded: seq<uint32>)
    requires Stores(file, index, trigrams, corpus, choices) && entry.trgm in index && |slop| >= 16
    requires PointsAt(file.lists, file.base, entry, len, corpus[entry.trgm])
    ensures decoded == index[entry.trgm]
  {
    hide Indexed, ValidChoices, ListBytes, Deltas;
    var p := entry.offset - file.base;
    var s := file.lists[p..p + len];
    var data := s + slop;
    var out := new uint32[entry.numDocids];
    ghost var docids := index[entry.trgm];
    assert data[0..|s|] == s;
    var _ := DecodePforDelta1(data, entry.numDocids, sse2, out, docids, choices[entry.trgm]);
    decoded := out[..];
    assert out[..entry.numDocids] == out[..];
  }

  lemma {:induction false} FeedablePrefix(s: seq<uint32>, i: nat)
    requires Feedable(s) && i < |s|
    ensures Feedable(s[..i] + [s[i]]) && s[..i] + [s[i]] == s[..i + 1]
  {
  }

  /** Feeds the docids of one trigram. */
  method FeedTrigram(corpus: EncodingCorpus, trgm: nat, docids: seq<uint32>)
    requires corpus.Live() && trgm !in corpus.fed && Feedable(docids)
    modifies corpus`invindex, corpus`fed, corpus.invindex.Values
    ensures corpus.Live() && corpus.fed == old(corpus.fed)[trgm := docids]
    ensures fresh(corpus.invindex.Values - old(corpus.invindex.Values))
  {
    hide EncodingCorpus.Live;
    for i := 0 to |docids|
      invariant corpus.Live() && corpus.fed == if i == 0 then old(corpus.fed) else old(corpus.fed)[trgm := docids[..i]]
      invariant fresh(corpus.invindex.Values - old(corpus.invindex.Values))
    {
      FeedablePrefix(docids, i);
      corpus.AddDocid(trgm, docids[i]);
    }
    assert docids[..|docids|] == docids;
  }

  /** Feeds the docids of all trigrams. */
  method FeedAll(fed: map<nat, seq<uint32>>) returns (corpus: EncodingCorpus)
    requires Encodable(fed)
    ensures fresh(corpus) && fresh(corpus.invindex.Values) && corpus.Live() && corpus.fed == fed
  {
    hide EncodingCorpus.Live, Feedable, EncodingCorpus.BlocksValid, EncodingCorpus.StreamsValid;
    corpus := new EncodingCorpus(1, [], s => s, false, false);
    for trgm: nat := 0 to NUM_TRIGRAMS
      invariant fresh(corpus) && fresh(corpus.invindex.Values) && corpus.Live()
      invariant corpus.fed == map t | t in fed && t < trgm :: fed[t]
    {
      FedMore(fed, trgm);
      if trgm in fed {
        FeedTrigram(corpus, trgm, fed[trgm]);
      }
    }
    assert corpus.fed == fed;
  }

  lemma {:induction false} FedMore(fed: map<nat, seq<uint32>>, trgm: nat)
    ensures var before := map t | t in fed && t < trgm :: fed[t];
      (map t | t in fed && t < trgm + 1 :: fed[t]) == if trgm in fed then before[trgm := fed[trgm]] else before
  {
  }

  /** Whatever was fed for a trigram comes back from the file, without repeats; and nothing
      is found for any other trigram. */
  method FeedAndRead(fed: map<nat, seq<uint32>>, sizes: seq<nat>, slots: nat, start: nat, trgm: uint32, slop: seq<byte>,
                     sse2: bool)
    returns (built: bool, list: Option<seq<uint32>>)
    requires Encodable(fed) && trgm < NUM_TRIGRAMS && |slop| >= 16 && forall i :: 0 <= i < |sizes| ==> sizes[i] > 0
    ensures built || Unbuildable(fed, sizes, slots, start)
    ensures built ==> (list.Some? <==> trgm in fed)
    ensures built && list.Some? ==> list.value == Dedup(fed[trgm])
  {
    hide Stores, Encodable, Dedup, PointsAt, Unbuildable, FirstPlaceable, EncodingCorpus.Live;
    built, list := false, None;
    var corpus := FeedAll(fed);
    var file;
    ghost var trigrams, lists, choices;
    file, trigrams, lists, choices := FinishCorpus(corpus, sizes, slots, start);
    if file.Some? {
      built := true;
      var found := Find(file.value, trgm, Stored(fed), trigrams, lists, choices);
      if found.Some? {
        var decoded := ReadList(file.value, found.value.0, found.value.1, slop, sse2, Stored(fed), trigrams, lists,
                                choices);
        list := Some(decoded);
      }
    }
  }
}
