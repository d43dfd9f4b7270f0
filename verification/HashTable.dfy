/** The on-disk hash table of trigrams: Robin Hood insertion without wrap-around, posting
    list offsets, and lookup. */
module HashTable {
  import opened Bits
  import opened Wrappers

  datatype Entry = Entry(trgm: uint32, numDocids: uint32, offset: uint64)

  /** A finished posting list. */
  datatype BuiltList = BuiltList(encoded: seq<byte>, numDocids: uint32)

  const EMPTY := Entry(0xffff_ffff, 0, 0)

  // ---------------------------------------------------------------- hashing

  const POLYNOMIAL: uint32 := 0x1edc_6f41

  function Xor32(a: uint32, b: uint32): (r: uint32)
    ensures r == Xor(a, b)
    ensures r % 2 == (a + b) % 2
  {
    Pow2Values();
    XorBound(a, b, 32);
    Xor(a, b)
  }

  function CrcStep(crc: uint32): uint32 {
    if crc < 0x8000_0000 then 2 * crc else Xor32(2 * (crc - 0x8000_0000), POLYNOMIAL)
  }

  function Crc(crc: uint32, steps: nat): uint32 {
    if steps == 0 then crc else CrcStep(Crc(crc, steps - 1))
  }

  lemma {:induction false} CrcStepInjective(a: uint32, b: uint32)
    requires CrcStep(a) == CrcStep(b)
    ensures a == b
  {
    hide Xor;
    if a >= 0x8000_0000 { XorUndone(2 * (a - 0x8000_0000), POLYNOMIAL); }
    if b >= 0x8000_0000 { XorUndone(2 * (b - 0x8000_0000), POLYNOMIAL); }
  }

  /** Before the reduction to the table size, no two trigrams collide. */
  lemma {:induction false} CrcInjective(a: uint32, b: uint32, steps: nat)
    requires Crc(a, steps) == Crc(b, steps)
    ensures a == b
  {
    hide CrcStep;
    if steps > 0 {
      CrcStepInjective(Crc(a, steps - 1), Crc(b, steps - 1));
      CrcInjective(a, b, steps - 1);
    }
  }

  /** The home bucket of a trigram. */
  function Hash(trgm: uint32, size: nat): (bucket: nat)
    requires size > 0
    ensures bucket < size
  {
    hide Crc;
    Crc(trgm, 32) % size
  }

  lemma {:induction false} CrcNext(crc: uint32, i: nat)
    ensures Crc(crc, 0) == crc && Crc(crc, i + 1) == CrcStep(Crc(crc, i))
  {
  }

  method HashTrigram(trgm: uint32, size: nat) returns (bucket: nat)
    requires size > 0
    ensures bucket == Hash(trgm, size) && bucket < size
  {
    hide Xor32, Crc;
    var crc := trgm;
    CrcNext(trgm, 0);
    for i := 0 to 32
      invariant crc == Crc(trgm, i)
    {
      CrcNext(trgm, i);
      var bit := crc >= 0x8000_0000;
      crc := if bit then 2 * (crc - 0x8000_0000) else 2 * crc;
      if bit {
        crc := Xor32(crc, POLYNOMIAL);
      }
    }
    bucket := crc % size;
  }

  // ---------------------------------------------------------------- what a table looks like

  predicate Occupied(e: Entry) {
    e.numDocids != 0
  }

  ghost function Home(e: Entry, size: nat): nat
    requires size > 0
  {
    Hash(e.trgm, size)
  }

  /** Every entry is 0..slots past its home, with no gap back to it; homes never fall along
      the table. */
  ghost predicate Layout(s: seq<Entry>, size: nat, slots: nat) {
    && size > 0 && |s| == size + slots + 1
    && (forall i :: 0 <= i < |s| && !Occupied(s[i]) ==> s[i].trgm == EMPTY.trgm)
    && (forall i :: 0 <= i < |s| && Occupied(s[i]) ==> Home(s[i], size) <= i <= Home(s[i], size) + slots)
    && (forall i, k :: 0 <= k <= i < |s| && Occupied(s[i]) && Home(s[i], size) <= k ==> Occupied(s[k]))
    && (forall i, k :: 0 <= i < k < |s| && Occupied(s[i]) && Occupied(s[k]) ==> Home(s[i], size) <= Home(s[k], size))
  }

  /** The places of a table, one by one. */
  lemma {:induction false} LayoutSays(s: seq<Entry>, size: nat, slots: nat, i: nat)
    requires Layout(s, size, slots) && i < |s|
    ensures |s| == size + slots + 1
    ensures s[i].numDocids == 0 ==> s[i].trgm == 0xffff_ffff
    ensures s[i].numDocids != 0 ==>
      var home := Hash(s[i].trgm, size);
      && home <= i <= home + slots && (forall k :: home <= k < i ==> s[k].numDocids != 0)
      && forall k :: 0 <= k < i && s[k].numDocids != 0 ==> Hash(s[k].trgm, size) <= home
  {
    hide Hash;
    assert Occupied(s[i]) ==> Home(s[i], size) == Hash(s[i].trgm, size);
    forall k | 0 <= k < i && s[k].numDocids != 0 && s[i].numDocids != 0 ensures Home(s[k], size) <= Home(s[i], size) {
      assert Occupied(s[k]) && Occupied(s[i]);
    }
    forall k | 0 <= k < i && s[i].numDocids != 0 && Hash(s[i].trgm, size) <= k ensures s[k].numDocids != 0 {
      assert Occupied(s[i]) && Home(s[i], size) <= k;
      assert Occupied(s[k]);
    }
  }

  ghost predicate Distinct(s: seq<Entry>) {
    forall i, k :: 0 <= i < k < |s| && Occupied(s[i]) && Occupied(s[k]) ==> s[i].trgm != s[k].trgm
  }

  ghost predicate Lacks(s: seq<Entry>, trgm: uint32) {
    forall i :: 0 <= i < |s| && Occupied(s[i]) ==> s[i].trgm != trgm
  }

  function Entries(s: seq<Entry>): set<Entry> {
    set i | 0 <= i < |s| && Occupied(s[i]) :: s[i]
  }

  /** Entries for the first n trigrams, offsets not yet known. */
  function Wanted(trigrams: seq<uint32>, corpus: map<uint32, BuiltList>): set<Entry>
    requires forall t :: t in trigrams ==> t in corpus
  {
    set i | 0 <= i < |trigrams| :: Entry(trigrams[i], corpus[trigrams[i]].numDocids, 0)
  }

  /** Input of the table builder: distinct trigrams, each with a nonempty list. */
  ghost predicate Listed(trigrams: seq<uint32>, corpus: map<uint32, BuiltList>) {
    && (forall i, k :: 0 <= i < k < |trigrams| ==> trigrams[i] != trigrams[k])
    && forall t :: t in trigrams ==> t in corpus && corpus[t].numDocids > 0 && t < 0x100_0000
  }

  // ---------------------------------------------------------------- one insertion

  /** cur is to go in at bucket or later: everything from its home up to there is taken by
      entries whose homes are no later. */
  ghost predicate Carried(s: seq<Entry>, size: nat, slots: nat, cur: Entry, bucket: nat) {
    && Layout(s, size, slots) && Distinct(s)
    && Occupied(cur) && Lacks(s, cur.trgm)
    && Home(cur, size) <= bucket <= Home(cur, size) + slots
    && (forall k :: Home(cur, size) <= k < bucket ==> Occupied(s[k]))
    && forall i :: 0 <= i < bucket && Occupied(s[i]) ==> Home(s[i], size) <= Home(cur, size)
  }

  lemma {:induction false} EntriesUpdate(s: seq<Entry>, b: nat, e: Entry)
    requires b < |s| && Distinct(s) && Occupied(e)
    ensures Occupied(s[b]) ==> Entries(s[b := e]) + {s[b]} == Entries(s) + {e}
    ensures !Occupied(s[b]) ==> Entries(s[b := e]) == Entries(s) + {e}
  {
    var t := s[b := e];
    forall i | 0 <= i < |s| && Occupied(s[i]) && i != b ensures s[i] in Entries(t) { assert t[i] == s[i]; }
    assert t[b] in Entries(t);
  }

  /** Robin Hood: the one closer to its home gives way. */
  lemma {:induction false} Displace(s: seq<Entry>, size: nat, slots: nat, cur: Entry, bucket: nat)
    requires Carried(s, size, slots, cur, bucket) && Occupied(s[bucket])
    requires Home(cur, size) < Home(s[bucket], size)
    ensures Carried(s[bucket := cur], size, slots, s[bucket], bucket)
    ensures Entries(s[bucket := cur]) + {s[bucket]} == Entries(s) + {cur}
  {
    hide Hash;
    EntriesUpdate(s, bucket, cur);
  }

  lemma {:induction false} Advance(s: seq<Entry>, size: nat, slots: nat, cur: Entry, bucket: nat)
    requires Carried(s, size, slots, cur, bucket) && Occupied(s[bucket])
    requires Home(s[bucket], size) <= Home(cur, size) && bucket < Home(cur, size) + slots
    ensures Carried(s, size, slots, cur, bucket + 1)
  {
    hide Hash;
  }

  lemma {:induction false} Settle(s: seq<Entry>, size: nat, slots: nat, cur: Entry, bucket: nat)
    requires Carried(s, size, slots, cur, bucket) && !Occupied(s[bucket])
    ensures Layout(s[bucket := cur], size, slots) && Distinct(s[bucket := cur])
    ensures Entries(s[bucket := cur]) == Entries(s) + {cur}
  {
    hide Hash;
    EntriesUpdate(s, bucket, cur);
    var t := s[bucket := cur];
    forall k | bucket < k < |t| && Occupied(t[k])
      ensures Home(cur, size) <= Home(t[k], size)
    {
      assert t[k] == s[k];
      assert Home(s[k], size) > bucket;
    }
  }

  // ---------------------------------------------------------------- when insertion gives up

  /** Any way at all to give each trigram its own slot within reach of its home. */
  ghost predicate Placement(f: map<uint32, nat>, size: nat, slots: nat) {
    && size > 0
    && (forall t :: t in f ==> Hash(t, size) <= f[t] <= Hash(t, size) + slots)
    && (forall t, u :: t in f && u in f && t != u ==> f[t] != f[u])
  }

  ghost predicate Placeable(trigrams: seq<uint32>, size: nat, slots: nat) {
    exists f :: Placement(f, size, slots) && forall t :: t in trigrams ==> t in f
  }

  /** Where a placement puts the entries of slots a up to k. */
  ghost function Places(s: seq<Entry>, f: map<uint32, nat>, a: nat, k: nat): set<nat>
    requires a <= k <= |s| && forall i :: a <= i < k ==> s[i].trgm in f
  {
    set i | a <= i < k :: f[s[i].trgm]
  }

  lemma {:induction false} PlacesSize(s: seq<Entry>, f: map<uint32, nat>, size: nat, slots: nat, a: nat, k: nat)
    requires a <= k <= |s| && Distinct(s) && Placement(f, size, slots)
    requires forall i :: a <= i < k ==> Occupied(s[i]) && s[i].trgm in f
    ensures |Places(s, f, a, k)| == k - a
  {
    hide Hash;
    if a < k {
      PlacesSize(s, f, size, slots, a, k - 1);
      assert Places(s, f, a, k) == Places(s, f, a, k - 1) + {f[s[k - 1].trgm]};
    }
  }

  lemma {:induction false} PlacesNear(s: seq<Entry>, f: map<uint32, nat>, size: nat, slots: nat, a: nat, k: nat,
                                      last: nat)
    requires a <= k <= |s| && Placement(f, size, slots)
    requires forall i :: a <= i < k ==> s[i].trgm in f && a <= Home(s[i], size) <= last
    ensures forall p :: p in Places(s, f, a, k) ==> a <= p <= last + slots
  {
    hide Hash;
  }

  lemma {:induction false} NoRoom(places: set<nat>, p: nat, a: nat, b: nat)
    requires a <= b && |places| == b - a && forall q :: q in places ==> a <= q < b
    ensures a <= p < b ==> p in places
  {
    if a <= p < b && p !in places { SubsetSize(places + {p}, Interval(a, b)); }
  }

  /** Start of the stretch of taken slots that ends at b. */
  lemma {:induction false} RunStart(s: seq<Entry>, b: nat) returns (a: nat)
    requires b < |s| && Occupied(s[b])
    ensures a <= b && (a == 0 || !Occupied(s[a - 1]))
    ensures forall i :: a <= i <= b ==> Occupied(s[i])
  {
    if b == 0 || !Occupied(s[b - 1]) { a := b; } else { a := RunStart(s, b - 1); }
  }

  /** The stretch of taken slots up to bucket holds only entries that belong there. */
  lemma {:induction false} Crowd(s: seq<Entry>, size: nat, slots: nat, cur: Entry, bucket: nat) returns (a: nat)
    requires Carried(s, size, slots, cur, bucket) && Occupied(s[bucket])
    requires Home(s[bucket], size) <= Home(cur, size) && bucket == Home(cur, size) + slots
    ensures a <= Home(cur, size) && a <= bucket
    ensures forall i :: a <= i <= bucket ==> Occupied(s[i]) && a <= Home(s[i], size) <= Home(cur, size)
  {
    hide Hash;
    a := RunStart(s, bucket);
    assert a > 0 ==> !Occupied(s[a - 1]);
  }

  /** An entry pushed beyond its last slot has too many neighbours for any placement. */
  lemma {:induction false} Overfull(s: seq<Entry>, size: nat, slots: nat, cur: Entry, bucket: nat, f: map<uint32, nat>)
    requires Carried(s, size, slots, cur, bucket) && Occupied(s[bucket])
    requires Home(s[bucket], size) <= Home(cur, size) && bucket == Home(cur, size) + slots
    requires forall i :: 0 <= i < |s| && Occupied(s[i]) ==> s[i].trgm in f
    requires cur.trgm in f
    ensures !Placement(f, size, slots)
  {
    hide Hash, Layout;
    if Placement(f, size, slots) {
      assert |s| > bucket by { WithinReach(s, size, slots, cur, bucket); }
      var a := Crowd(s, size, slots, cur, bucket);
      PlacesSize(s, f, size, slots, a, bucket + 1);
      PlacesNear(s, f, size, slots, a, bucket + 1, Home(cur, size));
      NoRoom(Places(s, f, a, bucket + 1), f[cur.trgm], a, bucket + 1);
    }
  }

  // ---------------------------------------------------------------- building the table

  /** Carries one entry to its slot; false if it would end up beyond its last one. */
  method Insert(ht: array<Entry>, size: nat, slots: nat, entry: Entry) returns (ok: bool)
    requires Layout(ht[..], size, slots) && Distinct(ht[..])
    requires Occupied(entry) && Lacks(ht[..], entry.trgm)
    modifies ht
    ensures ok ==> Layout(ht[..], size, slots) && Distinct(ht[..]) && Entries(ht[..]) == Entries(old(ht[..])) + {entry}
    ensures !ok ==> forall f :: (forall e :: e in Entries(old(ht[..])) + {entry} ==> e.trgm in f) ==>
      !Placement(f, size, slots)
  {
    hide Hash, Layout, Distinct, Entries, Placement, Carried;
    Sized(ht[..], size, slots);
    ghost var all := Entries(ht[..]) + {entry};
    var toInsert := entry;
    var bucket := HashTrigram(entry.trgm, size);
    var distance := 0;
    FirstBucket(ht[..], size, slots, entry);
    while Occupied(ht[bucket])
      invariant bucket < ht.Length
      invariant Carried(ht[..], size, slots, toInsert, bucket)
      invariant Entries(ht[..]) + {toInsert} == all
      invariant distance == bucket - Home(toInsert, size)
      decreases ht.Length - bucket
    {
      ghost var s := ht[..];
      WithinReach(s, size, slots, toInsert, bucket);
      var otherHome := HashTrigram(ht[bucket].trgm, size);
      var otherDistance := bucket - otherHome;
      if distance > otherDistance {
        Displace(s, size, slots, toInsert, bucket);
        toInsert, ht[bucket] := ht[bucket], toInsert;
        distance := otherDistance;
        WithinReach(ht[..], size, slots, toInsert, bucket);
      }
      bucket := bucket + 1;
      distance := distance + 1;
      if distance > slots {
        GivesUp(ht[..], size, slots, toInsert, bucket - 1, all);
        return false;
      }
      Advance(ht[..], size, slots, toInsert, bucket - 1);
      WithinReach(ht[..], size, slots, toInsert, bucket);
    }
    Settle(ht[..], size, slots, toInsert, bucket);
    ghost var s := ht[..];
    ht[bucket] := toInsert;
    assert ht[..] == s[bucket := toInsert];
    ok := true;
  }

  lemma {:induction false} Sized(s: seq<Entry>, size: nat, slots: nat)
    requires Layout(s, size, slots)
    ensures size > 0 && |s| == size + slots + 1
  {
  }

  lemma {:induction false} FirstBucket(s: seq<Entry>, size: nat, slots: nat, entry: Entry)
    requires Layout(s, size, slots) && Distinct(s) && Occupied(entry) && Lacks(s, entry.trgm)
    ensures Carried(s, size, slots, entry, Home(entry, size)) && Home(entry, size) < |s|
  {
  }

  lemma {:induction false} WithinReach(s: seq<Entry>, size: nat, slots: nat, cur: Entry, bucket: nat)
    requires Carried(s, size, slots, cur, bucket)
    ensures Occupied(cur) && Home(cur, size) <= bucket <= Home(cur, size) + slots && bucket < |s|
    ensures Occupied(s[bucket]) ==> Home(s[bucket], size) <= bucket
  {
  }

  lemma {:induction false} GivesUp(s: seq<Entry>, size: nat, slots: nat, cur: Entry, bucket: nat, all: set<Entry>)
    requires Carried(s, size, slots, cur, bucket) && bucket < |s| && Occupied(s[bucket])
    requires Home(s[bucket], size) <= Home(cur, size) && bucket == Home(cur, size) + slots
    requires all == Entries(s) + {cur}
    ensures forall f :: (forall e :: e in all ==> e.trgm in f) ==> !Placement(f, size, slots)
  {
    forall f | forall e :: e in all ==> e.trgm in f
      ensures !Placement(f, size, slots)
    {
      hide Carried, Placement;
      forall i | 0 <= i < |s| && Occupied(s[i]) ensures s[i].trgm in f { assert s[i] in all; }
      assert cur in all;
      Overfull(s, size, slots, cur, bucket, f);
    }
  }

  /** A table of all trigrams, or null if some entry would overflow. It is null only if no
      placement whatever keeps each trigram within slots of its home. */
  method CreateHashtable(trigrams: seq<uint32>, corpus: map<uint32, BuiltList>, size: nat, slots: nat)
    returns (ht: array?<Entry>)
    requires size > 0 && Listed(trigrams, corpus)
    ensures ht != null ==> fresh(ht) && Layout(ht[..], size, slots) && Distinct(ht[..])
    ensures ht != null ==> Entries(ht[..]) == Wanted(trigrams, corpus)
    ensures ht == null <==> !Placeable(trigrams, size, slots)
  {
    hide Hash, Layout, Distinct, Entries, Placement, Wanted;
    var table := new Entry[size + slots + 1](_ => EMPTY);
    EmptyTable(table[..], size, slots);
    NothingWanted(trigrams, corpus);
    for k := 0 to |trigrams|
      invariant Layout(table[..], size, slots) && Distinct(table[..])
      invariant Entries(table[..]) == Wanted(trigrams[..k], corpus)
    {
      var trgm := trigrams[k];
      var entry := Entry(trgm, corpus[trgm].numDocids, 0);
      WantedMore(trigrams, corpus, k, table[..]);
      var ok := Insert(table, size, slots, entry);
      if !ok {
        NotPlaceable(trigrams, corpus, size, slots, k);
        return null;
      }
    }
    assert trigrams[..|trigrams|] == trigrams;
    TablePlaces(table[..], trigrams, corpus, size, slots);
    ht := table;
  }

  lemma {:induction false} EmptyTable(s: seq<Entry>, size: nat, slots: nat)
    requires size > 0 && |s| == size + slots + 1 && forall i :: 0 <= i < |s| ==> s[i] == EMPTY
    ensures Layout(s, size, slots) && Distinct(s) && Entries(s) == {}
  {
  }

  lemma {:induction false} NothingWanted(trigrams: seq<uint32>, corpus: map<uint32, BuiltList>)
    ensures Wanted(trigrams[..0], corpus) == {}
  {
  }

  lemma {:induction false} WantedMore(trigrams: seq<uint32>, corpus: map<uint32, BuiltList>, k: nat, s: seq<Entry>)
    requires k < |trigrams| && Listed(trigrams, corpus) && Entries(s) == Wanted(trigrams[..k], corpus)
    ensures Wanted(trigrams[..k + 1], corpus)
      == Wanted(trigrams[..k], corpus) + {Entry(trigrams[k], corpus[trigrams[k]].numDocids, 0)}
    ensures Lacks(s, trigrams[k])
  {
    var a, b := trigrams[..k], trigrams[..k + 1];
    assert forall i :: 0 <= i < k ==> a[i] == b[i] == trigrams[i];
    assert b[k] == trigrams[k];
    forall i | 0 <= i < |s| && Occupied(s[i]) ensures s[i].trgm != trigrams[k] { assert s[i] in Entries(s); }
  }

  lemma {:induction false} NotPlaceable(trigrams: seq<uint32>, corpus: map<uint32, BuiltList>, size: nat, slots: nat,
                                        k: nat)
    requires size > 0 && k < |trigrams| && Listed(trigrams, corpus)
    requires forall f :: (forall e :: e in Wanted(trigrams[..k + 1], corpus) ==> e.trgm in f) ==>
      !Placement(f, size, slots)
    ensures !Placeable(trigrams, size, slots)
  {
    hide Placement;
    forall f: map<uint32, nat> | forall t :: t in trigrams ==> t in f
      ensures !Placement(f, size, slots)
    {
      assert forall e :: e in Wanted(trigrams[..k + 1], corpus) ==> e.trgm in f;
    }
  }

  ghost function SlotOf(s: seq<Entry>, trgm: uint32): nat
    requires exists i :: 0 <= i < |s| && Occupied(s[i]) && s[i].trgm == trgm
  {
    var i :| 0 <= i < |s| && Occupied(s[i]) && s[i].trgm == trgm;
    i
  }

  lemma {:induction false} TablePlaces(s: seq<Entry>, trigrams: seq<uint32>, corpus: map<uint32, BuiltList>, size: nat,
                                       slots: nat)
    requires Layout(s, size, slots) && Distinct(s) && Listed(trigrams, corpus) && Entries(s) == Wanted(trigrams, corpus)
    ensures Placeable(trigrams, size, slots)
  {
    hide Hash;
    forall t | t in trigrams ensures exists i :: 0 <= i < |s| && Occupied(s[i]) && s[i].trgm == t {
      assert Entry(t, corpus[t].numDocids, 0) in Wanted(trigrams, corpus);
    }
    var f := map t | t in trigrams :: SlotOf(s, t);
    assert Placement(f, size, slots);
  }

  // ---------------------------------------------------------------- offsets and lists

  ghost predicate Covers(corpus: map<uint32, BuiltList>, s: seq<Entry>) {
    forall i :: 0 <= i < |s| && Occupied(s[i]) ==> s[i].trgm in corpus
  }

  /** The posting lists of the first n slots, in the order they are written. */
  function ListsBefore(s: seq<Entry>, corpus: map<uint32, BuiltList>, n: nat): seq<byte>
    requires n <= |s| && Covers(corpus, s)
  {
    if n == 0 then []
    else ListsBefore(s, corpus, n - 1) + (if Occupied(s[n - 1]) then corpus[s[n - 1].trgm].encoded else [])
  }

  /** The same table but for the offsets. */
  ghost predicate SameKeys(s: seq<Entry>, t: seq<Entry>) {
    |s| == |t| && forall i :: 0 <= i < |s| ==> s[i].trgm == t[i].trgm && s[i].numDocids == t[i].numDocids
  }

  /** Each of the first n slots points at its list, an empty one at the list after it. */
  ghost predicate Offsets(s: seq<Entry>, corpus: map<uint32, BuiltList>, base: nat, n: nat)
    requires n <= |s| && Covers(corpus, s)
  {
    forall i :: 0 <= i < n ==> s[i].offset == base + |ListsBefore(s, corpus, i)|
  }

  lemma {:induction false} ListsKept(s: seq<Entry>, t: seq<Entry>, corpus: map<uint32, BuiltList>, n: nat)
    requires SameKeys(s, t) && n <= |s| && Covers(corpus, s)
    ensures Covers(corpus, t) && ListsBefore(s, corpus, n) == ListsBefore(t, corpus, n)
  {
    if n > 0 { ListsKept(s, t, corpus, n - 1); }
  }

  lemma {:induction false} ListsPrefix(s: seq<Entry>, corpus: map<uint32, BuiltList>, n: nat, m: nat)
    requires n <= m <= |s| && Covers(corpus, s)
    ensures ListsBefore(s, corpus, n) <= ListsBefore(s, corpus, m)
  {
    if n < m { ListsPrefix(s, corpus, n, m - 1); }
  }

  lemma {:induction false} OffsetsKept(s: seq<Entry>, t: seq<Entry>, corpus: map<uint32, BuiltList>, base: nat, n: nat)
    requires SameKeys(s, t) && Covers(corpus, s) && n < |s| && Offsets(s, corpus, base, n)
    requires t[..n] == s[..n] && t[n].offset == base + |ListsBefore(s, corpus, n)|
    ensures Covers(corpus, t) && Offsets(t, corpus, base, n + 1)
  {
    hide ListsBefore, Occupied;
    ListsKept(s, t, corpus, 0);
    forall i | 0 <= i < n + 1 ensures t[i].offset == base + |ListsBefore(t, corpus, i)| {
      ListsKept(s, t, corpus, i);
      if i < n { assert t[..n][i] == s[..n][i]; }
    }
  }

  method AssignOffsets(ht: array<Entry>, corpus: map<uint32, BuiltList>, base: nat)
    requires Covers(corpus, ht[..])
    requires base + |ListsBefore(ht[..], corpus, ht.Length)| < 0x1_0000_0000_0000_0000
    modifies ht
    ensures SameKeys(old(ht[..]), ht[..]) && Covers(corpus, ht[..])
    ensures Offsets(ht[..], corpus, base, ht.Length)
  {
    hide ListsBefore;
    ghost var was := ht[..];
    var offset := base;
    assert ListsBefore(was, corpus, 0) == [] by { NoLists(was, corpus); }
    for i := 0 to ht.Length
      invariant SameKeys(was, ht[..]) && Covers(corpus, ht[..])
      invariant Offsets(ht[..], corpus, base, i)
      invariant offset == base + |ListsBefore(was, corpus, i)|
    {
      ghost var s := ht[..];
      ListsKept(was, s, corpus, i);
      ListsPrefix(was, corpus, i, ht.Length);
      ht[i] := ht[i].(offset := offset);
      OffsetsKept(s, ht[..], corpus, base, i);
      NextList(was, corpus, i);
      if ht[i].numDocids != 0 {
        offset := offset + |corpus[ht[i].trgm].encoded|;
      }
    }
  }

  lemma {:induction false} NoLists(s: seq<Entry>, corpus: map<uint32, BuiltList>)
    requires Covers(corpus, s)
    ensures ListsBefore(s, corpus, 0) == []
  {
  }

  lemma {:induction false} NextList(s: seq<Entry>, corpus: map<uint32, BuiltList>, i: nat)
    requires Covers(corpus, s) && i < |s|
    ensures ListsBefore(s, corpus, i + 1)
      == ListsBefore(s, corpus, i) + (if Occupied(s[i]) then corpus[s[i].trgm].encoded else [])
  {
  }

  method WriteLists(ht: array<Entry>, corpus: map<uint32, BuiltList>) returns (lists: seq<byte>)
    requires Covers(corpus, ht[..])
    ensures lists == ListsBefore(ht[..], corpus, ht.Length)
  {
    hide ListsBefore;
    NoLists(ht[..], corpus);
    lists := [];
    for i := 0 to ht.Length
      invariant lists == ListsBefore(ht[..], corpus, i)
    {
      NextList(ht[..], corpus, i);
      if ht[i].numDocids != 0 {
        lists := lists + corpus[ht[i].trgm].encoded;
      }
    }
  }

  // ---------------------------------------------------------------- lookup

  /** The table and the lists as they stand in the file, the lists from offset base on. */
  ghost predicate Indexed(s: seq<Entry>, lists: seq<byte>, trigrams: seq<uint32>, corpus: map<uint32, BuiltList>,
                          size: nat, slots: nat, base: nat) {
    && Listed(trigrams, corpus)
    && Layout(s, size, slots) && Distinct(s) && Covers(corpus, s)
    && (forall t :: t in trigrams <==> !Lacks(s, t))
    && (forall i :: 0 <= i < |s| && Occupied(s[i]) ==> s[i].numDocids == corpus[s[i].trgm].numDocids)
    && Offsets(s, corpus, base, |s|)
    && lists == ListsBefore(s, corpus, |s|)
  }

  lemma {:induction false} TableCovers(s: seq<Entry>, trigrams: seq<uint32>, corpus: map<uint32, BuiltList>)
    requires Listed(trigrams, corpus) && Entries(s) == Wanted(trigrams, corpus)
    ensures Covers(corpus, s)
    ensures forall t :: t in trigrams <==> !Lacks(s, t)
    ensures forall i :: 0 <= i < |s| && Occupied(s[i]) ==> s[i].numDocids == corpus[s[i].trgm].numDocids
  {
    forall i | 0 <= i < |s| && Occupied(s[i])
      ensures s[i].trgm in trigrams && s[i].numDocids == corpus[s[i].trgm].numDocids
    {
      assert s[i] in Wanted(trigrams, corpus);
    }
    forall t | t in trigrams ensures !Lacks(s, t) {
      assert Entry(t, corpus[t].numDocids, 0) in Entries(s);
    }
  }

  lemma {:induction false} SameLayout(s: seq<Entry>, t: seq<Entry>, size: nat, slots: nat)
    requires SameKeys(s, t) && Layout(s, size, slots) && Distinct(s)
    ensures Layout(t, size, slots) && Distinct(t)
    ensures forall trgm :: Lacks(s, trgm) <==> Lacks(t, trgm)
  {
    hide Hash;
    assert forall i :: 0 <= i < |s| ==> Home(s[i], size) == Home(t[i], size) && Occupied(s[i]) == Occupied(t[i]);
    forall trgm | Lacks(s, trgm) ensures Lacks(t, trgm) {
      assert forall i :: 0 <= i < |s| && Occupied(t[i]) ==> Occupied(s[i]);
    }
  }

  /** Some table for the trigrams, with lists that reach beyond the last 64-bit offset. */
  ghost predicate TooLong(trigrams: seq<uint32>, corpus: map<uint32, BuiltList>, size: nat, slots: nat, base: nat) {
    exists s :: Layout(s, size, slots) && Distinct(s) && Covers(corpus, s)
      && (forall t :: t in trigrams <==> !Lacks(s, t))
      && base + |ListsBefore(s, corpus, |s|)| >= 0x1_0000_0000_0000_0000
  }

  /** Table and lists, or null if no placement exists. */
  method BuildIndex(trigrams: seq<uint32>, corpus: map<uint32, BuiltList>, size: nat, slots: nat, base: nat)
    returns (ht: array?<Entry>, lists: seq<byte>, fits: bool)
    requires size > 0 && Listed(trigrams, corpus)
    ensures ht == null <==> !Placeable(trigrams, size, slots)
    ensures ht != null && fits ==> Indexed(ht[..], lists, trigrams, corpus, size, slots, base)
    ensures ht != null && !fits ==> TooLong(trigrams, corpus, size, slots, base)
  {
    hide Hash, Layout, Distinct, Entries, Wanted, Placeable, ListsBefore, Offsets, Covers;
    lists, fits := [], false;
    ht := CreateHashtable(trigrams, corpus, size, slots);
    if ht != null {
      TableCovers(ht[..], trigrams, corpus);
      lists := WriteLists(ht, corpus);
      if base + |lists| < 0x1_0000_0000_0000_0000 {
        ghost var s := ht[..];
        AssignOffsets(ht, corpus, base);
        SameLayout(s, ht[..], size, slots);
        ListsKept(s, ht[..], corpus, ht.Length);
        fits := true;
      }
    }
  }

  ghost predicate FoundAt(table: seq<Entry>, i: int, trgm: uint32, entry: Entry, len: int) {
    && 0 <= i < |table| - 1 && Occupied(table[i]) && table[i].trgm == trgm
    && entry == table[i] && len == table[i + 1].offset - table[i].offset
  }

  /** The reader's scan of the slots+2 entries from the home bucket on: all of them are
      inside the table, and the entry found comes with the length of its list. */
  method FindTrigram(table: seq<Entry>, trgm: uint32, size: nat, slots: nat) returns (r: Option<(Entry, nat)>)
    requires Layout(table, size, slots) && trgm != EMPTY.trgm
    requires forall i :: 0 < i < |table| ==> table[i - 1].offset <= table[i].offset
    ensures r.None? ==> Lacks(table, trgm)
    ensures r.Some? ==> exists i :: FoundAt(table, i, trgm, r.value.0, r.value.1)
  {
    var bucket := HashTrigram(trgm, size);
    hide Hash;
    var s := table[bucket..bucket + slots + 2];
    for i := 0 to slots + 1
      invariant forall k :: bucket <= k < bucket + i ==> table[k].trgm != trgm
    {
      assert s[i] == table[bucket + i];
      if s[i].trgm == trgm {
        assert FoundAt(table, bucket + i, trgm, s[i], s[i + 1].offset - s[i].offset);
        return Some((s[i], s[i + 1].offset - s[i].offset));
      }
    }
    assert forall i :: 0 <= i < |table| && Occupied(table[i]) && table[i].trgm == trgm ==>
        bucket <= i <= bucket + slots;
    r := None;
  }

  /** The bytes an entry of the table stands for, and the docid count. */
  ghost predicate PointsAt(lists: seq<byte>, base: nat, entry: Entry, len: nat, list: BuiltList) {
    && entry.numDocids == list.numDocids
    && base <= entry.offset && entry.offset - base + len <= |lists|
    && lists[entry.offset - base..entry.offset - base + len] == list.encoded
  }

  /** A trigram is found exactly if it is indexed, with its docid count and exactly the bytes
      of its own list. */
  method Lookup(table: seq<Entry>, lists: seq<byte>, trgm: uint32, size: nat, slots: nat, base: nat,
                ghost trigrams: seq<uint32>, ghost corpus: map<uint32, BuiltList>)
    returns (r: Option<(Entry, nat)>)
    requires Indexed(table, lists, trigrams, corpus, size, slots, base) && trgm < 0x100_0000
    ensures r.Some? <==> trgm in trigrams
    ensures r.Some? ==> r.value.0.trgm == trgm && PointsAt(lists, base, r.value.0, r.value.1, corpus[trgm])
  {
    hide Hash, Layout, Distinct, ListsBefore;
    forall i | 0 < i < |table| ensures table[i - 1].offset <= table[i].offset {
      ListsPrefix(table, corpus, i - 1, i);
    }
    r := FindTrigram(table, trgm, size, slots);
    if r.Some? {
      ghost var (entry, len) := r.value;
      ghost var i :| FoundAt(table, i, trgm, entry, len);
      NextList(table, corpus, i);
      ListsPrefix(table, corpus, i + 1, |table|);
      ghost var before := ListsBefore(table, corpus, i);
      ghost var p := entry.offset - base;
      assert p == |before|;
      assert lists[..p + len] == before + corpus[trgm].encoded;
      assert lists[p..p + len] == lists[..p + len][p..];
    }
  }
}
