/** Narrowing the blocks to scan: hash lookups, then posting lists as they arrive. */
module Search {
  import opened Bits
  import opened Wrappers
  import opened HashTable
  import opened BlockFormat
  import opened EncodingCorpora
  import opened Database
  import opened SortedLists

  type Index = map<uint32, seq<uint32>>

  /** An OR group: alternatives, those found in the table with their list lengths, the union
      of the lists read so far, and the number of lookups or reads still to come. */
  datatype Disjunction = Disjunction(
    alternatives: seq<uint32>,
    readTrigrams: seq<(Entry, nat)>,
    maxNumDocids: uint32,
    docids: seq<uint32>,
    remaining: nat
  )

  function Alternatives(g: Disjunction): set<uint32> {
    Members(g.alternatives)
  }

  function ReadSet(read: seq<(Entry, nat)>): set<uint32> {
    set i | 0 <= i < |read| :: read[i].0.trgm
  }

  /** All docids in the lists of some trigrams. */
  ghost function Gathered(index: Index, trigrams: set<uint32>): set<uint32> {
    set t, d | t in trigrams && t in index && d in index[t] :: d
  }

  /** Some trigram of each group has d in its list. */
  ghost predicate InAll(index: Index, kept: set<seq<uint32>>, d: uint32) {
    forall group :: group in kept ==> d in Gathered(index, Members(group))
  }

  ghost predicate Common(index: Index, kept: set<seq<uint32>>, candidates: seq<uint32>) {
    forall d: uint32 :: d in candidates <==> InAll(index, kept, d)
  }

  /** The candidates are exactly what some of the groups, at least one, have in common. */
  ghost predicate Narrowed(index: Index, lists: seq<seq<uint32>>, candidates: seq<uint32>) {
    exists kept: set<seq<uint32>> :: kept != {} && (forall group :: group in kept ==> group in lists)
      && Common(index, kept, candidates)
  }

  /** For each of the groups, a list of one of its trigrams has the docid. */
  lemma {:induction false} CommonMeans(index: Index, kept: set<seq<uint32>>, candidates: seq<uint32>)
    requires Common(index, kept, candidates)
    ensures forall d: uint32 :: d in candidates <==>
      forall group :: group in kept ==> exists t :: t in group && t in index && d in index[t]
  {
    forall d: uint32, group | group in kept
      ensures d in Gathered(index, Members(group)) <==> exists t :: t in group && t in index && d in index[t]
    {
    }
    forall d: uint32 ensures d in candidates <==> InAll(index, kept, d) {}
  }

  lemma {:induction false} CommonOne(index: Index, group: seq<uint32>, docids: seq<uint32>)
    requires Members(docids) == Gathered(index, Members(group))
    ensures Common(index, {group}, docids)
  {
    hide Gathered;
    forall d: uint32 ensures d in docids <==> InAll(index, {group}, d) {
      InMembers(docids, d);
      assert group in {group};
    }
  }

  lemma {:induction false} CommonMore(index: Index, kept: set<seq<uint32>>, candidates: seq<uint32>, group: seq<uint32>,
                                      docids: seq<uint32>, both: seq<uint32>)
    requires Common(index, kept, candidates) && Members(docids) == Gathered(index, Members(group))
    requires forall d :: d in both <==> d in candidates && d in docids
    ensures Common(index, kept + {group}, both)
  {
    hide Gathered;
    forall d: uint32 ensures d in both <==> InAll(index, kept + {group}, d) {
      InMembers(docids, d);
      assert d in candidates <==> InAll(index, kept, d);
      assert group in kept + {group};
    }
  }

  ghost predicate AllDifferent<T>(s: seq<T>) {
    forall i, k :: 0 <= i < k < |s| ==> s[i] != s[k]
  }

  lemma {:induction false} GatheredMore(index: Index, trigrams: set<uint32>, t: uint32)
    requires t in index
    ensures Gathered(index, trigrams + {t}) == Gathered(index, trigrams) + Members(index[t])
  {
  }

  lemma {:induction false} ReadMore(read: seq<(Entry, nat)>, e: (Entry, nat))
    ensures ReadSet(read + [e]) == ReadSet(read) + {e.0.trgm}
  {
    var next := read + [e];
    forall i | 0 <= i < |read| ensures read[i].0.trgm in ReadSet(next) { assert next[i] == read[i]; }
    assert next[|read|] == e;
  }

  lemma {:induction false} InMembers(s: seq<uint32>, t: uint32)
    ensures t in s <==> t in Members(s)
  {
  }

  lemma {:induction false} MembersCount(s: seq<uint32>)
    requires AllDifferent(s)
    ensures |Members(s)| == |s|
  {
    if s != [] {
      var n := |s| - 1;
      MembersCount(s[..n]);
      assert s == s[..n] + [s[n]];
      assert Members(s) == Members(s[..n]) + {s[n]};
    }
  }

  ghost predicate ByMax(groups: seq<Disjunction>) {
    forall i, k :: 0 <= i < k < |groups| ==> groups[i].maxNumDocids <= groups[k].maxNumDocids
  }

  method InsertByMax(groups: seq<Disjunction>, g: Disjunction) returns (r: seq<Disjunction>)
    requires ByMax(groups)
    ensures ByMax(r) && multiset(r) == multiset(groups) + multiset{g}
  {
    var k := |groups|;
    while k > 0 && g.maxNumDocids < groups[k - 1].maxNumDocids
      invariant 0 <= k <= |groups|
      invariant forall j :: k <= j < |groups| ==> g.maxNumDocids < groups[j].maxNumDocids
    {
      k := k - 1;
    }
    r := groups[..k] + [g] + groups[k..];
    InsertKeeps(groups, k, g);
  }

  lemma {:induction false} InsertKeeps<T>(s: seq<T>, k: nat, e: T)
    requires k <= |s|
    ensures multiset(s[..k] + [e] + s[k..]) == multiset(s) + multiset{e}
  {
    assert s == s[..k] + s[k..];
  }

  /** Sorting the groups by estimated size. */
  method SortByMax(groups: seq<Disjunction>) returns (r: seq<Disjunction>)
    ensures ByMax(r) && multiset(r) == multiset(groups)
  {
    hide ByMax;
    r := [];
    assert ByMax(r) by { NoGroups(); }
    for i := 0 to |groups|
      invariant ByMax(r) && multiset(r) == multiset(groups[..i])
    {
      r := InsertByMax(r, groups[i]);
      assert groups[..i + 1] == groups[..i] + [groups[i]];
    }
    assert groups[..|groups|] == groups;
  }

  lemma {:induction false} NoGroups()
    ensures ByMax([])
  {
  }

  lemma {:induction false} StillOutside<T>(a: set<T>, keys: set<T>, lookups: set<T>, t: T)
    requires t !in keys
    ensures a * keys - (lookups - {t}) == a * keys - lookups
  {
  }

  lemma {:induction false} NowOutside<T>(a: set<T>, keys: set<T>, lookups: set<T>, t: T)
    requires t in keys && t in a
    ensures a * keys - (lookups - {t}) == a * keys - lookups + {t}
  {
  }

  /** The trigrams of all groups. */
  function ToLookUp(lists: seq<seq<uint32>>): set<uint32> {
    if lists == [] then {} else ToLookUp(lists[..|lists| - 1]) + Members(lists[|lists| - 1])
  }

  lemma {:induction false} InLookups(lists: seq<seq<uint32>>, i: nat)
    requires i < |lists|
    ensures Members(lists[i]) <= ToLookUp(lists)
  {
    if i < |lists| - 1 { InLookups(lists[..|lists| - 1], i); }
  }

  lemma {:induction false} LookupsInRange(lists: seq<seq<uint32>>)
    requires forall i :: 0 <= i < |lists| ==> forall t :: t in lists[i] ==> t < NUM_TRIGRAMS
    ensures forall t :: t in ToLookUp(lists) ==> t < NUM_TRIGRAMS
  {
    if lists != [] { LookupsInRange(lists[..|lists| - 1]); }
  }

  class Searcher {
    const file: File
    const ignoreCase: bool
    const sse2: bool
    const inForkedChild: bool
    ghost const index: Index
    ghost const trigrams: seq<uint32>
    ghost const corpus: map<uint32, BuiltList>
    ghost const choices: map<uint32, seq<Choice>>
    ghost const numBlocks: nat
    /** Blocks that hold a match. */
    ghost const wanted: set<uint32>

    var groups: seq<Disjunction>
    var curCandidates: seq<uint32>
    var done: bool
    var noMatches: bool
    var pending: map<uint32, (Entry, nat)>
    var submitted: set<uint32>
    /** Lists whose callback has run. */
    ghost var completed: set<uint32>
    /** Some group has been read in full. */
    ghost var started: bool
    /** The groups that the candidates have been narrowed by. */
    ghost var kept: set<seq<uint32>>

    /** The file holds the index, and its lists are increasing docids of blocks. */
    ghost predicate Db() {
      && Stores(file, index, trigrams, corpus, choices)
      && forall t :: t in index ==>
        Increasing(index[t]) && index[t] != [] && forall d :: d in index[t] ==> d < numBlocks
    }

    /** Each block with a match has some alternative of the group. */
    ghost predicate Needed(g: Disjunction) {
      wanted <= Gathered(index, Alternatives(g))
    }

    ghost predicate Found(e: (Entry, nat)) {
      e.0.trgm in index && e.0.trgm in corpus && PointsAt(file.lists, file.base, e.0, e.1, corpus[e.0.trgm])
    }

    // ------------------------------------------------------------ hash lookups

    /** A group while the trigrams in lookups are still to be looked up. */
    ghost predicate LookedUp(g: Disjunction, lookups: set<uint32>) {
      && Needed(g)
      && (forall i :: 0 <= i < |g.readTrigrams| ==> Found(g.readTrigrams[i]))
      && ReadSet(g.readTrigrams) == Alternatives(g) * index.Keys - lookups
      && |ReadSet(g.readTrigrams)| == |g.readTrigrams|
      && g.docids == []
      && g.remaining == |Alternatives(g) * lookups|
    }

    lemma {:induction false} LastLookup(g: Disjunction, lookups: set<uint32>, t: uint32)
      requires LookedUp(g, lookups) && t in lookups && t in g.alternatives
      ensures g.remaining >= 1 && |Alternatives(g) * (lookups - {t})| == g.remaining - 1
      ensures g.remaining == 1 ==> Alternatives(g) * lookups == {t}
    {
      hide Found, ReadSet, Needed, Gathered;
      var left := Alternatives(g) * lookups;
      assert t in left;
      assert Alternatives(g) * (lookups - {t}) == left - {t};
      if g.remaining == 1 {
        assert |left - {t}| == 0;
        assert left == {t} + (left - {t});
      }
    }

    lemma {:induction false} LookupMissed(g: Disjunction, lookups: set<uint32>, t: uint32)
      requires LookedUp(g, lookups) && t in lookups && t in g.alternatives && t !in index && g.remaining > 0
      ensures LookedUp(g.(remaining := g.remaining - 1), lookups - {t})
    {
      hide Found, ReadSet, Members, Gathered;
      LastLookup(g, lookups, t);
      StillOutside(Alternatives(g), index.Keys, lookups, t);
    }

    /** The last lookup of a group fails and none before it succeeded: nothing can match. */
    lemma {:induction false} NothingFound(g: Disjunction, lookups: set<uint32>, t: uint32)
      requires LookedUp(g, lookups) && t in lookups && t in g.alternatives && t !in index
      requires g.remaining == 1 && g.readTrigrams == []
      ensures wanted == {}
    {
      hide Found;
      LastLookup(g, lookups, t);
      assert ReadSet(g.readTrigrams) == {};
      assert Alternatives(g) * index.Keys == {};
      assert Gathered(index, Alternatives(g)) == {};
    }

    lemma {:induction false} LookupFound(g: Disjunction, lookups: set<uint32>, t: uint32, e: (Entry, nat), m: uint32)
      requires LookedUp(g, lookups) && t in lookups && t in g.alternatives && Found(e) && e.0.trgm == t && t in index
      requires g.remaining > 0
      ensures LookedUp(g.(remaining := g.remaining - 1, maxNumDocids := m, readTrigrams := g.readTrigrams + [e]),
        lookups - {t})
    {
      hide Found, ReadSet, Gathered, Members;
      LastLookup(g, lookups, t);
      ReadMore(g.readTrigrams, e);
      InMembers(g.alternatives, t);
      NowOutside(Alternatives(g), index.Keys, lookups, t);
      assert t !in ReadSet(g.readTrigrams);
    }

    lemma {:induction false} LookupElsewhere(g: Disjunction, lookups: set<uint32>, t: uint32)
      requires LookedUp(g, lookups) && t !in g.alternatives
      ensures LookedUp(g, lookups - {t})
    {
      hide Found, ReadSet;
      assert Alternatives(g) * (lookups - {t}) == Alternatives(g) * lookups;
      assert Alternatives(g) * index.Keys - (lookups - {t}) == Alternatives(g) * index.Keys - lookups;
    }

    /** What happens to a group when the lookup of t completes; e is none if t is not in the
        table. Exit is set if nothing at all can match. */
    method GroupLookedUp(g: Disjunction, t: uint32, found: Option<(Entry, nat)>, ghost lookups: set<uint32>)
      returns (r: Disjunction, exit: bool)
      requires LookedUp(g, lookups) && t in lookups && t in g.alternatives
      requires found.Some? <==> t in index
      requires found.Some? ==> Found(found.value) && found.value.0.trgm == t
      ensures LookedUp(r, lookups - {t}) && r.alternatives == g.alternatives
      ensures exit ==> wanted == {}
      ensures !exit && r.remaining == 0 ==> r.readTrigrams != []
    {
      hide LookedUp, Found;
      LastLookup(g, lookups, t);
      exit := false;
      if found.None? {
        LookupMissed(g, lookups, t);
        r := g.(remaining := g.remaining - 1);
        if r.remaining == 0 && r.readTrigrams == [] {
          NothingFound(g, lookups, t);
          exit := true;
        }
      } else {
        var m := (g.maxNumDocids as int + found.value.0.numDocids) % 0x1_0000_0000;
        LookupFound(g, lookups, t, found.value, m);
        r := g.(remaining := g.remaining - 1, maxNumDocids := m, readTrigrams := g.readTrigrams + [found.value]);
      }
    }

    /** Each group still has something to wait for or to read. */
    ghost predicate Live()
      reads this`groups
    {
      forall i :: 0 <= i < |groups| && groups[i].remaining == 0 ==> groups[i].readTrigrams != []
    }

    /** The callback of one hash lookup. */
    method TrigramLookedUp(t: uint32, found: Option<(Entry, nat)>, ghost lookups: set<uint32>)
      requires t in lookups && (found.Some? <==> t in index)
      requires found.Some? ==> Found(found.value) && found.value.0.trgm == t
      requires forall i :: 0 <= i < |groups| ==> LookedUp(groups[i], lookups)
      requires if noMatches then wanted == {} else Live()
      modifies this`groups, this`noMatches
      ensures |groups| == old(|groups|)
      ensures forall i :: 0 <= i < |groups| ==>
        LookedUp(groups[i], lookups - {t}) && groups[i].alternatives == old(groups[i].alternatives)
      ensures if noMatches then wanted == {} else Live()
    {
      hide LookedUp, Found;
      for i := 0 to |groups|
        invariant |groups| == old(|groups|)
        invariant forall k :: 0 <= k < |groups| ==> groups[k].alternatives == old(groups[k].alternatives)
        invariant forall k :: 0 <= k < i ==> LookedUp(groups[k], lookups - {t})
        invariant forall k :: i <= k < |groups| ==> LookedUp(groups[k], lookups)
        invariant if noMatches then wanted == {} else Live()
      {
        if t in groups[i].alternatives {
          var g, exit := GroupLookedUp(groups[i], t, found, lookups);
          groups := groups[i := g];
          noMatches := noMatches || exit;
        } else {
          LookupElsewhere(groups[i], lookups, t);
        }
      }
    }

    // ------------------------------------------------------------ posting lists

    /** All lookups of the group are done. */
    ghost predicate Ready(g: Disjunction) {
      && Needed(g)
      && (forall i :: 0 <= i < |g.readTrigrams| ==> Found(g.readTrigrams[i]))
      && ReadSet(g.readTrigrams) == Alternatives(g) * index.Keys
      && |ReadSet(g.readTrigrams)| == |g.readTrigrams|
    }

    /** A group of which the lists in read have come in. Once all have, its union has been
        handed over to the candidates. */
    ghost predicate Reading(g: Disjunction, read: set<uint32>) {
      && Ready(g)
      && Increasing(g.docids)
      && g.remaining == |ReadSet(g.readTrigrams) - read|
      && (g.remaining > 0 ==> Members(g.docids) == Gathered(index, ReadSet(g.readTrigrams) * read))
    }

    /** No candidates at all means that nothing has been narrowed yet, or nothing matches. */
    ghost predicate Sound()
      reads this`curCandidates, this`started, this`kept
    {
      && Increasing(curCandidates)
      && (forall d :: d in curCandidates ==> d < numBlocks)
      && (curCandidates != [] ==> started)
      && (started ==> wanted <= Members(curCandidates) && kept != {} && Common(index, kept, curCandidates))
    }

    lemma {:induction false} NeededFound(g: Disjunction)
      requires Ready(g)
      ensures wanted <= Gathered(index, ReadSet(g.readTrigrams)) == Gathered(index, Members(g.alternatives))
    {
      hide Found;
      assert Gathered(index, Alternatives(g)) <= Gathered(index, Alternatives(g) * index.Keys);
    }

    lemma {:induction false} ReadElsewhere(g: Disjunction, read: set<uint32>, t: uint32)
      requires Reading(g, read) && t !in g.alternatives
      ensures Reading(g, read + {t})
    {
      hide Found, Gathered, Increasing, ReadSet;
      assert ReadSet(g.readTrigrams) - (read + {t}) == ReadSet(g.readTrigrams) - read;
      assert ReadSet(g.readTrigrams) * (read + {t}) == ReadSet(g.readTrigrams) * read;
    }

    /** The list of t joins the group's union. */
    lemma {:induction false} ListJoins(g: Disjunction, read: set<uint32>, t: uint32, docids: seq<uint32>)
      requires Db() && Reading(g, read) && t in ReadSet(g.readTrigrams) && t !in read && t in index
      requires docids == if g.docids == [] then index[t] else Union(index[t], g.docids)
      ensures g.remaining >= 1 && g.remaining - 1 == |ReadSet(g.readTrigrams) - (read + {t})|
      ensures Increasing(docids) && Members(docids) == Gathered(index, ReadSet(g.readTrigrams) * (read + {t}))
      ensures forall d :: d in docids ==> d < numBlocks
    {
      hide Found, ReadSet, Gathered, Increasing, Stores;
      var all := ReadSet(g.readTrigrams);
      assert t in all - read;
      assert all - (read + {t}) == all - read - {t};
      assert all * (read + {t}) == all * read + {t};
      GatheredMore(index, all * read, t);
      UnionIsUnion(index[t], g.docids);
      assert Members(docids) == Members(g.docids) + Members(index[t]);
      GatheredInside(all * (read + {t}));
      assert forall d :: d in docids ==> d in Members(docids);
    }

    lemma {:induction false} GatheredInside(ts: set<uint32>)
      requires Db()
      ensures forall d :: d in Gathered(index, ts) ==> d < numBlocks
    {
      hide Stores, Increasing;
    }

    /** Unions a list into a group and, when the group is complete, narrows the candidates.
        True means that the search is over: nothing can match. */
    method NewPostingListRead(i: nat, decoded: seq<uint32>, ghost t: uint32) returns (abort: bool)
      requires Db() && i < |groups| && Reading(groups[i], completed) && Sound() && KeptGroups()
      requires t in ReadSet(groups[i].readTrigrams) && t !in completed && t in index && decoded == index[t]
      modifies this`groups, this`curCandidates, this`started, this`kept
      ensures |groups| == old(|groups|) && (forall k :: 0 <= k < |groups| && k != i ==> groups[k] == old(groups[k]))
      ensures Reading(groups[i], completed + {t})
      ensures groups[i].alternatives == old(groups[i].alternatives)
      ensures groups[i].readTrigrams == old(groups[i].readTrigrams)
      ensures Sound() && (groups[i].remaining == 0 ==> started) && (old(started) ==> started)
      ensures KeptGroups()
      ensures abort ==> wanted == {}
    {
      hide Db, Found, Sound, Gathered, ReadSet, Union, Intersection, Increasing, Common;
      var td := groups[i];
      var docids := if td.docids == [] then decoded else Union(decoded, td.docids);
      ListJoins(td, completed, t, docids);
      td := td.(docids := docids, remaining := td.remaining - 1);
      abort := false;
      if td.remaining > 0 {
        groups := groups[i := td];
        return;
      }
      NeededFound(td);
      EmptyDifference(ReadSet(td.readTrigrams), completed + {t});
      var moved;
      moved, abort := Narrow(docids, td.alternatives);
      groups := groups[i := if moved then td.(docids := []) else td];
      assert Increasing([]) by { NoneIncreasing(); }
    }

    /** The first complete group gives the candidates, the others narrow them. */
    method Narrow(docids: seq<uint32>, ghost group: seq<uint32>) returns (moved: bool, abort: bool)
      requires Sound() && Increasing(docids) && (forall d :: d in docids ==> d < numBlocks) && wanted <= Members(docids)
      requires Members(docids) == Gathered(index, Members(group))
      modifies this`curCandidates, this`started, this`kept
      ensures Sound() && started && (abort ==> wanted == {})
      ensures kept <= old(kept) + {group}
    {
      hide Increasing, Union, Intersection, Common;
      moved, abort := false, false;
      started := true;
      if curCandidates == [] {
        moved := true;
        curCandidates, kept := docids, {group};
        CommonOne(index, group, docids);
      } else {
        IntersectionIsIntersection(curCandidates, docids);
        CommonMore(index, kept, curCandidates, group, docids, Intersection(curCandidates, docids));
        curCandidates, kept := Intersection(curCandidates, docids), kept + {group};
        if ignoreCase && curCandidates == [] {
          abort := true;
        }
      }
    }

    /** Between callbacks. Once done, nothing can match. */
    ghost predicate Steady()
      reads this`groups, this`curCandidates, this`started, this`kept, this`completed, this`pending, this`submitted,
            this`done
    {
      if done then wanted == {}
      else
        && Sound() && KeptGroups()
        && (forall i :: 0 <= i < |groups| ==> Reading(groups[i], completed) && (groups[i].remaining == 0 ==> started))
        && completed !! pending.Keys && submitted == completed + pending.Keys
        && forall t :: t in pending ==> t in index && Found(pending[t]) && pending[t].0.trgm == t
    }

    /** The candidates have been narrowed by groups only. */
    ghost predicate KeptGroups()
      reads this`groups, this`kept
    {
      forall group :: group in kept ==> exists i :: 0 <= i < |groups| && groups[i].alternatives == group
    }

    ghost predicate SameGroups(was: seq<Disjunction>)
      reads this`groups
    {
      |groups| == |was| && forall i :: 0 <= i < |groups| ==>
        groups[i].alternatives == was[i].alternatives && groups[i].readTrigrams == was[i].readTrigrams
    }

    /** The callback of one posting list. */
    method ListArrived(t: uint32)
      requires Db() && Steady() && t in pending
      modifies this`groups, this`curCandidates, this`started, this`kept, this`completed, this`pending, this`done
      ensures Steady() && SameGroups(old(groups)) && pending == old(pending) - {t}
      ensures old(done) ==> done
    {
      hide Db, Found, Reading, Sound, ReadSet, KeptGroups;
      var e := pending[t];
      pending := pending - {t};
      if done {
        return;
      }
      var decoded := Decode(e);
      for i := 0 to |groups|
        invariant SameGroups(old(groups)) && Sound() && KeptGroups() && !done
        invariant completed == old(completed) && pending == old(pending) - {t}
        invariant forall k :: 0 <= k < |groups| ==> Reading(groups[k], if k < i then completed + {t} else completed)
        invariant forall k :: 0 <= k < |groups| ==> (groups[k].remaining == 0 ==> started)
      {
        if t in groups[i].alternatives {
          IsRead(groups[i], completed, t);
          var abort := NewPostingListRead(i, decoded, t);
          done := done || abort;
          if done {
            return;
          }
        } else {
          ReadElsewhere(groups[i], completed, t);
        }
      }
      completed := completed + {t};
    }

    lemma {:induction false} IsRead(g: Disjunction, read: set<uint32>, t: uint32)
      requires Reading(g, read) && t in g.alternatives && t in index
      ensures t in ReadSet(g.readTrigrams)
    {
      hide Found, ReadSet, Gathered;
    }

    /** Decodes a list, whatever bytes follow it in the read buffer. */
    method Decode(e: (Entry, nat)) returns (decoded: seq<uint32>)
      requires Db() && Found(e)
      ensures decoded == index[e.0.trgm]
    {
      hide Stores, Increasing, PointsAt;
      var zeros: seq<byte> := seq(16, _ => 0);
      assert |zeros| == 16;
      var slop: seq<byte> :| |slop| == 16;
      decoded := ReadList(file, e.0, e.1, slop, sse2, index, trigrams, corpus, choices);
    }

    /** Some reads complete, in any order. */
    method Poll()
      requires Db() && Steady()
      modifies this`groups, this`curCandidates, this`started, this`kept, this`completed, this`pending, this`done
      ensures Steady() && SameGroups(old(groups)) && (old(done) ==> done)
    {
      hide Db, Steady;
      while *
        invariant Steady() && SameGroups(old(groups)) && (old(done) ==> done)
        decreases |pending|
      {
        if |pending| == 0 {
          break;
        }
        var t :| t in pending;
        MapShrinks(pending, t);
        ListArrived(t);
      }
    }

    /** All reads complete, in any order. */
    method FinishReads()
      requires Db() && Steady()
      modifies this`groups, this`curCandidates, this`started, this`kept, this`completed, this`pending, this`done
      ensures Steady() && SameGroups(old(groups)) && (old(done) ==> done) && pending == map[]
    {
      hide Db, Steady;
      while |pending| > 0
        invariant Steady() && SameGroups(old(groups)) && (old(done) ==> done)
        decreases |pending|
      {
        var t :| t in pending;
        MapShrinks(pending, t);
        ListArrived(t);
      }
    }

    /** Submits one read; with five of them waiting, the queue is drained first. */
    method SubmitList(e: (Entry, nat))
      requires Db() && Steady() && Found(e)
      modifies this`groups, this`curCandidates, this`started, this`kept, this`completed, this`pending, this`submitted,
               this`done
      ensures Steady() && SameGroups(old(groups)) && (old(done) ==> done)
      ensures !done ==> submitted == old(submitted) + {e.0.trgm}
    {
      hide Db, Found, Steady;
      var t := e.0.trgm;
      if t in submitted {
        return;
      }
      if |pending| >= 5 {
        FinishReads();
        if done {
          return;
        }
      }
      Enqueue(e);
      Poll();
    }

    method Enqueue(e: (Entry, nat))
      requires Db() && Steady() && Found(e) && e.0.trgm !in submitted
      modifies this`pending, this`submitted
      ensures Steady() && submitted == old(submitted) + {e.0.trgm}
    {
      hide Db, Reading, Sound, PointsAt;
      submitted := submitted + {e.0.trgm};
      pending := pending[e.0.trgm := e];
    }

    // ------------------------------------------------------------ the search

    /** What parsing has to deliver: groups of distinct trigrams, one of which is in every
        block with a match. */
    ghost predicate Parsed(lists: seq<seq<uint32>>) {
      forall i :: 0 <= i < |lists| ==>
        && lists[i] != [] && AllDifferent(lists[i])
        && (forall t :: t in lists[i] ==> t < NUM_TRIGRAMS)
        && wanted <= Gathered(index, Members(lists[i]))
    }

    constructor (file: File, ignoreCase: bool, sse2: bool, inForkedChild: bool, ghost index: Index,
                 ghost trigrams: seq<uint32>, ghost corpus: map<uint32, BuiltList>,
                 ghost choices: map<uint32, seq<Choice>>, ghost numBlocks: nat, ghost wanted: set<uint32>)
      ensures this.file == file && this.ignoreCase == ignoreCase && this.inForkedChild == inForkedChild
      ensures this.index == index && this.trigrams == trigrams && this.corpus == corpus && this.choices == choices
      ensures this.numBlocks == numBlocks && this.wanted == wanted
    {
      this.file, this.ignoreCase, this.sse2, this.inForkedChild := file, ignoreCase, sse2, inForkedChild;
      this.index, this.trigrams, this.corpus, this.choices := index, trigrams, corpus, choices;
      this.numBlocks, this.wanted := numBlocks, wanted;
      groups, curCandidates, done, noMatches, pending, submitted := [], [], false, false, map[], {};
      completed, started, kept := {}, false, {};
    }

    lemma {:induction false} FreshGroup(list: seq<uint32>, all: set<uint32>)
      requires AllDifferent(list) && Members(list) <= all && wanted <= Gathered(index, Members(list))
      ensures LookedUp(Disjunction(list, [], 0, [], |list|), all)
    {
      hide Found, Gathered;
      MembersCount(list);
      assert Members(list) * all == Members(list);
      assert ReadSet([]) == {};
      assert Members(list) * index.Keys - all == {};
    }

    lemma {:induction false} AllLookedUp(g: Disjunction)
      requires LookedUp(g, {}) && (g.remaining == 0 ==> g.readTrigrams != [])
      ensures Ready(g) && g.docids == [] && g.readTrigrams != []
    {
      hide Found, Gathered, ReadSet, Members;
      assert Alternatives(g) * {} == {};
      assert Alternatives(g) * index.Keys - {} == Alternatives(g) * index.Keys;
    }

    /** All hash lookups, completing in any order. */
    method LookUpAll(lists: seq<seq<uint32>>)
      requires Db() && Parsed(lists)
      modifies this`groups, this`noMatches
      ensures if noMatches then wanted == {} else
        |groups| == |lists| && forall i :: 0 <= i < |groups| ==>
          && groups[i].alternatives == lists[i] && Ready(groups[i])
          && groups[i].docids == [] && groups[i].readTrigrams != []
    {
      hide Db, Found, LookedUp, Gathered, AllDifferent, Ready;
      noMatches := false;
      groups := seq(|lists|, i requires 0 <= i < |lists| => Disjunction(lists[i], [], 0, [], |lists[i]|));
      var lookups: set<uint32> := ToLookUp(lists);
      forall i | 0 <= i < |groups| ensures LookedUp(groups[i], lookups) {
        InLookups(lists, i);
        FreshGroup(lists[i], lookups);
      }
      LookupsInRange(lists);
      while lookups != {}
        invariant |groups| == |lists| && forall t :: t in lookups ==> t < NUM_TRIGRAMS
        invariant forall i :: 0 <= i < |groups| ==> LookedUp(groups[i], lookups) && groups[i].alternatives == lists[i]
        invariant if noMatches then wanted == {} else Live()
        decreases |lookups|
      {
        var t: uint32 :| t in lookups;
        var found := FindTrigram(t);
        TrigramLookedUp(t, found, lookups);
        lookups := lookups - {t};
        if noMatches && !inForkedChild {
          return;
        }
      }
      if !noMatches {
        forall i | 0 <= i < |groups|
          ensures Ready(groups[i]) && groups[i].docids == [] && groups[i].readTrigrams != []
        {
          AllLookedUp(groups[i]);
        }
      }
    }

    method FindTrigram(t: uint32) returns (found: Option<(Entry, nat)>)
      requires Db() && t < NUM_TRIGRAMS
      ensures found.Some? <==> t in index
      ensures found.Some? ==> Found(found.value) && found.value.0.trgm == t
    {
      hide Stores, Increasing, PointsAt;
      found := Find(file, t, index, trigrams, corpus, choices);
    }

    lemma {:induction false} FirstRead(g: Disjunction)
      requires Ready(g) && g.docids == [] && g.readTrigrams != []
      ensures Reading(g.(remaining := |g.readTrigrams|), {}) && |g.readTrigrams| > 0
    {
      hide Found, Gathered, ReadSet, Alternatives, Needed;
      assert ReadSet(g.readTrigrams) - {} == ReadSet(g.readTrigrams);
      assert ReadSet(g.readTrigrams) * {} == {};
      assert Gathered(index, {}) == {} by { NothingGathered(); }
      assert Increasing([]) by { NoneIncreasing(); }
      ReadyReset(g, |g.readTrigrams|);
    }

    lemma {:induction false} NothingGathered()
      ensures Gathered(index, {}) == {}
    {
    }

    lemma {:induction false} ReadyReset(g: Disjunction, n: nat)
      requires Ready(g)
      ensures Ready(g.(remaining := n))
    {
      hide Found, Gathered, ReadSet, Members;
    }

    /** Resets the counters for reading and puts the groups in order of size. */
    method StartReading(ghost lists: seq<seq<uint32>>)
      requires groups != [] && forall i :: 0 <= i < |groups| ==>
        Ready(groups[i]) && groups[i].docids == [] && groups[i].readTrigrams != []
      requires forall i :: 0 <= i < |groups| ==> groups[i].alternatives in lists
      modifies this`groups, this`curCandidates, this`started, this`kept, this`completed, this`pending, this`submitted,
               this`done
      ensures Steady() && !done && curCandidates == [] && submitted == {} && groups != []
      ensures forall i :: 0 <= i < |groups| ==> groups[i].alternatives in lists
    {
      hide Ready, Found, ByMax, Reading;
      var was := groups;
      var reset := seq(|was|, i requires 0 <= i < |was| => was[i].(remaining := |was[i].readTrigrams|));
      forall i | 0 <= i < |groups| ensures Reading(reset[i], {}) && reset[i].remaining > 0 { FirstRead(groups[i]); }
      groups := SortByMax(reset);
      forall i | 0 <= i < |groups|
        ensures Reading(groups[i], {}) && groups[i].remaining > 0 && groups[i].alternatives in lists
      {
        assert groups[i] in multiset(groups);
        assert groups[i] in reset;
      }
      assert |groups| == |multiset(groups)| == |reset|;
      curCandidates, done, pending, submitted, completed, started, kept := [], false, map[], {}, {}, false, {};
      assert Increasing([]) by { NoneIncreasing(); }
    }

    /** Submits the lists of one group that have not been submitted for another. */
    method SubmitGroup(i: nat)
      requires Db() && Steady() && i < |groups|
      modifies this`groups, this`curCandidates, this`started, this`kept, this`completed, this`pending, this`submitted,
               this`done
      ensures Steady() && SameGroups(old(groups))
      ensures !done ==> ReadSet(groups[i].readTrigrams) + old(submitted) <= submitted
      ensures old(done) ==> done
    {
      hide Db, Found, Steady;
      var read := groups[i].readTrigrams;
      for k := 0 to |read|
        invariant Steady() && SameGroups(old(groups)) && (old(done) ==> done)
        invariant !done ==> old(submitted) <= submitted && forall j :: 0 <= j < k ==> read[j].0.trgm in submitted
      {
        if done {
          return;
        }
        EntryFound(i, k);
        SubmitList(read[k]);
      }
    }

    lemma {:induction false} EntryFound(i: nat, k: nat)
      requires Steady() && !done && i < |groups| && k < |groups[i].readTrigrams|
      ensures Found(groups[i].readTrigrams[k])
    {
      hide Found, Gathered, ReadSet;
      assert Reading(groups[i], completed);
    }

    lemma {:induction false} FirstGroupDone()
      requires Steady() && !done && pending == map[] && groups != [] && ReadSet(groups[0].readTrigrams) <= submitted
      ensures Increasing(curCandidates) && (forall d :: d in curCandidates ==> d < numBlocks)
      ensures wanted <= Members(curCandidates)
      ensures kept != {} && KeptGroups() && Common(index, kept, curCandidates)
    {
      hide Found, Gathered, ReadSet, Ready, Common;
      assert completed == submitted;
      assert Reading(groups[0], completed);
      assert ReadSet(groups[0].readTrigrams) - completed == {};
    }

    /** Posting lists, smallest groups first, until the rest would not pay. */
    method ReadLists(ghost lists: seq<seq<uint32>>) returns (candidates: seq<uint32>)
      requires Db() && Steady() && !done && curCandidates == [] && submitted == {} && groups != []
      requires forall i :: 0 <= i < |groups| ==> groups[i].alternatives in lists
      modifies this`groups, this`curCandidates, this`started, this`kept, this`completed, this`pending, this`submitted,
               this`done
      ensures Increasing(candidates) && (forall d :: d in candidates ==> d < numBlocks) && wanted <= Members(candidates)
      ensures candidates == [] || Narrowed(index, lists, candidates)
    {
      hide Db, Steady, Increasing, ReadSet, Common;
      var n := |groups|;
      for i := 0 to n
        invariant Steady() && SameGroups(old(groups))
        invariant i == 0 ==> curCandidates == []
        invariant !done && i > 0 ==> ReadSet(groups[0].readTrigrams) <= submitted
      {
        if curCandidates != [] && groups[i].maxNumDocids > |curCandidates| * 100 {
          break;
        }
        SubmitGroup(i);
      }
      FinishReads();
      if done {
        assert wanted == {} by { DoneMeansNone(); }
        assert Increasing([]) by { NoneIncreasing(); }
        return [];
      }
      FirstGroupDone();
      candidates := curCandidates;
    }

    lemma {:induction false} DoneMeansNone()
      requires Steady() && done
      ensures wanted == {}
    {
    }

    /** The blocks to scan: in order, and with every block that holds a match among them,
        whatever the order in which lookups and reads complete. */
    method FindCandidates(lists: seq<seq<uint32>>) returns (candidates: seq<uint32>)
      requires Db() && Parsed(lists) && lists != []
      modifies this
      ensures Increasing(candidates) && (forall d :: d in candidates ==> d < numBlocks) && wanted <= Members(candidates)
      ensures candidates == [] ||
        exists kept: set<seq<uint32>> :: kept != {} && (forall group :: group in kept ==> group in lists)
          && Common(index, kept, candidates)
    {
      hide Db, Parsed, Steady, Ready, Common;
      LookUpAll(lists);
      if noMatches {
        assert Increasing([]) by { NoneIncreasing(); }
        return [];
      }
      StartReading(lists);
      candidates := ReadLists(lists);
    }
  }

  lemma {:induction false} MapShrinks<K, V>(m: map<K, V>, k: K)
    requires k in m
    ensures |m - {k}| == |m| - 1
  {
    assert (m - {k}).Keys == m.Keys - {k};
    assert |m| == |m.Keys| && |m - {k}| == |(m - {k}).Keys|;
  }

  lemma {:induction false} EmptyDifference<T>(a: set<T>, b: set<T>)
    requires |a - b| == 0
    ensures a * b == a
  {
    assert a - b == {};
    forall x | x in a ensures x in b { assert x !in a - b; }
  }
}
