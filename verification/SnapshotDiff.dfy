/** Comparing two snapshots, and pairing the entries of a directory with the old ones. */
module SnapshotDiff {
  import opened Bits
  import opened Orders
  import opened Metadata
  import opened TrigramIndex
  import BlockScan
  import opened History

  datatype Item = Item(path: Path, metadata: FileMetadata)

  predicate PathLess(a: Path, b: Path) {
    ListLess(a, b)
  }

  lemma {:induction false} PathTotal(a: Path, b: Path)
    ensures !(PathLess(a, b) && PathLess(b, a)) && (a == b || PathLess(a, b) || PathLess(b, a))
    ensures !PathLess(a, a)
  {
    ListLessTotal(a, b);
    ListLessTotal(a, a);
  }

  lemma {:induction false} PathTransitive(a: Path, b: Path, c: Path)
    requires PathLess(a, b) && PathLess(b, c)
    ensures PathLess(a, c)
  {
    ListLessTransitive(a, b, c);
  }

  /** Paths in strictly increasing order. */
  ghost predicate Snapshot(s: seq<Item>) {
    forall i, k :: 0 <= i < k < |s| ==> PathLess(s[i].path, s[k].path)
  }

  /** Paths are ordered by their bytes. */
  lemma {:induction false} ByteOrder(a: Path, b: Path)
    ensures PathLess(a, b) <==> exists m: nat :: FirstBelow(a, b, m)
  {
    LessAtDifference(a, b);
  }

  /** That order will do for snapshots and for the entries of a directory. */
  lemma {:induction false} SortedByBytes(s: seq<Item>, entries: seq<DirEntry>)
    requires forall i, k :: 0 <= i < k < |s| ==> exists m: nat :: FirstBelow(s[i].path, s[k].path, m)
    requires forall i, k :: 0 <= i < k < |entries| ==>
      exists m: nat :: FirstBelow(entries[i].name, entries[k].name, m)
    ensures Snapshot(s) && ByName(entries)
  {
    hide FirstBelow, PathLess;
    forall i, k | 0 <= i < k < |s| ensures PathLess(s[i].path, s[k].path) { ByteOrder(s[i].path, s[k].path); }
    forall i, k | 0 <= i < k < |entries| ensures PathLess(entries[i].name, entries[k].name) {
      ByteOrder(entries[i].name, entries[k].name);
    }
  }

  ghost predicate Has(s: seq<Item>, p: Path) {
    exists i :: 0 <= i < |s| && s[i].path == p
  }

  ghost function Files(s: seq<Item>): map<Path, FileMetadata> {
    if s == [] then map[] else Files(s[..|s| - 1])[s[|s| - 1].path := s[|s| - 1].metadata]
  }

  function MakeEvent(kind: byte, path: Path, old_: FileMetadata, new_: FileMetadata): HistoryEvent {
    HistoryEvent(kind, path, UNKNOWN_DIR_TIME, old_, new_)
  }

  /** The change an event stands for. */
  ghost function Apply(files: map<Path, FileMetadata>, e: HistoryEvent): map<Path, FileMetadata> {
    if e.kind == REMOVED then files - {e.path} else files[e.path := e.newMetadata]
  }

  ghost function ApplyAll(files: map<Path, FileMetadata>, events: seq<HistoryEvent>): map<Path, FileMetadata> {
    if events == [] then files else Apply(ApplyAll(files, events[..|events| - 1]), events[|events| - 1])
  }

  /** The event for a path in the two states, if they differ there. */
  ghost predicate EventIsRight(old_: map<Path, FileMetadata>, new_: map<Path, FileMetadata>, e: HistoryEvent,
                               atime: bool) {
    e.eventTime == UNKNOWN_DIR_TIME &&
    if e.kind == ADDED then
      e.path !in old_ && e.path in new_ && e.newMetadata == new_[e.path] && e.oldMetadata == NO_METADATA
    else if e.kind == REMOVED then
      e.path in old_ && e.path !in new_ && e.oldMetadata == old_[e.path] && e.newMetadata == NO_METADATA
    else
      && e.kind == MODIFIED && e.path in old_ && e.path in new_
      && e.oldMetadata == old_[e.path] && e.newMetadata == new_[e.path]
      && !MetadataEquals(old_[e.path], new_[e.path], atime)
  }

  /** The two states agree at p. */
  ghost predicate Same(old_: map<Path, FileMetadata>, new_: map<Path, FileMetadata>, p: Path, atime: bool) {
    (p in old_ <==> p in new_) && (p in old_ && p in new_ ==> MetadataEquals(old_[p], new_[p], atime))
  }

  ghost predicate InOrder(events: seq<HistoryEvent>) {
    forall i, k :: 0 <= i < k < |events| ==> PathLess(events[i].path, events[k].path)
  }

  ghost predicate Told(events: seq<HistoryEvent>, p: Path) {
    exists i :: 0 <= i < |events| && events[i].path == p
  }

  /** One event, the right one, for each path at which the states differ, and no other. */
  ghost predicate Tells(old_: map<Path, FileMetadata>, new_: map<Path, FileMetadata>, events: seq<HistoryEvent>,
                        atime: bool) {
    && InOrder(events)
    && (forall i :: 0 <= i < |events| ==> EventIsRight(old_, new_, events[i], atime))
    && forall p :: Told(events, p) <==> !Same(old_, new_, p, atime)
  }

  // ---------------------------------------------------------------- snapshots as maps

  lemma {:induction false} HasLast(s: seq<Item>, p: Path)
    requires s != []
    ensures Has(s, p) <==> Has(s[..|s| - 1], p) || s[|s| - 1].path == p
  {
    var n := |s| - 1;
    if Has(s[..n], p) {
      var i :| 0 <= i < n && s[..n][i].path == p;
      assert s[i].path == p;
    }
    if i :| 0 <= i < |s| && s[i].path == p {
      if i < n { assert s[..n][i].path == p; }
    }
  }

  lemma {:induction false} FilesAt(s: seq<Item>, p: Path)
    requires Snapshot(s)
    ensures p in Files(s) <==> Has(s, p)
    ensures forall i :: 0 <= i < |s| && s[i].path == p ==> p in Files(s) && Files(s)[p] == s[i].metadata
  {
    hide PathLess, Has;
    if s == [] {
      assert !Has(s, p) by { NothingHas(p); }
    } else {
      var n := |s| - 1;
      HasLast(s, p);
      FilesAt(s[..n], p);
      if s[n].path == p {
        forall i | 0 <= i < n ensures s[i].path != p { PathTotal(s[i].path, s[n].path); }
      }
    }
  }

  lemma {:induction false} NothingHas(p: Path)
    ensures !Has([], p)
  {
  }

  // ---------------------------------------------------------------- the comparison

  /** The first i and j items have been compared: they all come before the others, and the
      events so far are for them. */
  ghost predicate Compared(olds: seq<Item>, news: seq<Item>, i: nat, j: nat, events: seq<HistoryEvent>, atime: bool) {
    && i <= |olds| && j <= |news|
    && (forall a, b :: 0 <= a < i && j <= b < |news| ==> PathLess(olds[a].path, news[b].path))
    && (forall a, b :: i <= a < |olds| && 0 <= b < j ==> PathLess(news[b].path, olds[a].path))
    && InOrder(events)
    && (forall k :: 0 <= k < |events| ==> EventIsRight(Files(olds), Files(news), events[k], atime))
    && (forall k :: 0 <= k < |events| ==> Has(olds[..i], events[k].path) || Has(news[..j], events[k].path))
    && forall p :: Has(olds[..i], p) || Has(news[..j], p) ==>
      (Told(events, p) <==> !Same(Files(olds), Files(news), p, atime))
  }

  /** p is the next path: after all that have been compared. */
  ghost predicate Next(olds: seq<Item>, news: seq<Item>, i: nat, j: nat, p: Path)
    requires i <= |olds| && j <= |news|
  {
    && (forall a :: 0 <= a < i ==> PathLess(olds[a].path, p))
    && (forall b :: 0 <= b < j ==> PathLess(news[b].path, p))
  }

  lemma {:induction false} NotYetTold(olds: seq<Item>, news: seq<Item>, i: nat, j: nat, events: seq<HistoryEvent>,
                                      atime: bool, p: Path)
    requires Compared(olds, news, i, j, events, atime) && Next(olds, news, i, j, p)
    ensures forall k :: 0 <= k < |events| ==> PathLess(events[k].path, p)
    ensures !Told(events, p) && !Has(olds[..i], p) && !Has(news[..j], p)
  {
    hide PathLess, EventIsRight, Same, Files;
    PathTotal(p, p);
    forall k | 0 <= k < |events| ensures PathLess(events[k].path, p) {
      if Has(olds[..i], events[k].path) {
        var a :| 0 <= a < i && olds[..i][a].path == events[k].path;
        assert olds[a].path == events[k].path;
      } else {
        var b :| 0 <= b < j && news[..j][b].path == events[k].path;
        assert news[b].path == events[k].path;
      }
    }
    assert forall a :: 0 <= a < i ==> olds[..i][a] == olds[a] && olds[a].path != p;
    assert forall b :: 0 <= b < j ==> news[..j][b] == news[b] && news[b].path != p;
  }

  lemma {:induction false} ToldMore(events: seq<HistoryEvent>, e: HistoryEvent, q: Path)
    ensures Told(events + [e], q) <==> Told(events, q) || e.path == q
  {
    var all := events + [e];
    assert all[|events|] == e;
    if k :| 0 <= k < |events| && events[k].path == q { assert all[k].path == q; }
    if k :| 0 <= k < |all| && all[k].path == q { assert k < |events| ==> events[k].path == q; }
  }

  /** Moving past p on whichever sides have it, with an event if it differs. */
  lemma {:induction false} Step(olds: seq<Item>, news: seq<Item>, i: nat, j: nat, events: seq<HistoryEvent>,
                                atime: bool, p: Path, i': nat, j': nat, more: seq<HistoryEvent>)
    requires Snapshot(olds) && Snapshot(news)
    requires Compared(olds, news, i, j, events, atime) && Next(olds, news, i, j, p)
    requires i <= i' <= i + 1 && i' <= |olds| && (i' == i + 1 ==> olds[i].path == p)
    requires j <= j' <= j + 1 && j' <= |news| && (j' == j + 1 ==> news[j].path == p)
    requires i' + j' > i + j
    requires forall a :: i' <= a < |olds| ==> PathLess(p, olds[a].path)
    requires forall b :: j' <= b < |news| ==> PathLess(p, news[b].path)
    requires Same(Files(olds), Files(news), p, atime) ==> more == events
    requires !Same(Files(olds), Files(news), p, atime) ==>
      exists e: HistoryEvent :: more == events + [e] && e.path == p && EventIsRight(Files(olds), Files(news), e, atime)
    ensures Compared(olds, news, i', j', more, atime)
  {
    hide PathLess, EventIsRight, Same, Files, Has, Told;
    NotYetTold(olds, news, i, j, events, atime, p);
    forall q ensures Has(olds[..i'], q) || Has(news[..j'], q) <==> Has(olds[..i], q) || Has(news[..j], q) || q == p {
      if i' > i { HasLast(olds[..i'], q); assert olds[..i'][..i] == olds[..i]; }
      if j' > j { HasLast(news[..j'], q); assert news[..j'][..j] == news[..j]; }
    }
    if !Same(Files(olds), Files(news), p, atime) {
      var e: HistoryEvent :| more == events + [e] && e.path == p && EventIsRight(Files(olds), Files(news), e, atime);
      forall q ensures Told(more, q) <==> Told(events, q) || q == p { ToldMore(events, e, q); }
    }
  }

  /** diff_snapshots. */
  method DiffSnapshots(olds: seq<Item>, news: seq<Item>, compareAtime: bool) returns (events: seq<HistoryEvent>)
    requires Snapshot(olds) && Snapshot(news)
    ensures Tells(Files(olds), Files(news), events, compareAtime)
  {
    hide PathLess, Files, Has, Compared, MetadataEquals;
    events := [];
    var i, j := 0, 0;
    assert Compared(olds, news, 0, 0, [], compareAtime) by { NothingCompared(olds, news, compareAtime); }
    while i < |olds| || j < |news|
      invariant 0 <= i <= |olds| && 0 <= j <= |news|
      invariant Compared(olds, news, i, j, events, compareAtime)
      decreases |olds| - i + |news| - j
    {
      i, j, events := CompareNext(olds, news, i, j, events, compareAtime);
    }
    AllCompared(olds, news, events, compareAtime);
  }

  lemma {:induction false} NothingCompared(olds: seq<Item>, news: seq<Item>, atime: bool)
    ensures Compared(olds, news, 0, 0, [], atime)
  {
  }

  /** One round of the comparison. */
  method CompareNext(olds: seq<Item>, news: seq<Item>, i: nat, j: nat, events: seq<HistoryEvent>, compareAtime: bool)
    returns (i': nat, j': nat, more: seq<HistoryEvent>)
    requires Snapshot(olds) && Snapshot(news) && Compared(olds, news, i, j, events, compareAtime)
    requires i < |olds| || j < |news|
    ensures i' <= |olds| && j' <= |news| && i' + j' > i + j && i' >= i && j' >= j
    ensures Compared(olds, news, i', j', more, compareAtime)
  {
    hide PathLess, Files, Has, MetadataEquals, Told, InOrder;
    i', j', more := i, j, events;
    var cmp: int;
    if i == |olds| {
      cmp := 1;
    } else if j == |news| {
      cmp := -1;
    } else {
      cmp := if olds[i].path == news[j].path then 0 else if PathLess(olds[i].path, news[j].path) then -1 else 1;
      PathTotal(olds[i].path, news[j].path);
    }
    ghost var p := if cmp <= 0 then olds[i].path else news[j].path;
    IsNext(olds, news, i, j, p, events, compareAtime, cmp);
    if cmp == 0 {
      if !MetadataEquals(olds[i].metadata, news[j].metadata, compareAtime) {
        more := events + [MakeEvent(MODIFIED, news[j].path, olds[i].metadata, news[j].metadata)];
      }
      i', j' := i + 1, j + 1;
    } else if cmp < 0 {
      more := events + [MakeEvent(REMOVED, olds[i].path, olds[i].metadata, NO_METADATA)];
      i' := i + 1;
    } else {
      more := events + [MakeEvent(ADDED, news[j].path, NO_METADATA, news[j].metadata)];
      j' := j + 1;
    }
    Step(olds, news, i, j, events, compareAtime, p, i', j', more);
  }

  /** The smaller of the two next paths is in the states as the comparison says. */
  lemma {:induction false} IsNext(olds: seq<Item>, news: seq<Item>, i: nat, j: nat, p: Path, events: seq<HistoryEvent>,
                                  atime: bool, cmp: int)
    requires Snapshot(olds) && Snapshot(news) && Compared(olds, news, i, j, events, atime) && (i < |olds| || j < |news|)
    requires i == |olds| ==> cmp == 1
    requires i < |olds| && j == |news| ==> cmp == -1
    requires i < |olds| && j < |news| ==>
      cmp == if olds[i].path == news[j].path then 0 else if PathLess(olds[i].path, news[j].path) then -1 else 1
    requires p == if cmp <= 0 then olds[i].path else news[j].path
    ensures Next(olds, news, i, j, p)
    ensures cmp <= 0 ==> p in Files(olds) && Files(olds)[p] == olds[i].metadata
    ensures cmp >= 0 ==> p in Files(news) && Files(news)[p] == news[j].metadata
    ensures cmp < 0 ==> p !in Files(news)
    ensures cmp > 0 ==> p !in Files(olds)
    ensures forall a :: (if cmp <= 0 then i + 1 else i) <= a < |olds| ==> PathLess(p, olds[a].path)
    ensures forall b :: (if cmp >= 0 then j + 1 else j) <= b < |news| ==> PathLess(p, news[b].path)
  {
    hide PathLess, EventIsRight, Same, Files, Told;
    FilesAt(olds, p);
    FilesAt(news, p);
    if i < |olds| && j < |news| { PathTotal(olds[i].path, news[j].path); }
    forall a | (if cmp <= 0 then i + 1 else i) <= a < |olds| ensures PathLess(p, olds[a].path) {
      if cmp > 0 && a > i { PathTransitive(p, olds[i].path, olds[a].path); }
    }
    forall b | (if cmp >= 0 then j + 1 else j) <= b < |news| ensures PathLess(p, news[b].path) {
      if cmp < 0 && b > j { PathTransitive(p, news[j].path, news[b].path); }
    }
    if cmp < 0 { forall b | 0 <= b < |news| ensures news[b].path != p { PathTotal(p, news[b].path); } }
    if cmp > 0 { forall a | 0 <= a < |olds| ensures olds[a].path != p { PathTotal(p, olds[a].path); } }
  }

  lemma {:induction false} AllCompared(olds: seq<Item>, news: seq<Item>, events: seq<HistoryEvent>, atime: bool)
    requires Snapshot(olds) && Snapshot(news) && Compared(olds, news, |olds|, |news|, events, atime)
    ensures Tells(Files(olds), Files(news), events, atime)
  {
    hide PathLess, Has, EventIsRight, InOrder, Files;
    assert olds[..|olds|] == olds && news[..|news|] == news;
    forall p ensures Told(events, p) <==> !Same(Files(olds), Files(news), p, atime) {
      FilesAt(olds, p);
      FilesAt(news, p);
    }
  }

  // ---------------------------------------------------------------- what the events are for

  ghost predicate Effect(files: map<Path, FileMetadata>, e: HistoryEvent) {
    if e.kind == REMOVED then e.path !in files else e.path in files && files[e.path] == e.newMetadata
  }

  /** What an event says still holds after the others. */
  lemma {:induction false} AppliedTold(files: map<Path, FileMetadata>, events: seq<HistoryEvent>, i: nat)
    requires InOrder(events) && i < |events|
    ensures Effect(ApplyAll(files, events), events[i])
  {
    hide PathLess;
    var n := |events| - 1;
    var init := events[..n];
    if i < n {
      assert PathLess(events[i].path, events[n].path);
      PathTotal(events[i].path, events[n].path);
      assert forall j, k :: 0 <= j < k < n ==> init[j] == events[j] && init[k] == events[k];
      AppliedTold(files, init, i);
    }
  }

  lemma {:induction false} AppliedUntold(files: map<Path, FileMetadata>, events: seq<HistoryEvent>, p: Path)
    requires forall i :: 0 <= i < |events| ==> events[i].path != p
    ensures var r := ApplyAll(files, events); (p in r <==> p in files) && (p in r ==> r[p] == files[p])
  {
    if events != [] { AppliedUntold(files, events[..|events| - 1], p); }
  }

  /** The events are a patch: applied to the old state they give the new one, up to the
      comparison of metadata; where they say something, exactly. */
  lemma {:induction false} EventsArePatch(old_: map<Path, FileMetadata>, new_: map<Path, FileMetadata>,
                                          events: seq<HistoryEvent>, atime: bool)
    requires Tells(old_, new_, events, atime)
    ensures var r := ApplyAll(old_, events);
      && r.Keys == new_.Keys
      && forall p :: p in r ==> MetadataEquals(r[p], new_[p], atime) && (Told(events, p) ==> r[p] == new_[p])
  {
    hide InOrder, ApplyAll, MetadataEquals;
    var r := ApplyAll(old_, events);
    forall p
      ensures p in r <==> p in new_
      ensures p in r ==> MetadataEquals(r[p], new_[p], atime) && (Told(events, p) ==> r[p] == new_[p])
    {
      if p in new_ { MetadataEqualsIsEquivalence(new_[p], new_[p], new_[p], atime); }
      if i :| 0 <= i < |events| && events[i].path == p {
        AppliedTold(old_, events, i);
        assert EventIsRight(old_, new_, events[i], atime);
      } else {
        AppliedUntold(old_, events, p);
        assert Same(old_, new_, p, atime);
      }
    }
  }

  // ---------------------------------------------------------------- the paths of a block

  function Nonempty(paths: seq<Path>): seq<Path> {
    if paths == [] then []
    else Nonempty(paths[..|paths| - 1]) + (if paths[|paths| - 1] == [] then [] else [paths[|paths| - 1]])
  }

  /** extract_paths_from_block: the paths of a block, the last one without a zero byte after
      it included, empty ones left out. */
  method ExtractPaths(block: seq<byte>) returns (paths: seq<Path>)
    ensures paths == Nonempty(SplitPaths(block))
  {
    hide SplitPaths, Nonempty;
    paths := [];
    var ptr := 0;
    NoneNonempty();
    ghost var names := [];
    assert block[0..] == block;
    while ptr < |block|
      invariant 0 <= ptr <= |block| + 1
      invariant paths == Nonempty(names)
      invariant if ptr <= |block| then SplitPaths(block) == names + SplitPaths(block[ptr..])
        else SplitPaths(block) == names
    {
      var term := BlockScan.FindNul(block, ptr);
      SameNul(block, ptr);
      BlockScan.NextName(block, ptr, term, names);
      SameSlice(block + [0], block, ptr, term);
      NonemptyMore(names, block[ptr..term]);
      if term != ptr {
        paths := paths + [block[ptr..term]];
      }
      names := names + [block[ptr..term]];
      ptr := term + 1;
    }
    if ptr == |block| {
      assert block[ptr..] == [];
      BlockScan.EmptyBlock();
      NonemptyMore(names, []);
    }
  }

  lemma {:induction false} NoneNonempty()
    ensures Nonempty([]) == []
  {
  }

  lemma {:induction false} NonemptyMore(paths: seq<Path>, p: Path)
    ensures Nonempty(paths + [p]) == Nonempty(paths) + (if p == [] then [] else [p])
  {
    assert (paths + [p])[..|paths|] == paths;
  }

  lemma {:induction false} SameNul(block: seq<byte>, p: nat)
    requires p <= |block|
    ensures BlockScan.FindNul(block + [0], p) == BlockScan.FindNul(block, p)
    decreases |block| - p
  {
    if p < |block| && block[p] != 0 { SameNul(block, p + 1); }
  }

  // ---------------------------------------------------------------- a directory's entries

  datatype DirEntry = DirEntry(name: Path, dbModified: DirTime, previousMetadata: FileMetadata, existedBefore: bool,
                               matchedInNewScan: bool)

  ghost predicate ByName(entries: seq<DirEntry>) {
    forall i, k :: 0 <= i < k < |entries| ==> PathLess(entries[i].name, entries[k].name)
  }

  /** What a new entry takes over from the old entry of the same name. */
  function TakeOver(e: DirEntry, old_: DirEntry): DirEntry {
    e.(dbModified := old_.dbModified, previousMetadata := old_.previousMetadata, existedBefore := true)
  }

  /** The first n new entries have been paired; every old entry before k has a smaller name
      than the new ones to come. */
  ghost predicate Paired(entries: seq<DirEntry>, db: seq<DirEntry>, r: seq<DirEntry>, s: seq<DirEntry>, n: nat, k: nat)
    {
    && |r| == |entries| && |s| == |db| && n <= |r| && k <= |s|
    && (forall i :: n <= i < |r| ==> r[i] == entries[i])
    && (forall j :: 0 <= j < |s| ==> s[j] == db[j].(matchedInNewScan := s[j].matchedInNewScan))
    && (forall i :: 0 <= i < n ==>
      || r[i] == entries[i]
      || exists j :: 0 <= j < |s| && entries[i].name == db[j].name && r[i] == TakeOver(entries[i], db[j]))
    && (forall i, j :: 0 <= i < n && 0 <= j < |s| && entries[i].name == db[j].name ==>
      r[i] == TakeOver(entries[i], db[j]) && s[j].matchedInNewScan)
    && (forall j :: 0 <= j < |s| && s[j].matchedInNewScan ==>
      db[j].matchedInNewScan || exists i :: 0 <= i < n && entries[i].name == db[j].name)
    && (forall i, j :: n <= i < |r| && 0 <= j < k ==> PathLess(db[j].name, entries[i].name))
  }

  /** scan's merge: each new entry is paired with the old one of the same name, exactly when
      there is one, and the old ones left over are those that are gone. */
  method MatchEntries(entries: seq<DirEntry>, db: seq<DirEntry>) returns (r: seq<DirEntry>, s: seq<DirEntry>)
    requires ByName(entries) && ByName(db)
    requires forall i :: 0 <= i < |entries| ==> !entries[i].existedBefore
    requires forall j :: 0 <= j < |db| ==> !db[j].matchedInNewScan
    ensures |r| == |entries| && |s| == |db|
    ensures forall i :: 0 <= i < |r| ==>
      (r[i].existedBefore <==> exists j :: 0 <= j < |db| && db[j].name == entries[i].name)
    ensures forall i, j :: 0 <= i < |r| && 0 <= j < |db| && db[j].name == entries[i].name ==>
      r[i] == TakeOver(entries[i], db[j])
    ensures forall i, j :: 0 <= i < |r| && 0 <= j < |db| && db[j].name == entries[i].name ==>
      && r[i].dbModified == db[j].dbModified && r[i].previousMetadata == db[j].previousMetadata
      && r[i].name == entries[i].name && r[i].matchedInNewScan == entries[i].matchedInNewScan
    ensures forall i :: 0 <= i < |r| && !r[i].existedBefore ==> r[i] == entries[i]
    ensures forall j :: 0 <= j < |s| ==>
      (s[j].matchedInNewScan <==> exists i :: 0 <= i < |entries| && entries[i].name == db[j].name)
  {
    hide PathLess, Paired;
    r, s := entries, db;
    var dbIt := 0;
    assert Paired(entries, db, r, s, 0, 0) by { NonePaired(entries, db); }
    for n := 0 to |entries|
      invariant 0 <= dbIt <= |db| && Paired(entries, db, r, s, n, dbIt)
    {
      r, s, dbIt := MatchOne(entries, db, r, s, n, dbIt);
    }
    AllPaired(entries, db, r, s, dbIt);
  }

  lemma {:induction false} NonePaired(entries: seq<DirEntry>, db: seq<DirEntry>)
    ensures Paired(entries, db, entries, db, 0, 0)
  {
  }

  lemma {:induction false} AllPaired(entries: seq<DirEntry>, db: seq<DirEntry>, r: seq<DirEntry>, s: seq<DirEntry>,
                                     k: nat)
    requires Paired(entries, db, r, s, |entries|, k)
    requires forall i :: 0 <= i < |entries| ==> !entries[i].existedBefore
    requires forall j :: 0 <= j < |db| ==> !db[j].matchedInNewScan
    ensures |r| == |entries| && |s| == |db|
    ensures forall i :: 0 <= i < |r| ==>
      (r[i].existedBefore <==> exists j :: 0 <= j < |db| && db[j].name == entries[i].name)
    ensures forall i, j :: 0 <= i < |r| && 0 <= j < |db| && db[j].name == entries[i].name ==>
      r[i] == TakeOver(entries[i], db[j])
    ensures forall i :: 0 <= i < |r| && !r[i].existedBefore ==> r[i] == entries[i]
    ensures forall j :: 0 <= j < |s| ==>
      (s[j].matchedInNewScan <==> exists i :: 0 <= i < |entries| && entries[i].name == db[j].name)
  {
    hide PathLess;
  }

  /** The inner loop, for one new entry. */
  method MatchOne(entries: seq<DirEntry>, db: seq<DirEntry>, r0: seq<DirEntry>, s0: seq<DirEntry>, n: nat, start: nat)
    returns (r: seq<DirEntry>, s: seq<DirEntry>, dbIt: nat)
    requires ByName(entries) && ByName(db) && n < |entries| && start <= |db| && Paired(entries, db, r0, s0, n, start)
    ensures dbIt <= |db| && Paired(entries, db, r, s, n + 1, dbIt)
  {
    hide PathLess;
    r, s, dbIt := r0, s0, start;
    var name := entries[n].name;
    while dbIt < |db|
      invariant start <= dbIt <= |db| && r == r0 && s == s0
      invariant forall j :: 0 <= j < dbIt ==> PathLess(db[j].name, name)
    {
      PathTotal(name, db[dbIt].name);
      if PathLess(name, s[dbIt].name) {
        break;
      }
      if name == s[dbIt].name {
        r := r[n := TakeOver(r[n], s[dbIt])];
        s := s[dbIt := s[dbIt].(matchedInNewScan := true)];
        PairOne(entries, db, r0, s0, n, start, dbIt, r, s);
        return;
      }
      dbIt := dbIt + 1;
    }
    PairNone(entries, db, r0, s0, n, start, dbIt);
  }

  lemma {:induction false} PairNone(entries: seq<DirEntry>, db: seq<DirEntry>, r: seq<DirEntry>, s: seq<DirEntry>,
                                    n: nat, k: nat, m: nat)
    requires ByName(entries) && ByName(db) && n < |entries| && k <= m <= |db| && Paired(entries, db, r, s, n, k)
    requires forall j :: 0 <= j < m ==> PathLess(db[j].name, entries[n].name)
    requires m < |db| ==> PathLess(entries[n].name, db[m].name)
    ensures Paired(entries, db, r, s, n + 1, m)
  {
    hide PathLess;
    forall j | 0 <= j < |db| ensures db[j].name != entries[n].name {
      PathTotal(db[j].name, entries[n].name);
      if j > m { PathTransitive(entries[n].name, db[m].name, db[j].name); }
    }
    forall i, j | n + 1 <= i < |r| && 0 <= j < m ensures PathLess(db[j].name, entries[i].name) {
      PathTransitive(db[j].name, entries[n].name, entries[i].name);
    }
  }

  lemma {:induction false} PairOne(entries: seq<DirEntry>, db: seq<DirEntry>, r: seq<DirEntry>, s: seq<DirEntry>,
                                   n: nat, k: nat, m: nat, r': seq<DirEntry>, s': seq<DirEntry>)
    requires ByName(entries) && ByName(db) && n < |entries| && k <= m < |db| && Paired(entries, db, r, s, n, k)
    requires db[m].name == entries[n].name
    requires forall j :: 0 <= j < m ==> PathLess(db[j].name, entries[n].name)
    requires r' == r[n := TakeOver(r[n], s[m])] && s' == s[m := s[m].(matchedInNewScan := true)]
    ensures Paired(entries, db, r', s', n + 1, m)
  {
    hide PathLess;
    forall i, j | n + 1 <= i < |r| && 0 <= j < m ensures PathLess(db[j].name, entries[i].name) {
      PathTransitive(db[j].name, entries[n].name, entries[i].name);
    }
    forall j | 0 <= j < |db| && j != m ensures db[j].name != entries[n].name {
      PathTotal(db[j].name, db[m].name);
      if j < m { assert PathLess(db[j].name, db[m].name); } else { assert PathLess(db[m].name, db[j].name); }
    }
  }
}
