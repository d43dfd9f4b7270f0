/** The bytes in which files and events are stored, and what equality of metadata amounts to. */
module RecordLayout {
  import opened Bits
  import opened Metadata
  import opened FileRecords
  import opened History
  import opened SnapshotDiff

  // ---------------------------------------------------------------- equality

  /** Metadata is equal, access time included, exactly if it is stored in the same bytes. */
  lemma {:induction false} EqualIfStoredAlike(a: FileMetadata, b: FileMetadata)
    requires a.hash.length <= 32 && b.hash.length <= 32
    ensures MetadataEquals(a, b, true) <==> RecordBytes(a, []) == RecordBytes(b, [])
  {
    if MetadataEquals(a, b, true) {
      SameBytes(a, b);
    }
    if RecordBytes(a, []) == RecordBytes(b, []) {
      hide RecordBytes, DecodeRecord, Canonical;
      RecordReadsBack(a, []);
      RecordReadsBack(b, []);
      StoredIsEqual(a);
      StoredIsEqual(b);
    }
  }

  lemma {:induction false} SameBytes(a: FileMetadata, b: FileMetadata)
    requires MetadataEquals(a, b, true)
    ensures RecordBytes(a, []) == RecordBytes(b, [])
  {
    hide LEBytes, TimeBytes;
  }

  /** Leaving out access times is comparing as if they were the same. */
  lemma {:induction false} AccessTimeAside(a: FileMetadata, b: FileMetadata, t: DirTime)
    ensures MetadataEquals(a, b, false) <==> MetadataEquals(a.(atime := t), b.(atime := t), true)
  {
  }

  /** The one event for a path: 0 for a file that is new, 1 for one that is gone, 2 for one
      whose record has changed. */
  lemma {:induction false} EventsTell(olds: map<seq<byte>, FileMetadata>, news: map<seq<byte>, FileMetadata>,
                                      events: seq<HistoryEvent>, atime: bool, p: seq<byte>, kind: byte)
    requires Tells(olds, news, events, atime)
    requires p in olds ==> olds[p].hash.length <= 32
    requires p in news ==> news[p].hash.length <= 32
    ensures (exists i :: 0 <= i < |events| && events[i].path == p && events[i].kind == kind) <==>
      if kind == 0 then p !in olds && p in news
      else if kind == 1 then p in olds && p !in news
      else
        && kind == 2 && p in olds && p in news
        && var a := if atime then olds[p] else olds[p].(atime := news[p].atime);
           RecordBytes(a, []) != RecordBytes(news[p], [])
  {
    hide RecordBytes, MetadataEquals, InOrder;
    if p in olds && p in news {
      var a := if atime then olds[p] else olds[p].(atime := news[p].atime);
      EqualIfStoredAlike(a, news[p]);
      AccessTimeAside(olds[p], news[p], news[p].atime);
    }
    assert Told(events, p) <==> !Same(olds, news, p, atime);
    forall i | 0 <= i < |events| && events[i].path == p ensures EventIsRight(olds, news, events[i], atime) {}
  }

  // ---------------------------------------------------------------- layout

  /** What comes back of some metadata: all of it but for the bytes of the hash that do not
      count, which are zero. */
  lemma {:induction false} CanonicalKeeps(m: FileMetadata)
    ensures var c := Canonical(m);
      if m.enabled then
        && c == m.(hash := c.hash) && c.hash.kind == m.hash.kind
        && c.hash.length == (if m.hash.length < 32 then m.hash.length else 32)
        && c.hash.value[..c.hash.length] == m.hash.value[..c.hash.length]
        && forall i :: c.hash.length <= i < 32 ==> c.hash.value[i] == 0
      else
        && !c.enabled && c.mode == c.uid == c.gid == 0 && c.size == 0
        && c.mtime == c.ctime == c.atime == DirTime(0, 0)
        && c.hash.kind == 0 && c.hash.length == 0
  {
    ZeroesAreZero(HASH_SIZE - HashLength(m.hash));
  }

  lemma {:induction false} ZeroesAreZero(n: nat)
    ensures forall i :: 0 <= i < n ==> Zeroes(n)[i] == 0
  {
    if n > 0 { ZeroesAreZero(n - 1); }
  }

  /** 12 bytes of a time: seconds and nanoseconds in two's complement, low byte first. */
  ghost predicate TimeIn(s: seq<byte>, t: DirTime) {
    && |s| == 12
    && LE(s[..8]) == (if t.sec < 0 then t.sec + 0x1_0000_0000_0000_0000 else t.sec)
    && LE(s[8..]) == (if t.nsec < 0 then t.nsec + 0x1_0000_0000 else t.nsec)
  }

  lemma {:induction false} LowByteFirst()
    ensures LE([1, 2, 3, 4]) == 0x0403_0201
  {
    assert LE([2, 3, 4]) == 0x04_0302 by { assert LE([3, 4]) == 0x0403; }
  }

  lemma {:induction false} TimeLayout(s: seq<byte>, p: nat, t: DirTime)
    requires p + 12 <= |s| && TimeAt(s[p..]) == t
    ensures TimeIn(s[p..p + 12], t)
  {
    hide LE;
    assert s[p..][..8] == s[p..p + 12][..8];
    assert s[p..][8..][..4] == s[p..p + 12][8..];
  }

  /** Where each field of a record is. */
  lemma {:induction false} FieldsOfRecord(m: FileMetadata)
    ensures !m.enabled ==> RecordBytes(m, []) == [0]
    ensures m.enabled ==>
      var s, n := RecordBytes(m, []), if m.hash.length < 32 then m.hash.length else 32;
      && |s| == 59 + n && s[0] == 1
      && LE(s[1..5]) == m.mode && LE(s[5..9]) == m.uid && LE(s[9..13]) == m.gid && LE(s[13..21]) == m.size
      && TimeIn(s[21..33], m.mtime) && TimeIn(s[33..45], m.ctime) && TimeIn(s[45..57], m.atime)
      && s[57] == m.hash.kind && s[58] == n && s[59..] == m.hash.value[..n]
  {
    hide LE, RecordBytes, TimeAt, Padded, TimeIn;
    var s := RecordBytes(m, []);
    RecordReadsBack(m, []);
    FirstByte(m, []);
    if m.enabled {
      assert s[1..][..4] == s[1..5] && s[5..][..4] == s[5..9] && s[9..][..4] == s[9..13] && s[13..][..8] == s[13..21];
      TimeLayout(s, 21, m.mtime);
      TimeLayout(s, 33, m.ctime);
      TimeLayout(s, 45, m.atime);
      HashLayout(m);
    } else {
      assert s == [s[0]];
    }
  }

  lemma {:induction false} HashLayout(m: FileMetadata)
    requires m.enabled
    ensures var s, n := RecordBytes(m, []), HashLength(m.hash);
      |s| == 59 + n && s[57] == m.hash.kind && s[58] == n && s[59..] == m.hash.value[..n]
  {
    hide LEBytes, TimeBytes, RecordBytes, NumberBytes;
    var times := TimeBytes(m.mtime, TimeBytes(m.ctime, TimeBytes(m.atime, [])));
    var front := NumberBytes(m) + times;
    var n := HashLength(m.hash);
    RecordInParts(m);
    FrontLength(m);
    assert RecordBytes(m, []) == front + ([m.hash.kind, n] + m.hash.value[..n]);
  }

  lemma {:induction false} FrontLength(m: FileMetadata)
    ensures |NumberBytes(m)| == 21 && |TimeBytes(m.mtime, TimeBytes(m.ctime, TimeBytes(m.atime, [])))| == 36
  {
    hide LEBytes;
  }

  /** Where each field of an event is; the two records follow. */
  lemma {:induction false} FieldsOfEvent(e: HistoryEvent)
    requires |e.path| < 0x1_0000_0000
    ensures var s, p := EventBytes(e, []), 17 + |e.path|;
      && p <= |s| && s[0] == e.kind && TimeIn(s[1..13], e.eventTime) && LE(s[13..17]) == |e.path|
      && s[17..p] == e.path && s[p..] == RecordBytes(e.oldMetadata, []) + RecordBytes(e.newMetadata, [])
  {
    hide LE, LEBytes, TimeAt, TimeBytes, RecordBytes, TimeIn, HeaderBytes;
    var s := EventBytes(e, []);
    var records := RecordBytes(e.oldMetadata, RecordBytes(e.newMetadata, []));
    HeaderReadsBack(e, e.path + records);
    RecordThenTail(e.oldMetadata, RecordBytes(e.newMetadata, []));
    TimeLayout(s, 1, e.eventTime);
    assert s[13..][..4] == s[13..17];
    assert s[17..][..|e.path|] == s[17..17 + |e.path|];
    Drop(s, 17, |e.path|);
  }

  /** A time in the stream of directory times: a zero byte if there is none, or one and the time. */
  lemma {:induction false} FieldsOfDirTime(t: DirTime)
    ensures var s := DirTimeBytes(t, []);
      if t.sec == -1 then s == [0] else |s| == 13 && s[0] == 1 && TimeIn(s[1..], t)
  {
    hide LE, LEBytes, TimeAt, TimeBytes, TimeIn;
    var s := DirTimeBytes(t, []);
    TimeField(t, []);
    if t.sec != -1 {
      assert s[1..] == TimeBytes(t, []);
      TimeLayout(s, 1, t);
      assert s[1..13] == s[1..];
    }
  }

  // ---------------------------------------------------------------- the log

  /** What is whole within n bytes is the longest such part of the events. */
  lemma {:induction false} WholeIsLongest(events: seq<HistoryEvent>, n: nat, k: nat)
    requires History.Storable(events) && k <= |events|
    ensures k <= Whole(events, n) <==> |StreamBytes(events[..k])| <= n
  {
    hide EventBytes, EventLength;
    if k > 0 {
      var m := EventLength(events[0]);
      EventBytesLength(events[0], StreamBytes(events[1..][..k - 1]));
      assert events[..k][1..] == events[1..][..k - 1];
      if n >= m { WholeIsLongest(events[1..], n - m, k - 1); }
    }
  }

  lemma {:induction false} EventBytesLength(e: HistoryEvent, tail: seq<byte>)
    requires |e.path| < 0x1_0000_0000
    ensures |EventBytes(e, tail)| == EventLength(e) + |tail|
  {
    hide EventBytes, EventLength, EventSize, DecodeEvent;
    EventReadsBack(e, tail);
  }

  /** How many runs a log has: one for each marker, which is an event of kind 3, and one for
      what is before the first marker. */
  function Markers(events: seq<HistoryEvent>): nat {
    if events == [] then 0 else (if events[0].kind == 3 then 1 else 0) + Markers(events[1..])
  }

  function Runs(events: seq<HistoryEvent>): nat {
    if events == [] then 0 else 1 + Markers(events[1..])
  }

  lemma {:induction false} MarkersMore(events: seq<HistoryEvent>, e: HistoryEvent)
    ensures Markers(events + [e]) == Markers(events) + (if e.kind == 3 then 1 else 0)
  {
    if events == [] {
      assert Markers([e][1..]) == 0;
    } else {
      assert (events + [e])[1..] == events[1..] + [e];
      MarkersMore(events[1..], e);
    }
  }

  lemma {:induction false} RunsMore(events: seq<HistoryEvent>, e: HistoryEvent)
    ensures Runs(events + [e]) == if events == [] then 1 else Runs(events) + (if e.kind == 3 then 1 else 0)
  {
    if events == [] {
      assert Markers([e][1..]) == 0;
    } else {
      assert (events + [e])[1..] == events[1..] + [e];
      MarkersMore(events[1..], e);
    }
  }

  /** The last n runs are the longest end of the log that has no more than n. */
  lemma {:induction false} LastRunsAreLongest(events: seq<HistoryEvent>, n: nat, k: nat)
    requires k <= |events|
    ensures var kept := LastRuns(events, IsMarker, n);
      |kept| <= |events| && kept == events[|events| - |kept|..] && (|events| - k <= |kept| <==> Runs(events[k..]) <= n)
  {
    hide LastRuns, Runs;
    RunsStep(events, IsMarker, n);
    SomeRuns(events[k..]);
    if events != [] && n > 0 {
      var m := |events| - 1;
      var e, rest := events[m], events[..m];
      var fewer := if IsMarker(e) then n - 1 else n;
      var kept := LastRuns(rest, IsMarker, fewer);
      LastRunsAreLongest(rest, fewer, if k < m then k else m);
      EndGrows(events, m - |kept|);
      if k <= m {
        EndGrows(events, k);
        RunsMore(rest[k..], e);
      }
    }
  }

  lemma {:induction false} EndGrows(events: seq<HistoryEvent>, k: nat)
    requires k < |events|
    ensures events[k..] == events[..|events| - 1][k..] + [events[|events| - 1]]
  {
  }

  lemma {:induction false} SomeRuns(events: seq<HistoryEvent>)
    ensures Runs(events) == 0 <==> events == []
  {
  }

  /** Nothing recorded, or a hash that fills its array. */
  ghost predicate FullHash(m: FileMetadata) {
    if m.enabled then m.hash.length == 32 else m == NO_METADATA
  }

  lemma {:induction false} FullHashesAreKept(events: seq<HistoryEvent>)
    requires forall i :: 0 <= i < |events| ==>
      |events[i].path| < 0x1_0000_0000 && FullHash(events[i].oldMetadata) && FullHash(events[i].newMetadata)
    ensures Clean(events)
  {
    hide Canonical;
    forall i | 0 <= i < |events| ensures Kept(events[i]) == events[i] {
      FullHashIsCanonical(events[i].oldMetadata);
      FullHashIsCanonical(events[i].newMetadata);
    }
  }

  lemma {:induction false} FullHashIsCanonical(m: FileMetadata)
    requires FullHash(m)
    ensures Canonical(m) == m
  {
    if m.enabled { assert Padded(m.hash.value[..32]) == m.hash.value; }
  }
}
