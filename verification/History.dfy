/** The log of changes over many runs of the updater. */
module History {
  import opened Bits
  import opened Wrappers
  import opened Metadata

  // ---------------------------------------------------------------- trimming

  /** The last n runs of a log. A run begins with a marker; whatever comes before the first
      marker counts as a run too. */
  function LastRuns<E>(events: seq<E>, marker: E -> bool, n: nat): seq<E> {
    if n == 0 || events == [] then []
    else
      var k := |events| - 1;
      LastRuns(events[..k], marker, if marker(events[k]) then n - 1 else n) + [events[k]]
  }

  /** Where the runs begin. */
  function RunStarts<E>(events: seq<E>, marker: E -> bool): (r: seq<nat>)
    ensures forall i :: 0 <= i < |r| ==> r[i] < |events|
  {
    if events == [] then []
    else
      var k := |events| - 1;
      RunStarts(events[..k], marker) + (if k == 0 || marker(events[k]) then [k] else [])
  }

  lemma {:induction false} RunsStep<E>(events: seq<E>, marker: E -> bool, n: nat)
    ensures n == 0 || events == [] ==> LastRuns(events, marker, n) == []
    ensures events == [] ==> RunStarts(events, marker) == []
    ensures events != [] ==>
      var k := |events| - 1;
      && RunStarts(events, marker) == RunStarts(events[..k], marker) + (if k == 0 || marker(events[k]) then [k] else [])
      && var m := if marker(events[k]) then n - 1 else n;
         n > 0 ==> LastRuns(events, marker, n) == LastRuns(events[..k], marker, m) + [events[k]]
  {
  }

  lemma {:induction false} RunsFromStart<E>(events: seq<E>, marker: E -> bool, n: nat)
    requires n > 0
    ensures var starts := RunStarts(events, marker);
      LastRuns(events, marker, n) == if |starts| <= n then events else events[starts[|starts| - n]..]
  {
    hide RunStarts, LastRuns;
    RunsStep(events, marker, n);
    if events != [] {
      var k := |events| - 1;
      var rest := events[..k];
      var m := if marker(events[k]) then n - 1 else n;
      assert events == rest + [events[k]];
      var before, starts := RunStarts(rest, marker), RunStarts(events, marker);
      RunsStep(rest, marker, m);
      if m > 0 {
        RunsFromStart(rest, marker, m);
        if |before| > m {
          var p := before[|before| - m];
          assert k > 0;
          assert starts[|starts| - n] == p;
          assert events[p..] == rest[p..] + [events[k]];
        }
      } else if k > 0 {
        SomeStart(rest, marker);
      }
    }
  }

  lemma {:induction false} SomeStart<E>(events: seq<E>, marker: E -> bool)
    requires events != []
    ensures RunStarts(events, marker) != []
  {
    if |events| > 1 { SomeStart(events[..|events| - 1], marker); }
  }

  lemma {:induction false} FewerRuns<E>(events: seq<E>, marker: E -> bool, n: nat, k: nat)
    requires k <= n
    ensures LastRuns(LastRuns(events, marker, n), marker, k) == LastRuns(events, marker, k)
  {
    if n > 0 && events != [] {
      var j := |events| - 1;
      var m := if marker(events[j]) then n - 1 else n;
      var kept := LastRuns(events, marker, n);
      assert kept[..|kept| - 1] == LastRuns(events[..j], marker, m);
      if k > 0 { FewerRuns(events[..j], marker, m, if marker(events[j]) then k - 1 else k); }
    }
  }

  lemma {:induction false} TrimBefore<E>(a: seq<E>, b: seq<E>, marker: E -> bool, n: nat, k: nat)
    requires k <= n
    ensures LastRuns(LastRuns(a, marker, n) + b, marker, k) == LastRuns(a + b, marker, k)
  {
    if b == [] {
      FewerRuns(a, marker, n, k);
      assert LastRuns(a, marker, n) + b == LastRuns(a, marker, n) && a + b == a;
    } else if k > 0 {
      var j := |b| - 1;
      var kept := LastRuns(a, marker, n);
      assert (kept + b)[..|kept + b| - 1] == kept + b[..j];
      assert (a + b)[..|a + b| - 1] == a + b[..j];
      TrimBefore(a, b[..j], marker, n, if marker(b[j]) then k - 1 else k);
    }
  }

  // ---------------------------------------------------------------- events

  const ADDED: byte := 0
  const REMOVED: byte := 1
  const MODIFIED: byte := 2
  const RUN_MARKER: byte := 3

  datatype HistoryEvent = HistoryEvent(kind: byte, path: seq<byte>, eventTime: DirTime, oldMetadata: FileMetadata,
                                       newMetadata: FileMetadata)

  predicate IsMarker(e: HistoryEvent) {
    e.kind == RUN_MARKER
  }

  const EVENT_HEADER_BYTES := 17

  function HeaderBytes(e: HistoryEvent, tail: seq<byte>): seq<byte> {
    [e.kind] + TimeBytes(e.eventTime, LEBytes(|e.path|, 4) + tail)
  }

  /** The bytes of an event, and then the tail. */
  function EventBytes(e: HistoryEvent, tail: seq<byte>): seq<byte> {
    HeaderBytes(e, e.path + RecordBytes(e.oldMetadata, RecordBytes(e.newMetadata, tail)))
  }

  function EventLength(e: HistoryEvent): nat {
    EVENT_HEADER_BYTES + |e.path| + RecordLength(e.oldMetadata) + RecordLength(e.newMetadata)
  }

  function StreamBytes(events: seq<HistoryEvent>): seq<byte> {
    if events == [] then [] else EventBytes(events[0], StreamBytes(events[1..]))
  }

  /** What the log keeps of an event. */
  function Kept(e: HistoryEvent): HistoryEvent {
    e.(oldMetadata := Canonical(e.oldMetadata), newMetadata := Canonical(e.newMetadata))
  }

  function KeptAll(events: seq<HistoryEvent>): (r: seq<HistoryEvent>)
    ensures |r| == |events|
  {
    seq(|events|, i requires 0 <= i < |events| => Kept(events[i]))
  }

  /** Bytes of the event at the front, or 0 if it is not all there. */
  function EventSize(s: seq<byte>): (n: nat)
    ensures n <= |s|
  {
    if |s| < EVENT_HEADER_BYTES then 0
    else
      var pathLen := U32At(s[13..]);
      if |s| - EVENT_HEADER_BYTES < pathLen then 0
      else
        var p := EVENT_HEADER_BYTES + pathLen;
        var a := RecordSize(s[p..]);
        if a == 0 then 0
        else
          var b := RecordSize(s[p + a..]);
          if b == 0 then 0 else p + a + b
  }

  function DecodeEvent(s: seq<byte>): HistoryEvent
    requires EventSize(s) > 0
  {
    var p := EVENT_HEADER_BYTES + U32At(s[13..]);
    var q := p + RecordSize(s[p..]);
    HistoryEvent(s[0], s[EVENT_HEADER_BYTES..p], TimeAt(s[1..]), DecodeRecord(s[p..]), DecodeRecord(s[q..]))
  }

  function DecodeEvents(s: seq<byte>): seq<HistoryEvent>
    decreases |s|
  {
    var n := EventSize(s);
    if n == 0 then [] else [DecodeEvent(s)] + DecodeEvents(s[n..])
  }

  /** The marker that is put before a log that does not begin with one. */
  function MarkerAt(t: DirTime): HistoryEvent {
    HistoryEvent(RUN_MARKER, [], t, NO_METADATA, NO_METADATA)
  }

  lemma {:induction false} HeaderReadsBack(e: HistoryEvent, tail: seq<byte>)
    requires |e.path| < 0x1_0000_0000
    ensures var s := HeaderBytes(e, tail);
      && |s| == EVENT_HEADER_BYTES + |tail| && s[0] == e.kind && TimeAt(s[1..]) == e.eventTime
      && U32At(s[13..]) == |e.path| && s[EVENT_HEADER_BYTES..] == tail
  {
    hide U32At, TimeAt, TimeBytes, LEBytes;
    var s := HeaderBytes(e, tail);
    var rest := LEBytes(|e.path|, 4) + tail;
    TimeField(e.eventTime, rest);
    assert s[1..] == TimeBytes(e.eventTime, rest);
    Drop(s, 1, 12);
    Field32(|e.path|, tail);
    Drop(s, 13, 4);
  }

  /** An event in a buffer: its size, what it decodes to, and where it ends. */
  lemma {:induction false} EventReadsBack(e: HistoryEvent, tail: seq<byte>)
    requires |e.path| < 0x1_0000_0000
    ensures var s := EventBytes(e, tail);
      && |s| == EventLength(e) + |tail| && EventSize(s) == EventLength(e)
      && DecodeEvent(s) == Kept(e) && s[EventLength(e)..] == tail
  {
    hide U32At, TimeAt, HeaderBytes, RecordBytes, RecordSize, DecodeRecord, RecordLength, Canonical;
    var s := EventBytes(e, tail);
    var last := RecordBytes(e.newMetadata, tail);
    var first := RecordBytes(e.oldMetadata, last);
    HeaderReadsBack(e, e.path + first);
    RecordReadsBack(e.oldMetadata, last);
    RecordReadsBack(e.newMetadata, tail);
    var p := EVENT_HEADER_BYTES + |e.path|;
    Drop(s, EVENT_HEADER_BYTES, |e.path|);
    assert s[p..] == first;
    assert s[EVENT_HEADER_BYTES..p] == e.path;
    Drop(s, p, RecordLength(e.oldMetadata));
    Drop(s, p + RecordLength(e.oldMetadata), RecordLength(e.newMetadata));
    SomeLength(e.oldMetadata);
    SomeLength(e.newMetadata);
  }

  lemma {:induction false} SomeLength(m: FileMetadata)
    ensures RecordLength(m) > 0
  {
  }

  lemma {:induction false} PrefixDrop<T>(s: seq<T>, n: nat, p: nat)
    requires p <= n <= |s|
    ensures s[..n][p..] == s[p..][..n - p]
  {
  }

  /** Nothing less than the whole event is ever taken for an event. */
  lemma {:induction false} PartialEvent(e: HistoryEvent, tail: seq<byte>, n: nat)
    requires |e.path| < 0x1_0000_0000 && n < EventLength(e)
    ensures |EventBytes(e, tail)| == EventLength(e) + |tail| && EventSize(EventBytes(e, tail)[..n]) == 0
  {
    hide U32At, TimeAt, HeaderBytes, RecordBytes, RecordSize, DecodeRecord, RecordLength, Canonical;
    var s := EventBytes(e, tail);
    var last := RecordBytes(e.newMetadata, tail);
    var first := RecordBytes(e.oldMetadata, last);
    EventReadsBack(e, tail);
    HeaderReadsBack(e, e.path + first);
    var t := s[..n];
    if n >= EVENT_HEADER_BYTES {
      PrefixDrop(s, n, 13);
      U32Prefix(s[13..], n - 13);
      var p := EVENT_HEADER_BYTES + |e.path|;
      if n >= p {
        Drop(s, EVENT_HEADER_BYTES, |e.path|);
        assert s[p..] == first;
        PrefixDrop(s, n, p);
        RecordReadsBack(e.oldMetadata, last);
        RecordReadsBack(e.newMetadata, tail);
        PartialRecord(e.oldMetadata, last, n - p);
        var a := RecordLength(e.oldMetadata);
        if n - p >= a {
          SomeLength(e.oldMetadata);
          PrefixDrop(s, n, p + a);
          Drop(s, p, a);
          PartialRecord(e.newMetadata, tail, n - p - a);
        }
      }
    }
  }

  lemma {:induction false} U32Prefix(s: seq<byte>, n: nat)
    requires 4 <= n <= |s|
    ensures U32At(s[..n]) == U32At(s)
  {
    hide LE;
    assert s[..n][..4] == s[..4];
  }

  ghost predicate Storable(events: seq<HistoryEvent>) {
    forall i :: 0 <= i < |events| ==> |events[i].path| < 0x1_0000_0000
  }

  /** Number of events that are whole within the first n bytes of their stream. */
  function Whole(events: seq<HistoryEvent>, n: nat): (k: nat)
    ensures k <= |events|
  {
    if events == [] || n < EventLength(events[0]) then 0 else 1 + Whole(events[1..], n - EventLength(events[0]))
  }

  /** A stream cut off anywhere decodes to the events that are whole. */
  lemma {:induction false} TruncatedStream(events: seq<HistoryEvent>, n: nat)
    requires Storable(events) && n <= |StreamBytes(events)|
    ensures DecodeEvents(StreamBytes(events)[..n]) == KeptAll(events[..Whole(events, n)])
  {
    hide EventBytes, EventSize, DecodeEvent, Kept, EventLength;
    var s := StreamBytes(events);
    if events == [] {
      assert EventSize(s[..n]) == 0 by { EmptySize(); }
    } else {
      var e := events[0];
      var tail := StreamBytes(events[1..]);
      EventReadsBack(e, tail);
      if n < EventLength(e) {
        PartialEvent(e, tail, n);
      } else {
        var m := EventLength(e);
        WholeEvent(e, tail, n);
        PrefixDrop(s, n, m);
        TruncatedStream(events[1..], n - m);
        var k := Whole(events[1..], n - m);
        assert events[..k + 1][1..] == events[1..][..k];
        assert KeptAll(events[..k + 1]) == [Kept(e)] + KeptAll(events[1..][..k]);
      }
    }
  }

  lemma {:induction false} EmptySize()
    ensures EventSize([]) == 0
  {
  }

  /** An event is read alike from a buffer that ends later or earlier after it. */
  lemma {:induction false} WholeEvent(e: HistoryEvent, tail: seq<byte>, n: nat)
    requires |e.path| < 0x1_0000_0000 && EventLength(e) <= n <= EventLength(e) + |tail|
    ensures |EventBytes(e, tail)| == EventLength(e) + |tail|
    ensures EventSize(EventBytes(e, tail)[..n]) == EventLength(e) > 0
    ensures DecodeEvent(EventBytes(e, tail)[..n]) == Kept(e)
  {
    hide EventSize, DecodeEvent, EventLength, EventBytes;
    var m := EventLength(e);
    EventReadsBack(e, tail);
    EventReadsBack(e, tail[..n - m]);
    EventThenTail(e, tail);
    EventThenTail(e, tail[..n - m]);
    EventReadsBack(e, []);
    assert EventBytes(e, tail)[..n] == EventBytes(e, tail[..n - m]);
    PositiveLength(e);
  }

  lemma {:induction false} PositiveLength(e: HistoryEvent)
    ensures EventLength(e) > 0
  {
  }

  lemma {:induction false} EventThenTail(e: HistoryEvent, tail: seq<byte>)
    ensures EventBytes(e, tail) == EventBytes(e, []) + tail
  {
    hide RecordBytes, TimeBytes, LEBytes;
    RecordThenTail(e.newMetadata, tail);
    RecordThenTail(e.oldMetadata, RecordBytes(e.newMetadata, tail));
    RecordThenTail(e.oldMetadata, RecordBytes(e.newMetadata, []));
    var body := e.path + RecordBytes(e.oldMetadata, RecordBytes(e.newMetadata, []));
    assert e.path + RecordBytes(e.oldMetadata, RecordBytes(e.newMetadata, tail)) == body + tail;
    TimeThenTail(e.eventTime, LEBytes(|e.path|, 4) + (body + tail));
    TimeThenTail(e.eventTime, LEBytes(|e.path|, 4) + body);
  }

  /** The whole stream comes back, as far as records keep it. */
  lemma {:induction false} StreamReadsBack(events: seq<HistoryEvent>)
    requires Storable(events)
    ensures DecodeEvents(StreamBytes(events)) == KeptAll(events)
  {
    hide EventBytes, EventSize, DecodeEvent, Kept, EventLength;
    var s := StreamBytes(events);
    assert s[..|s|] == s;
    TruncatedStream(events, |s|);
    AllWhole(events);
    assert events[..|events|] == events;
  }

  lemma {:induction false} AllWhole(events: seq<HistoryEvent>)
    requires Storable(events)
    ensures Whole(events, |StreamBytes(events)|) == |events|
  {
    hide EventBytes, EventSize, DecodeEvent, Kept, EventLength;
    if events != [] {
      EventReadsBack(events[0], StreamBytes(events[1..]));
      AllWhole(events[1..]);
    }
  }

  // ---------------------------------------------------------------- encoding and decoding

  method EncodeHistoryStream(events: seq<HistoryEvent>) returns (buf: seq<byte>)
    ensures buf == StreamBytes(events)
  {
    hide RecordBytes, TimeBytes, LEBytes, EventBytes;
    buf := [];
    for i := 0 to |events|
      invariant buf + StreamBytes(events[i..]) == StreamBytes(events)
    {
      var e := events[i];
      ghost var before := buf;
      buf := EncodeEvent(buf, e);
      EventThenTail(e, StreamBytes(events[i + 1..]));
      assert events[i..][1..] == events[i + 1..];
    }
    assert events[|events|..] == [];
  }

  method EncodeEvent(dst: seq<byte>, e: HistoryEvent) returns (buf: seq<byte>)
    ensures buf == dst + EventBytes(e, [])
  {
    hide RecordBytes, TimeBytes, LEBytes;
    buf := PutTime(dst + [e.kind], e.eventTime);
    buf := Put(buf, |e.path|, 4);
    buf := buf + e.path;
    buf := EncodeMetadataRecord(buf, e.oldMetadata);
    buf := EncodeMetadataRecord(buf, e.newMetadata);
    RecordThenTail(e.oldMetadata, RecordBytes(e.newMetadata, []));
    TimeThenTail(e.eventTime,
                 LEBytes(|e.path|, 4) + (e.path + RecordBytes(e.oldMetadata, RecordBytes(e.newMetadata, []))));
  }

  /** Decodes events until the buffer ends; puts a marker in front if there is none. */
  method DecodeHistoryStream(data: seq<byte>) returns (events: seq<HistoryEvent>)
    ensures var whole := DecodeEvents(data);
      events == (if whole == [] || whole[0].kind == 3 then [] else
                   [HistoryEvent(3, [], whole[0].eventTime, NO_METADATA, NO_METADATA)]) + whole
  {
    hide RecordSize, DecodeRecord, TimeAt, U32At;
    events := [];
    var ptr := 0;
    assert data[0..] == data;
    while |data| - ptr >= EVENT_HEADER_BYTES
      invariant 0 <= ptr <= |data|
      invariant events + DecodeEvents(data[ptr..]) == DecodeEvents(data)
    {
      var event := ReadEvent(data, ptr);
      if event.None? {
        break;
      }
      assert data[ptr..][event.value.1 - ptr..] == data[event.value.1..];
      events := events + [event.value.0];
      ptr := event.value.1;
    }
    assert DecodeEvents(data[ptr..]) == [];
    assert events == DecodeEvents(data);
    if events != [] && events[0].kind != RUN_MARKER {
      events := [MarkerAt(events[0].eventTime)] + events;
    }
  }

  method ReadEvent(data: seq<byte>, ptr: nat) returns (r: Option<(HistoryEvent, nat)>)
    requires ptr + EVENT_HEADER_BYTES <= |data|
    ensures r.None? <==> EventSize(data[ptr..]) == 0
    ensures r.Some? ==> r.value == (DecodeEvent(data[ptr..]), ptr + EventSize(data[ptr..]))
  {
    hide RecordSize, DecodeRecord, TimeAt, U32At;
    ghost var s := data[ptr..];
    var kind := data[ptr];
    Drop(data, ptr, 1);
    var time := GetTime(data, ptr + 1);
    Drop(data, ptr, 13);
    var pathLen := Get32(data, ptr + 13);
    if |data| - (ptr + EVENT_HEADER_BYTES) < pathLen {
      return None;
    }
    var p := ptr + EVENT_HEADER_BYTES + pathLen;
    var path := data[ptr + EVENT_HEADER_BYTES..p];
    assert path == s[EVENT_HEADER_BYTES..EVENT_HEADER_BYTES + pathLen];
    Drop(data, ptr, p - ptr);
    var old_ := DecodeMetadataRecord(data, p);
    if old_.None? {
      return None;
    }
    var q := old_.value.1;
    Drop(data, ptr, q - ptr);
    var new_ := DecodeMetadataRecord(data, q);
    if new_.None? {
      return None;
    }
    r := Some((HistoryEvent(kind, path, time, old_.value.0, new_.value.0), new_.value.1));
  }

  // ---------------------------------------------------------------- runs

  /** trim_history_runs, on the positions of the markers. */
  method TrimHistoryRuns(events: seq<HistoryEvent>, maxRuns: int) returns (r: seq<HistoryEvent>)
    ensures r == LastRuns(events, IsMarker, if maxRuns > 0 then maxRuns else 0)
  {
    if maxRuns <= 0 {
      return [];
    }
    RunsFromStart(events, IsMarker, maxRuns);
    if events == [] {
      return events;
    }
    var runStarts := [];
    if events[0].kind != RUN_MARKER {
      runStarts := runStarts + [0];
    }
    for i := 0 to |events|
      invariant i == 0 ==> runStarts == if IsMarker(events[0]) then [] else [0]
      invariant i > 0 ==> runStarts == RunStarts(events[..i], IsMarker)
      invariant |runStarts| <= i + 1
    {
      if i > 0 { assert events[..i + 1][..i] == events[..i]; } else { assert events[..1][..0] == []; }
      if events[i].kind == RUN_MARKER {
        runStarts := runStarts + [i];
      }
    }
    assert events[..|events|] == events;
    if runStarts == [] {
      return events;
    }
    if |runStarts| <= maxRuns {
      return events;
    }
    var keepIndex := runStarts[|runStarts| - maxRuns];
    r := events[keepIndex..];
  }

  /** One run's events: a marker, then no other marker. */
  ghost predicate Run(events: seq<HistoryEvent>) {
    events != [] && IsMarker(events[0]) && forall i :: 0 < i < |events| ==> !IsMarker(events[i])
  }

  /** What the updater stores after a run: the marker and the events of the run, after the
      log of the database it replaces. */
  method UpdateHistory(previous: seq<HistoryEvent>, run: seq<HistoryEvent>, depth: nat)
    returns (stored: seq<HistoryEvent>)
    requires Run(run)
    ensures stored == LastRuns(previous + run, IsMarker, depth)
  {
    if depth == 0 {
      return [];
    }
    if depth > 1 {
      stored := TrimHistoryRuns(previous + run, depth);
    } else {
      stored := TrimHistoryRuns(run, depth);
      OnlyLastRun(previous, run);
    }
  }

  lemma {:induction false} OnlyLastRun(previous: seq<HistoryEvent>, run: seq<HistoryEvent>)
    requires Run(run)
    ensures LastRuns(previous + run, IsMarker, 1) == LastRuns(run, IsMarker, 1) == run
  {
    LastRunOf(previous, run);
    LastRunOf([], run);
    assert [] + run == run;
  }

  lemma {:induction false} LastRunOf(previous: seq<HistoryEvent>, run: seq<HistoryEvent>)
    requires Run(run)
    ensures LastRuns(previous + run, IsMarker, 1) == run
  {
    var all := previous + run;
    var k := |run| - 1;
    assert all[|all| - 1] == run[k];
    if k == 0 {
      assert all[..|all| - 1] == previous;
      assert run == [run[0]];
    } else {
      LastRunOf(previous, run[..k]);
      assert all[..|all| - 1] == previous + run[..k];
      assert run == run[..k] + [run[k]];
    }
  }

  function Joined(runs: seq<seq<HistoryEvent>>): seq<HistoryEvent> {
    if runs == [] then [] else Joined(runs[..|runs| - 1]) + runs[|runs| - 1]
  }

  /** Events that the log keeps as they are. */
  ghost predicate Clean(events: seq<HistoryEvent>) {
    forall i :: 0 <= i < |events| ==> |events[i].path| < 0x1_0000_0000 && Kept(events[i]) == events[i]
  }

  lemma {:induction false} CleanIsKept(events: seq<HistoryEvent>)
    requires Clean(events)
    ensures Storable(events) && KeptAll(events) == events
  {
    hide Kept;
  }

  /** One run: the stored log is read back and replaced. */
  method NextRun(stored: seq<HistoryEvent>, run: seq<HistoryEvent>, depth: nat) returns (next: seq<HistoryEvent>)
    requires Clean(stored) && (stored == [] || IsMarker(stored[0]))
    requires Run(run) && Clean(run)
    ensures next == LastRuns(stored + run, IsMarker, depth)
    ensures Clean(next) && (next == [] || IsMarker(next[0]))
  {
    hide LastRuns, Run, Clean, DecodeEvents, StreamBytes, KeptAll, Storable;
    var bytes := EncodeHistoryStream(stored);
    CleanIsKept(stored);
    StreamReadsBack(stored);
    var previous := DecodeHistoryStream(bytes);
    assert previous == stored;
    next := UpdateHistory(previous, run, depth);
    StillClean(stored, run, depth);
  }

  /** The log after some runs, each of which reads what the one before has stored: exactly
      the last runs of the whole log. */
  method ManyRuns(runs: seq<seq<HistoryEvent>>, depth: nat) returns (stored: seq<HistoryEvent>)
    requires forall i :: 0 <= i < |runs| ==>
      && runs[i] != [] && runs[i][0].kind == 3 && (forall k :: 0 < k < |runs[i]| ==> runs[i][k].kind != 3)
      && Clean(runs[i])
    ensures stored == LastRuns(Joined(runs), IsMarker, depth)
  {
    hide LastRuns, Clean;
    stored := [];
    assert LastRuns([], IsMarker, depth) == [] && Clean([]) by { NoRuns(depth); }
    for i := 0 to |runs|
      invariant stored == LastRuns(Joined(runs[..i]), IsMarker, depth)
      invariant Clean(stored) && (stored == [] || IsMarker(stored[0]))
    {
      stored := NextRun(stored, runs[i], depth);
      assert runs[..i + 1][..i] == runs[..i];
      TrimBefore(Joined(runs[..i]), runs[i], IsMarker, depth, depth);
    }
    assert runs[..|runs|] == runs;
  }

  lemma {:induction false} NoRuns(n: nat)
    ensures LastRuns([], IsMarker, n) == [] && Clean([])
  {
  }

  lemma {:induction false} StillClean(stored: seq<HistoryEvent>, run: seq<HistoryEvent>, depth: nat)
    requires Clean(stored) && (stored == [] || IsMarker(stored[0])) && Run(run) && Clean(run)
    ensures var s := LastRuns(stored + run, IsMarker, depth); Clean(s) && (s == [] || IsMarker(s[0]))
  {
    hide Kept;
    var all := stored + run;
    assert Clean(all);
    if depth > 0 {
      RunsFromStart(all, IsMarker, depth);
      StartsAreMarkers(all);
    }
  }

  lemma {:induction false} StartsAreMarkers(events: seq<HistoryEvent>)
    requires events != [] ==> IsMarker(events[0])
    ensures forall i :: 0 <= i < |RunStarts(events, IsMarker)| ==> IsMarker(events[RunStarts(events, IsMarker)[i]])
  {
    if events != [] {
      var rest := events[..|events| - 1];
      StartsAreMarkers(rest);
    }
  }
}
