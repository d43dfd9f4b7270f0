/** The request queue: a ring of bounded depth, two waiting queues, callbacks that submit
    more requests, and reads that complete in parts. */
module IOUring {
  import opened Bits

  const QUEUE_DEPTH := 256

  datatype Request = Read(offset: nat, len: nat) | Stat(path: seq<byte>)

  /** A request in the ring: the bytes read so far, and whether the kernel has it. */
  datatype InFlight = InFlight(request: Request, got: seq<byte>, submitted: bool)

  /** One run of a callback. */
  datatype Completion = Completion(request: Request, data: seq<byte>, ok: bool)

  // ---------------------------------------------------------------- sums and multisets

  function Requests(ring: seq<InFlight>): seq<Request> {
    seq(|ring|, i requires 0 <= i < |ring| => ring[i].request)
  }

  function Answered(log: seq<Completion>): seq<Request> {
    seq(|log|, i requires 0 <= i < |log| => log[i].request)
  }

  /** Bytes still to come, and one for the callback. */
  function Cost(r: Request, got: nat): nat {
    match r
    case Read(_, len) => 1 + if len > got then len - got else 0
    case Stat(_) => 1
  }

  function RingCost(ring: seq<InFlight>): nat {
    if ring == [] then 0 else RingCost(ring[..|ring| - 1]) + Cost(ring[|ring| - 1].request, |ring[|ring| - 1].got|)
  }

  function QueueCost(queue: seq<Request>): nat {
    if queue == [] then 0 else Cost(queue[0], 0) + QueueCost(queue[1..])
  }

  lemma {:induction false} RingCostAppend(ring: seq<InFlight>, e: InFlight)
    ensures RingCost(ring + [e]) == RingCost(ring) + Cost(e.request, |e.got|)
  {
    assert (ring + [e])[..|ring|] == ring;
  }

  lemma {:induction false} RingCostJoin(a: seq<InFlight>, b: seq<InFlight>)
    ensures RingCost(a + b) == RingCost(a) + RingCost(b)
  {
    if b == [] {
      assert a + b == a;
    } else {
      var n := |b| - 1;
      RingCostJoin(a, b[..n]);
      assert (a + b)[..|a + b| - 1] == a + b[..n];
    }
  }

  lemma {:induction false} Removed(ring: seq<InFlight>, i: nat)
    requires i < |ring|
    ensures var rest := ring[..i] + ring[i + 1..];
      && multiset(Requests(ring)) == multiset(Requests(rest)) + multiset{ring[i].request}
      && RingCost(ring) == RingCost(rest) + Cost(ring[i].request, |ring[i].got|)
  {
    var a, b := ring[..i], ring[i + 1..];
    assert ring == a + ([ring[i]] + b);
    assert Requests(ring) == Requests(a) + ([ring[i].request] + Requests(b));
    assert Requests(a + b) == Requests(a) + Requests(b);
    RingCostJoin(a, [ring[i]] + b);
    RingCostJoin([ring[i]], b);
    RingCostJoin(a, b);
    RingCostAppend([], ring[i]);
    assert [] + [ring[i]] == [ring[i]];
  }

  lemma {:induction false} Replaced(ring: seq<InFlight>, i: nat, e: InFlight)
    requires i < |ring| && e.request == ring[i].request
    ensures Requests(ring[i := e]) == Requests(ring)
    ensures RingCost(ring[i := e]) + Cost(e.request, |ring[i].got|) == RingCost(ring) + Cost(e.request, |e.got|)
  {
    Removed(ring, i);
    Removed(ring[i := e], i);
    assert ring[i := e][..i] == ring[..i] && ring[i := e][i + 1..] == ring[i + 1..];
  }

  /** Each request asked for has been answered, is in the ring, or waits: in one place, once. */
  ghost predicate Accounted(asked: seq<Request>, log: seq<Completion>, ring: seq<InFlight>, waitingReads: seq<Request>,
                            waitingStats: seq<Request>) {
    multiset(asked) == multiset(Answered(log)) + multiset(Requests(ring)) + multiset(waitingReads)
        + multiset(waitingStats)
  }

  lemma {:induction false} AskedForRing(asked: seq<Request>, log: seq<Completion>, ring: seq<InFlight>,
                                        waitingReads: seq<Request>, waitingStats: seq<Request>, r: Request)
    requires Accounted(asked, log, ring, waitingReads, waitingStats)
    ensures Accounted(asked + [r], log, ring + [InFlight(r, [], false)], waitingReads, waitingStats)
    ensures Accounted(asked + [r], log, ring, waitingReads + [r], waitingStats)
    ensures Accounted(asked + [r], log, ring, waitingReads, waitingStats + [r])
  {
    assert Requests(ring + [InFlight(r, [], false)]) == Requests(ring) + [r];
  }

  lemma {:induction false} AskedAndAnswered(asked: seq<Request>, log: seq<Completion>, ring: seq<InFlight>,
                                            waitingReads: seq<Request>, waitingStats: seq<Request>, c: Completion)
    requires Accounted(asked, log, ring, waitingReads, waitingStats)
    ensures Accounted(asked + [c.request], log + [c], ring, waitingReads, waitingStats)
  {
    assert Answered(log + [c]) == Answered(log) + [c.request];
  }

  lemma {:induction false} RingAnswered(asked: seq<Request>, log: seq<Completion>, ring: seq<InFlight>,
                                        waitingReads: seq<Request>, waitingStats: seq<Request>, i: nat, c: Completion)
    requires Accounted(asked, log, ring, waitingReads, waitingStats) && i < |ring| && ring[i].request == c.request
    ensures Accounted(asked, log + [c], ring[..i] + ring[i + 1..], waitingReads, waitingStats)
  {
    assert Answered(log + [c]) == Answered(log) + [c.request];
    Removed(ring, i);
  }

  lemma {:induction false} Reprepared(asked: seq<Request>, log: seq<Completion>, ring: seq<InFlight>,
                                      waitingReads: seq<Request>, waitingStats: seq<Request>, i: nat, e: InFlight)
    requires Accounted(asked, log, ring, waitingReads, waitingStats) && i < |ring| && ring[i].request == e.request
    ensures Accounted(asked, log, ring[i := e], waitingReads, waitingStats)
  {
    Replaced(ring, i, e);
  }

  lemma {:induction false} StatMoved(asked: seq<Request>, log: seq<Completion>, ring: seq<InFlight>,
                                     waitingReads: seq<Request>, waitingStats: seq<Request>)
    requires Accounted(asked, log, ring, waitingReads, waitingStats) && waitingStats != []
    ensures Accounted(asked, log, ring + [InFlight(waitingStats[0], [], false)], waitingReads, waitingStats[1..])
  {
    Appended(ring, InFlight(waitingStats[0], [], false));
    assert waitingStats == [waitingStats[0]] + waitingStats[1..];
  }

  lemma {:induction false} ReadMoved(asked: seq<Request>, log: seq<Completion>, ring: seq<InFlight>,
                                     waitingReads: seq<Request>, waitingStats: seq<Request>)
    requires Accounted(asked, log, ring, waitingReads, waitingStats) && waitingReads != []
    ensures Accounted(asked, log, ring + [InFlight(waitingReads[0], [], false)], waitingReads[1..], waitingStats)
  {
    Appended(ring, InFlight(waitingReads[0], [], false));
    assert waitingReads == [waitingReads[0]] + waitingReads[1..];
  }

  // ---------------------------------------------------------------- the engine

  class IOUringEngine {
    const file: seq<byte>
    const present: seq<byte> -> bool
    const usingUring: bool

    /** Number of requests in the ring. */
    var pendingReads: nat
    var ring: seq<InFlight>
    var queuedReads: seq<Request>
    var queuedStats: seq<Request>

    /** Everything ever asked for, and the callbacks so far. */
    ghost var asked: seq<Request>
    ghost var log: seq<Completion>

    predicate Sensible(r: Request) {
      match r
      case Read(offset, len) => 0 < len && offset + len <= |file|
      case Stat(_) => usingUring
    }

    ghost predicate Right(c: Completion) {
      match c.request
      case Read(offset, len) => offset + len <= |file| && c.data == file[offset..offset + len]
      case Stat(path) => c.ok == present(path)
    }

    ghost predicate Underway(e: InFlight) {
      && Sensible(e.request)
      && (e.request.Read? ==> |e.got| < e.request.len && e.got == file[e.request.offset..e.request.offset + |e.got|])
    }

    /** Each request asked for is waiting, in the ring, or has been answered, exactly once;
        every answer is right. */
    ghost predicate Valid()
      reads this
    {
      && pendingReads == |ring| <= QUEUE_DEPTH
      && (forall i :: 0 <= i < |ring| ==> Underway(ring[i]))
      && (forall i :: 0 <= i < |queuedReads| ==> queuedReads[i].Read? && Sensible(queuedReads[i]))
      && (forall i :: 0 <= i < |queuedStats| ==> queuedStats[i].Stat? && Sensible(queuedStats[i]))
      && (forall i :: 0 <= i < |log| ==> Right(log[i]))
      && Accounted(asked, log, ring, queuedReads, queuedStats)
      && (!usingUring ==> ring == [] && queuedReads == [] && queuedStats == [])
    }

    /** Nothing waits while there is room in the ring. */
    ghost predicate Full()
      reads this`ring, this`queuedReads, this`queuedStats
    {
      queuedReads != [] || queuedStats != [] ==> |ring| == QUEUE_DEPTH
    }

    ghost function Work(): nat
      reads this`ring, this`queuedReads, this`queuedStats
    {
      RingCost(ring) + QueueCost(queuedReads) + QueueCost(queuedStats)
    }

    constructor (file: seq<byte>, present: seq<byte> -> bool, usingUring: bool)
      ensures Valid() && Full() && asked == [] && log == [] && ring == []
    {
      this.file, this.present, this.usingUring := file, present, usingUring;
      pendingReads, ring, queuedReads, queuedStats := 0, [], [], [];
      asked, log := [], [];
    }

    /** The program around the engine, and the kernel, may choose anything. */
    method AnyRequest() returns (r: Request)
    {
      r :| true;
    }

    method AnyNat() returns (n: nat)
    {
      n :| n >= 0;
    }

    method SubmitInternal(r: Request)
      requires Sensible(r) && pendingReads == |ring|
      modifies this`ring, this`pendingReads
      ensures ring == old(ring) + [InFlight(r, [], false)] && pendingReads == old(pendingReads) + 1
    {
      ring := ring + [InFlight(r, [], false)];
      pendingReads := pendingReads + 1;
    }

    /** submit_stat; only if the ring supports it. */
    method SubmitStat(r: Request)
      requires Valid() && usingUring && r.Stat?
      modifies this`ring, this`pendingReads, this`queuedStats, this`asked
      ensures Valid() && (old(Full()) ==> Full())
      ensures asked == old(asked) + [r] && old(ring) <= ring
      ensures (pendingReads == old(pendingReads) ==> ring == old(ring))
    {
      hide Underway, Right, Accounted;
      AskedForRing(asked, log, ring, queuedReads, queuedStats, r);
      asked := asked + [r];
      if pendingReads < QUEUE_DEPTH {
        NewUnderway(r);
        SubmitInternal(r);
      } else {
        queuedStats := queuedStats + [r];
      }
    }

    /** submit_read. Without a ring the read is done at once and the callback is run. budget
        bounds the requests that callbacks have yet to make. */
    method SubmitRead(r: Request, budget: nat) returns (left: nat)
      requires Valid() && r.Read? && 0 < r.len && r.offset + r.len <= |file|
      modifies this`ring, this`pendingReads, this`queuedReads, this`queuedStats, this`asked, this`log
      decreases budget, 1, 1
      ensures Valid() && left <= budget && (old(Full()) ==> Full())
      ensures old(asked) + [r] <= asked && old(log) <= log
      ensures old(ring) <= ring && (pendingReads == old(pendingReads) ==> ring == old(ring))
    {
      hide Underway, Accounted;
      left := budget;
      AskedForRing(asked, log, ring, queuedReads, queuedStats, r);
      if !usingUring {
        left := ReadNow(r, budget);
        return;
      }
      asked := asked + [r];
      if pendingReads < QUEUE_DEPTH {
        NewUnderway(r);
        SubmitInternal(r);
      } else {
        queuedReads := queuedReads + [r];
      }
    }

    /** A synchronous read. */
    method ReadNow(r: Request, budget: nat) returns (left: nat)
      requires Valid() && !usingUring && r.Read? && Sensible(r)
      modifies this`ring, this`pendingReads, this`queuedReads, this`queuedStats, this`asked, this`log
      decreases budget, 1, 0
      ensures Valid() && left <= budget && (old(Full()) ==> Full())
      ensures old(asked) + [r] <= asked && old(log) <= log
      ensures old(ring) <= ring && (pendingReads == old(pendingReads) ==> ring == old(ring))
    {
      hide Underway, Accounted;
      var c := Completion(r, file[r.offset..r.offset + r.len], true);
      AskedAndAnswered(asked, log, ring, queuedReads, queuedStats, c);
      asked := asked + [r];
      log := log + [c];
      left := Callback(budget);
    }

    lemma {:induction false} NewUnderway(r: Request)
      requires Sensible(r)
      ensures Underway(InFlight(r, [], false))
    {
    }

    /** Any callback: it may ask for more, within the budget. */
    method Callback(budget: nat) returns (left: nat)
      requires Valid()
      modifies this`ring, this`pendingReads, this`queuedReads, this`queuedStats, this`asked, this`log
      decreases budget, 0, 0
      ensures Valid() && left <= budget && (old(Full()) ==> Full())
      ensures old(asked) <= asked && old(log) <= log
      ensures old(ring) <= ring && (pendingReads == old(pendingReads) ==> ring == old(ring))
      ensures left == budget ==> ring == old(ring) && queuedReads == old(queuedReads) && queuedStats == old(queuedStats)
    {
      hide Valid, Full;
      left := budget;
      Counted();
      while left > 0
        invariant Valid() && left <= budget && (old(Full()) ==> Full())
        invariant old(asked) <= asked && old(log) <= log
        invariant old(ring) <= ring && pendingReads == |ring|
        invariant left == budget ==>
          ring == old(ring) && queuedReads == old(queuedReads) && queuedStats == old(queuedStats)
      {
        var r := AnyRequest();
        if !Sensible(r) {
          break;
        }
        left := left - 1;
        if r.Stat? {
          SubmitStat(r);
        } else {
          left := SubmitRead(r, left);
        }
        Counted();
      }
    }

    /** Never more than 256 requests in the ring, and no less while any wait. */
    lemma {:induction false} Counted()
      requires Valid()
      ensures pendingReads == |ring| <= 256
      ensures Full() && (queuedReads != [] || queuedStats != []) ==> |ring| == 256
    {
    }

    ghost predicate AllSubmitted()
      reads this`ring
    {
      forall i :: 0 <= i < |ring| ==> ring[i].submitted
    }

    /** A request is done: it leaves the ring and its callback runs. */
    method RunCallback(i: nat, data: seq<byte>, ok: bool, budget: nat, anything: bool)
      returns (left: nat, anythingToSubmit: bool)
      requires Valid() && usingUring && i < |ring| && Right(Completion(ring[i].request, data, ok))
      requires !anything ==> AllSubmitted()
      modifies this`ring, this`pendingReads, this`queuedReads, this`queuedStats, this`asked, this`log
      ensures Valid() && left <= budget && (left < budget || Work() < old(Work()))
      ensures !anythingToSubmit ==> AllSubmitted()
      ensures old(asked) <= asked && old(log) <= log
    {
      hide Underway, Right, RingCost, QueueCost, Accounted;
      var c := Completion(ring[i].request, data, ok);
      Removed(ring, i);
      RingAnswered(asked, log, ring, queuedReads, queuedStats, i, c);
      ring := ring[..i] + ring[i + 1..];
      pendingReads := pendingReads - 1;
      log := log + [c];
      anythingToSubmit := anything;
      var oldPendingReads := pendingReads;
      left := Callback(budget);
      if pendingReads != oldPendingReads {
        anythingToSubmit := true;
      }
    }

    /** One completion of the kernel for a request it has. A read may come back in part and
        goes into the ring again for the rest. */
    method Complete(i: nat, budget: nat, anything: bool) returns (left: nat, anythingToSubmit: bool)
      requires Valid() && usingUring && i < |ring| && ring[i].submitted
      requires !anything ==> AllSubmitted()
      modifies this`ring, this`pendingReads, this`queuedReads, this`queuedStats, this`asked, this`log
      ensures Valid() && left <= budget && (left < budget || Work() < old(Work()))
      ensures !anythingToSubmit ==> AllSubmitted()
      ensures old(asked) <= asked && old(log) <= log
    {
      hide RingCost, QueueCost, Accounted;
      var e := ring[i];
      assert Underway(e);
      if e.request.Stat? {
        left, anythingToSubmit := RunCallback(i, [], present(e.request.path), budget, anything);
        return;
      }
      var offset := e.request.offset + |e.got|;
      var n := AnyNat();
      if n == 0 || n > e.request.len - |e.got| {
        n := e.request.len - |e.got|;
      }
      var data := e.got + file[offset..offset + n];
      assert data == file[e.request.offset..offset + n];
      if |data| < e.request.len {
        var again := e.(got := data, submitted := false);
        Replaced(ring, i, again);
        Reprepared(asked, log, ring, queuedReads, queuedStats, i, again);
        ring := ring[i := again];
        left, anythingToSubmit := budget, true;
      } else {
        left, anythingToSubmit := RunCallback(i, data, true, budget, anything);
      }
    }

    /** The first waiting request goes into the ring. */
    method MoveStat()
      requires Valid() && usingUring && queuedStats != [] && pendingReads < QUEUE_DEPTH
      modifies this`ring, this`pendingReads, this`queuedStats
      ensures Valid() && Work() == old(Work()) && queuedStats == old(queuedStats)[1..]
      ensures ring == old(ring) + [InFlight(old(queuedStats)[0], [], false)]
    {
      hide Underway, Right, RingCost, QueueCost, Accounted;
      var r := queuedStats[0];
      MoveUp(queuedStats, r);
      StatMoved(asked, log, ring, queuedReads, queuedStats);
      queuedStats := queuedStats[1..];
      SubmitInternal(r);
    }

    method MoveRead()
      requires Valid() && usingUring && queuedReads != [] && pendingReads < QUEUE_DEPTH
      modifies this`ring, this`pendingReads, this`queuedReads
      ensures Valid() && Work() == old(Work()) && queuedReads == old(queuedReads)[1..]
      ensures ring == old(ring) + [InFlight(old(queuedReads)[0], [], false)]
    {
      hide Underway, Right, RingCost, QueueCost, Accounted;
      var r := queuedReads[0];
      MoveUp(queuedReads, r);
      ReadMoved(asked, log, ring, queuedReads, queuedStats);
      queuedReads := queuedReads[1..];
      SubmitInternal(r);
    }

    /** As many waiting requests as there is room for, the oldest first. */
    method MoveStats() returns (moved: bool, ghost taken: seq<Request>)
      requires Valid() && usingUring
      modifies this`ring, this`pendingReads, this`queuedStats
      ensures Valid() && Work() == old(Work()) && (queuedStats != [] ==> |ring| == QUEUE_DEPTH)
      ensures old(queuedStats) == taken + queuedStats && Requests(ring) == old(Requests(ring)) + taken
      ensures !moved ==> ring == old(ring)
    {
      hide Valid, Work, Requests;
      moved, taken := false, [];
      Counted();
      while queuedStats != [] && pendingReads < QUEUE_DEPTH
        invariant Valid() && Work() == old(Work()) && pendingReads == |ring| <= QUEUE_DEPTH
        invariant old(queuedStats) == taken + queuedStats && Requests(ring) == old(Requests(ring)) + taken
        invariant !moved ==> ring == old(ring)
        decreases |queuedStats|
      {
        Appended(ring, InFlight(queuedStats[0], [], false));
        taken := taken + [queuedStats[0]];
        MoveStat();
        Counted();
        moved := true;
      }
    }

    method MoveReads() returns (moved: bool, ghost taken: seq<Request>)
      requires Valid() && usingUring
      modifies this`ring, this`pendingReads, this`queuedReads
      ensures Valid() && Work() == old(Work()) && (queuedReads != [] ==> |ring| == QUEUE_DEPTH)
      ensures old(queuedReads) == taken + queuedReads && Requests(ring) == old(Requests(ring)) + taken
      ensures !moved ==> ring == old(ring)
      ensures old(|ring|) == QUEUE_DEPTH ==> ring == old(ring) && queuedReads == old(queuedReads)
    {
      hide Valid, Work, Requests;
      moved, taken := false, [];
      Counted();
      while queuedReads != [] && pendingReads < QUEUE_DEPTH
        invariant Valid() && Work() == old(Work()) && pendingReads == |ring| <= QUEUE_DEPTH
        invariant old(queuedReads) == taken + queuedReads && Requests(ring) == old(Requests(ring)) + taken
        invariant !moved ==> ring == old(ring)
        invariant old(|ring|) == QUEUE_DEPTH ==> ring == old(ring) && queuedReads == old(queuedReads)
        decreases |queuedReads|
      {
        Appended(ring, InFlight(queuedReads[0], [], false));
        taken := taken + [queuedReads[0]];
        MoveRead();
        Counted();
        moved := true;
      }
    }

    /** Moves waiting requests into the ring while there is room, stats first. */
    method SubmitQueued(anything: bool) returns (anythingToSubmit: bool, ghost stats: seq<Request>,
                                                 ghost others: seq<Request>)
      requires Valid() && usingUring && (!anything ==> AllSubmitted())
      modifies this`ring, this`pendingReads, this`queuedReads, this`queuedStats
      ensures Valid() && Full() && Work() == old(Work())
      ensures !anythingToSubmit ==> AllSubmitted()
      ensures old(queuedStats) == stats + queuedStats && old(queuedReads) == others + queuedReads
      ensures Requests(ring) == old(Requests(ring)) + stats + others && (others != [] ==> queuedStats == [])
    {
      hide Valid, Work, Requests;
      var movedStats, movedReads;
      movedStats, stats := MoveStats();
      movedReads, others := MoveReads();
      anythingToSubmit := anything || movedStats || movedReads;
    }

    lemma {:induction false} MoveUp(queue: seq<Request>, r: Request)
      requires queue != [] && queue[0] == r && Sensible(r)
      ensures QueueCost(queue) == QueueCost(queue[1..]) + Cost(r, 0)
      ensures RingCost(ring + [InFlight(r, [], false)]) == RingCost(ring) + Cost(r, 0)
      ensures Underway(InFlight(r, [], false))
    {
      assert queue == [r] + queue[1..];
      RingCostAppend(ring, InFlight(r, [], false));
    }

    /** All prepared requests go to the kernel. */
    method SubmitAll()
      requires Valid() && usingUring
      modifies this`ring
      ensures Valid() && AllSubmitted() && Work() == old(Work()) && Full() == old(Full()) && |ring| == old(|ring|)
    {
      hide Underway, Right;
      Marked(ring);
      var was := ring;
      ring := seq(|was|, i requires 0 <= i < |was| => was[i].(submitted := true));
    }

    lemma {:induction false} Marked(r: seq<InFlight>)
      ensures var s := seq(|r|, i requires 0 <= i < |r| => r[i].(submitted := true));
        && Requests(s) == Requests(r) && RingCost(s) == RingCost(r)
        && forall i :: 0 <= i < |r| ==> Underway(s[i]) == Underway(r[i])
    {
      var s := seq(|r|, i requires 0 <= i < |r| => r[i].(submitted := true));
      if r != [] {
        var n := |r| - 1;
        Marked(r[..n]);
        assert s[..n] == seq(n, i requires 0 <= i < n => r[..n][i].(submitted := true));
        assert Requests(r) == Requests(r[..n]) + [r[n].request];
        assert Requests(s) == Requests(s[..n]) + [r[n].request];
      }
    }

    /** Runs until nothing is left. The kernel completes requests in any order, reads in any
        parts; callbacks ask for more. There is never a wait with nothing submitted. */
    method Finish(budget: nat) returns (left: nat)
      requires Valid() && Full()
      modifies this`ring, this`pendingReads, this`queuedReads, this`queuedStats, this`asked, this`log
      ensures Valid() && left <= budget && old(asked) <= asked && old(log) <= log
      ensures ring == [] && queuedReads == [] && queuedStats == []
      ensures multiset(Answered(log)) == multiset(asked)
      ensures forall i :: 0 <= i < |log| ==>
        match log[i].request
        case Read(offset, len) => offset + len <= |file| && log[i].data == file[offset..offset + len]
        case Stat(path) => log[i].ok == present(path)
    {
      hide Underway, RingCost, QueueCost;
      left := budget;
      if usingUring {
        var anythingToSubmit := true;
        while pendingReads > 0
          invariant Valid() && Full() && left <= budget && old(asked) <= asked && old(log) <= log
          invariant !anythingToSubmit ==> AllSubmitted()
          decreases left, Work()
        {
          left, anythingToSubmit := Round(left, anythingToSubmit);
        }
      }
      assert Requests(ring) == [];
    }

    /** A batch of completions, at least one, and then the waiting requests. */
    method Round(budget: nat, anything: bool) returns (left: nat, anythingToSubmit: bool)
      requires Valid() && usingUring && |ring| > 0 && (!anything ==> AllSubmitted())
      modifies this`ring, this`pendingReads, this`queuedReads, this`queuedStats, this`asked, this`log
      ensures Valid() && Full() && left <= budget && (left < budget || Work() < old(Work()))
      ensures !anythingToSubmit ==> AllSubmitted()
      ensures old(asked) <= asked && old(log) <= log
    {
      hide Valid, Full, RingCost, QueueCost;
      left, anythingToSubmit := budget, anything;
      var next: nat := AnyNat();
      if next >= |ring| || !ring[next].submitted {
        // Nothing is ready.
        next := 0;
        if anythingToSubmit {
          SubmitAll();
          anythingToSubmit := false;
        }
        assert ring[next].submitted;
      }
      left, anythingToSubmit := Complete(next, left, anythingToSubmit);
      next := AnyNat();
      while next < |ring| && ring[next].submitted
        invariant Valid() && left <= budget && (left < budget || Work() < old(Work()))
        invariant !anythingToSubmit ==> AllSubmitted()
        invariant old(asked) <= asked && old(log) <= log
        decreases left, Work()
      {
        left, anythingToSubmit := Complete(next, left, anythingToSubmit);
        next := AnyNat();
      }
      ghost var stats, others;
      anythingToSubmit, stats, others := SubmitQueued(anythingToSubmit);
    }
  }

  lemma {:induction false} Appended(ring: seq<InFlight>, e: InFlight)
    ensures Requests(ring + [e]) == Requests(ring) + [e.request]
  {
  }
}
