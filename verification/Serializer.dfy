/** Results in order from messages that arrive in any order. */
module Serializing {
  import opened Bits
  import opened Wrappers

  /** Text for the sequence numbers from start on; skip of them are dealt with by it. An
      empty text only advances. */
  datatype Message = Message(start: nat, skip: nat, msg: seq<byte>)

  // ---------------------------------------------------------------- plans

  /** Where message i of a plan starts; the end of the plan after the last one. */
  function Edge(plan: seq<Message>, hi: nat, i: nat): nat {
    if i < |plan| then plan[i].start else hi
  }

  /** The messages cover the numbers from lo to hi, each once, in order. */
  ghost predicate Tiling(plan: seq<Message>, lo: nat, hi: nat) {
    && Edge(plan, hi, 0) == lo
    && forall i :: 0 <= i < |plan| ==> plan[i].skip > 0 && Edge(plan, hi, i + 1) == plan[i].start + plan[i].skip
  }

  /** The texts to print. */
  function Texts(plan: seq<Message>): seq<seq<byte>> {
    if plan == [] then []
    else
      var m := plan[|plan| - 1].msg;
      Texts(plan[..|plan| - 1]) + (if m == [] then [] else [m])
  }

  lemma {:induction false} EdgesRise(plan: seq<Message>, lo: nat, hi: nat, i: nat, k: nat)
    requires Tiling(plan, lo, hi) && i < k <= |plan|
    ensures Edge(plan, hi, i) < Edge(plan, hi, k)
  {
    if i + 1 < k { EdgesRise(plan, lo, hi, i, k - 1); }
    assert plan[k - 1].skip > 0;
  }

  lemma {:induction false} EdgesDiffer(plan: seq<Message>, lo: nat, hi: nat, i: nat, k: nat)
    requires Tiling(plan, lo, hi) && i <= |plan| && k <= |plan|
    ensures i == k <==> Edge(plan, hi, i) == Edge(plan, hi, k)
    ensures i < k <==> Edge(plan, hi, i) < Edge(plan, hi, k)
  {
    if i < k { EdgesRise(plan, lo, hi, i, k); }
    if k < i { EdgesRise(plan, lo, hi, k, i); }
  }

  lemma {:induction false} TilingJoins(a: seq<Message>, b: seq<Message>, lo: nat, mid: nat, hi: nat)
    requires Tiling(a, lo, mid) && Tiling(b, mid, hi)
    ensures Tiling(a + b, lo, hi)
  {
    var plan := a + b;
    forall i | 0 <= i < |plan| ensures plan[i].skip > 0 && Edge(plan, hi, i + 1) == plan[i].start + plan[i].skip {
      if i < |a| {
        assert Edge(a, mid, i + 1) == a[i].start + a[i].skip;
      } else {
        assert Edge(b, hi, i - |a| + 1) == b[i - |a|].start + b[i - |a|].skip;
      }
    }
  }

  lemma {:induction false} TextsJoin(a: seq<Message>, b: seq<Message>)
    ensures Texts(a + b) == Texts(a) + Texts(b)
  {
    if b == [] {
      assert a + b == a;
    } else {
      var n := |b| - 1;
      TextsJoin(a, b[..n]);
      assert (a + b)[..|a + b| - 1] == a + b[..n];
    }
  }

  /** m stands for messages a up to b of the plan, of which only the first may have a text. */
  ghost predicate Merges(plan: seq<Message>, hi: nat, a: nat, b: nat, m: Message) {
    && a < b <= |plan|
    && m.start == Edge(plan, hi, a) && m.start + m.skip == Edge(plan, hi, b)
    && m.msg == plan[a].msg
    && forall i :: a < i < b ==> plan[i].msg == []
  }

  lemma {:induction false} MergedTexts(plan: seq<Message>, a: nat, b: nat)
    requires a < b <= |plan| && forall i :: a < i < b ==> plan[i].msg == []
    ensures Texts(plan[..b]) == Texts(plan[..a]) + (if plan[a].msg == [] then [] else [plan[a].msg])
  {
    assert plan[..b][..b - 1] == plan[..b - 1];
    if a + 1 < b { MergedTexts(plan, a, b - 1); }
  }

  lemma {:induction false} TextsPrefix(plan: seq<Message>, k: nat)
    requires k <= |plan|
    ensures Texts(plan[..k]) <= Texts(plan)
  {
    TextsJoin(plan[..k], plan[k..]);
    assert plan == plan[..k] + plan[k..];
  }

  /** The numbers of the messages of a plan that have a text. */
  ghost function Telling(plan: seq<Message>): set<nat> {
    set i: nat | i < |plan| && plan[i].msg != []
  }

  lemma {:induction false} TellingCount(plan: seq<Message>)
    ensures |Telling(plan)| == |Texts(plan)|
  {
    if plan != [] {
      var n := |plan| - 1;
      var rest := plan[..n];
      TellingCount(rest);
      assert forall i :: 0 <= i < n ==> rest[i] == plan[i];
      assert Telling(plan) == Telling(rest) + (if plan[n].msg == [] then {} else {n});
    }
  }

  lemma {:induction false} TellingMore(plan: seq<Message>, fed: set<nat>, a: nat, b: nat)
    requires a < b <= |plan| && forall i :: a < i < b ==> plan[i].msg == []
    requires forall i :: a <= i < b ==> i !in fed
    ensures Telling(plan) * (fed + Interval(a, b)) == Telling(plan) * fed + (if plan[a].msg == [] then {} else {a})
    ensures a !in fed
  {
    assert a !in fed;
  }

  // ---------------------------------------------------------------- what is waiting

  /** The queue's message for messages a up to b of the plan. */
  ghost function Waiting(plan: seq<Message>, end: nat, a: nat, b: nat): Message
    requires a < |plan|
  {
    var p, q := Edge(plan, end, a), Edge(plan, end, b);
    Message(p, if q >= p then q - p else 0, plan[a].msg)
  }

  ghost predicate Queued(plan: seq<Message>, done: nat, fed: set<nat>, a: nat, b: nat) {
    && done <= a < b <= |plan|
    && (forall i :: a < i < b ==> plan[i].msg == [])
    && forall i :: a <= i < b ==> i in fed
  }

  ghost predicate Covered(done: nat, spans: map<nat, nat>, i: nat) {
    i < done || exists a :: a in spans && a <= i < spans[a]
  }

  /** What has been fed is dealt with, or in exactly one message of the queue: spans[a] is
      the end of the message that begins with message a of the plan. */
  ghost predicate Track(plan: seq<Message>, done: nat, spans: map<nat, nat>, fed: set<nat>) {
    && done <= |plan|
    && (forall a :: a in spans ==> Queued(plan, done, fed, a, spans[a]))
    && (forall a, c :: a in spans && c in spans && a < c ==> spans[a] <= c)
    && (forall i :: i in fed ==> i < |plan| && Covered(done, spans, i))
    && forall i :: 0 <= i < done ==> i in fed
  }

  ghost function Queue(plan: seq<Message>, end: nat, spans: map<nat, nat>): set<Message>
    requires forall a :: a in spans ==> a < |plan|
  {
    set a | a in spans :: Waiting(plan, end, a, spans[a])
  }

  lemma {:induction false} IntervalInside(a: nat, b: nat, n: nat)
    requires b <= n
    ensures forall i :: i in Interval(a, b) ==> i < n
  {
  }

  /** A new message lies beyond those dealt with and apart from those in the queue. */
  lemma {:induction false} Apart(plan: seq<Message>, done: nat, spans: map<nat, nat>, fed: set<nat>, a: nat, b: nat)
    requires Track(plan, done, spans, fed) && a < b
    requires forall i :: a <= i < b ==> i !in fed
    ensures a >= done && a !in spans
    ensures forall c :: c in spans ==> (a < c ==> b <= c) && (c < a ==> spans[c] <= a)
  {
    assert a !in fed;
    forall c | c in spans
      ensures c != a && (a < c ==> b <= c) && (c < a ==> spans[c] <= a)
    {
      assert Queued(plan, done, fed, c, spans[c]);
      assert c in fed;
    }
  }

  lemma {:induction false} CoveredMore(done: nat, spans: map<nat, nat>, a: nat, b: nat, i: nat)
    requires a !in spans
    ensures Covered(done, spans, i) || a <= i < b ==> Covered(done, spans[a := b], i)
  {
    var more := spans[a := b];
    if a <= i < b { assert a in more; }
    if c :| c in spans && c <= i < spans[c] { assert c in more && more[c] == spans[c]; }
  }

  lemma {:induction false} QueueMore(plan: seq<Message>, end: nat, spans: map<nat, nat>, a: nat, b: nat)
    requires a < |plan| && a !in spans && forall c :: c in spans ==> c < |plan|
    ensures Queue(plan, end, spans[a := b]) == Queue(plan, end, spans) + {Waiting(plan, end, a, b)}
  {
    var more := spans[a := b];
    forall c | c in spans
      ensures Waiting(plan, end, c, spans[c]) in Queue(plan, end, more)
    {
      assert c in more && more[c] == spans[c];
    }
    assert a in more;
  }

  lemma {:induction false} TrackPush(plan: seq<Message>, end: nat, done: nat, spans: map<nat, nat>, fed: set<nat>,
                                     a: nat, b: nat)
    requires Track(plan, done, spans, fed) && a != done && a < b <= |plan|
    requires forall i :: a < i < b ==> plan[i].msg == []
    requires forall i :: a <= i < b ==> i !in fed
    ensures a > done && a !in spans
    ensures Track(plan, done, spans[a := b], fed + Interval(a, b))
    ensures Queue(plan, end, spans[a := b]) == Queue(plan, end, spans) + {Waiting(plan, end, a, b)}
  {
    hide Covered, Waiting, Queue;
    var more, all := spans[a := b], fed + Interval(a, b);
    Apart(plan, done, spans, fed, a, b);
    forall c | c in spans ensures Queued(plan, done, all, c, spans[c]) { assert Queued(plan, done, fed, c, spans[c]); }
    QueueMore(plan, end, spans, a, b);
    forall i | i in all ensures i < |plan| && Covered(done, more, i) { CoveredMore(done, spans, a, b, i); }
  }

  lemma {:induction false} QueueEmpty(plan: seq<Message>, end: nat, spans: map<nat, nat>)
    requires forall c :: c in spans ==> c < |plan|
    ensures Queue(plan, end, spans) == {} <==> spans == map[]
  {
    if a :| a in spans { assert Waiting(plan, end, a, spans[a]) in Queue(plan, end, spans); }
  }

  lemma {:induction false} TrackNext(plan: seq<Message>, done: nat, spans: map<nat, nat>, fed: set<nat>, b: nat)
    requires Track(plan, done, spans, fed) && done < b <= |plan|
    requires forall i :: done <= i < b ==> i !in fed
    ensures Track(plan, b, spans, fed + Interval(done, b))
  {
    var all := fed + Interval(done, b);
    forall c | c in spans ensures Queued(plan, b, all, c, spans[c]) {
      assert Queued(plan, done, fed, c, spans[c]);
      assert c in fed;
    }
    forall i | i in all ensures i < |plan| && Covered(b, spans, i) {
      if i in fed { assert Covered(done, spans, i); }
    }
    forall i | 0 <= i < b ensures i in all { assert i < done ==> i in fed; }
  }

  lemma {:induction false} TrackPop(plan: seq<Message>, lo: nat, end: nat, done: nat, spans: map<nat, nat>,
                                    fed: set<nat>)
    requires Tiling(plan, lo, end) && Track(plan, done, spans, fed) && done in spans
    ensures Track(plan, spans[done], spans - {done}, fed)
    ensures Queue(plan, end, spans - {done}) == Queue(plan, end, spans) - {Waiting(plan, end, done, spans[done])}
  {
    var b, fewer := spans[done], spans - {done};
    assert Queued(plan, done, fed, done, b);
    forall c | c in fewer
      ensures fewer[c] == spans[c] && Queued(plan, b, fed, c, fewer[c])
      ensures Waiting(plan, end, c, fewer[c]) != Waiting(plan, end, done, b)
    {
      assert Queued(plan, done, fed, c, spans[c]);
      EdgesDiffer(plan, lo, end, c, done);
    }
    forall i | i in fed ensures i < |plan| && Covered(b, fewer, i) {
      assert Covered(done, spans, i);
      if b <= i {
        var c :| c in spans && c <= i < spans[c];
        assert c in fewer;
      }
    }
    forall i | 0 <= i < b ensures i in fed { assert done <= i < b || i < done; }
  }

  /** The first message in the queue is next exactly if the plan's next message is queued. */
  lemma {:induction false} TopIsNext(plan: seq<Message>, lo: nat, end: nat, done: nat, spans: map<nat, nat>,
                                     fed: set<nat>, m: Message)
    requires Tiling(plan, lo, end) && Track(plan, done, spans, fed) && m in Queue(plan, end, spans)
    requires forall x :: x in Queue(plan, end, spans) ==> m.start <= x.start
    ensures m.start == Edge(plan, end, done) <==> done in spans
    ensures done in spans ==> m == Waiting(plan, end, done, spans[done])
  {
    var a :| a in spans && m == Waiting(plan, end, a, spans[a]);
    assert Queued(plan, done, fed, a, spans[a]);
    EdgesDiffer(plan, lo, end, a, done);
    if done in spans { assert Waiting(plan, end, done, spans[done]) in Queue(plan, end, spans); }
  }

  lemma {:induction false} WaitingMerges(plan: seq<Message>, lo: nat, end: nat, done: nat, fed: set<nat>, a: nat,
                                         b: nat)
    
    requires Tiling(plan, lo, end) && Queued(plan, done, fed, a, b)
    ensures Merges(plan, end, a, b, Waiting(plan, end, a, b))
  {
    EdgesDiffer(plan, lo, end, a, b);
  }

  lemma {:induction false} First(s: set<Message>) returns (m: Message)
    requires s != {}
    ensures m in s && forall x :: x in s ==> m.start <= x.start
  {
    m :| m in s;
    if s != {m} {
      assert s - {m} != {} by { assert exists x :: x in s && x != m; }
      var r := First(s - {m});
      if r.start < m.start { m := r; }
    }
  }

  // ---------------------------------------------------------------- the serializer

  class Serializer {
    const onlyCount: bool
    const limit: nat
    ghost const plan: seq<Message>
    ghost const end: nat

    var nextSeq: nat
    var pending: set<Message>
    var limitLeft: int
    var output: seq<seq<byte>>
    var exited: bool
    /** The count printed on leaving, if that is all that is wanted. */
    var countPrinted: Option<nat>

    ghost var done: nat
    ghost var spans: map<nat, nat>
    ghost var fed: set<nat>

    /** Messages of the plan before done are dealt with; those fed since are in the queue. */
    ghost predicate Tracked()
      reads this`done, this`spans, this`fed, this`pending
    {
      Track(plan, done, spans, fed) && pending == Queue(plan, end, spans)
    }

    /** The first done messages have been printed. */
    ghost predicate Printed()
      reads this`done, this`nextSeq, this`limitLeft, this`output
    {
      && done <= |plan| && nextSeq == Edge(plan, end, done)
      && output == Texts(plan[..done])
      && limitLeft == limit - |output| && limitLeft > 0
    }

    ghost predicate Cut()
      reads this`output
    {
      |Texts(plan)| >= limit && output == Texts(plan)[..limit]
    }

    ghost predicate Counted()
      reads this`fed, this`limitLeft, this`exited, this`output, this`pending, this`countPrinted
    {
      && output == [] && pending == {} && countPrinted == (if exited then Some(limit) else None)
      && (forall i :: i in fed ==> i < |plan|)
      && if exited then limitLeft == 0 && |Telling(plan)| >= limit
         else limitLeft == limit - |Telling(plan) * fed| && limitLeft > 0
    }

    ghost predicate Valid()
      reads this
    {
      && Tiling(plan, 0, end) && limit >= 1
      && (!onlyCount ==> countPrinted == None)
      && if onlyCount then Counted()
         else if exited then Cut()
         else Tracked() && Printed() && done !in spans
    }

    constructor (onlyCount: bool, limit: nat, ghost plan: seq<Message>, ghost end: nat)
      requires Tiling(plan, 0, end) && limit >= 1
      ensures Valid() && fed == {} && !exited
      ensures this.plan == plan && this.end == end && this.onlyCount == onlyCount && this.limit == limit
    {
      this.onlyCount, this.limit, this.plan, this.end := onlyCount, limit, plan, end;
      nextSeq, pending, limitLeft, output, exited, countPrinted := 0, {}, limit, [], false, None;
      done, spans, fed := 0, map[], {};
      new;
      assert Telling(plan) * {} == {};
    }

    /** apply_limit; leaving the program is the flag exited. */
    method ApplyLimit()
      modifies this`limitLeft, this`exited, this`countPrinted
      ensures limitLeft == old(limitLeft) - 1 && (exited <==> old(exited) || limitLeft <= 0)
      ensures countPrinted == if limitLeft <= 0 && onlyCount then Some(limit) else old(countPrinted)
    {
      limitLeft := limitLeft - 1;
      if limitLeft > 0 {
        return;
      }
      if onlyCount {
        countPrinted := Some(limit);
      }
      exited := true;
    }

    /** Prints the message that begins at the next number and moves past it. */
    method Emit(skip: nat, msg: seq<byte>, ghost b: nat)
      requires Tiling(plan, 0, end) && Printed() && !exited && !onlyCount
      requires Merges(plan, end, done, b, Message(nextSeq, skip, msg))
      modifies this`nextSeq, this`limitLeft, this`output, this`exited, this`countPrinted, this`done
      ensures exited ==> Cut()
      ensures !exited ==> Printed() && done == b
      ensures countPrinted == old(countPrinted)
    {
      hide Texts, Tiling;
      MergedTexts(plan, done, b);
      TextsPrefix(plan, b);
      if msg != [] {
        output := output + [msg];
        ApplyLimit();
        if exited {
          return;
        }
      }
      nextSeq := nextSeq + skip;
      done := b;
    }

    /** Nothing is printed if only the number of matches is wanted. */
    method Count(skip: nat, msg: seq<byte>, ghost a: nat, ghost b: nat)
      requires onlyCount && Counted() && !exited && Merges(plan, end, a, b, Message(Edge(plan, end, a), skip, msg))
      requires forall i :: a <= i < b ==> i !in fed
      modifies this`limitLeft, this`exited, this`countPrinted, this`fed
      ensures Counted() && fed == old(fed) + Interval(a, b)
    {
      hide Telling, Texts, Edge, Interval;
      ghost var told, more := Telling(plan) * fed, Interval(a, b);
      TellingMore(plan, fed, a, b);
      assert forall i :: i in more ==> i < |plan| by { IntervalInside(a, b, |plan|); }
      if msg != [] {
        assert Telling(plan) * (fed + more) == told + {a} && |told + {a}| == |told| + 1;
        SubsetSize(told + {a}, Telling(plan));
        ApplyLimit();
      }
      fed := fed + more;
    }

    /** Takes a message, in any order; prints it and what was waiting for it when its turn
        has come. a and b are the messages of the plan it stands for. */
    method Print(start: nat, skip: nat, msg: seq<byte>, ghost a: nat, ghost b: nat)
      requires Valid() && !exited && Merges(plan, end, a, b, Message(start, skip, msg))
      requires forall i :: a <= i < b ==> i !in fed
      modifies this
      ensures Valid() && fed == old(fed) + Interval(a, b)
    {
      hide Tiling, Track, Cut, Texts, Queue, Telling;
      if onlyCount {
        Count(skip, msg, a, b);
        return;
      }
      EdgesDiffer(plan, 0, end, a, done);
      if nextSeq != start {
        TrackPush(plan, end, done, spans, fed, a, b);
        pending := pending + {Message(start, skip, msg)};
        spans := spans[a := b];
        fed := fed + Interval(a, b);
        return;
      }
      TrackNext(plan, done, spans, fed, b);
      Emit(skip, msg, b);
      fed := fed + Interval(a, b);
      if exited {
        return;
      }
      Drain();
    }

    /** Deals with the delayed messages whose turn has come. */
    method Drain()
      requires !onlyCount && countPrinted == None && !exited && limit >= 1 && Tiling(plan, 0, end) && Tracked()
      requires Printed()
      modifies this`nextSeq, this`pending, this`limitLeft, this`output, this`exited, this`countPrinted, this`done,
               this`spans
      ensures Valid()
    {
      hide Tiling, Track, Cut, Texts, Queue, Merges;
      while pending != {}
        invariant !exited && Tracked() && Printed() && countPrinted == None
        decreases |pending|
      {
        ghost var first := First(pending);
        var top :| top in pending && forall x :: x in pending ==> top.start <= x.start;
        TopIsNext(plan, 0, end, done, spans, fed, top);
        if top.start != nextSeq {
          return;
        }
        ghost var b := spans[done];
        TrackPop(plan, 0, end, done, spans, fed);
        IsQueued(done);
        WaitingMerges(plan, 0, end, done, fed, done, b);
        ghost var was := done;
        Emit(top.skip, top.msg, b);
        if exited {
          return;
        }
        pending := pending - {top};
        spans := spans - {was};
      }
      SpansInside();
      QueueEmpty(plan, end, spans);
    }

    lemma {:induction false} IsQueued(a: nat)
      requires Track(plan, done, spans, fed) && a in spans
      ensures Queued(plan, done, fed, a, spans[a])
    {
    }

    lemma {:induction false} SpansInside()
      requires Track(plan, done, spans, fed)
      ensures forall c :: c in spans ==> c < |plan|
    {
      assert forall a :: a in spans ==> Queued(plan, done, fed, a, spans[a]);
    }

    lemma {:induction false} NextCovered()
      requires Track(plan, done, spans, fed)
      ensures Covered(done, spans, done) ==> done in spans
    {
      if a :| a in spans && a <= done < spans[a] { assert Queued(plan, done, fed, a, spans[a]); }
    }

    /** Once the whole plan has been fed, its texts have been printed in order, up to the
        limit, and nothing is left waiting; or as many as that have been counted. */
    lemma {:induction false} Finished()
      requires Valid() && forall i :: 0 <= i < |plan| ==> i in fed
      ensures !onlyCount && |Texts(plan)| < limit ==> !exited && output == Texts(plan) && pending == {}
      ensures !onlyCount && |Texts(plan)| >= limit ==> exited && output == Texts(plan)[..limit]
      ensures onlyCount ==>
        (exited <==> |Texts(plan)| >= limit) && limit - limitLeft == if exited then limit else |Texts(plan)|
    {
      hide Tiling, Texts;
      TellingCount(plan);
      if onlyCount {
        assert Telling(plan) * fed == Telling(plan);
      } else if !exited {
        assert Covered(done, spans, done) ==> done in spans by { NextCovered(); }
        assert done == |plan|;
        assert spans == map[] by {
          assert forall a :: a in spans ==> Queued(plan, done, fed, a, spans[a]);
        }
        assert plan[..done] == plan;
      }
    }
  }

  // ---------------------------------------------------------------- worker threads

  /** The messages of the plan that a result of a worker stands for, by their numbers. */
  type Span = (nat, nat)

  /** The results of a worker, oldest first; spans[i] says what results[i] stands for. */
  ghost predicate Results(plan: seq<Message>, end: nat, results: seq<Message>, spans: seq<Span>) {
    |results| == |spans| && forall i :: 0 <= i < |results| ==> Merges(plan, end, spans[i].0, spans[i].1, results[i])
  }

  ghost function Held(spans: seq<Span>): set<nat>
  {
    if spans == [] then {} else Held(spans[..|spans| - 1]) + Interval(spans[|spans| - 1].0, spans[|spans| - 1].1)
  }

  ghost predicate Ordered(spans: seq<Span>) {
    forall i :: 0 <= i < |spans| ==> spans[i].0 < spans[i].1
  }

  /** No two results stand for the same message. */
  ghost predicate Disjoint(spans: seq<Span>)
  {
    spans == [] ||
      var n := |spans| - 1;
      Disjoint(spans[..n]) && Held(spans[..n]) !! Interval(spans[n].0, spans[n].1)
  }

  /** WorkerThreadReceiver::print: an empty text right after the last result only makes that
      one longer. */
  method Receive(results: seq<Message>, plan: seq<Message>, ghost end: nat, i: nat, ghost spans: seq<Span>)
    returns (next: seq<Message>, ghost after: seq<Span>)
    requires Tiling(plan, 0, end) && i < |plan|
    requires Results(plan, end, results, spans) && Ordered(spans) && Disjoint(spans) && i !in Held(spans)
    ensures Results(plan, end, next, after) && Ordered(after) && Disjoint(after)
    ensures Held(after) == Held(spans) + {i}
    ensures Texts(next) == Texts(results + [plan[i]])
  {
    hide Tiling, Disjoint, Held;
    var m := plan[i];
    var n := |results| - 1;
    assert (results + [m])[..|results|] == results;
    if m.msg == [] && results != [] && results[n].start + results[n].skip == m.start {
      next := results[n := results[n].(skip := results[n].skip + m.skip)];
      EdgesDiffer(plan, 0, end, spans[n].1, i);
      Longer(spans, n, i);
      assert next[..n] == results[..n];
      after := spans[n := (spans[n].0, i + 1)];
      NextEdge(plan, 0, end, i);
    } else {
      next := results + [m];
      after := spans + [(i, i + 1)];
      NextEdge(plan, 0, end, i);
      OneMore(spans, i);
    }
  }

  lemma {:induction false} NextEdge(plan: seq<Message>, lo: nat, end: nat, i: nat)
    requires Tiling(plan, lo, end) && i < |plan|
    ensures Edge(plan, end, i + 1) == plan[i].start + plan[i].skip
  {
  }

  lemma {:induction false} HeldLast(spans: seq<Span>)
    requires Disjoint(spans) && spans != []
    ensures var n := |spans| - 1;
      && Disjoint(spans[..n]) && Held(spans[..n]) !! Interval(spans[n].0, spans[n].1)
      && Held(spans) == Held(spans[..n]) + Interval(spans[n].0, spans[n].1)
  {
  }

  lemma {:induction false} HeldAppend(spans: seq<Span>, s: Span)
    requires Disjoint(spans) && Held(spans) !! Interval(s.0, s.1)
    ensures Disjoint(spans + [s]) && Held(spans + [s]) == Held(spans) + Interval(s.0, s.1)
  {
    hide Interval;
    assert (spans + [s])[..|spans|] == spans;
  }

  lemma {:induction false} OneMore(spans: seq<Span>, i: nat)
    requires Disjoint(spans) && i !in Held(spans)
    ensures Disjoint(spans + [(i, i + 1)]) && Held(spans + [(i, i + 1)]) == Held(spans) + {i}
  {
    hide Held, Disjoint;
    assert Interval(i, i + 1) == {i};
    HeldAppend(spans, (i, i + 1));
  }

  lemma {:induction false} Longer(spans: seq<Span>, n: nat, i: nat)
    requires spans != [] && n == |spans| - 1 && Ordered(spans) && Disjoint(spans) && spans[n].1 == i
    requires i !in Held(spans)
    ensures Ordered(spans[n := (spans[n].0, i + 1)]) && Disjoint(spans[n := (spans[n].0, i + 1)])
    ensures Held(spans[n := (spans[n].0, i + 1)]) == Held(spans) + {i}
  {
    hide Held, Disjoint, Interval;
    HeldLast(spans);
    var a, init := spans[n].0, spans[..n];
    var held, last := Held(init), Interval(a, i);
    assert Interval(a, i + 1) == last + {i};
    assert held !! last + {i};
    HeldAppend(init, (a, i + 1));
    assert held + (last + {i}) == held + last + {i};
    assert spans[n := (a, i + 1)] == init + [(a, i + 1)];
  }

  lemma {:induction false} HeldNext(spans: seq<Span>, i: nat)
    requires Disjoint(spans) && i < |spans|
    ensures Held(spans[..i + 1]) == Held(spans[..i]) + Interval(spans[i].0, spans[i].1)
    ensures Held(spans[..i]) !! Interval(spans[i].0, spans[i].1)
    ensures Held(spans[..i + 1]) <= Held(spans)
  {
    hide Interval, Held, Disjoint;
    var n := |spans| - 1;
    HeldLast(spans);
    if i == n {
      assert spans[..i + 1] == spans;
    } else {
      HeldNext(spans[..n], i);
      assert spans[..n][..i] == spans[..i];
      assert spans[..n][..i + 1] == spans[..i + 1];
    }
  }

  lemma {:induction false} NoneHeld()
    ensures Held([]) == {}
  {
  }

  /** deliver_results: hands all results of a worker over to the serializer. */
  method Deliver(serializer: Serializer, results: seq<Message>, ghost spans: seq<Span>)
    requires serializer.Valid() && !serializer.exited && Results(serializer.plan, serializer.end, results, spans)
    requires Ordered(spans) && Disjoint(spans) && Held(spans) !! serializer.fed
    modifies serializer
    ensures serializer.Valid()
    ensures !serializer.exited ==> serializer.fed == old(serializer.fed) + Held(spans)
  {
    hide Disjoint, Held, Serializer.Valid, Merges;
    NoneHeld();
    assert spans[..0] == [];
    for i := 0 to |results|
      invariant serializer.Valid() && !serializer.exited
      invariant serializer.fed == old(serializer.fed) + Held(spans[..i])
    {
      HeldNext(spans, i);
      assert forall k :: k in Interval(spans[i].0, spans[i].1) ==> k in Held(spans);
      var r := results[i];
      serializer.Print(r.start, r.skip, r.msg, spans[i].0, spans[i].1);
      if serializer.exited {
        return;
      }
    }
    assert spans[..|spans|] == spans;
  }

  /** What one worker holds. */
  ghost predicate Worker(plan: seq<Message>, end: nat, results: seq<Message>, spans: seq<Span>) {
    Results(plan, end, results, spans) && Ordered(spans) && Disjoint(spans)
  }

  lemma {:induction false} IdleWorker(plan: seq<Message>, end: nat)
    ensures Worker(plan, end, [], []) && Held([]) == {}
  {
  }

  ghost function HeldBy(spans: seq<seq<Span>>): seq<set<nat>> {
    seq(|spans|, w requires 0 <= w < |spans| => Held(spans[w]))
  }

  /** Every message of the plan is still to come, with one worker, or with the serializer. */
  ghost predicate Shared(n: nat, held: seq<set<nat>>, todo: set<nat>, fed: set<nat>) {
    && todo !! fed
    && (forall w :: 0 <= w < |held| ==> held[w] !! fed && held[w] !! todo)
    && (forall v, w :: 0 <= v < w < |held| ==> held[v] !! held[w])
    && (forall i :: i in todo ==> i < n)
    && forall i :: 0 <= i < n ==> i in todo || i in fed || HeldBySome(held, i)
  }

  /** At first all messages are to come. */
  lemma {:induction false} IdleWorkers(spans: seq<seq<Span>>, n: nat)
    requires forall w :: 0 <= w < |spans| ==> spans[w] == []
    ensures Shared(n, HeldBy(spans), Interval(0, n), {})
  {
    assert forall w :: 0 <= w < |spans| ==> Held(spans[w]) == {};
  }

  ghost predicate HeldBySome(held: seq<set<nat>>, i: nat) {
    exists w :: 0 <= w < |held| && i in held[w]
  }

  lemma {:induction false} HandedOver(held: seq<set<nat>>, w: nat, more: set<nat>, i: nat)
    requires w < |held| && HeldBySome(held, i)
    ensures i in held[w] || HeldBySome(held[w := more], i)
  {
    var v :| 0 <= v < |held| && i in held[v];
    if v != w { assert held[w := more][v] == held[v]; }
  }

  lemma {:induction false} SharedMove(n: nat, held: seq<set<nat>>, todo: set<nat>, fed: set<nat>, w: nat, i: nat)
    requires Shared(n, held, todo, fed) && w < |held| && i in todo
    ensures Shared(n, held[w := held[w] + {i}], todo - {i}, fed)
  {
    hide HeldBySome;
    var next := held[w := held[w] + {i}];
    assert forall v :: 0 <= v < |held| && v != w ==> next[v] == held[v];
    forall k | 0 <= k < n ensures k in todo - {i} || k in fed || HeldBySome(next, k) {
      if HeldBySome(held, k) { HandedOver(held, w, held[w] + {i}, k); }
      if k in next[w] { HasOne(next, w, k); }
    }
  }

  lemma {:induction false} HasOne(held: seq<set<nat>>, w: nat, i: nat)
    requires w < |held| && i in held[w]
    ensures HeldBySome(held, i)
  {
  }

  lemma {:induction false} SharedFlush(n: nat, held: seq<set<nat>>, todo: set<nat>, fed: set<nat>, w: nat)
    requires Shared(n, held, todo, fed) && w < |held|
    ensures Shared(n, held[w := {}], todo, fed + held[w])
  {
    hide HeldBySome;
    var next := held[w := {}];
    assert forall v :: 0 <= v < |held| && v != w ==> next[v] == held[v];
    forall k | 0 <= k < n ensures k in todo || k in fed + held[w] || HeldBySome(next, k) {
      if HeldBySome(held, k) { HandedOver(held, w, {}, k); }
    }
  }

  /** Worker threads and the thread that collects their results. A step is one message from
      one worker, or one collection; the steps come in any order. */
  class ParallelScan {
    const serializer: Serializer
    const plan: seq<Message>
    var results: seq<seq<Message>>
    ghost var spans: seq<seq<Span>>
    ghost var todo: set<nat>

    ghost predicate Workers()
      reads this
    {
      |results| == |spans| && forall w :: 0 <= w < |results| ==> Worker(plan, serializer.end, results[w], spans[w])
    }

    ghost predicate Valid()
      reads this, serializer
    {
      && serializer.Valid() && serializer.plan == plan && Workers()
      && (!serializer.exited ==> Shared(|plan|, HeldBy(spans), todo, serializer.fed))
    }

    constructor (plan: seq<Message>, ghost end: nat, workers: nat, onlyCount: bool, limit: nat)
      requires Tiling(plan, 0, end) && limit >= 1
      ensures Valid() && fresh(serializer) && |results| == workers && this.plan == plan
      ensures todo == Interval(0, |plan|) && !serializer.exited
      ensures serializer.onlyCount == onlyCount && serializer.limit == limit
    {
      serializer := new Serializer(onlyCount, limit, plan, end);
      this.plan := plan;
      results := seq(workers, _ => []);
      spans := seq(workers, _ => []);
      todo := Interval(0, |plan|);
      new;
      IdleWorkers(spans, |plan|);
      IdleWorker(plan, end);
    }

    /** A worker comes up with message i. */
    method WorkerPrints(w: nat, i: nat)
      requires Valid() && !serializer.exited && w < |results| && i in todo
      modifies this`results, this`spans, this`todo
      ensures Valid() && |results| == old(|results|) && todo == old(todo) - {i}
    {
      hide Serializer.Valid, Tiling, Results, Ordered, Disjoint, Held, Shared;
      PlanTiles();
      SharedMove(|plan|, HeldBy(spans), todo, serializer.fed, w, i);
      var next;
      ghost var after;
      next, after := Receive(results[w], plan, serializer.end, i, spans[w]);
      results := results[w := next];
      assert HeldBy(spans[w := after]) == HeldBy(spans)[w := HeldBy(spans)[w] + {i}];
      spans := spans[w := after];
      todo := todo - {i};
    }

    lemma {:induction false} PlanTiles()
      requires Valid() && !serializer.exited
      ensures Tiling(plan, 0, serializer.end)
      ensures forall w :: 0 <= w < |spans| ==> Held(spans[w]) !! todo && Held(spans[w]) !! serializer.fed
      ensures forall i :: i in todo ==> i < |plan|
    {
      hide Tiling, Worker, Held;
      assert forall w :: 0 <= w < |spans| ==> HeldBy(spans)[w] == Held(spans[w]);
    }

    lemma {:induction false} SerializerValid()
      requires Valid()
      ensures serializer.Valid() && serializer.plan == plan
    {
      hide Serializer.Valid;
    }

    /** The results of a worker so far go to the serializer. */
    method DeliverResults(w: nat)
      requires Valid() && !serializer.exited && w < |results|
      modifies this`results, this`spans, serializer
      ensures Valid() && |results| == old(|results|) && results[w] == []
      ensures forall v :: 0 <= v < |results| && v != w ==> results[v] == old(results[v])
    {
      hide Serializer.Valid, Tiling, Results, Ordered, Disjoint, Held, Shared;
      PlanTiles();
      SharedFlush(|plan|, HeldBy(spans), todo, serializer.fed, w);
      var delivered := results[w];
      ghost var held := spans[w];
      IdleWorker(plan, serializer.end);
      results := results[w := []];
      assert HeldBy(spans[w := []]) == HeldBy(spans)[w := {}];
      spans := spans[w := []];
      Deliver(serializer, delivered, held);
    }

    /** All is collected. */
    lemma {:induction false} AllFed()
      requires Valid() && !serializer.exited && todo == {} && forall w :: 0 <= w < |results| ==> results[w] == []
      ensures forall i :: 0 <= i < |plan| ==> i in serializer.fed
    {
      hide Serializer.Valid, Tiling;
      forall w | 0 <= w < |spans| ensures HeldBy(spans)[w] == {} {
        assert Worker(plan, serializer.end, results[w], spans[w]);
        assert spans[w] == [];
        NoneHeld();
      }
    }
  }

  /** Some workers' results are collected, any number of times. */
  method Collect(scan: ParallelScan)
    requires scan.Valid()
    modifies scan`results, scan`spans, scan.serializer
    ensures scan.Valid() && |scan.results| == old(|scan.results|)
    ensures old(scan.serializer.exited) ==> scan.serializer.exited
  {
    hide ParallelScan.Valid;
    var times: nat := *;
    while times > 0 && |scan.results| > 0 && !scan.serializer.exited
      invariant scan.Valid() && |scan.results| == old(|scan.results|)
      invariant old(scan.serializer.exited) ==> scan.serializer.exited
    {
      var w: nat := 0;
      w :| w < |scan.results|;
      scan.DeliverResults(w);
      times := times - 1;
    }
  }

  /** After the workers are done, each one's results are collected. */
  method CollectAll(scan: ParallelScan)
    requires scan.Valid()
    modifies scan`results, scan`spans, scan.serializer
    ensures scan.Valid() && (old(scan.serializer.exited) ==> scan.serializer.exited)
    ensures !scan.serializer.exited ==> forall w :: 0 <= w < |scan.results| ==> scan.results[w] == []
  {
    hide ParallelScan.Valid;
    for w := 0 to |scan.results|
      invariant scan.Valid() && |scan.results| == old(|scan.results|)
      invariant old(scan.serializer.exited) ==> scan.serializer.exited
      invariant !scan.serializer.exited ==> forall v :: 0 <= v < w ==> scan.results[v] == []
    {
      if scan.serializer.exited {
        return;
      }
      scan.DeliverResults(w);
    }
  }

  /** The first limit elements, or all of them. */
  function FirstOf<T>(s: seq<T>, limit: nat): seq<T> {
    if |s| < limit then s else s[..limit]
  }

  /** What is printed and counted for these texts. Once the limit is reached, the program has
      ended and returns no count. */
  ghost predicate Answer(texts: seq<seq<byte>>, onlyCount: bool, limit: nat, output: seq<seq<byte>>, count: nat) {
    && output == (if onlyCount then [] else FirstOf(texts, limit))
    && (onlyCount || |texts| < limit ==> count == |FirstOf(texts, limit)|)
  }

  lemma {:induction false} SerializerDone(serializer: Serializer, matched: nat)
    requires serializer.Valid()
    requires !serializer.exited ==>
      matched == |Texts(serializer.plan)| && forall i :: 0 <= i < |serializer.plan| ==> i in serializer.fed
    ensures Answer(Texts(serializer.plan), serializer.onlyCount, serializer.limit, serializer.output,
                   if serializer.countPrinted.Some? then serializer.countPrinted.value else matched)
  {
    hide Serializer.Tracked, Serializer.Printed, Texts, Tiling, Telling;
    TellingCount(serializer.plan);
    if !serializer.exited { serializer.Finished(); }
  }

  /** One more message has been made; it counts if it has a text. */
  lemma {:induction false} OneTold(plan: seq<Message>, todo: set<nat>, i: nat)
    requires i in todo && i < |plan|
    ensures |Telling(plan) * (todo - {i})| == |Telling(plan) * todo| - (if plan[i].msg == [] then 0 else 1)
  {
    var t := Telling(plan);
    if plan[i].msg == [] {
      assert t * (todo - {i}) == t * todo;
    } else {
      assert t * (todo - {i}) == t * todo - {i};
    }
  }

  lemma {:induction false} NothingToTell(plan: seq<Message>, todo: set<nat>)
    requires todo == {}
    ensures |Telling(plan) * todo| == 0
  {
    assert Telling(plan) * todo == {};
  }

  lemma {:induction false} AllToTell(plan: seq<Message>)
    ensures |Telling(plan) * Interval(0, |plan|)| == |Texts(plan)|
  {
    TellingCount(plan);
    assert Telling(plan) * Interval(0, |plan|) == Telling(plan);
  }

  /** Any number of workers, any division of the work, any interleaving: the texts of the
      plan come out in order, the first limit of them if there are more. */
  method ScanInParallel(plan: seq<Message>, ghost end: nat, workers: nat, onlyCount: bool, limit: nat)
    returns (output: seq<seq<byte>>, count: nat)
    requires Tiling(plan, 0, end) && limit >= 1 && workers > 0
    ensures Answer(Texts(plan), onlyCount, limit, output, count)
  {
    hide ParallelScan.Valid, Tiling, Texts, Telling;
    var scan := new ParallelScan(plan, end, workers, onlyCount, limit);
    var todo: set<nat> := Interval(0, |plan|);
    var matched := 0;
    AllToTell(plan);
    while todo != {} && !scan.serializer.exited
      invariant fresh(scan) && fresh(scan.serializer) && scan.Valid() && |scan.results| == workers
      invariant todo <= Interval(0, |plan|) && matched == |Texts(plan)| - |Telling(plan) * todo|
      invariant !scan.serializer.exited ==> todo == scan.todo
      decreases |todo|
    {
      var i: nat :| i in todo;
      var w: nat :| w < workers by { assert 0 < workers; }
      OneTold(plan, todo, i);
      if plan[i].msg != [] {
        matched := matched + 1;
      }
      scan.WorkerPrints(w, i);
      todo := todo - {i};
      Collect(scan);
    }
    CollectAll(scan);
    if !scan.serializer.exited {
      scan.AllFed();
      NothingToTell(plan, todo);
    }
    assert scan.serializer.Valid() && scan.serializer.plan == plan by { scan.SerializerValid(); }
    SerializerDone(scan.serializer, matched);
    output := scan.serializer.output;
    count := if scan.serializer.countPrinted.Some? then scan.serializer.countPrinted.value else matched;
  }

  lemma {:induction false} OneMerges(plan: seq<Message>, lo: nat, end: nat, i: nat)
    requires Tiling(plan, lo, end) && i < |plan|
    ensures Merges(plan, end, i, i + 1, Message(plan[i].start, plan[i].skip, plan[i].msg))
    ensures Interval(i, i + 1) == {i}
  {
  }

  /** A single message of the plan. */
  method PrintOne(serializer: Serializer, m: Message, ghost i: nat)
    requires serializer.Valid() && !serializer.exited && i < |serializer.plan| && i !in serializer.fed
    requires m == serializer.plan[i]
    modifies serializer
    ensures serializer.Valid() && serializer.fed == old(serializer.fed) + {i}
  {
    hide Serializer.Counted, Serializer.Tracked, Serializer.Printed, Tiling, Merges, Interval;
    ghost var plan := serializer.plan;
    OneMerges(plan, 0, serializer.end, i);
    serializer.Print(m.start, m.skip, m.msg, i, i + 1);
  }

  /** The other reader, scan_docids, feeds the serializer itself as reads and checks of
      access complete, in any order. */
  method PrintInAnyOrder(plan: seq<Message>, ghost end: nat, onlyCount: bool, limit: nat)
    returns (output: seq<seq<byte>>, count: nat)
    requires Tiling(plan, 0, end) && limit >= 1
    ensures Answer(Texts(plan), onlyCount, limit, output, count)
  {
    hide Serializer.Valid, Tiling, Texts, Merges, Telling;
    var serializer := new Serializer(onlyCount, limit, plan, end);
    var todo: set<nat> := Interval(0, |plan|);
    var matched := 0;
    AllToTell(plan);
    while todo != {} && !serializer.exited
      invariant fresh(serializer) && serializer.Valid()
      invariant todo <= Interval(0, |plan|) && matched == |Texts(plan)| - |Telling(plan) * todo|
      invariant !serializer.exited ==> todo !! serializer.fed && forall i :: 0 <= i < |plan| ==>
        i in todo || i in serializer.fed
      decreases |todo|
    {
      var i: nat :| i in todo;
      assert i < |plan|;
      OneTold(plan, todo, i);
      if plan[i].msg != [] {
        matched := matched + 1;
      }
      PrintOne(serializer, plan[i], i);
      todo := todo - {i};
    }
    if !serializer.exited { NothingToTell(plan, todo); }
    SerializerDone(serializer, matched);
    output := serializer.output;
    count := if serializer.countPrinted.Some? then serializer.countPrinted.value else matched;
  }
}
