/** Trigram groups for case-insensitive needles: all spellings at once, breadth first. */
module IgnoreCase {
  import opened Bits
  import opened Orders
  import opened TrigramIndex
  import opened ParseTrigrams

  /** The spellings of each code point. */
  type Alternatives = seq<seq<seq<byte>>>

  datatype TrigramState = TrigramState(buffered: seq<byte>, next: nat)

  ghost predicate Spellable(alts: Alternatives) {
    forall k :: 0 <= k < |alts| ==> alts[k] != [] && forall i :: 0 <= i < |alts[k]| ==> alts[k][i] != []
  }

  // ---------------------------------------------------------------- the order of states

  predicate StateLess(a: TrigramState, b: TrigramState) {
    if a.next != b.next then a.next < b.next else ListLess(a.buffered, b.buffered)
  }

  lemma {:induction false} StateOrder()
    ensures StrictTotal(StateLess)
  {
    hide ListLess;
    forall x: TrigramState, y: TrigramState
      ensures !(StateLess(x, y) && StateLess(y, x)) && (x == y || StateLess(x, y) || StateLess(y, x))
    {
      ListLessTotal(x.buffered, y.buffered);
    }
    forall x: TrigramState, y: TrigramState, z: TrigramState | StateLess(x, y) && StateLess(y, z)
      ensures StateLess(x, z)
    {
      if x.next == y.next == z.next { ListLessTransitive(x.buffered, y.buffered, z.buffered); }
    }
  }

  // ---------------------------------------------------------------- spellings

  /** w is made of one spelling of each code point from k on. */
  ghost predicate Spells(alts: Alternatives, k: nat, w: seq<byte>)
    requires k <= |alts|
    decreases |alts| - k
  {
    if k == |alts| then w == []
    else exists i :: 0 <= i < |alts[k]| && alts[k][i] <= w && Spells(alts, k + 1, w[|alts[k][i]|..])
  }

  ghost predicate InRange(s: TrigramState, alts: Alternatives) {
    s.next <= |alts|
  }

  /** v is what the state has buffered and then some spelling of the rest. */
  ghost predicate Fits(s: TrigramState, alts: Alternatives, v: seq<byte>) {
    InRange(s, alts) && s.buffered <= v && Spells(alts, s.next, v[|s.buffered|..])
  }

  ghost predicate SomeFits(states: seq<TrigramState>, alts: Alternatives, v: seq<byte>) {
    exists i :: 0 <= i < |states| && Fits(states[i], alts, v)
  }

  /** What is left after the first element. */
  function Onward(v: seq<byte>): seq<byte> {
    if v == [] then [] else v[ReadUnigram(v, 0).1..]
  }

  function After(w: seq<byte>, r: nat): seq<byte> {
    if r == 0 then w else Onward(After(w, r - 1))
  }

  /** Some spelling has v left after r elements. */
  ghost predicate Left(alts: Alternatives, r: nat, v: seq<byte>) {
    exists w :: Spells(alts, 0, w) && After(w, r) == v
  }

  /** The states stand for exactly what the spellings can have left after r elements. */
  ghost predicate Exact(states: seq<TrigramState>, alts: Alternatives, r: nat) {
    forall v :: Left(alts, r, v) <==> SomeFits(states, alts, v)
  }

  // ---------------------------------------------------------------- what the groups are

  /** Some spelling reads as t after r elements. */
  ghost predicate TrigramAt(alts: Alternatives, r: nat, t: nat) {
    exists v :: Left(alts, r, v) && ReadTrigram(v, 0) == t
  }

  ghost predicate RunsOut(alts: Alternatives, r: nat) {
    TrigramAt(alts, r, PREMATURE_END)
  }

  ghost predicate IsGroup(group: seq<nat>, alts: Alternatives, r: nat) {
    Sorted(group, NatLess) && forall t :: t in group <==> TrigramAt(alts, r, t)
  }

  /** One group for each of the first positions at which no spelling has a wildcard. */
  ghost predicate AreGroups(groups: seq<seq<nat>>, alts: Alternatives, rounds: nat) {
    if rounds == 0 then groups == []
    else if TrigramAt(alts, rounds - 1, WILDCARD) then AreGroups(groups, alts, rounds - 1)
    else
      && groups != [] && IsGroup(groups[|groups| - 1], alts, rounds - 1)
      && AreGroups(groups[..|groups| - 1], alts, rounds - 1)
  }

  /** Every spelling contains one of the trigrams. */
  ghost predicate Needed(alts: Alternatives, group: seq<nat>) {
    forall w :: Spells(alts, 0, w) ==> exists t :: t in group && t in TokenTrigrams(Tokenize(w))
  }

  // ---------------------------------------------------------------- reading ahead is safe

  lemma {:induction false} FindCloseStable(s: seq<byte>, v: seq<byte>, k: nat)
    requires s <= v && k <= |s| && FindClose(s, k) < |s|
    ensures FindClose(v, k) == FindClose(s, k)
    decreases |s| - k
  {
    if s[k] != CLOSE { FindCloseStable(s, v, k + 1); }
  }

  /** What has been read in full does not change when more follows. */
  lemma {:induction false} UnigramStable(s: seq<byte>, v: seq<byte>, k: nat)
    requires s <= v && ReadUnigram(s, k).0 != PREMATURE_END
    ensures ReadUnigram(v, k) == ReadUnigram(s, k)
  {
    if k < |s| && s[k] == OPEN {
      FindCloseStable(s, v, ClassBody(s, k));
      assert ClassBody(s, k) < |s|;
    }
  }

  lemma {:induction false} TrigramStable(s: seq<byte>, v: seq<byte>)
    requires s <= v && ReadTrigram(s, 0) != PREMATURE_END
    ensures ReadTrigram(v, 0) == ReadTrigram(s, 0)
    ensures ReadUnigram(v, 0) == ReadUnigram(s, 0) && 1 <= ReadUnigram(s, 0).1 <= |s|
  {
    hide ReadUnigram, Trigram;
    assert ReadUnigram(s, 0).0 != PREMATURE_END;
    UnigramStable(s, v, 0);
    ReadSome(s);
    var (u1, n1) := ReadUnigram(s, 0);
    if u1 < 0x100 {
      assert ReadUnigram(s, n1).0 != PREMATURE_END;
      UnigramStable(s, v, n1);
      var (u2, n2) := ReadUnigram(s, n1);
      if u2 < 0x100 {
        UnigramStable(s, v, n1 + n2);
      }
    }
  }

  lemma {:induction false} ReadSome(s: seq<byte>)
    requires ReadUnigram(s, 0).0 != PREMATURE_END
    ensures 1 <= ReadUnigram(s, 0).1 <= |s|
  {
  }

  /** The trigrams of what is left are among those of the whole. */
  lemma {:induction false} LaterTrigrams(w: seq<byte>, r: nat)
    ensures TokenTrigrams(Tokenize(w)) == TrigramsBefore(w, r) + TokenTrigrams(Tokenize(After(w, r)))
  {
    hide ReadUnigram, ReadTrigram, Tokenize, TokenTrigrams, Front;
    if r > 0 {
      var v := After(w, r - 1);
      LaterTrigrams(w, r - 1);
      if v != [] { ListStep(v); } else { NothingFrom(v); }
    }
  }

  /** The trigrams that start within the first r elements. */
  ghost function TrigramsBefore(w: seq<byte>, r: nat): seq<nat> {
    if r == 0 then [] else TrigramsBefore(w, r - 1) + Front(Tokenize(After(w, r - 1)))
  }

  lemma {:induction false} NothingFrom(v: seq<byte>)
    requires v == []
    ensures Front(Tokenize(v)) == [] && TokenTrigrams(Tokenize(v)) == [] && Onward(v) == []
  {
  }

  /** Where no trigram can be read for want of elements, none is to come. */
  lemma {:induction false} NoneToCome(v: seq<byte>)
    requires ReadTrigram(v, 0) == PREMATURE_END
    ensures TokenTrigrams(Tokenize(v)) == []
  {
    hide ReadUnigram, Tokenize, TokenTrigrams;
    var (u1, n1) := ReadUnigram(v, 0);
    TokenizeStep(v);
    if u1 == PREMATURE_END {
      FewTokens(Tokenize(v));
    } else {
      var a := v[n1..];
      var (u2, n2) := ReadUnigram(a, 0);
      ReadShift(v, n1, 0);
      TokenizeStep(a);
      if u2 == PREMATURE_END {
        FewTokens(Tokenize(v));
      } else {
        ReadShift(v, n1, n2);
        ReadShift(a, n2, 0);
        TokenizeStep(a[n2..]);
        assert Tokenize(v)[2..] == Tokenize(a)[1..];
        FewTokens(Tokenize(v));
      }
    }
  }

  /** Two tokens and perhaps a broken end. */
  lemma {:induction false} FewTokens(tokens: seq<Token>)
    requires |tokens| > 0 ==> |tokens| <= 3 && (|tokens| == 3 ==> tokens[2] == Broken)
    ensures TokenTrigrams(tokens) == []
  {
    if tokens != [] {
      FewTokens(tokens[1..]);
    }
  }

  /** A trigram read after some elements is one of the whole spelling. */
  lemma {:induction false} TrigramAfter(w: seq<byte>, r: nat)
    requires ReadTrigram(After(w, r), 0) < 0x100_0000
    ensures ReadTrigram(After(w, r), 0) in TokenTrigrams(Tokenize(w))
  {
    hide ReadUnigram, ReadTrigram, Tokenize, TokenTrigrams, Front;
    var v := After(w, r);
    LaterTrigrams(w, r);
    TrigramIsFront(v);
    assert v != [] by { NothingToRead(v); }
    ListStep(v);
    assert Front(Tokenize(v))[0] == ReadTrigram(v, 0);
  }

  lemma {:induction false} NothingToRead(v: seq<byte>)
    ensures v == [] ==> ReadTrigram(v, 0) == PREMATURE_END
  {
  }

  // ---------------------------------------------------------------- extending

  predicate Short(s: TrigramState) {
    ReadTrigram(s.buffered, 0) == PREMATURE_END
  }

  /** A state that cannot yet form a trigram branches over the next code point. */
  function Extended(s: TrigramState, alts: Alternatives): seq<TrigramState>
    requires Short(s) ==> s.next < |alts|
  {
    if !Short(s) then [s]
    else
      var runes := alts[s.next];
      seq(|runes|, i requires 0 <= i < |runes| => TrigramState(s.buffered + runes[i], s.next + 1))
  }

  ghost predicate Extensible(states: seq<TrigramState>, alts: Alternatives) {
    forall i :: 0 <= i < |states| && Short(states[i]) ==> states[i].next < |alts|
  }

  function ExtendedAll(states: seq<TrigramState>, alts: Alternatives): seq<TrigramState>
    requires Extensible(states, alts)
  {
    if states == [] then []
    else ExtendedAll(states[..|states| - 1], alts) + Extended(states[|states| - 1], alts)
  }

  lemma {:induction false} ExtendedMember(states: seq<TrigramState>, alts: Alternatives, i: nat, k: nat)
    requires Extensible(states, alts) && i < |states| && k < |Extended(states[i], alts)|
    ensures Extended(states[i], alts)[k] in ExtendedAll(states, alts)
  {
    hide Extended;
    var n := |states| - 1;
    var e := Extended(states[i], alts)[k];
    assert ExtendedAll(states, alts) == ExtendedAll(states[..n], alts) + Extended(states[n], alts);
    if i < n {
      assert states[..n][i] == states[i];
      ExtendedMember(states[..n], alts, i, k);
    } else {
      assert e in Extended(states[n], alts);
    }
  }

  lemma {:induction false} ExtendedFrom(states: seq<TrigramState>, alts: Alternatives, s: TrigramState) returns (i: nat)
    requires Extensible(states, alts) && s in ExtendedAll(states, alts)
    ensures i < |states| && s in Extended(states[i], alts)
  {
    hide Extended;
    var n := |states| - 1;
    if s in Extended(states[n], alts) { i := n; } else { i := ExtendedFrom(states[..n], alts, s); }
  }

  lemma {:induction false} SpellsNext(alts: Alternatives, k: nat, w: seq<byte>) returns (i: nat)
    requires k < |alts| && Spells(alts, k, w)
    ensures i < |alts[k]| && alts[k][i] <= w && Spells(alts, k + 1, w[|alts[k][i]|..])
  {
    i :| 0 <= i < |alts[k]| && alts[k][i] <= w && Spells(alts, k + 1, w[|alts[k][i]|..]);
  }

  /** One of the branches still stands for v. */
  lemma {:induction false} ExtendFits(s: TrigramState, alts: Alternatives, v: seq<byte>) returns (k: nat)
    requires Fits(s, alts, v) && (Short(s) ==> s.next < |alts|)
    ensures k < |Extended(s, alts)| && Fits(Extended(s, alts)[k], alts, v)
  {
    hide ReadTrigram, Spells;
    k := 0;
    if Short(s) {
      var n := |s.buffered|;
      k := SpellsNext(alts, s.next, v[n..]);
      var rune := alts[s.next][k];
      assert v[n..][|rune|..] == v[n + |rune|..];
      assert v[n..][..|rune|] == v[n..n + |rune|];
      assert s.buffered + rune == v[..n] + v[n..n + |rune|] == v[..n + |rune|];
    }
  }

  /** What a branch stands for, the state before it stood for. */
  lemma {:induction false} BranchFits(s: TrigramState, alts: Alternatives, k: nat, v: seq<byte>)
    requires InRange(s, alts) && (Short(s) ==> s.next < |alts|)
    requires k < |Extended(s, alts)| && Fits(Extended(s, alts)[k], alts, v)
    ensures Fits(s, alts, v)
  {
    hide ReadTrigram, Spells;
    if Short(s) {
      var n := |s.buffered|;
      var rune := alts[s.next][k];
      assert v[..n] == v[..n + |rune|][..n] == s.buffered;
      assert v[n..][..|rune|] == v[..n + |rune|][n..] == rune;
      assert v[n..][|rune|..] == v[n + |rune|..];
      SpellsFrom(alts, s.next, k, v[n..]);
    }
  }

  lemma {:induction false} SpellsFrom(alts: Alternatives, k: nat, i: nat, w: seq<byte>)
    requires k < |alts| && i < |alts[k]| && alts[k][i] <= w && Spells(alts, k + 1, w[|alts[k][i]|..])
    ensures Spells(alts, k, w)
  {
  }

  /** Extending changes nothing in what the states stand for. */
  lemma {:induction false} ExtendExact(states: seq<TrigramState>, alts: Alternatives, r: nat)
    requires Extensible(states, alts) && Exact(states, alts, r) && forall i :: 0 <= i < |states| ==>
      InRange(states[i], alts)
    ensures Exact(ExtendedAll(states, alts), alts, r)
  {
    hide Left, Fits, Extended, ExtendedAll, Short;
    var next := ExtendedAll(states, alts);
    forall v ensures SomeFits(states, alts, v) <==> SomeFits(next, alts, v) {
      if SomeFits(states, alts, v) {
        var i :| 0 <= i < |states| && Fits(states[i], alts, v);
        var k := ExtendFits(states[i], alts, v);
        ExtendedMember(states, alts, i, k);
        var j :| 0 <= j < |next| && next[j] == Extended(states[i], alts)[k];
        assert Fits(next[j], alts, v);
      }
      if SomeFits(next, alts, v) {
        var j :| 0 <= j < |next| && Fits(next[j], alts, v);
        var i := ExtendedFrom(states, alts, next[j]);
        var k :| 0 <= k < |Extended(states[i], alts)| && Extended(states[i], alts)[k] == next[j];
        BranchFits(states[i], alts, k, v);
      }
    }
  }

  /** A state that can get no longer is a spelling that has run out. */
  lemma {:induction false} StuckRunsOut(states: seq<TrigramState>, alts: Alternatives, r: nat)
    requires Exact(states, alts, r) && !Extensible(states, alts) && forall i :: 0 <= i < |states| ==>
      InRange(states[i], alts)
    ensures RunsOut(alts, r)
  {
    hide Left, ReadTrigram;
    var i :| 0 <= i < |states| && Short(states[i]) && states[i].next >= |alts|;
    var v := states[i].buffered;
    assert v[|v|..] == [];
    assert Fits(states[i], alts, v);
    assert SomeFits(states, alts, v);
  }

  function MaxLength(spellings: seq<seq<byte>>): nat {
    if spellings == [] then 0
    else
      var m := MaxLength(spellings[..|spellings| - 1]);
      var n := |spellings[|spellings| - 1]|;
      if n > m then n else m
  }

  /** Length of the longest spelling from code point k on. */
  function Longest(alts: Alternatives, k: nat): nat
    requires k <= |alts|
    decreases |alts| - k
  {
    if k == |alts| then 0 else MaxLength(alts[k]) + Longest(alts, k + 1)
  }

  /** Bytes buffered and still to come, at most. */
  function Weight(s: TrigramState, alts: Alternatives): nat
    requires InRange(s, alts)
  {
    |s.buffered| + Longest(alts, s.next)
  }

  lemma {:induction false} MaxLengthIs(spellings: seq<seq<byte>>, i: nat)
    requires i < |spellings|
    ensures |spellings[i]| <= MaxLength(spellings)
  {
    if i < |spellings| - 1 { MaxLengthIs(spellings[..|spellings| - 1], i); }
  }

  /** All states are within a byte budget, and those too short within a code point budget. */
  ghost predicate Bounded(states: seq<TrigramState>, alts: Alternatives, bound: nat, left: nat) {
    && (forall i :: 0 <= i < |states| ==> InRange(states[i], alts) && Weight(states[i], alts) <= bound)
    && forall i :: 0 <= i < |states| && Short(states[i]) ==> |alts| - states[i].next <= left
  }

  lemma {:induction false} ExtendBounds(states: seq<TrigramState>, alts: Alternatives, bound: nat, left: nat)
    requires Extensible(states, alts) && Bounded(states, alts, bound, left)
    ensures Bounded(ExtendedAll(states, alts), alts, bound, if left > 0 then left - 1 else 0)
    ensures left == 0 ==> forall i :: 0 <= i < |states| ==> !Short(states[i])
  {
    hide ReadTrigram, ExtendedAll;
    var next := ExtendedAll(states, alts);
    forall j | 0 <= j < |next|
      ensures InRange(next[j], alts) && Weight(next[j], alts) <= bound
      ensures Short(next[j]) ==> |alts| - next[j].next <= if left > 0 then left - 1 else 0
    {
      var i := ExtendedFrom(states, alts, next[j]);
      var s := states[i];
      if Short(s) {
        var k :| 0 <= k < |Extended(s, alts)| && Extended(s, alts)[k] == next[j];
        MaxLengthIs(alts[s.next], k);
      }
    }
  }

  /** Each code point has one spelling only. */
  ghost predicate Lone(alts: Alternatives) {
    forall k :: 0 <= k < |alts| ==> |alts[k]| == 1
  }

  /** Then states do not branch. */
  lemma {:induction false} LoneExtend(states: seq<TrigramState>, alts: Alternatives)
    requires Lone(alts) && Extensible(states, alts)
    ensures |ExtendedAll(states, alts)| == |states|
  {
    hide ReadTrigram;
    if states != [] { LoneExtend(states[..|states| - 1], alts); }
  }

  lemma {:induction false} OnlySpelling(alts: Alternatives, k: nat, v: seq<byte>, w: seq<byte>)
    requires Lone(alts) && k <= |alts| && Spells(alts, k, v) && Spells(alts, k, w)
    ensures v == w
    decreases |alts| - k
  {
    if k < |alts| {
      var i := SpellsNext(alts, k, v);
      var j := SpellsNext(alts, k, w);
      var n := |alts[k][0]|;
      assert i == 0 && j == 0;
      OnlySpelling(alts, k + 1, v[n..], w[n..]);
      assert v == v[..n] + v[n..] && w == w[..n] + w[n..];
    }
  }

  lemma {:induction false} NoneShort(states: seq<TrigramState>, alts: Alternatives)
    requires forall i :: 0 <= i < |states| ==> !Short(states[i])
    ensures Extensible(states, alts) && ExtendedAll(states, alts) == states
  {
    hide Short;
    if states != [] {
      var n := |states| - 1;
      NoneShort(states[..n], alts);
      assert states == states[..n] + [states[n]];
    }
  }

  /** Adds a state for each spelling of the next code point. */
  method Branch(state: TrigramState, alts: Alternatives, sofar: seq<TrigramState>, again: bool)
    returns (next: seq<TrigramState>, needAnotherPass: bool)
    requires Short(state) && state.next < |alts| && alts[state.next] != []
    ensures next == sofar + Extended(state, alts) && next != [] && needAnotherPass
  {
    hide ReadTrigram;
    next, needAnotherPass := sofar, again;
    var runes := alts[state.next];
    for k := 0 to |runes|
      invariant next == sofar + Extended(state, alts)[..k]
      invariant k > 0 ==> needAnotherPass
    {
      needAnotherPass := true;
      next := next + [TrigramState(state.buffered + runes[k], state.next + 1)];
    }
    assert Extended(state, alts)[..|runes|] == Extended(state, alts);
  }

  /** One pass over the states; stuck if some state can get no longer. */
  method ExtendPass(states: seq<TrigramState>, alts: Alternatives)
    returns (stuck: bool, next: seq<TrigramState>, needAnotherPass: bool)
    requires Spellable(alts) && forall i :: 0 <= i < |states| ==> InRange(states[i], alts)
    ensures stuck <==> !Extensible(states, alts)
    ensures !stuck ==> next == ExtendedAll(states, alts) && (states != [] ==> next != [])
    ensures !stuck ==> (needAnotherPass <==> exists i :: 0 <= i < |states| && Short(states[i]))
  {
    hide ReadTrigram;
    stuck, next, needAnotherPass := false, [], false;
    for i := 0 to |states|
      invariant Extensible(states[..i], alts) && next == ExtendedAll(states[..i], alts)
      invariant i > 0 ==> next != []
      invariant needAnotherPass <==> exists j :: 0 <= j < i && Short(states[j])
    {
      var state := states[i];
      assert states[..i + 1][..i] == states[..i] && states[..i + 1][i] == state;
      if ReadTrigram(state.buffered, 0) != PREMATURE_END {
        next := next + [state];
      } else if state.next == |alts| {
        return true, next, needAnotherPass;
      } else {
        next, needAnotherPass := Branch(state, alts, next, needAnotherPass);
      }
    }
    assert states[..|states|] == states;
  }

  /** Passes until every state can form a trigram; stuck if some spelling has run out. */
  method ExtendAll(start: seq<TrigramState>, alts: Alternatives, ghost bound: nat, ghost r: nat)
    returns (stuck: bool, states: seq<TrigramState>)
    requires Spellable(alts) && start != [] && Exact(start, alts, r) && Bounded(start, alts, bound, |alts|)
    ensures stuck ==> RunsOut(alts, r)
    ensures !stuck ==> states != [] && Exact(states, alts, r) && Bounded(states, alts, bound, |alts|)
    ensures !stuck ==> forall i :: 0 <= i < |states| ==> !Short(states[i])
    ensures !stuck && Lone(alts) ==> |states| == |start|
  {
    hide Exact, ExtendedAll, Longest, Short, Spellable, RunsOut, Lone, Extensible;
    states, stuck := start, false;
    var needAnotherPass := true;
    ghost var left: nat := |alts|;
    while needAnotherPass
      invariant states != [] && Exact(states, alts, r) && Bounded(states, alts, bound, left) && left <= |alts|
      invariant !needAnotherPass ==> forall i :: 0 <= i < |states| ==> !Short(states[i])
      invariant Lone(alts) ==> |states| == |start|
      decreases left, needAnotherPass
    {
      var next;
      stuck, next, needAnotherPass := ExtendPass(states, alts);
      if stuck {
        StuckRunsOut(states, alts, r);
        return;
      }
      ExtendBounds(states, alts, bound, left);
      ExtendExact(states, alts, r);
      if Lone(alts) { LoneExtend(states, alts); }
      if !needAnotherPass { NoneShort(states, alts); }
      states := next;
      left := if left > 0 then left - 1 else 0;
    }
  }

  // ---------------------------------------------------------------- chopping

  /** The state without its first element. */
  function Chopped(s: TrigramState): TrigramState
    requires !Short(s)
  {
    TrigramStable(s.buffered, s.buffered);
    TrigramState(s.buffered[ReadUnigram(s.buffered, 0).1..], s.next)
  }

  lemma {:induction false} ChopFits(s: TrigramState, alts: Alternatives, v: seq<byte>)
    requires Fits(s, alts, v) && !Short(s)
    ensures ReadTrigram(v, 0) == ReadTrigram(s.buffered, 0) && Fits(Chopped(s), alts, Onward(v))
  {
    hide ReadTrigram, ReadUnigram, Spells;
    TrigramStable(s.buffered, v);
    var n := ReadUnigram(v, 0).1;
    assert v[n..][|s.buffered| - n..] == v[|s.buffered|..];
  }

  /** Whatever a chopped state stands for is left of something the state stood for. */
  lemma {:induction false} ChoppedFrom(s: TrigramState, alts: Alternatives, rest: seq<byte>) returns (v: seq<byte>)
    requires !Short(s) && Fits(Chopped(s), alts, rest)
    ensures Fits(s, alts, v) && Onward(v) == rest
  {
    hide ReadTrigram, ReadUnigram, Spells;
    TrigramStable(s.buffered, s.buffered);
    var n := ReadUnigram(s.buffered, 0).1;
    v := s.buffered[..n] + rest;
    assert v[|s.buffered|..] == rest[|s.buffered| - n..];
    assert v[..|s.buffered|] == s.buffered[..n] + rest[..|s.buffered| - n] == s.buffered;
    TrigramStable(s.buffered, v);
    assert v[n..] == rest;
  }

  lemma {:induction false} LeftOnward(alts: Alternatives, r: nat, rest: seq<byte>)
    ensures Left(alts, r + 1, rest) <==> exists v :: Left(alts, r, v) && Onward(v) == rest
  {
    hide Spells, Onward;
    if Left(alts, r + 1, rest) {
      var w :| Spells(alts, 0, w) && After(w, r + 1) == rest;
      assert Left(alts, r, After(w, r)) && Onward(After(w, r)) == rest;
    }
    if v :| Left(alts, r, v) && Onward(v) == rest {
      var w :| Spells(alts, 0, w) && After(w, r) == v;
      assert After(w, r + 1) == rest;
    }
  }

  lemma {:induction false} ChopExact(states: seq<TrigramState>, chopped: seq<TrigramState>, alts: Alternatives, r: nat)
    requires Exact(states, alts, r) && forall i :: 0 <= i < |states| ==>
      !Short(states[i]) && Chopped(states[i]) in chopped
    requires forall s :: s in chopped ==> exists i :: 0 <= i < |states| && s == Chopped(states[i])
    ensures Exact(chopped, alts, r + 1)
  {
    hide Left, Fits, Onward, Chopped, ReadTrigram;
    forall rest ensures Left(alts, r + 1, rest) <==> SomeFits(chopped, alts, rest) {
      LeftOnward(alts, r, rest);
      if Left(alts, r + 1, rest) {
        var v :| Left(alts, r, v) && Onward(v) == rest;
        assert SomeFits(states, alts, v);
        var i :| 0 <= i < |states| && Fits(states[i], alts, v);
        ChopFits(states[i], alts, v);
        var j :| 0 <= j < |chopped| && chopped[j] == Chopped(states[i]);
        assert Fits(chopped[j], alts, rest);
      }
      if SomeFits(chopped, alts, rest) {
        var j :| 0 <= j < |chopped| && Fits(chopped[j], alts, rest);
        assert chopped[j] in chopped;
        var i :| 0 <= i < |states| && chopped[j] == Chopped(states[i]);
        var v := ChoppedFrom(states[i], alts, rest);
        assert SomeFits(states, alts, v);
      }
    }
  }

  /** The trigrams at the front of the states are those the spellings can have there. */
  lemma {:induction false} FrontsExact(states: seq<TrigramState>, alts: Alternatives, r: nat, t: nat)
    requires Spellable(alts) && Exact(states, alts, r)
    requires forall i :: 0 <= i < |states| ==> InRange(states[i], alts) && !Short(states[i])
    ensures TrigramAt(alts, r, t) <==> exists i :: 0 <= i < |states| && ReadTrigram(states[i].buffered, 0) == t
  {
    hide Left, ReadTrigram, Spells, Spellable, Chopped;
    if TrigramAt(alts, r, t) {
      var v :| Left(alts, r, v) && ReadTrigram(v, 0) == t;
      assert SomeFits(states, alts, v);
      var i :| 0 <= i < |states| && Fits(states[i], alts, v);
      ChopFits(states[i], alts, v);
    }
    if i :| 0 <= i < |states| && ReadTrigram(states[i].buffered, 0) == t {
      var rest := SomeSpelling(alts, states[i].next);
      var v := states[i].buffered + rest;
      assert v[|states[i].buffered|..] == rest;
      assert Fits(states[i], alts, v);
      ChopFits(states[i], alts, v);
      assert SomeFits(states, alts, v);
    }
  }

  lemma {:induction false} SomeSpelling(alts: Alternatives, k: nat) returns (w: seq<byte>)
    requires Spellable(alts) && k <= |alts|
    ensures Spells(alts, k, w)
    decreases |alts| - k
  {
    w := [];
    if k < |alts| {
      var rest := SomeSpelling(alts, k + 1);
      w := alts[k][0] + rest;
      assert w[|alts[k][0]|..] == rest;
      SpellsFrom(alts, k, 0, w);
    }
  }

  /** Emits the trigram of each state and drops its first element. */
  method Chop(states: seq<TrigramState>) returns (chopped: seq<TrigramState>, trigrams: seq<nat>, anyWildcard: bool)
    requires forall i :: 0 <= i < |states| ==> !Short(states[i])
    ensures |chopped| == |trigrams| == |states|
    ensures forall i :: 0 <= i < |states| ==> chopped[i] == Chopped(states[i])
    ensures forall i :: 0 <= i < |states| ==> trigrams[i] == ReadTrigram(states[i].buffered, 0)
    ensures anyWildcard <==> WILDCARD in trigrams
  {
    hide ReadTrigram, ReadUnigram;
    chopped, trigrams, anyWildcard := states, [], false;
    for i := 0 to |states|
      invariant |chopped| == |states| && |trigrams| == i
      invariant forall k :: 0 <= k < i ==> chopped[k] == Chopped(states[k])
      invariant forall k :: i <= k < |states| ==> chopped[k] == states[k]
      invariant forall k :: 0 <= k < i ==> trigrams[k] == ReadTrigram(states[k].buffered, 0)
      invariant anyWildcard <==> WILDCARD in trigrams
    {
      var state := states[i];
      trigrams := trigrams + [ReadTrigram(state.buffered, 0)];
      TrigramStable(state.buffered, state.buffered);
      chopped := chopped[i := TrigramState(state.buffered[ReadUnigram(state.buffered, 0).1..], state.next)];
      if trigrams[i] == WILDCARD {
        anyWildcard := true;
      }
    }
  }

  lemma {:induction false} ChopBounds(states: seq<TrigramState>, chopped: seq<TrigramState>, alts: Alternatives,
                                      bound: nat)
    requires states != [] && Bounded(states, alts, bound, |alts|)
    requires forall i :: 0 <= i < |states| ==> !Short(states[i])
    requires forall s :: s in chopped ==> exists i :: 0 <= i < |states| && s == Chopped(states[i])
    ensures bound > 0 && Bounded(chopped, alts, bound - 1, |alts|)
  {
    hide ReadTrigram, ReadUnigram;
    TrigramStable(states[0].buffered, states[0].buffered);
    forall j | 0 <= j < |chopped|
      ensures InRange(chopped[j], alts) && Weight(chopped[j], alts) <= bound - 1
    {
      assert chopped[j] in chopped;
      var i :| 0 <= i < |states| && chopped[j] == Chopped(states[i]);
      TrigramStable(states[i].buffered, states[i].buffered);
    }
  }

  lemma {:induction false} StartExact(alts: Alternatives)
    ensures Exact([TrigramState([], 0)], alts, 0)
    ensures Bounded([TrigramState([], 0)], alts, Longest(alts, 0), |alts|)
  {
    hide Spells, Longest, ReadTrigram;
    var s := TrigramState([], 0);
    forall v ensures Left(alts, 0, v) <==> SomeFits([s], alts, v) {
      assert v[0..] == v;
      assert Fits([s][0], alts, v) <==> Spells(alts, 0, v);
      if Spells(alts, 0, v) { assert After(v, 0) == v; }
    }
  }

  /** One round: a group from the full states, and the states to go on with. */
  method Round(full: seq<TrigramState>, alts: Alternatives, ghost bound: nat, ghost r: nat)
    returns (states: seq<TrigramState>, group: seq<nat>, anyWildcard: bool)
    requires Spellable(alts) && full != [] && Exact(full, alts, r) && Bounded(full, alts, bound, |alts|)
    requires forall i :: 0 <= i < |full| ==> !Short(full[i])
    ensures states != [] && Exact(states, alts, r + 1) && bound > 0 && Bounded(states, alts, bound - 1, |alts|)
    ensures !RunsOut(alts, r)
    ensures IsGroup(group, alts, r) && (anyWildcard <==> TrigramAt(alts, r, WILDCARD))
    ensures Sorted(states, StateLess) && |states| <= |full|
  {
    hide ReadTrigram, ReadUnigram, Exact, Chopped, Weight, TrigramAt, Spellable;
    var chopped, trigrams;
    chopped, trigrams, anyWildcard := Chop(full);
    assert StrictTotal(NatLess);
    group := UniqueSort(trigrams, NatLess);
    StateOrder();
    states := UniqueSort(chopped, StateLess);
    forall i | 0 <= i < |full| ensures Chopped(full[i]) in states { assert chopped[i] in chopped; }
    forall s | s in states ensures exists i :: 0 <= i < |full| && s == Chopped(full[i]) { assert s in chopped; }
    assert Chopped(full[0]) in states;
    ChopBounds(full, states, alts, bound);
    ChopExact(full, states, alts, r);
    forall t ensures t in trigrams <==> TrigramAt(alts, r, t) { FrontsExact(full, alts, r, t); }
    assert PREMATURE_END !in trigrams;
  }

  lemma {:induction false} NoRounds(alts: Alternatives)
    ensures AreGroups([], alts, 0)
  {
  }

  lemma {:induction false} OneMoreRound(before: seq<seq<nat>>, groups: seq<seq<nat>>, alts: Alternatives, rounds: nat,
                                        group: seq<nat>, anyWildcard: bool)
    requires AreGroups(before, alts, rounds) && IsGroup(group, alts, rounds)
    requires (anyWildcard <==> TrigramAt(alts, rounds, WILDCARD))
    requires groups == if anyWildcard then before else before + [group]
    ensures AreGroups(groups, alts, rounds + 1)
  {
    hide IsGroup, TrigramAt;
    if !anyWildcard { assert groups[..|groups| - 1] == before; }
  }

  lemma {:induction false} SortedDiffer(states: seq<TrigramState>)
    requires Sorted(states, StateLess)
    ensures forall i, k :: 0 <= i < k < |states| ==> states[i] != states[k]
  {
    hide StateLess;
    StateOrder();
  }

  /** Groups for a needle given by the spellings of its code points: at each position, all
      trigrams that a spelling can have there, until some spelling runs out or more than a
      hundred different states are left. */
  method ParseTrigramsIgnoreCase(alts: Alternatives) returns (groups: seq<seq<nat>>, ghost rounds: nat)
    requires Spellable(alts)
    ensures AreGroups(groups, alts, rounds)
    ensures forall r :: 0 <= r < rounds ==> !RunsOut(alts, r)
    ensures RunsOut(alts, rounds) ||
      exists states :: Exact(states, alts, rounds) && |states| > 100
        && forall i, k :: 0 <= i < k < |states| ==> states[i] != states[k]
    ensures forall g :: g in groups ==> Needed(alts, g) && ProperGroup(g)
    ensures (forall k :: 0 <= k < |alts| ==> |alts[k]| == 1) ==>
      forall w :: Spells(alts, 0, w) ==> groups == Singles(TokenTrigrams(Tokenize(w)))
  {
    hide Exact, Bounded, Longest, Short, RunsOut, TrigramAt, IsGroup, Spellable, Needed, ProperGroup, Spells,
         Tokenize, TokenTrigrams, AreGroups, StateLess, Sorted;
    groups, rounds := [], 0;
    var states := [TrigramState([], 0)];
    ghost var bound := Longest(alts, 0);
    StartExact(alts);
    assert AreGroups(groups, alts, 0) by { NoRounds(alts); }
    while true
      invariant states != [] && Exact(states, alts, rounds) && Bounded(states, alts, bound, |alts|)
      invariant AreGroups(groups, alts, rounds)
      invariant forall r :: 0 <= r < rounds ==> !RunsOut(alts, r)
      invariant Lone(alts) ==> |states| <= 1
      decreases bound
    {
      var stuck, full := ExtendAll(states, alts, bound, rounds);
      if stuck {
        break;
      }
      ghost var before := groups;
      var group, anyWildcard;
      states, group, anyWildcard := Round(full, alts, bound, rounds);
      bound, rounds := bound - 1, rounds + 1;
      if !anyWildcard {
        groups := groups + [group];
      }
      OneMoreRound(before, groups, alts, rounds - 1, group, anyWildcard);
      if |states| > 100 {
        SortedDiffer(states);
        break;
      }
    }
    forall g | g in groups ensures Needed(alts, g) && ProperGroup(g) { GroupsNeeded(groups, alts, rounds, g); }
    forall w | Lone(alts) && Spells(alts, 0, w) ensures groups == Singles(TokenTrigrams(Tokenize(w))) {
      OneSpelling(groups, alts, rounds, w);
    }
  }

  // ---------------------------------------------------------------- what the groups are good for

  /** Distinct trigrams, at least one. */
  ghost predicate ProperGroup(group: seq<nat>) {
    && group != []
    && (forall i, k :: 0 <= i < k < |group| ==> group[i] != group[k])
    && forall t :: t in group ==> t < 0x100_0000
  }

  lemma {:induction false} ReadRange(alts: Alternatives, r: nat, t: nat)
    requires TrigramAt(alts, r, t) && !RunsOut(alts, r) && t != WILDCARD
    ensures t < 0x100_0000
  {
    hide Left;
  }

  /** A group holds a trigram of every spelling. */
  lemma {:induction false} GroupSuffices(group: seq<nat>, alts: Alternatives, r: nat)
    requires Spellable(alts) && IsGroup(group, alts, r) && !RunsOut(alts, r) && !TrigramAt(alts, r, WILDCARD)
    ensures Needed(alts, group) && ProperGroup(group)
  {
    hide ReadTrigram, Tokenize, TokenTrigrams, Spells, Spellable, After, RunsOut;
    forall t | t in group ensures t < 0x100_0000 { ReadRange(alts, r, t); }
    forall w | Spells(alts, 0, w)
      ensures exists t :: t in group && t in TokenTrigrams(Tokenize(w))
    {
      var t := ReadTrigram(After(w, r), 0);
      assert Left(alts, r, After(w, r));
      assert TrigramAt(alts, r, t);
      TrigramAfter(w, r);
    }
    var w := SomeSpelling(alts, 0);
    assert group != [];
  }

  /** So whichever spelling a file name uses, it has a trigram from each group. */
  lemma {:induction false} GroupsNeeded(groups: seq<seq<nat>>, alts: Alternatives, rounds: nat, g: seq<nat>)
    requires Spellable(alts) && AreGroups(groups, alts, rounds) && g in groups
    requires forall r :: 0 <= r < rounds ==> !RunsOut(alts, r)
    ensures Needed(alts, g) && ProperGroup(g)
  {
    hide Needed, ProperGroup, IsGroup, Spellable, RunsOut;
    if TrigramAt(alts, rounds - 1, WILDCARD) {
      GroupsNeeded(groups, alts, rounds - 1, g);
    } else {
      var n := |groups| - 1;
      var i :| 0 <= i < |groups| && groups[i] == g;
      if i == n {
        GroupSuffices(g, alts, rounds - 1);
      } else {
        assert groups[..n][i] == g;
        GroupsNeeded(groups[..n], alts, rounds - 1, g);
      }
    }
  }

  /** If there is but one spelling, ignoring case gives what looking at it does. */
  lemma {:induction false} OneSpelling(groups: seq<seq<nat>>, alts: Alternatives, rounds: nat, w: seq<byte>)
    requires Lone(alts) && Spells(alts, 0, w)
    requires AreGroups(groups, alts, rounds) && RunsOut(alts, rounds) && forall r :: 0 <= r < rounds ==>
      !RunsOut(alts, r)
    ensures groups == Singles(TokenTrigrams(Tokenize(w)))
  {
    hide ReadTrigram, Tokenize, TokenTrigrams, Spells, After, AreGroups, TrigramsBefore, Lone;
    forall v | Spells(alts, 0, v) ensures v == w { OnlySpelling(alts, 0, v, w); }
    OneSpellingBefore(groups, alts, rounds, w);
    LaterTrigrams(w, rounds);
    NoneToCome(After(w, rounds));
    assert TrigramsBefore(w, rounds) + [] == TrigramsBefore(w, rounds);
  }

  lemma {:induction false} OneSpellingBefore(groups: seq<seq<nat>>, alts: Alternatives, rounds: nat, w: seq<byte>)
    requires Spells(alts, 0, w) && forall v :: Spells(alts, 0, v) ==> v == w
    requires AreGroups(groups, alts, rounds) && forall r :: 0 <= r < rounds ==> !RunsOut(alts, r)
    ensures groups == Singles(TrigramsBefore(w, rounds))
  {
    hide ReadTrigram, Tokenize, Spells, After, Front;
    if rounds > 0 {
      var r := rounds - 1;
      var v := After(w, r);
      var t := ReadTrigram(v, 0);
      assert Left(alts, r, v) && forall u :: Left(alts, r, u) ==> u == v;
      assert TrigramAt(alts, r, t) && forall u :: TrigramAt(alts, r, u) ==> u == t;
      TrigramIsFront(v);
      if t == WILDCARD {
        OneSpellingBefore(groups, alts, r, w);
      } else {
        ReadRange(alts, r, t);
        var n := |groups| - 1;
        OneSpellingBefore(groups[..n], alts, r, w);
        OnlyOne(groups[n], t);
        assert groups == groups[..n] + [[t]];
        assert Singles(TrigramsBefore(w, r) + [t]) == Singles(TrigramsBefore(w, r)) + [[t]];
      }
    }
  }

  lemma {:induction false} OnlyOne(group: seq<nat>, t: nat)
    requires Sorted(group, NatLess) && forall u :: u in group <==> u == t
    ensures group == [t]
  {
    assert t in group;
    forall i | 0 <= i < |group| ensures group[i] == t && i == 0 {
      assert group[i] in group && group[0] in group;
    }
    assert group[|group| - 1] == t;
  }

  /** A file name that matches some spelling, read as a glob, has a trigram of every group. */
  lemma {:induction false} SpellingNecessary(alts: Alternatives, group: seq<nat>, w: seq<byte>, h: seq<byte>,
                                             wild: (seq<byte>, seq<byte>) -> bool)
    requires Needed(alts, group) && Spells(alts, 0, w) && Matches(Tokenize(w), h, wild)
    ensures exists t :: t in group && Occurs(h, t)
  {
    hide Tokenize, TokenTrigrams, Matches, Occurs, Spells;
    var t :| t in group && t in TokenTrigrams(Tokenize(w));
    TrigramsNecessary(Tokenize(w), h, wild, t);
  }
}
