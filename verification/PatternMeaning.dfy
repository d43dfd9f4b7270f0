/** Patterns read byte by byte, as fnmatch reads them, and needles as the texts they stand for. */
module PatternMeaning {
  import opened Bits
  import opened ParseTrigrams
  import opened IgnoreCase
  import opened BlockScan
  import opened EndToEnd
  import Streams

  // ---------------------------------------------------------------- globs

  /** A class in brackets: after an optional ! and one byte of any kind, the first closing
      bracket ends it. */
  ghost predicate ClassText(c: seq<byte>) {
    && |c| >= 3 && c[0] == '[' as int && c[|c| - 1] == ']' as int
    && var m := if c[1] == '!' as int then 2 else 1;
       m < |c| - 1 && forall i :: m < i < |c| - 1 ==> c[i] != ']' as int
  }

  /** Some text of any length for a wildcard, and the rest of the pattern after it. */
  ghost predicate WildThen(w: seq<byte>, rest: seq<byte>, h: seq<byte>, wild: Wildcards)
    decreases |rest|, 1
  {
    exists n :: 0 <= n <= |h| && wild(w, h[..n]) && GlobMatches(rest, h[n..], wild)
  }

  /** Anchored matching of a glob. Once the pattern ends early nothing more is asked. */
  ghost predicate GlobMatches(p: seq<byte>, h: seq<byte>, wild: Wildcards)
    decreases |p|, 0
  {
    if p == [] then h == []
    else if p == ['\\' as int] then true
    else if p[0] == '\\' as int then h != [] && h[0] == p[1] && GlobMatches(p[2..], h[1..], wild)
    else if p[0] == '*' as int || p[0] == '?' as int then WildThen(p[..1], p[1..], h, wild)
    else if p[0] == '[' as int then
      forall k :: 0 < k <= |p| && ClassText(p[..k]) ==> WildThen(p[..k], p[k..], h, wild)
    else h != [] && h[0] == p[0] && GlobMatches(p[1..], h[1..], wild)
  }

  /** read_unigram finds the end of a class. */
  lemma {:induction false} ClassRead(p: seq<byte>, k: nat)
    requires p != [] && p[0] == '[' as int && 0 < k <= |p|
    ensures ClassText(p[..k]) <==> ReadUnigram(p, 0) == (WILDCARD, k)
  {
  }

  lemma {:induction false} ReadsPlainly(p: seq<byte>)
    requires p != [] && p[0] != '[' as int
    ensures p[0] == '*' as int || p[0] == '?' as int ==> ReadUnigram(p, 0) == (WILDCARD, 1)
    ensures p == ['\\' as int] ==> ReadUnigram(p, 0) == (PREMATURE_END, 1)
    ensures p[0] == '\\' as int && |p| > 1 ==> ReadUnigram(p, 0) == (p[1], 2)
    ensures p[0] != '*' as int && p[0] != '?' as int && p[0] != '\\' as int ==> ReadUnigram(p, 0) == (p[0], 1)
  {
  }

  lemma {:induction false} ReadsClass(p: seq<byte>)
    requires p != [] && p[0] == '[' as int
    ensures var u := ReadUnigram(p, 0).0; u == WILDCARD || u == PREMATURE_END
  {
  }

  lemma {:induction false} GlobIsTokens(p: seq<byte>, h: seq<byte>, wild: Wildcards)
    ensures GlobMatches(p, h, wild) <==> Matches(Tokenize(p), h, wild)
    decreases |p|
  {
    hide ReadUnigram, ClassText, Tokenize, FindClose, ClassBody;
    TokenizeStep(p);
    if p == [] {
      ReadAtEnd(p);
    } else {
      var (u, n) := ReadUnigram(p, 0);
      if p[0] == '[' as int {
        ReadsClass(p);
        forall k | 0 < k <= |p| ensures ClassText(p[..k]) <==> (u, n) == (WILDCARD, k) { ClassRead(p, k); }
      } else {
        ReadsPlainly(p);
      }
      if u == WILDCARD {
        forall m | 0 <= m <= |h|
          ensures GlobMatches(p[n..], h[m..], wild) <==> Matches(Tokenize(p[n..]), h[m..], wild)
        {
          GlobIsTokens(p[n..], h[m..], wild);
        }
        assert WildThen(p[..n], p[n..], h, wild) <==> Matches(Tokenize(p), h, wild);
      } else if u != PREMATURE_END && h != [] {
        GlobIsTokens(p[n..], h[1..], wild);
      }
    }
  }

  // ---------------------------------------------------------------- patterns and needles

  function Around(before: seq<byte>, text: seq<byte>, after: seq<byte>): seq<byte> {
    before + text + after
  }

  /** One spelling of each code point. */
  ghost predicate Picked(alts: Alternatives, k: nat, picks: seq<seq<byte>>) {
    k + |picks| == |alts| && forall i :: 0 <= i < |picks| ==> picks[i] in alts[k + i]
  }

  /** What a pattern accepts: a text that has it inside, a match of the glob, a match of it
      in some spelling, anything. */
  ghost predicate Accepts(p: Pattern, h: seq<byte>, wild: Wildcards) {
    match p
    case Plain(text) => exists before, after :: h == Around(before, text, after)
    case Glob(text) => GlobMatches(text, h, wild)
    case Folded(alts) => exists picks :: Picked(alts, 0, picks) && GlobMatches(Streams.Joined(picks), h, wild)
    case Regex => true
  }

  lemma {:induction false} JoinedFront(picks: seq<seq<byte>>)
    requires picks != []
    ensures Streams.Joined(picks) == picks[0] + Streams.Joined(picks[1..])
  {
    var n := |picks| - 1;
    if n > 0 {
      JoinedFront(picks[..n]);
      assert picks[..n][1..] == picks[1..][..n - 1];
    }
  }

  lemma {:induction false} PicksSpell(alts: Alternatives, k: nat, picks: seq<seq<byte>>)
    requires k <= |alts| && Picked(alts, k, picks)
    ensures Spells(alts, k, Streams.Joined(picks))
    decreases |alts| - k
  {
    if picks != [] {
      var w := Streams.Joined(picks);
      JoinedFront(picks);
      PicksSpell(alts, k + 1, picks[1..]);
      assert picks[0] in alts[k + 0];
      var i :| 0 <= i < |alts[k]| && alts[k][i] == picks[0];
      assert w[|alts[k][i]|..] == Streams.Joined(picks[1..]);
    }
  }

  lemma {:induction false} SpellsPicks(alts: Alternatives, k: nat, w: seq<byte>) returns (picks: seq<seq<byte>>)
    requires k <= |alts| && Spells(alts, k, w)
    ensures Picked(alts, k, picks) && w == Streams.Joined(picks)
    decreases |alts| - k
  {
    if k == |alts| {
      picks := [];
    } else {
      var i := SpellsNext(alts, k, w);
      var rest := SpellsPicks(alts, k + 1, w[|alts[k][i]|..]);
      picks := [alts[k][i]] + rest;
      JoinedFront(picks);
    }
  }

  lemma {:induction false} AcceptsIsMatches(p: Pattern, h: seq<byte>, wild: Wildcards)
    ensures Accepts(p, h, wild) <==> PatternMatches(p, h, wild)
  {
    hide GlobMatches, Matches, Tokenize, Spells, Picked;
    match p
    case Plain(text) =>
      if at: nat :| FoundAt(h, at, text) { assert h == Around(h[..at], text, h[at + |text|..]); }
      if before, after :| h == Around(before, text, after) { assert FoundAt(h, |before|, text); }
    case Glob(text) => GlobIsTokens(text, h, wild);
    case Folded(alts) =>
      if picks :| Picked(alts, 0, picks) && GlobMatches(Streams.Joined(picks), h, wild) {
        PicksSpell(alts, 0, picks);
        GlobIsTokens(Streams.Joined(picks), h, wild);
      }
      if w :| Spells(alts, 0, w) && Matches(Tokenize(w), h, wild) {
        var picks := SpellsPicks(alts, 0, w);
        GlobIsTokens(w, h, wild);
      }
    case Regex =>
  }

  /** Needles that accept no more than their patterns do are all that a search asks for. */
  lemma {:induction false} NeedlesDecide(needles: seq<Needle>, patterns: seq<Pattern>, wild: Wildcards)
    ensures Decides(needles, patterns, wild) <==>
      && |needles| == |patterns|
      && forall i, h :: 0 <= i < |needles| && needles[i](h) ==> Accepts(patterns[i], h, wild)
  {
    hide Accepts, PatternMatches;
    if |needles| == |patterns| {
      forall i, h | 0 <= i < |needles| ensures Accepts(patterns[i], h, wild) <==> PatternMatches(patterns[i], h, wild) {
        AcceptsIsMatches(patterns[i], h, wild);
      }
    }
  }

  /** Which patterns a search may be given: all but plain texts with a backslash, and of those
      the ones that pass the test of PlainNeedle. */
  lemma {:induction false} MostAreTrusted(p: Pattern)
    ensures match p
      case Plain(text) => '\\' as int !in text ==> Trusted(p)
      case Glob(_) => Trusted(p)
      case Folded(alts) =>
        (forall k :: 0 <= k < |alts| ==> alts[k] != [] && forall s :: s in alts[k] ==> s != []) ==> Trusted(p)
      case Regex => Trusted(p)
  {
    match p
    case Plain(text) => if '\\' as int !in text { PlainNeedleWithoutBackslash(text, text); }
    case Glob(_) =>
    case Folded(alts) =>
      assert forall k, i :: 0 <= k < |alts| && 0 <= i < |alts[k]| ==> alts[k][i] in alts[k];
    case Regex =>
  }
}
