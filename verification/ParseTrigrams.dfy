/** From a needle to the trigrams that every match must contain. */
module ParseTrigrams {
  import opened Bits
  import opened TrigramIndex
  import opened Wrappers

  const WILDCARD: nat := 0xFF00_0000
  const PREMATURE_END: nat := 0xFF00_0001

  const BACKSLASH: byte := 92
  const STAR: byte := 42
  const QUESTION: byte := 63
  const OPEN: byte := 91
  const CLOSE: byte := 93
  const BANG: byte := 33
  const SLASH: byte := 47

  // ---------------------------------------------------------------- reading

  /** The first closing bracket at or after k, or the end. */
  function FindClose(s: seq<byte>, k: nat): (r: nat)
    requires k <= |s|
    ensures k <= r <= |s| && (r < |s| ==> s[r] == CLOSE)
    ensures forall i :: k <= i < r ==> s[i] != CLOSE
    decreases |s| - k
  {
    if k == |s| || s[k] == CLOSE then k else FindClose(s, k + 1)
  }

  /** Where to look for the end of a class: past an optional ! and a leading ]. */
  function ClassBody(s: seq<byte>, start: nat): (r: nat)
    requires start < |s|
    ensures start < r <= |s|
  {
    var a := if start + 1 < |s| && s[start + 1] == BANG then start + 2 else start + 1;
    if a < |s| && s[a] == CLOSE then a + 1 else a
  }

  /** One glob element: its byte or WILDCARD or PREMATURE_END, and its length. */
  function ReadUnigram(s: seq<byte>, start: nat): (r: (nat, nat))
    ensures start < |s| ==> 1 <= r.1 <= |s| - start
    ensures r.0 < 0x100 || r.0 == WILDCARD || r.0 == PREMATURE_END
  {
    if start >= |s| then (PREMATURE_END, 0)
    else if s[start] == BACKSLASH then
      if start + 1 >= |s| then (PREMATURE_END, 1) else (s[start + 1], 2)
    else if s[start] == STAR || s[start] == QUESTION then (WILDCARD, 1)
    else if s[start] == OPEN then
      var end := FindClose(s, ClassBody(s, start));
      if end < |s| then (WILDCARD, end - start + 1) else (PREMATURE_END, end - start)
    else (s[start], 1)
  }

  function ReadTrigram(s: seq<byte>, start: nat): (r: nat)
    ensures r < 0x100_0000 || r == WILDCARD || r == PREMATURE_END
  {
    var (u1, n1) := ReadUnigram(s, start);
    if u1 >= 0x100 then u1
    else
      var (u2, n2) := ReadUnigram(s, start + n1);
      if u2 >= 0x100 then u2
      else
        var (u3, _) := ReadUnigram(s, start + n1 + n2);
        if u3 >= 0x100 then u3 else Trigram(u1, u2, u3)
  }

  // ---------------------------------------------------------------- what a glob means

  /** Wild holds the text of the wildcard; Broken is a pattern that ends early. */
  datatype Token = Literal(value: byte) | Wild(text: seq<byte>) | Broken

  function Tokenize(s: seq<byte>): seq<Token> {
    if s == [] then []
    else
      var (u, n) := ReadUnigram(s, 0);
      if u == PREMATURE_END then [Broken]
      else if u == WILDCARD then [Wild(s[..n])] + Tokenize(s[n..])
      else [Literal(u)] + Tokenize(s[n..])
  }

  /** Anchored matching, for any meaning of the wildcards. Nothing is asked of the text
      after the point where a pattern is broken. */
  ghost predicate Matches(tokens: seq<Token>, h: seq<byte>, wild: (seq<byte>, seq<byte>) -> bool) {
    if tokens == [] then h == []
    else match tokens[0]
      case Literal(b) => h != [] && h[0] == b && Matches(tokens[1..], h[1..], wild)
      case Wild(text) => exists n :: 0 <= n <= |h| && wild(text, h[..n]) && Matches(tokens[1..], h[n..], wild)
      case Broken => true
  }

  ghost predicate Occurs(h: seq<byte>, t: nat) {
    exists p: nat :: OccursAt(h, p, t)
  }

  /** The trigram at the front of a token list, if it starts with three literals. */
  function Front(tokens: seq<Token>): (r: seq<nat>)
    ensures forall t :: t in r ==> t < 0x100_0000
  {
    if |tokens| >= 3 && tokens[0].Literal? && tokens[1].Literal? && tokens[2].Literal?
    then [Trigram(tokens[0].value, tokens[1].value, tokens[2].value)]
    else []
  }

  /** All trigrams of consecutive literals, in order. */
  function TokenTrigrams(tokens: seq<Token>): (r: seq<nat>)
    ensures forall t :: t in r ==> t < 0x100_0000
  {
    if tokens == [] || tokens[0].Broken? then [] else Front(tokens) + TokenTrigrams(tokens[1..])
  }

  lemma {:induction false} OccursInTail(h: seq<byte>, n: nat, t: nat)
    requires n <= |h| && Occurs(h[n..], t)
    ensures Occurs(h, t)
  {
    var p: nat :| OccursAt(h[n..], p, t);
    assert OccursAt(h, n + p, t);
  }

  lemma {:induction false} FrontOccurs(tokens: seq<Token>, h: seq<byte>, wild: (seq<byte>, seq<byte>) -> bool, t: nat)
    requires Matches(tokens, h, wild) && t in Front(tokens)
    ensures Occurs(h, t)
  {
    var rest := tokens[1..];
    assert Matches(rest, h[1..], wild) && rest[0] == tokens[1];
    var last := rest[1..];
    assert Matches(last, h[1..][1..], wild) && last[0] == tokens[2];
    assert OccursAt(h, 0, t);
  }

  /** Every trigram of a glob's literals occurs in everything that matches the glob. */
  lemma {:induction false} TrigramsNecessary(tokens: seq<Token>, h: seq<byte>, wild: (seq<byte>, seq<byte>) -> bool,
                                             t: nat)
    requires Matches(tokens, h, wild) && t in TokenTrigrams(tokens)
    ensures Occurs(h, t)
    decreases |tokens|
  {
    hide Front, Occurs;
    if t in Front(tokens) {
      FrontOccurs(tokens, h, wild, t);
    } else {
      match tokens[0]
      case Literal(_) =>
        TrigramsNecessary(tokens[1..], h[1..], wild, t);
        OccursInTail(h, 1, t);
      case Wild(text) =>
        var n :| 0 <= n <= |h| && wild(text, h[..n]) && Matches(tokens[1..], h[n..], wild);
        TrigramsNecessary(tokens[1..], h[n..], wild, t);
        OccursInTail(h, n, t);
    }
  }

  // ---------------------------------------------------------------- reading is tokenizing

  lemma {:induction false} FindCloseShift(s: seq<byte>, p: nat, k: nat)
    requires p + k <= |s|
    ensures FindClose(s, p + k) == p + FindClose(s[p..], k)
    decreases |s| - k
  {
    if p + k < |s| && s[p + k] != CLOSE { FindCloseShift(s, p, k + 1); }
  }

  /** Reading at a position is reading the front of the rest. */
  lemma {:induction false} ReadShift(s: seq<byte>, p: nat, k: nat)
    requires p <= |s|
    ensures ReadUnigram(s, p + k) == ReadUnigram(s[p..], k)
  {
    if p + k < |s| && s[p + k] == OPEN {
      FindCloseShift(s, p, ClassBody(s[p..], k));
    }
  }

  lemma {:induction false} TrigramShift(s: seq<byte>, p: nat)
    requires p <= |s|
    ensures ReadTrigram(s, p) == ReadTrigram(s[p..], 0)
  {
    hide ReadUnigram, Trigram;
    var r := s[p..];
    var n1 := ReadUnigram(r, 0).1;
    var n2 := ReadUnigram(r, n1).1;
    ReadShift(s, p, 0);
    ReadShift(s, p, n1);
    ReadShift(s, p, n1 + n2);
    assert ReadUnigram(s, p) == ReadUnigram(r, 0);
    assert ReadUnigram(s, p + n1) == ReadUnigram(r, n1);
    assert ReadUnigram(s, p + n1 + n2) == ReadUnigram(r, n1 + n2);
  }

  lemma {:induction false} TokenizeStep(s: seq<byte>)
    ensures var (u, n) := ReadUnigram(s, 0);
      && (u == PREMATURE_END ==> Tokenize(s) == if s == [] then [] else [Broken])
      && (u != PREMATURE_END ==> Tokenize(s) != [] && 1 <= n <= |s| && Tokenize(s)[1..] == Tokenize(s[n..]))
      && (u == WILDCARD ==> Tokenize(s)[0] == Wild(s[..n]))
      && (u < 0x100 ==> Tokenize(s)[0] == Literal(u))
  {
    hide FindClose, ClassBody;
  }

  /** read_trigram sees exactly the token lists that start with three literals. */
  lemma {:induction false} TrigramIsFront(s: seq<byte>)
    ensures Front(Tokenize(s)) == if ReadTrigram(s, 0) < 0x100_0000 then [ReadTrigram(s, 0)] else []
  {
    hide ReadUnigram, Tokenize;
    var (u1, n1) := ReadUnigram(s, 0);
    TokenizeStep(s);
    if u1 < 0x100 {
      var a := s[n1..];
      var (u2, n2) := ReadUnigram(a, 0);
      ReadShift(s, n1, 0);
      TokenizeStep(a);
      if u2 < 0x100 {
        var b := a[n2..];
        ReadShift(s, n1, n2);
        ReadShift(a, n2, 0);
        TokenizeStep(b);
        assert Tokenize(s)[1] == Tokenize(s)[1..][0];
        if |Tokenize(s)| >= 3 {
          assert Tokenize(s)[2] == Tokenize(s)[1..][1] == Tokenize(a)[1..][0];
        }
      }
    }
  }

  lemma {:induction false} ListStep(s: seq<byte>)
    requires s != []
    ensures var (_, n) := ReadUnigram(s, 0);
      && 1 <= n <= |s|
      && TokenTrigrams(Tokenize(s)) == Front(Tokenize(s)) + TokenTrigrams(Tokenize(s[n..]))
  {
    hide ReadUnigram, Tokenize, Front;
    var (u, n) := ReadUnigram(s, 0);
    TokenizeStep(s);
    assert ReadUnigram(s, 0).1 >= 1;
    if u == PREMATURE_END {
      BrokenReadsAll(s);
      TokenizeStep(s[n..]);
      ReadAtEnd(s[n..]);
      TrigramIsFront(s);
    }
  }

  lemma {:induction false} ReadAtEnd(s: seq<byte>)
    ensures s == [] ==> ReadUnigram(s, 0) == (PREMATURE_END, 0)
  {
  }

  /** A pattern that ends early is read to its end. */
  lemma {:induction false} BrokenReadsAll(s: seq<byte>)
    requires ReadUnigram(s, 0).0 == PREMATURE_END
    ensures ReadUnigram(s, 0).1 == |s|
    ensures ReadTrigram(s, 0) == PREMATURE_END
  {
  }

  function Singles(list: seq<nat>): seq<seq<nat>> {
    seq(|list|, i requires 0 <= i < |list| => [list[i]])
  }

  /** The case-sensitive walk: one group for each trigram of consecutive literals. */
  method ParseCaseSensitive(needle: seq<byte>) returns (groups: seq<seq<nat>>)
    ensures groups == Singles(TokenTrigrams(Tokenize(needle)))
  {
    hide ReadUnigram, Tokenize, TokenTrigrams, ReadTrigram;
    groups := [];
    ghost var list := TokenTrigrams(Tokenize(needle));
    ghost var done := [];
    var i := 0;
    assert needle[0..] == needle;
    while i < |needle|
      invariant 0 <= i <= |needle|
      invariant groups == Singles(done) && done + TokenTrigrams(Tokenize(needle[i..])) == list
    {
      var trgm := ReadTrigram(needle, i);
      TrigramShift(needle, i);
      TrigramIsFront(needle[i..]);
      ListStep(needle[i..]);
      ReadShift(needle, i, 0);
      if trgm != WILDCARD && trgm != PREMATURE_END {
        groups := groups + [[trgm]];
        done := done + [trgm];
        assert groups == Singles(done);
      }
      assert needle[i..][ReadUnigram(needle, i).1..] == needle[i + ReadUnigram(needle, i).1..];
      i := i + ReadUnigram(needle, i).1;
    }
    assert needle[i..] == [];
    NoTokens();
    assert done == list;
  }

  lemma {:induction false} NoTokens()
    ensures TokenTrigrams(Tokenize([])) == []
  {
  }

  // ---------------------------------------------------------------- plain needles

  /** unescape_glob_to_plain_string; None where flocate exits. */
  method Unescape(needle: seq<byte>) returns (r: Option<seq<byte>>)
    requires forall i :: 0 <= i < |Tokenize(needle)| ==> !Tokenize(needle)[i].Wild?
    ensures r.None? <==> Broken in Tokenize(needle)
    ensures r.Some? ==> Tokenize(needle) == Literals(r.value)
  {
    hide ReadUnigram, Tokenize;
    var unescaped: seq<byte> := [];
    var i := 0;
    assert needle[0..] == needle;
    while i < |needle|
      invariant 0 <= i <= |needle|
      invariant Tokenize(needle) == Literals(unescaped) + Tokenize(needle[i..])
    {
      var (ch, n) := ReadUnigram(needle, i);
      ReadShift(needle, i, 0);
      TokenizeStep(needle[i..]);
      assert needle[i..][n..] == needle[i + n..];
      ghost var rest := Tokenize(needle[i..]);
      assert rest[0] == Tokenize(needle)[|unescaped|];
      if ch == PREMATURE_END {
        assert Tokenize(needle)[|unescaped|] == Broken;
        return None;
      }
      assert rest == [rest[0]] + rest[1..];
      assert Literals(unescaped + [ch]) == Literals(unescaped) + [Literal(ch)];
      unescaped := unescaped + [ch];
      i := i + n;
    }
    assert needle[i..] == [];
    TokenizeStep([]);
    ReadAtEnd([]);
    assert Tokenize(needle) == Literals(unescaped);
    r := Some(unescaped);
  }

  function Literals(s: seq<byte>): seq<Token> {
    seq(|s|, i requires 0 <= i < |s| => Literal(s[i]))
  }

  predicate Special(b: byte) {
    b == BACKSLASH || b == STAR || b == QUESTION || b == OPEN
  }

  /** A backslash before each special byte. */
  function Escape(s: seq<byte>): seq<byte> {
    if s == [] then []
    else (if Special(s[0]) then [BACKSLASH, s[0]] else [s[0]]) + Escape(s[1..])
  }

  /** Any byte string can be written as a plain needle. */
  lemma {:induction false} EscapeReadsBack(s: seq<byte>)
    ensures Tokenize(Escape(s)) == Literals(s)
  {
    if s == [] {
    } else {
      var e := Escape(s);
      EscapeReadsBack(s[1..]);
      var n := if Special(s[0]) then 2 else 1;
      assert e[n..] == Escape(s[1..]);
      assert ReadUnigram(e, 0) == (s[0], n);
      TokenizeStep(e);
      assert Literals(s) == [Literal(s[0])] + Literals(s[1..]);
      assert Tokenize(e) == [Literal(s[0])] + Tokenize(e)[1..];
    }
  }

  predicate FoundAt(h: seq<byte>, p: nat, n: seq<byte>) {
    p + |n| <= |h| && h[p..p + |n|] == n
  }

  /** What strstr looks for. */
  ghost predicate Contains(h: seq<byte>, n: seq<byte>) {
    exists p: nat :: FoundAt(h, p, n)
  }

  lemma {:induction false} OccursInside(h: seq<byte>, n: seq<byte>, t: nat)
    requires Contains(h, n) && Occurs(n, t)
    ensures Occurs(h, t)
  {
    var p: nat :| FoundAt(h, p, n);
    var q: nat :| OccursAt(n, q, t);
    assert OccursAt(h, p + q, t);
  }

  /** The front of s is a trigram read through an escape. */
  predicate EscapedWindow(s: seq<byte>) {
    ReadTrigram(s, 0) < 0x100_0000 && |s| >= 3 && (s[0] == BACKSLASH || s[1] == BACKSLASH || s[2] == BACKSLASH)
  }

  /** Every trigram that is read through an escape in s still occurs in n as it stands. */
  ghost predicate EscapesOccur(s: seq<byte>, n: seq<byte>) {
    s == [] || ((EscapedWindow(s) ==> Occurs(n, ReadTrigram(s, 0))) && EscapesOccur(s[ReadUnigram(s, 0).1..], n))
  }

  ghost predicate AllOccur(h: seq<byte>, trigrams: seq<nat>) {
    forall i :: 0 <= i < |trigrams| ==> Occurs(h, trigrams[i])
  }

  lemma {:induction false} UnescapedWindow(s: seq<byte>)
    requires ReadTrigram(s, 0) < 0x100_0000 && !EscapedWindow(s)
    ensures OccursAt(s, 0, ReadTrigram(s, 0))
  {
    hide FindClose, ClassBody;
  }

  lemma {:induction false} EscapesStep(s: seq<byte>, n: seq<byte>)
    requires s != []
    ensures EscapesOccur(s, n)
      <==> (EscapedWindow(s) ==> Occurs(n, ReadTrigram(s, 0))) && EscapesOccur(s[ReadUnigram(s, 0).1..], n)
  {
    hide ReadUnigram, ReadTrigram, EscapedWindow, Occurs;
  }

  lemma {:induction false} FrontInPlain(s: seq<byte>, n: seq<byte>)
    requires |s| <= |n| && n[|n| - |s|..] == s
    ensures AllOccur(n, Front(Tokenize(s))) <==> (EscapedWindow(s) ==> Occurs(n, ReadTrigram(s, 0)))
  {
    hide ReadUnigram, Tokenize, Occurs, OccursAt, Front, ReadTrigram, EscapedWindow;
    TrigramIsFront(s);
    NotEscaped(s);
    var t := ReadTrigram(s, 0);
    if t < 0x100_0000 {
      assert AllOccur(n, [t]) <==> Occurs(n, t) by { assert [t][0] == t; }
      if !EscapedWindow(s) {
        UnescapedWindow(s);
        FoundInTail(n, |n| - |s|, s, t);
      }
    }
  }

  lemma {:induction false} PlainTrigrams(s: seq<byte>, n: seq<byte>)
    requires |s| <= |n| && n[|n| - |s|..] == s
    ensures EscapesOccur(s, n) <==> AllOccur(n, TokenTrigrams(Tokenize(s)))
    decreases |s|
  {
    hide ReadUnigram, Tokenize, TokenTrigrams, EscapedWindow, Occurs, Front, ReadTrigram, AllOccur;
    if s == [] {
      NoTokens();
      assert AllOccur(n, []) by { NoneOccur(n); }
    } else {
      hide EscapesOccur;
      ListStep(s);
      var rest := s[ReadUnigram(s, 0).1..];
      assert n[|n| - |rest|..] == rest;
      PlainTrigrams(rest, n);
      FrontInPlain(s, n);
      AllOccurSplit(n, Front(Tokenize(s)), TokenTrigrams(Tokenize(rest)));
      EscapesStep(s, n);
    }
  }

  lemma {:induction false} NoneOccur(h: seq<byte>)
    ensures AllOccur(h, [])
  {
  }

  lemma {:induction false} NotEscaped(s: seq<byte>)
    ensures EscapedWindow(s) ==> ReadTrigram(s, 0) < 0x100_0000
  {
  }

  lemma {:induction false} FoundInTail(n: seq<byte>, p: nat, s: seq<byte>, t: nat)
    requires p <= |n| && n[p..] == s && OccursAt(s, 0, t)
    ensures Occurs(n, t)
  {
    assert OccursAt(n, p, t);
  }

  lemma {:induction false} AllOccurSplit(h: seq<byte>, a: seq<nat>, b: seq<nat>)
    ensures AllOccur(h, a + b) <==> AllOccur(h, a) && AllOccur(h, b)
  {
    hide Occurs;
    assert forall i :: 0 <= i < |b| ==> (a + b)[|a| + i] == b[i];
    if AllOccur(h, a + b) {
      assert forall i :: 0 <= i < |a| ==> (a + b)[i] == a[i];
    }
  }

  /** The trigrams taken from a plain needle are in all its matches exactly if those read
      through a literal backslash also occur in the needle as it stands. */
  lemma {:induction false} PlainNeedle(n: seq<byte>)
    ensures (forall h :: Contains(h, n) ==> AllOccur(h, TokenTrigrams(Tokenize(n)))) <==> EscapesOccur(n, n)
  {
    hide Tokenize, TokenTrigrams, Occurs;
    assert n[0..] == n && n[0..|n|] == n;
    assert FoundAt(n, 0, n);
    PlainTrigrams(n, n);
    if EscapesOccur(n, n) {
      forall h | Contains(h, n) ensures AllOccur(h, TokenTrigrams(Tokenize(n))) {
        var list := TokenTrigrams(Tokenize(n));
        forall i | 0 <= i < |list| ensures Occurs(h, list[i]) { OccursInside(h, n, list[i]); }
      }
    }
  }

  /** In particular no backslash, no trouble. */
  lemma {:induction false} PlainNeedleWithoutBackslash(s: seq<byte>, n: seq<byte>)
    requires BACKSLASH !in s
    ensures EscapesOccur(s, n)
    decreases |s|
  {
    hide ReadUnigram, ReadTrigram;
    if s != [] {
      ListStep(s);
      PlainNeedleWithoutBackslash(s[ReadUnigram(s, 0).1..], n);
    }
  }

  /** The plain needle ab\c is looked up as abc, and its one match ab\c is lost. */
  lemma {:induction false} PlainBackslashLosesMatches()
    ensures var n: seq<byte> := [97, 98, BACKSLASH, 99];
      !EscapesOccur(n, n) && Contains(n, n) && !AllOccur(n, TokenTrigrams(Tokenize(n)))
  {
    var n: seq<byte> := [97, 98, BACKSLASH, 99];
    assert n[0..|n|] == n && n[0..] == n;
    assert FoundAt(n, 0, n);
    assert ReadTrigram(n, 0) == Trigram(97, 98, 99);
    assert EscapedWindow(n);
    assert !OccursAt(n, 0, Trigram(97, 98, 99)) && !OccursAt(n, 1, Trigram(97, 98, 99));
    PlainTrigrams(n, n);
  }

  // ---------------------------------------------------------------- basenames

  /** What follows the last slash. */
  function Basename(path: seq<byte>): (r: seq<byte>)
    ensures |r| <= |path| && path[|path| - |r|..] == r
    ensures SLASH !in r && (r == path || path[|path| - |r| - 1] == SLASH)
  {
    if path == [] || path[|path| - 1] == SLASH then []
    else
      var b := Basename(path[..|path| - 1]);
      LongerEnd(path, b);
      b + [path[|path| - 1]]
  }

  lemma {:induction false} LongerEnd(path: seq<byte>, b: seq<byte>)
    requires path != [] && |b| < |path|
    ensures var n := |path| - 1;
      path[..n][n - |b|..] == b ==> path[n - |b|..] == b + [path[n]] && (b == path[..n] ==> b + [path[n]] == path)
  {
    var n := |path| - 1;
    assert path[n - |b|..] == path[..n][n - |b|..] + [path[n]];
    assert path == path[..n] + [path[n]];
  }

  /** A match against the basename still needs its trigrams in the whole path. */
  lemma {:induction false} BasenameTrigrams(path: seq<byte>, tokens: seq<Token>, wild: (seq<byte>, seq<byte>) -> bool,
                                            t: nat)
    requires Matches(tokens, Basename(path), wild) && t in TokenTrigrams(tokens)
    ensures Occurs(path, t)
  {
    hide Matches, TokenTrigrams, Occurs, Basename;
    TailTrigrams(path, |path| - |Basename(path)|, tokens, wild, t);
  }

  lemma {:induction false} TailTrigrams(path: seq<byte>, n: nat, tokens: seq<Token>,
                                        wild: (seq<byte>, seq<byte>) -> bool, t: nat)
    requires n <= |path| && Matches(tokens, path[n..], wild) && t in TokenTrigrams(tokens)
    ensures Occurs(path, t)
  {
    hide Matches, TokenTrigrams, Occurs;
    TrigramsNecessary(tokens, path[n..], wild, t);
    OccursInTail(path, n, t);
  }
}
