/** Decoding the two formats with exceptions. */
module PforDecode {
  import opened Bits
  import opened BitPacking
  import opened Interleaving
  import opened BlockFormat
  import opened BlockEncode
  import opened BlockDecode
  import opened BlockUnpack

  // ---------------------------------------------------------------- lowest set bit

  /** How many zero bits lie below the lowest set one; ffsll(x) - 1. */
  function TrailingZeros(x: nat): nat
    requires x > 0
  {
    if x % 2 == 1 then 0 else 1 + TrailingZeros(x / 2)
  }

  /** x & (x - 1) clears the lowest set bit and nothing else. */
  lemma {:induction false} ClearLowest(x: nat)
    requires x > 0
    ensures var t := TrailingZeros(x);
      && Bit(x, t)
      && And(x, x - 1) == Shl(Shr(x, t + 1), t + 1)
  {
    hide And, Shl, Shr, Bit;
    AndHalves(x);
    var t := TrailingZeros(x);
    if x % 2 == 1 {
      AndSelf(x / 2);
      OddLowest(x);
    } else {
      ClearLowest(x / 2);
      EvenLowest(x, t - 1);
    }
  }

  lemma {:induction false} AndHalves(x: nat)
    requires x > 0
    ensures And(x, x - 1) == 2 * And(x / 2, if x % 2 == 1 then x / 2 else x / 2 - 1)
  {
    assert (x - 1) / 2 == if x % 2 == 1 then x / 2 else x / 2 - 1;
  }

  lemma {:induction false} OddLowest(x: nat)
    requires x % 2 == 1
    ensures Bit(x, 0) && Shl(Shr(x, 1), 1) == 2 * (x / 2)
  {
    assert Shr(x, 1) == Shr(x / 2, 0) && Shl(x / 2, 1) == 2 * Shl(x / 2, 0);
  }

  lemma {:induction false} EvenLowest(x: nat, t: nat)
    requires x % 2 == 0
    ensures Bit(x, t + 1) == Bit(x / 2, t)
    ensures Shl(Shr(x, t + 2), t + 2) == 2 * Shl(Shr(x / 2, t + 1), t + 1)
  {
    assert Shr(x, t + 2) == Shr(x / 2, t + 1) && Shr(x, t + 1) == Shr(x / 2, t);
    ShlStep(Shr(x / 2, t + 1), t + 1);
  }

  lemma {:induction false} ShlStep(x: nat, k: nat)
    ensures Shl(x, k + 1) == 2 * Shl(x, k)
  {
  }

  lemma AndSelf(a: nat)
    ensures And(a, a) == a
  {
  }

  lemma {:induction false} BelowLowest(x: nat, j: nat)
    requires x > 0 && j < TrailingZeros(x)
    ensures !Bit(x, j)
  {
    if j > 0 { BelowLowest(x / 2, j - 1); }
  }

  lemma {:induction false} ShrOfShl(x: nat, p: nat, k: nat)
    ensures Shr(Shl(x, p), p + k) == Shr(x, k)
  {
    if p > 0 { ShrOfShl(x, p - 1, k); }
  }

  lemma {:induction false} TrailingZerosShl(x: nat, p: nat)
    requires x > 0
    ensures Shl(x, p) > 0 && TrailingZeros(Shl(x, p)) == p + TrailingZeros(x)
  {
    if p > 0 { TrailingZerosShl(x, p - 1); }
  }

  /** The loop's word holds exactly the bits of e from p on; the next one is at t. */
  lemma {:induction false} NextBit(e: nat, p: nat)
    requires Shl(Shr(e, p), p) != 0
    ensures var x := Shl(Shr(e, p), p);
      var t := TrailingZeros(x);
      && p <= t && Bit(e, t)
      && (forall j :: p <= j < t ==> !Bit(e, j))
      && And(x, x - 1) == Shl(Shr(e, t + 1), t + 1)
  {
    hide Shr, Shl, And, TrailingZeros;
    var r := Shr(e, p);
    var x := Shl(r, p);
    if r == 0 { ShlZero(p); }
    TrailingZerosShl(r, p);
    var t := TrailingZeros(x);
    ClearLowest(x);
    ClearLowest(r);
    ShrOfShl(r, p, t + 1 - p);
    ShrShr(e, p, t + 1 - p);
    ShrShr(e, p, t - p);
    forall j | p <= j < t ensures !Bit(e, j) {
      BelowLowest(r, j - p);
      ShrShr(e, p, j - p);
    }
  }

  lemma {:induction false} NoMoreBits(e: nat, p: nat)
    requires Shl(Shr(e, p), p) == 0
    ensures forall j :: p <= j ==> !Bit(e, j)
  {
    var r := Shr(e, p);
    if r > 0 { TrailingZerosShl(r, p); }
    forall j | p <= j ensures !Bit(e, j) {
      ShrShr(e, p, j - p);
      BitZero(j - p);
    }
  }

  // ---------------------------------------------------------------- the exception bitmap

  /** Bit j of the word read at offset i of the bitmap says whether value i + j is an exception. */
  lemma {:induction false} BitmapWord(data: seq<byte>, p: nat, vals: seq<uint32>, w: nat, i: nat, e: nat, j: nat)
    requires At(data, p, LinearBytes(ExceptionBits(vals, w), 1)) && i % 64 == 0 && i < |vals| && j < 64
    requires p + i / 8 + 8 <= |data|
    requires e == if |vals| - i < 64 then Low(LE(data[p + i / 8..p + i / 8 + 8]), |vals| - i)
      else LE(data[p + i / 8..p + i / 8 + 8])
    ensures Bit(e, j) <==> i + j < |vals| && IsException(vals[i + j], w)
  {
    hide LinearBytes, LE, Low, Shr;
    var word := LE(data[p + i / 8..p + i / 8 + 8]);
    var rest := data[p..];
    assert rest[i / 8..i / 8 + 8] == data[p + i / 8..p + i / 8 + 8];
    LESlice(rest, i / 8, 8);
    FieldField(LE(rest), i, 64, j, 1);
    OneBit(Shr(word, j));
    if i + j < |vals| {
      BitsFit(vals, w);
      LinearReadsBack(data, p, ExceptionBits(vals, w), 1, i + j);
      TimesIsProduct(i + j, 1);
    }
    if |vals| - i < 64 {
      MaskedBit(word, |vals| - i, j);
    }
  }

  lemma {:induction false} OneBit(x: nat)
    ensures Low(x, 1) == x % 2
  {
  }

  lemma {:induction false} BitsFit(vals: seq<uint32>, w: nat)
    ensures Fit(ExceptionBits(vals, w), 1)
  {
    assert Pow2(1) == 2;
  }

  /** Without exceptions in between, the list of exceptions does not grow. */
  lemma {:induction false} NoExceptionsBetween(vals: seq<uint32>, w: nat, a: nat, b: nat)
    requires a <= b <= |vals| && forall k :: a <= k < b ==> !IsException(vals[k], w)
    ensures Exceptions(vals[..b], w) == Exceptions(vals[..a], w)
  {
    if a < b {
      NoExceptionsBetween(vals, w, a, b - 1);
      ExceptionsLast(vals[..b], w);
      assert vals[..b][..b - 1] == vals[..b - 1];
    }
  }

  lemma {:induction false} OneException(vals: seq<uint32>, w: nat, a: nat, t: nat)
    requires a <= t < |vals| && IsException(vals[t], w) && forall k :: a <= k < t ==> !IsException(vals[k], w)
    ensures Exceptions(vals[..t + 1], w) == Exceptions(vals[..a], w) + [ShrWord(vals[t], w)]
    ensures |Exceptions(vals[..a], w)| < |Exceptions(vals, w)|
    ensures Exceptions(vals, w)[|Exceptions(vals[..a], w)|] == ShrWord(vals[t], w)
  {
    hide Exceptions, ExceptionIndexes, VbAll, VbBytes;
    NoExceptionsBetween(vals, w, a, t);
    ExceptionsLast(vals[..t + 1], w);
    assert vals[..t + 1][..t] == vals[..t];
    ExceptionsPrefix(vals, w, t + 1);
  }

  ghost predicate ExceptionsSoFar(s: seq<uint32>, vals: seq<uint32>, w: nat, n: nat)
    requires |s| == |vals|
  {
    forall k :: 0 <= k < |s| ==> s[k] == if k < n then ShrWord(vals[k], w) else 0
  }

  /** The width byte, the bitmap and the exceptions of a section follow each other. */
  lemma {:induction false} BitmapSection(data: seq<byte>, pos: nat, vals: seq<uint32>, w: nat, ew: nat)
    requires ew <= 24
    requires At(data, pos, [ew] + LinearBytes(ExceptionBits(vals, w), 1) + LinearBytes(Exceptions(vals, w), ew))
    ensures pos < |data| && data[pos] == ew
    ensures At(data, pos + 1, LinearBytes(ExceptionBits(vals, w), 1))
    ensures At(data, pos + 1 + DivRoundUp(|vals|, 8), LinearBytes(Exceptions(vals, w), ew))
    ensures pos + 1 + DivRoundUp(|vals|, 8) + 16 <= |data|
  {
    hide LinearBytes, BytesForPackedBits, Exceptions, ExceptionBits;
    var bitmap := LinearBytes(ExceptionBits(vals, w), 1);
    AtSplit(data, pos, [ew] + bitmap, LinearBytes(Exceptions(vals, w), ew));
    AtSplit(data, pos, [ew], bitmap);
    AtOne(data, pos, ew);
    BitmapBytes(|vals|);
  }

  /** The 64 bits of the bitmap that begin at value i, cleared of those past the last value. */
  method ReadMapWord(data: seq<byte>, mapPos: nat, num: nat, i: nat, ghost vals: seq<uint32>, ghost w: nat)
    returns (exceptions: nat)
    requires |vals| == num <= BLOCK_SIZE && i % 64 == 0 && i < num
    requires At(data, mapPos, LinearBytes(ExceptionBits(vals, w), 1)) && mapPos + DivRoundUp(num, 8) + 16 <= |data|
    ensures exceptions < Pow2(64)
    ensures forall j :: 0 <= j < 64 ==> (Bit(exceptions, j) <==> i + j < num && IsException(vals[i + j], w))
  {
    hide LinearBytes, ExceptionBits, Bit, Low, Pow2, LE, At, DivRoundUp;
    MapWordInside(num, i);
    exceptions := LE(data[mapPos + i / 8..mapPos + i / 8 + 8]);
    if num - i < 64 { exceptions := Low(exceptions, num - i); }
    forall j | 0 <= j < 64 ensures Bit(exceptions, j) <==> i + j < num && IsException(vals[i + j], w) {
      BitmapWord(data, mapPos, vals, w, i, exceptions, j);
    }
    WordBound(data, mapPos + i / 8, exceptions, num - i);
  }

  /** Fills in the high parts of the exceptions, walking the bitmap 64 bits at a time. */
  method DecodeBitmapExceptions(data: seq<byte>, pos: nat, num: nat, out: array<uint32>, o: nat,
                                ghost vals: seq<uint32>, ghost w: nat, ghost ew: nat)
    returns (next: nat)
    requires |vals| == num <= BLOCK_SIZE && ew <= 24 && Fit(vals, w + ew)
    requires At(data, pos, [ew] + LinearBytes(ExceptionBits(vals, w), 1) + LinearBytes(Exceptions(vals, w), ew))
    requires o + num <= out.Length && forall k :: o <= k < o + num ==> out[k] == 0
    modifies out
    ensures next == pos + 1 + BytesForPackedBits(num, 1) + BytesForPackedBits(|Exceptions(vals, w)|, ew)
    ensures out[..o] == old(out[..o]) && out[o + num..] == old(out[o + num..])
    ensures forall k :: 0 <= k < num ==> out[o + k] == ShrWord(vals[k], w)
  {
    hide LinearBytes, BytesForPackedBits, Exceptions, ExceptionBits, Shr, Low, Pow2, LE, ValueAt, Times, At, Fit, Bit,
         ShrWord, IsException, DivRoundUp, BitReader.Valid;
    BitmapSection(data, pos, vals, w, ew);
    var excWidth := data[pos];
    var mapPos := pos + 1;
    var excPos := mapPos + DivRoundUp(num, 8);
    ExceptionsFit(vals, w, ew);
    var numExceptions := 0;
    var bs := new BitReader(data, excPos, excWidth);
    NoExceptions(w);
    assert vals[..0] == [];
    var i := 0;
    while i < num
      invariant i % 64 == 0 && i < num + 64
      invariant fresh(bs) && bs.Valid() && bs.data == data && bs.bits == ew && bs.start == excPos
      invariant bs.count == numExceptions
      invariant numExceptions == |Exceptions(vals[..if i < num then i else num], w)|
      invariant out[..o] == old(out[..o]) && out[o + num..] == old(out[o + num..])
      invariant ExceptionsSoFar(out[o..o + num], vals, w, i)
      decreases num + 64 - i
    {
      var exceptions := ReadMapWord(data, mapPos, num, i, vals, w);
      numExceptions := DrainWord(data, exceptions, bs, numExceptions, out, o, i, excPos, vals, w, ew);
      i := i + 64;
    }
    assert vals[..num] == vals;
    BitmapBytes(num);
    next := excPos + BytesForPackedBits(numExceptions, excWidth);
  }

  lemma {:induction false} BitmapBytes(num: nat)
    ensures BytesForPackedBits(num, 1) == DivRoundUp(num, 8)
  {
    TimesIsProduct(num, 1);
  }

  lemma {:induction false} MapWordInside(num: nat, i: nat)
    requires i % 64 == 0 && i < num <= 128
    ensures i / 8 + 8 <= DivRoundUp(num, 8) + 16
  {
  }

  lemma {:induction false} WordBound(data: seq<byte>, p: nat, e: nat, n: nat)
    requires p + 8 <= |data| && e == if n < 64 then Low(LE(data[p..p + 8]), n) else LE(data[p..p + 8])
    ensures e < Pow2(64)
  {
    LEBound(data[p..p + 8]);
    LowBound(LE(data[p..p + 8]), n);
  }

  /** The inner loop: one exception for each set bit, lowest first. */
  method DrainWord(data: seq<byte>, word: nat, bs: BitReader, numExceptions: nat, out: array<uint32>, o: nat, i: nat,
                   excPos: nat, ghost vals: seq<uint32>, ghost w: nat, ghost ew: nat) returns (count: nat)
    requires i < |vals| <= BLOCK_SIZE && ew <= 24 && Fit(Exceptions(vals, w), ew) && word < Pow2(64)
    requires At(data, excPos, LinearBytes(Exceptions(vals, w), ew))
    requires forall j :: 0 <= j < 64 ==> (Bit(word, j) <==> i + j < |vals| && IsException(vals[i + j], w))
    requires bs.Valid() && bs.data == data && bs.bits == ew && bs.start == excPos
    requires numExceptions == bs.count == |Exceptions(vals[..i], w)|
    requires o + |vals| <= out.Length && ExceptionsSoFar(out[o..o + |vals|], vals, w, i)
    modifies bs, out
    ensures bs.Valid() && count == bs.count == |Exceptions(vals[..if i + 64 < |vals| then i + 64 else |vals|], w)|
    ensures out[..o] == old(out[..o]) && out[o + |vals|..] == old(out[o + |vals|..])
    ensures ExceptionsSoFar(out[o..o + |vals|], vals, w, i + 64)
  {
    hide LinearBytes, BytesForPackedBits, Exceptions, Shr, Shl, Low, Pow2, LE, TrailingZeros, And, ValueAt, Times,
         ShrWord, BitReader.Valid;
    var exceptions := word;
    count := numExceptions;
    ghost var p := 0;
    ShrNothing(word);
    ShlNothing(word);
    while exceptions != 0
      invariant p <= 64 && i + p <= |vals| + 64 && exceptions == Shl(Shr(word, p), p)
      invariant p > 0 ==> i + p <= |vals|
      invariant bs.Valid() && count == bs.count == |Exceptions(vals[..i + p], w)| && i + p <= |vals|
      invariant out[..o] == old(out[..o]) && out[o + |vals|..] == old(out[o + |vals|..])
      invariant ExceptionsSoFar(out[o..o + |vals|], vals, w, i + p)
      decreases 64 - p
    {
      NextBit(word, p);
      var t := TrailingZeros(exceptions);
      BitBelow(word, 64, t);
      forall k | i + p <= k < i + t ensures !IsException(vals[k], w) {
        assert !Bit(word, k - i);
      }
      OneException(vals, w, i + p, i + t);
      LinearReadsBack(data, excPos, Exceptions(vals, w), ew, bs.count);
      var v := bs.Read();
      count := count + 1;
      ghost var was := out[o..o + |vals|];
      out[o + i + t] := v;
      SkipTo(was, out[o..o + |vals|], vals, w, i + p, i + t);
      exceptions := And(exceptions, exceptions - 1);
      p := t + 1;
    }
    NoMoreBits(word, p);
    ghost var stop := if i + 64 < |vals| then i + 64 else |vals|;
    forall k | i + p <= k < stop ensures !IsException(vals[k], w) {
      assert !Bit(word, k - i);
    }
    NoExceptionsBetween(vals, w, i + p, stop);
    SkipRest(out[o..o + |vals|], vals, w, i + p, stop);
  }

  lemma {:induction false} ShlNothing(x: nat)
    ensures Shl(x, 0) == x
  {
  }

  lemma {:induction false} BitBelow(x: nat, n: nat, t: nat)
    requires x < Pow2(n) && Bit(x, t)
    ensures t < n
  {
    if t >= n { ShrLarge(x, n, t); }
  }

  lemma {:induction false} SkipTo(was: seq<uint32>, now: seq<uint32>, vals: seq<uint32>, w: nat, a: nat, t: nat)
    requires |was| == |vals| && a <= t < |vals| && ExceptionsSoFar(was, vals, w, a)
    requires now == was[t := ShrWord(vals[t], w)] && forall k :: a <= k < t ==> !IsException(vals[k], w)
    ensures ExceptionsSoFar(now, vals, w, t + 1)
  {
  }

  lemma {:induction false} SkipRest(s: seq<uint32>, vals: seq<uint32>, w: nat, a: nat, b: nat)
    requires |s| == |vals| && a <= b <= |vals| && ExceptionsSoFar(s, vals, w, a)
    requires forall k :: a <= k < b ==> !IsException(vals[k], w)
    ensures ExceptionsSoFar(s, vals, w, b)
  {
  }
}
