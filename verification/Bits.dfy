/** Fixed-width words and byte buffers read as natural numbers.

  A word is a natural number below a power of two; Shl and Shr are the shifts and Low is
  the mask of the low bits. A byte buffer is the number it spells in little-endian order,
  so that "the w bits from bit p on" is one expression, Field, whether the bits lie in a
  word or in a buffer.
 */
module Bits {

  type byte = x: int | 0 <= x < 0x100
  type uint32 = x: int | 0 <= x < 0x1_0000_0000
  type uint64 = x: int | 0 <= x < 0x1_0000_0000_0000_0000

  function Pow2(n: nat): (p: nat)
    ensures p >= 1
  {
    if n == 0 then 1 else 2 * Pow2(n - 1)
  }

  function Shl(x: nat, k: nat): nat {
    if k == 0 then x else 2 * Shl(x, k - 1)
  }

  function Shr(x: nat, k: nat): nat {
    if k == 0 then x else Shr(x / 2, k - 1)
  }

  /** x with all but its low k bits masked off. */
  function Low(x: nat, k: nat): nat {
    if k == 0 then 0 else x % 2 + 2 * Low(x / 2, k - 1)
  }

  /** Bits p, p+1, ..., p+w-1 of x. */
  function Field(x: nat, p: nat, w: nat): nat {
    Low(Shr(x, p), w)
  }

  /** Bitwise or, bit by bit. */
  function Or(a: nat, b: nat): nat
    decreases a + b
  {
    if a == 0 && b == 0 then 0
    else 2 * Or(a / 2, b / 2) + (if a % 2 == 1 || b % 2 == 1 then 1 else 0)
  }

  /** Bitwise and, bit by bit. */
  function And(a: nat, b: nat): nat
    decreases a + b
  {
    if a == 0 && b == 0 then 0
    else 2 * And(a / 2, b / 2) + (if a % 2 == 1 && b % 2 == 1 then 1 else 0)
  }

  /** Bitwise exclusive or, bit by bit. */
  function Xor(a: nat, b: nat): nat
    decreases a + b
  {
    if a == 0 && b == 0 then 0
    else 2 * Xor(a / 2, b / 2) + (if a % 2 != b % 2 then 1 else 0)
  }

  /** Position of the highest set bit, plus one; zero for zero. */
  function NumBits(x: nat): nat {
    if x == 0 then 0 else 1 + NumBits(x / 2)
  }

  /** The numbers from lo up to hi. */
  function Interval(lo: nat, hi: nat): (r: set<nat>)
    ensures |r| == if lo < hi then hi - lo else 0
    ensures forall i: nat :: i in r <==> lo <= i < hi
  {
    if lo >= hi then {} else Interval(lo, hi - 1) + {hi - 1}
  }

  lemma {:induction false} SubsetSize<T>(a: set<T>, b: set<T>)
    requires a <= b
    ensures |a| <= |b|
  {
    if a != {} {
      var x :| x in a;
      SubsetSize(a - {x}, b - {x});
    }
  }

  function DivRoundUp(val: nat, div: nat): nat
    requires div > 0
  {
    (val + div - 1) / div
  }

  /** n * w, by repeated addition, which keeps products out of the proofs. */
  function Times(n: nat, w: nat): nat {
    if n == 0 then 0 else Times(n - 1, w) + w
  }

  lemma TimesIsProduct(n: nat, w: nat)
    ensures Times(n, w) == n * w
  {
  }

  function BytesForPackedBits(num: nat, bitWidth: nat): nat {
    DivRoundUp(Times(num, bitWidth), 8)
  }

  // ---------------------------------------------------------------- slices

  lemma {:induction false} SubSlice<T>(s: seq<T>, a: nat, b: nat, c: nat, d: nat)
    requires a <= b <= |s| && c <= d <= b - a
    ensures s[a..b][c..d] == s[a + c..a + d]
  {
    var x, y := s[a..b][c..d], s[a + c..a + d];
    assert |x| == |y|;
    forall k | 0 <= k < |x| ensures x[k] == y[k] {
      assert x[k] == s[a..b][c + k];
    }
  }

  /** Sequences that agree on a range have the same slice there. */
  lemma {:induction false} SameSlice<T>(a: seq<T>, b: seq<T>, lo: nat, hi: nat)
    requires lo <= hi <= |a| && hi <= |b| && forall i :: lo <= i < hi ==> a[i] == b[i]
    ensures a[lo..hi] == b[lo..hi]
  {
    assert forall i :: 0 <= i < hi - lo ==> a[lo..hi][i] == b[lo..hi][i];
  }

  lemma {:induction false} ThreeParts<T>(s: seq<T>, a: nat, b: nat, c: nat)
    requires a <= b <= c <= |s|
    ensures s[a..c] == s[a..b] + s[b..c]
  {
  }

  // ---------------------------------------------------------------- powers of two

  lemma {:induction false} Pow2Mono(a: nat, b: nat)
    requires a <= b
    ensures Pow2(a) <= Pow2(b)
  {
    if a < b { Pow2Mono(a, b - 1); }
  }

  lemma {:induction false} Pow2Values()
    ensures Pow2(8) == 0x100 && Pow2(16) == 0x1_0000 && Pow2(24) == 0x100_0000
    ensures Pow2(32) == 0x1_0000_0000 && Pow2(64) == 0x1_0000_0000_0000_0000
    ensures Pow2(7) == 0x80 && Pow2(14) == 0x4000 && Pow2(19) == 0x8_0000 && Pow2(21) == 0x20_0000
    ensures Pow2(28) == 0x1000_0000
  {
    assert Pow2(4) == 16;
    assert Pow2(8) == 0x100;
    assert Pow2(12) == 0x1000;
    assert Pow2(16) == 0x1_0000;
    assert Pow2(20) == 0x10_0000;
    assert Pow2(24) == 0x100_0000;
    assert Pow2(28) == 0x1000_0000;
    assert Pow2(32) == 0x1_0000_0000;
    assert Pow2(64) == 0x1_0000_0000_0000_0000 by {
      assert Pow2(36) == 0x10_0000_0000;
      assert Pow2(40) == 0x100_0000_0000;
      assert Pow2(44) == 0x1000_0000_0000;
      assert Pow2(48) == 0x1_0000_0000_0000;
      assert Pow2(52) == 0x10_0000_0000_0000;
      assert Pow2(56) == 0x100_0000_0000_0000;
      assert Pow2(60) == 0x1000_0000_0000_0000;
    }
  }


  // ---------------------------------------------------------------- shifts and masks

  lemma {:induction false} ShlShl(x: nat, a: nat, b: nat)
    ensures Shl(Shl(x, a), b) == Shl(x, a + b)
  {
    if b > 0 { ShlShl(x, a, b - 1); }
  }

  lemma {:induction false} ShrShr(x: nat, a: nat, b: nat)
    ensures Shr(Shr(x, a), b) == Shr(x, a + b)
  {
    if a > 0 { ShrShr(x / 2, a - 1, b); }
  }

  lemma {:induction false} ShlAdd(x: nat, y: nat, k: nat)
    ensures Shl(x + y, k) == Shl(x, k) + Shl(y, k)
  {
    if k > 0 { ShlAdd(x, y, k - 1); }
  }

  /** A number is its low bits plus its high bits in place. */
  lemma {:induction false} Split(x: nat, k: nat)
    ensures Low(x, k) + Shl(Shr(x, k), k) == x
    ensures Low(x, k) < Pow2(k)
  {
    if k > 0 { Split(x / 2, k - 1); }
  }

  /** Low and high bits of a sum of disjoint parts. */
  lemma {:induction false} Join(lo: nat, hi: nat, k: nat)
    requires lo < Pow2(k)
    ensures Low(lo + Shl(hi, k), k) == lo
    ensures Shr(lo + Shl(hi, k), k) == hi
  {
    if k > 0 {
      Join(lo / 2, hi, k - 1);
      assert (lo + Shl(hi, k)) / 2 == lo / 2 + Shl(hi, k - 1);
    }
  }

  lemma {:induction false} JoinBound(lo: nat, hi: nat, a: nat, b: nat)
    requires lo < Pow2(a) && hi < Pow2(b)
    ensures lo + Shl(hi, a) < Pow2(a + b)
  {
    if a > 0 {
      JoinBound(lo / 2, hi, a - 1, b);
    }
  }

  lemma {:induction false} LowBound(x: nat, k: nat)
    ensures Low(x, k) < Pow2(k)
    ensures Low(x, k) <= x
  {
    Split(x, k);
  }

  lemma {:induction false} LowSmall(x: nat, k: nat)
    requires x < Pow2(k)
    ensures Low(x, k) == x && Shr(x, k) == 0
  {
    assert Shl(0, k) == 0 by { ShlZero(k); }
    Join(x, 0, k);
  }

  lemma ShlZero(k: nat)
    ensures Shl(0, k) == 0 && Shr(0, k) == 0 && Low(0, k) == 0
  {
  }

  lemma {:induction false} LowLow(x: nat, a: nat, b: nat)
    ensures Low(Low(x, a + b), a) == Low(x, a)
    ensures Shr(Low(x, a + b), a) == Low(Shr(x, a), b)
  {
    if a > 0 {
      LowLow(x / 2, a - 1, b);
      assert Low(x, a + b) / 2 == Low(x / 2, a - 1 + b);
    }
  }

  lemma {:induction false} ShrBound(x: nat, a: nat, b: nat)
    requires x < Pow2(a + b)
    ensures Shr(x, a) < Pow2(b)
  {
    if a > 0 { ShrBound(x / 2, a - 1, b); }
  }

  lemma {:induction false} ShrMono(x: nat, k: nat)
    ensures Shr(x, k) <= x
  {
    if k > 0 { ShrMono(x / 2, k - 1); }
  }

  /** A field of a field is a field. */
  lemma {:induction false} FieldField(x: nat, p: nat, n: nat, q: nat, w: nat)
    requires q + w <= n
    ensures Field(Field(x, p, n), q, w) == Field(x, p + q, w)
  {
    var y := Shr(x, p);
    LowLow(y, q, n - q);
    LowLow(Shr(y, q), w, n - q - w);
    ShrShr(x, p, q);
  }

  /** Bits from bit n on do not show in a field that ends at or below n. */
  lemma {:induction false} FieldIgnoresHigh(lo: nat, n: nat, hi: nat, p: nat, w: nat)
    requires lo < Pow2(n)
    requires p + w <= n
    ensures Field(lo + Shl(hi, n), p, w) == Field(lo, p, w)
  {
    Join(lo, hi, n);
    LowSmall(lo, n);
    FieldField(lo + Shl(hi, n), 0, n, p, w);
  }

  lemma {:induction false} ShrTwo(x: nat)
    ensures Shr(x, 2) == x / 4 && Low(x, 2) == x % 4 && Shl(x, 2) == 4 * x
  {
    assert Shr(x / 2, 1) == Shr(x / 4, 0) == x / 4;
    assert Low(x / 2, 1) == x / 2 % 2 + 2 * Low(x / 4, 0) == x / 2 % 2;
    assert Shl(x, 1) == 2 * Shl(x, 0) == 2 * x;
  }

  lemma {:induction false} ShrFour(x: nat)
    ensures Shr(x, 4) == x / 16 && Low(x, 4) == x % 16 && Shl(x, 4) == 16 * x
  {
    hide Low, Shr, Shl;
    ShrTwo(x);
    ShrTwo(x / 4);
    ShrTwo(4 * x);
    ShlShl(x, 2, 2);
    ShrShr(x, 2, 2);
    LowLow(x, 2, 2);
    Split(Low(x, 4), 2);
    ShrTwo(x / 4 % 4);
  }

  lemma {:induction false} ShrByte(x: nat)
    ensures Shr(x, 8) == x / 0x100 && Low(x, 8) == x % 0x100 && Shl(x, 8) == 0x100 * x
  {
    hide Low, Shr, Shl;
    ShrFour(x);
    ShrFour(x / 16);
    ShrFour(16 * x);
    ShlShl(x, 4, 4);
    ShrShr(x, 4, 4);
    LowLow(x, 4, 4);
    Split(Low(x, 8), 4);
    ShrFour(x / 16 % 16);
  }

  lemma {:induction false} LowIsMod32(x: nat)
    ensures Low(x, 32) == x % 0x1_0000_0000
  {
    hide Low, Shr, Shl;
    Shr16(x);
    Shr16(x / 0x1_0000);
    LowLow(x, 16, 16);
    Split(Low(x, 32), 16);
    Shr16(x / 0x1_0000 % 0x1_0000);
  }

  lemma {:induction false} Shr16(x: nat)
    ensures Shr(x, 16) == x / 0x1_0000 && Low(x, 16) == x % 0x1_0000 && Shl(x, 16) == 0x1_0000 * x
  {
    hide Low, Shr, Shl;
    ShrByte(x);
    ShrByte(x / 0x100);
    ShrByte(0x100 * x);
    ShlShl(x, 8, 8);
    ShrShr(x, 8, 8);
    LowLow(x, 8, 8);
    Split(Low(x, 16), 8);
    ShrByte(x / 0x100 % 0x100);
  }

  /** Masking a sum whose parts meet at bit k. */
  lemma {:induction false} LowJoin(lo: nat, hi: nat, k: nat, m: nat)
    requires lo < Pow2(k)
    ensures Low(lo + Shl(hi, k), k + m) == lo + Shl(Low(hi, m), k)
  {
    var x := lo + Shl(hi, k);
    Join(lo, hi, k);
    LowLow(x, k, m);
    Split(Low(x, k + m), k);
  }

  // ---------------------------------------------------------------- or, and

  /** An or of two numbers without common bits is their sum. */
  lemma {:induction false} OrDisjoint(lo: nat, hi: nat, k: nat)
    requires lo < Pow2(k)
    ensures Or(lo, Shl(hi, k)) == lo + Shl(hi, k)
  {
    if k == 0 {
      OrZero(hi);
    } else {
      OrDisjoint(lo / 2, hi, k - 1);
    }
  }

  lemma OrZero(b: nat)
    ensures Or(0, b) == b
  {
  }

  lemma {:induction false} XorBound(a: nat, b: nat, k: nat)
    requires a < Pow2(k) && b < Pow2(k)
    ensures Xor(a, b) < Pow2(k)
  {
    if k > 0 { XorBound(a / 2, b / 2, k - 1); }
  }

  lemma {:induction false} XorUndone(a: nat, b: nat)
    ensures Xor(Xor(a, b), b) == a
    decreases a + b
  {
    if a != 0 || b != 0 {
      XorUndone(a / 2, b / 2);
      var x := Xor(a, b);
      assert x / 2 == Xor(a / 2, b / 2);
    }
  }

  lemma {:induction false} XorShr(a: nat, b: nat, k: nat)
    ensures Shr(Xor(a, b), k) == Xor(Shr(a, k), Shr(b, k))
  {
    if k > 0 {
      XorShr(a / 2, b / 2, k - 1);
      assert Xor(a, b) / 2 == Xor(a / 2, b / 2);
    }
  }

  lemma {:induction false} XorZero(a: nat)
    ensures Xor(a, 0) == a
  {
    if a > 0 { XorZero(a / 2); }
  }

  lemma {:induction false} AndBound(a: nat, b: nat, k: nat)
    requires a < Pow2(k)
    ensures And(a, b) < Pow2(k)
  {
    if k == 0 {
      AndZero(b);
    } else {
      AndBound(a / 2, b / 2, k - 1);
    }
  }

  lemma {:induction false} AndZero(b: nat)
    ensures And(0, b) == 0
  {
    if b > 0 { AndZero(b / 2); }
  }

  /** Bit i of x. */
  predicate Bit(x: nat, i: nat) {
    Shr(x, i) % 2 == 1
  }

  lemma {:induction false} BitZero(i: nat)
    ensures !Bit(0, i)
  {
    ShlZero(i);
  }

  lemma {:induction false} ShiftedBit(x: nat, k: nat, j: nat)
    ensures Bit(Shr(x, k), j) == Bit(x, k + j)
  {
    ShrShr(x, k, j);
  }

  lemma {:induction false} MaskedBit(x: nat, n: nat, j: nat)
    ensures Bit(Low(x, n), j) <==> j < n && Bit(x, j)
  {
    if j < n {
      LowLow(x, j, n - j);
    } else {
      LowBound(x, n);
      ShrLarge(Low(x, n), n, j);
    }
  }

  lemma {:induction false} ShrLarge(x: nat, n: nat, j: nat)
    requires x < Pow2(n) && n <= j
    ensures Shr(x, j) == 0
  {
    LowSmall(x, n);
    ShrShr(x, n, j - n);
    ShlZero(j - n);
  }

  /** Bits of two parts that meet at bit k. */
  lemma {:induction false} JoinedBit(lo: nat, hi: nat, k: nat, j: nat)
    requires lo < Pow2(k)
    ensures Bit(lo + Shl(hi, k), j) == if j < k then Bit(lo, j) else Bit(hi, j - k)
  {
    hide Low, Shl, Shr;
    Join(lo, hi, k);
    if j < k {
      MaskedBit(lo + Shl(hi, k), k, j);
    } else {
      ShrShr(lo + Shl(hi, k), k, j - k);
    }
  }

  lemma {:induction false} XorBit(a: nat, b: nat, j: nat)
    ensures Bit(Xor(a, b), j) <==> Bit(a, j) != Bit(b, j)
  {
    hide Shr;
    XorShr(a, b, j);
  }

  lemma {:induction false} AndBit(a: nat, b: nat, j: nat)
    ensures Bit(And(a, b), j) <==> Bit(a, j) && Bit(b, j)
  {
    if j > 0 {
      AndBit(a / 2, b / 2, j - 1);
      assert And(a, b) / 2 == And(a / 2, b / 2);
    }
  }

  /** Bit b of a buffer is bit b % 8 of its byte b / 8. */
  lemma {:induction false} BufferBit(s: seq<byte>, b: nat)
    requires b / 8 < |s|
    ensures Bit(LE(s), b) == Bit(s[b / 8], b % 8)
  {
    hide LE, Low, Shr;
    var k := b / 8;
    LESlice(s, k, 1);
    assert s[k..k + 1] == [s[k]];
    OneByte(s[k]);
    MaskedBit(Shr(LE(s), 8 * k), 8, b % 8);
    ShiftedBit(LE(s), 8 * k, b % 8);
  }

  lemma {:induction false} OneByte(b: byte)
    ensures LE([b]) == b
  {
    assert [b][1..] == [];
  }

  // ---------------------------------------------------------------- number of bits

  /** NumBits(x) is the least width that holds x. */
  lemma {:induction false} NumBitsLeast(x: nat, w: nat)
    ensures NumBits(x) <= w <==> x < Pow2(w)
  {
    if x == 0 {
    } else if w == 0 {
    } else {
      NumBitsLeast(x / 2, w - 1);
    }
  }

  lemma {:induction false} NumBitsShift(x: nat, w: nat)
    ensures NumBits(Shr(x, w)) == if NumBits(x) <= w then 0 else NumBits(x) - w
  {
    if w == 0 {
    } else if x == 0 {
      ShlZero(w);
    } else {
      NumBitsShift(x / 2, w - 1);
    }
  }

  // ---------------------------------------------------------------- little-endian buffers

  /** The number a buffer spells, least significant byte first. */
  function LE(s: seq<byte>): nat {
    if s == [] then 0 else s[0] + 0x100 * LE(s[1..])
  }

  /** The low n bytes of x, least significant first. */
  function LEBytes(x: nat, n: nat): (s: seq<byte>)
    ensures |s| == n
  {
    if n == 0 then [] else [x % 0x100] + LEBytes(x / 0x100, n - 1)
  }

  lemma {:induction false} ShlByte(x: nat, k: nat)
    ensures 0x100 * Shl(x, k) == Shl(x, k + 8)
    ensures Pow2(k + 8) == 0x100 * Pow2(k)
  {
    ShrByte(Shl(x, k));
    ShlShl(x, k, 8);
    assert Pow2(k + 4) == 16 * Pow2(k) by { assert Pow2(k + 2) == 4 * Pow2(k); }
    assert Pow2(k + 8) == 16 * Pow2(k + 4) by { assert Pow2(k + 6) == 4 * Pow2(k + 4); }
  }

  lemma {:induction false} LEAppend(a: seq<byte>, b: seq<byte>)
    ensures LE(a + b) == LE(a) + Shl(LE(b), 8 * |a|)
  {
    if a == [] {
      assert a + b == b;
    } else {
      LEAppend(a[1..], b);
      assert (a + b)[1..] == a[1..] + b;
      ShlByte(LE(b), 8 * (|a| - 1));
    }
  }

  lemma {:induction false} LEBound(s: seq<byte>)
    ensures LE(s) < Pow2(8 * |s|)
  {
    if s != [] {
      LEBound(s[1..]);
      ShlByte(0, 8 * (|s| - 1));
    }
  }

  /** The first k bytes are the low 8k bits, the others the rest. */
  lemma {:induction false} LESplit(s: seq<byte>, k: nat)
    requires k <= |s|
    ensures LE(s[..k]) == Low(LE(s), 8 * k)
    ensures LE(s[k..]) == Shr(LE(s), 8 * k)
  {
    LEParts(s[..k], s[k..]);
    assert s == s[..k] + s[k..];
  }

  lemma {:induction false} LEParts(a: seq<byte>, b: seq<byte>)
    ensures LE(a) == Low(LE(a + b), 8 * |a|)
    ensures LE(b) == Shr(LE(a + b), 8 * |a|)
  {
    LEAppend(a, b);
    LEBound(a);
    Join(LE(a), LE(b), 8 * |a|);
  }

  /** n bytes at offset k are a field of the buffer. */
  lemma {:induction false} LESlice(s: seq<byte>, k: nat, n: nat)
    requires k + n <= |s|
    ensures LE(s[k..k + n]) == Field(LE(s), 8 * k, 8 * n)
  {
    LESplit(s, k);
    LESplit(s[k..], n);
    assert s[k..][..n] == s[k..k + n];
  }

  lemma {:induction false} LEBytesLE(s: seq<byte>)
    ensures LEBytes(LE(s), |s|) == s
  {
    if s != [] {
      LEBytesLE(s[1..]);
      assert LE(s) % 0x100 == s[0] && LE(s) / 0x100 == LE(s[1..]);
      assert s == [s[0]] + s[1..];
    }
  }

  lemma {:induction false} LEOfLEBytes(x: nat, n: nat)
    ensures LE(LEBytes(x, n)) == Low(x, 8 * n)
  {
    if n > 0 {
      LEOfLEBytes(x / 0x100, n - 1);
      var s := LEBytes(x, n);
      assert s[1..] == LEBytes(x / 0x100, n - 1);
      ShrByte(x);
      LowLow(x, 8, 8 * (n - 1));
      Split(Low(x, 8 * n), 8);
      assert 8 + 8 * (n - 1) == 8 * n;
      ShlByte(Low(x / 0x100, 8 * (n - 1)), 0);
    }
  }

  /** A prefix of a byte image depends on the low bits only. */
  lemma {:induction false} LEBytesPrefix(x: nat, n: nat, k: nat)
    requires k <= n
    ensures LEBytes(x, n)[..k] == LEBytes(x, k)
  {
    if k > 0 { LEBytesPrefix(x / 0x100, n - 1, k - 1); }
  }

  lemma {:induction false} LEBytesAt(x: nat, n: nat, c: nat)
    requires c < n
    ensures LEBytes(x, n)[c] == Shr(x, 8 * c) % 0x100
  {
    if c > 0 {
      LEBytesAt(x / 0x100, n - 1, c - 1);
      ShrByte(x);
      ShrShr(x, 8, 8 * (c - 1));
      assert 8 + 8 * (c - 1) == 8 * c;
    }
  }
}
