/** The parts of SHA-256 bit by bit and in numbers, as FIPS 180-4 defines them. */
module Sha256Standard {
  import opened Bits
  import opened Sha256
  import Streams

  // ---------------------------------------------------------------- functions on words

  lemma {:induction false} AddIs(a: uint32, b: uint32)
    ensures Add32(a, b) == (a + b) % 0x1_0000_0000
  {
  }

  lemma {:induction false} NotBit(x: nat, n: nat, j: nat)
    requires x < Pow2(n) && j < n
    ensures Bit(Pow2(n) - 1 - x, j) <==> !Bit(x, j)
  {
    if j > 0 {
      assert (Pow2(n) - 1 - x) / 2 == Pow2(n - 1) - 1 - x / 2;
      NotBit(x / 2, n - 1, j - 1);
    }
  }

  /** Rotation to the right. */
  lemma {:induction false} RotrBit(x: uint32, k: nat, j: nat)
    requires k <= 32 && j < 32
    ensures Bit(Rotr32(x, k), j) <==> Bit(x, (j + k) % 32)
  {
    hide Low, Shl, Shr, Bit, Pow2;
    Pow2Values();
    ShrBound(x, k, 32 - k);
    JoinedBit(Shr(x, k), Low(x, k), 32 - k, j);
    if j < 32 - k {
      ShiftedBit(x, k, j);
    } else {
      MaskedBit(x, k, j - (32 - k));
    }
  }

  lemma {:induction false} ShrBit(x: uint32, k: nat, j: nat)
    requires j < 32
    ensures Bit(Shr32(x, k), j) <==> j + k < 32 && Bit(x, j + k)
  {
    ShiftedBit(x, k, j);
    if j + k >= 32 {
      Pow2Values();
      ShrLarge(x, 32, j + k);
    }
  }

  /** Choice and majority, section 4.1.2. */
  lemma {:induction false} ChoiceAndMajority(x: uint32, y: uint32, z: uint32, j: nat)
    requires j < 32
    ensures Bit(Ch(x, y, z), j) <==> if Bit(x, j) then Bit(y, j) else Bit(z, j)
    ensures Bit(Maj(x, y, z), j) <==> (Bit(x, j) && Bit(y, j)) || (Bit(x, j) && Bit(z, j)) || (Bit(y, j) && Bit(z, j))
  {
    hide Bit, And, Xor;
    Pow2Values();
    NotBit(x, 32, j);
    AndBit(x, y, j);
    AndBit(Not32(x), z, j);
    XorBit(And32(x, y), And32(Not32(x), z), j);
    AndBit(x, z, j);
    AndBit(y, z, j);
    XorBit(And32(x, y), And32(x, z), j);
    XorBit(Xor32(And32(x, y), And32(x, z)), And32(y, z), j);
  }

  /** The four functions of one word: each bit is the parity of three. */
  lemma {:induction false} SigmaBits(x: uint32, j: nat)
    requires j < 32
    ensures Bit(UpperSigma0(x), j) <==> (Bit(x, (j + 2) % 32) != Bit(x, (j + 13) % 32)) != Bit(x, (j + 22) % 32)
    ensures Bit(UpperSigma1(x), j) <==> (Bit(x, (j + 6) % 32) != Bit(x, (j + 11) % 32)) != Bit(x, (j + 25) % 32)
    ensures Bit(LowerSigma0(x), j) <==>
      (Bit(x, (j + 7) % 32) != Bit(x, (j + 18) % 32)) != (j + 3 < 32 && Bit(x, j + 3))
    ensures Bit(LowerSigma1(x), j) <==>
      (Bit(x, (j + 17) % 32) != Bit(x, (j + 19) % 32)) != (j + 10 < 32 && Bit(x, j + 10))
  {
    hide Bit, Rotr32, Shr32, Xor32;
    ThreeParity(Rotr32(x, 2), Rotr32(x, 13), Rotr32(x, 22), j);
    ThreeParity(Rotr32(x, 6), Rotr32(x, 11), Rotr32(x, 25), j);
    ThreeParity(Rotr32(x, 7), Rotr32(x, 18), Shr32(x, 3), j);
    ThreeParity(Rotr32(x, 17), Rotr32(x, 19), Shr32(x, 10), j);
    RotrBit(x, 2, j);
    RotrBit(x, 13, j);
    RotrBit(x, 22, j);
    RotrBit(x, 6, j);
    RotrBit(x, 11, j);
    RotrBit(x, 25, j);
    RotrBit(x, 7, j);
    RotrBit(x, 18, j);
    RotrBit(x, 17, j);
    RotrBit(x, 19, j);
    ShrBit(x, 3, j);
    ShrBit(x, 10, j);
  }

  lemma {:induction false} ThreeParity(a: uint32, b: uint32, c: uint32, j: nat)
    ensures Bit(Xor32(Xor32(a, b), c), j) <==> (Bit(a, j) != Bit(b, j)) != Bit(c, j)
  {
    hide Bit, Xor;
    XorBit(a, b, j);
    XorBit(Xor32(a, b), c, j);
  }

  // ---------------------------------------------------------------- the compression function

  /** The a of the working variables before step t; for t <= 0, the older ones. */
  ghost function A(s: State, block: seq<byte>, t: int): uint32
    requires |block| == 64 && -3 <= t <= 64
  {
    if t >= 0 then Steps(s, block, t).a else if t == -1 then s.b else if t == -2 then s.c else s.d
  }

  /** And the e. */
  ghost function E(s: State, block: seq<byte>, t: int): uint32
    requires |block| == 64 && -3 <= t <= 64
  {
    if t >= 0 then Steps(s, block, t).e else if t == -1 then s.f else if t == -2 then s.g else s.h
  }

  /** The other six variables are those two of up to three steps ago. */
  lemma {:induction false} OlderVariables(s: State, block: seq<byte>, t: nat)
    requires |block| == 64 && t <= 64
    ensures Steps(s, block, t) == State(A(s, block, t), A(s, block, t - 1), A(s, block, t - 2), A(s, block, t - 3),
                                        E(s, block, t), E(s, block, t - 1), E(s, block, t - 2), E(s, block, t - 3))
  {
    hide Add32, UpperSigma0, UpperSigma1, Ch, Maj, W, Steps;
    StepsNext(s, block, if t == 0 then 0 else t - 1);
    if t > 0 { OlderVariables(s, block, t - 1); }
  }

  /** One step of section 6.2.2. */
  lemma {:induction false} StepIs(s: State, block: seq<byte>, t: nat)
    requires |block| == 64 && t < 64
    ensures var t1 := E(s, block, t - 3) + UpperSigma1(E(s, block, t))
                      + Ch(E(s, block, t), E(s, block, t - 1), E(s, block, t - 2)) + K[t] + W(block, t);
      var t2 := UpperSigma0(A(s, block, t)) + Maj(A(s, block, t), A(s, block, t - 1), A(s, block, t - 2));
      && A(s, block, t + 1) == (t1 + t2) % 0x1_0000_0000
      && E(s, block, t + 1) == (A(s, block, t - 3) + t1) % 0x1_0000_0000
  {
    hide Step, UpperSigma0, UpperSigma1, Ch, Maj, W, Steps;
    OlderVariables(s, block, t);
    StepsNext(s, block, t);
    var v := Steps(s, block, t);
    StepSums(v, K[t], W(block, t));
  }

  lemma {:induction false} StepSums(v: State, k: uint32, w: uint32)
    ensures var t1, t2 := v.h + UpperSigma1(v.e) + Ch(v.e, v.f, v.g) + k + w, UpperSigma0(v.a) + Maj(v.a, v.b, v.c);
      Step(v, k, w).a == (t1 + t2) % 0x1_0000_0000 && Step(v, k, w).e == (v.d + t1) % 0x1_0000_0000
  {
    hide Add32, UpperSigma0, UpperSigma1, Ch, Maj;
    var t1 := v.h + UpperSigma1(v.e) + Ch(v.e, v.f, v.g) + k + w;
    FiveSum(v.h, UpperSigma1(v.e), Ch(v.e, v.f, v.g), k, w);
    AddIs(UpperSigma0(v.a), Maj(v.a, v.b, v.c));
    AddBoth(t1, UpperSigma0(v.a) + Maj(v.a, v.b, v.c));
    AddBoth(v.d, t1);
    assert v.d % 0x1_0000_0000 == v.d;
  }

  lemma {:induction false} AddBoth(x: nat, y: nat)
    ensures Add32(x % 0x1_0000_0000, y % 0x1_0000_0000) == (x + y) % 0x1_0000_0000
  {
  }

  lemma {:induction false} AddToSum(x: nat, c: uint32)
    ensures Add32(x % 0x1_0000_0000, c) == (x + c) % 0x1_0000_0000
  {
  }

  lemma {:induction false} FiveSum(a: uint32, b: uint32, c: uint32, d: uint32, e: uint32)
    ensures Add32(Add32(Add32(a, b), c), d) == (a + b + c + d) % 0x1_0000_0000
    ensures Add32(Add32(Add32(Add32(a, b), c), d), e) == (a + b + c + d + e) % 0x1_0000_0000
  {
    hide Add32;
    AddIs(a, b);
    AddToSum(a + b, c);
    AddToSum(a + b + c, d);
    AddToSum(a + b + c + d, e);
  }

  /** The message schedule: big-endian words, and then sums of earlier ones. */
  lemma {:induction false} ScheduleIs(block: seq<byte>, t: nat)
    requires |block| == 64 && t < 64
    ensures t < 16 ==>
      var b := block[4 * t..4 * t + 4];
      W(block, t) == ((b[0] as int * 0x100 + b[1] as int) * 0x100 + b[2] as int) * 0x100 + b[3] as int
    ensures t >= 16 ==>
      var sum := LowerSigma1(W(block, t - 2)) + W(block, t - 7) + LowerSigma0(W(block, t - 15)) + W(block, t - 16);
      W(block, t) == sum % 0x1_0000_0000
  {
    WordNext(block, t);
    if t >= 16 {
      hide Add32, W;
      var a, b, c := LowerSigma1(W(block, t - 2)), W(block, t - 7), LowerSigma0(W(block, t - 15));
      FiveSum(a, b, c, W(block, t - 16), 0);
    }
  }

  /** The variables of the last steps are added to the hash value. */
  lemma {:induction false} CompressIs(s: State, block: seq<byte>)
    requires |block| == 64
    ensures var r := Compress(s, block);
      && r.a == (s.a + A(s, block, 64)) % 0x1_0000_0000 && r.b == (s.b + A(s, block, 63)) % 0x1_0000_0000
      && r.c == (s.c + A(s, block, 62)) % 0x1_0000_0000 && r.d == (s.d + A(s, block, 61)) % 0x1_0000_0000
      && r.e == (s.e + E(s, block, 64)) % 0x1_0000_0000 && r.f == (s.f + E(s, block, 63)) % 0x1_0000_0000
      && r.g == (s.g + E(s, block, 62)) % 0x1_0000_0000 && r.h == (s.h + E(s, block, 61)) % 0x1_0000_0000
  {
    hide Steps, A, E;
    OlderVariables(s, block, 64);
  }

  // ---------------------------------------------------------------- padding and output

  /** A message, a one bit, zeroes and the length in bits fill whole blocks. */
  lemma {:induction false} PaddedIs(m: seq<byte>)
    requires 8 * |m| < 0x1_0000_0000_0000_0000
    ensures var p, n := m + Padding(|m|), |m + Padding(|m|)|;
      && n % 64 == 0 && n < |m| + 73 && p[..|m|] == m && p[|m|] == 0x80
      && (forall i :: |m| < i < n - 8 ==> p[i] == 0)
      && Word(p, n - 8) * 0x1_0000_0000 + Word(p, n - 4) == 8 * |m|
  {
    hide BigEndian, Word;
    var b := BigEndian(8 * |m|, 8);
    var p := m + Padding(|m|);
    ZeroCountIsLeast(|m|, 0);
    EightBytes(8 * |m|);
    WordAt(p, |p| - 8, b, 0);
    WordAt(p, |p| - 8, b, 4);
  }

  lemma {:induction false} WordOfSlice(p: seq<byte>, k: nat)
    requires k + 4 <= |p|
    ensures Word(p, k) == Word(p[k..k + 4], 0)
  {
  }

  lemma {:induction false} WordAt(p: seq<byte>, n: nat, b: seq<byte>, k: nat)
    requires n + |b| <= |p| && p[n..n + |b|] == b && k + 4 <= |b|
    ensures Word(p, n + k) == Word(b, k)
  {
    hide Word;
    SubSlice(p, n, n + |b|, k, k + 4);
    assert p[n + k..n + k + 4] == b[k..k + 4];
    WordOfSlice(p, n + k);
    WordOfSlice(b, k);
  }

  /** The most significant byte comes first. */
  lemma {:induction false} BigEndianAt(x: nat, n: nat, i: nat)
    requires i < n
    ensures BigEndian(x, n)[i] == LEBytes(x, n)[n - 1 - i]
  {
    if i < n - 1 { BigEndianAt(x / 0x100, n - 1, i); }
  }

  lemma {:induction false} FourBytes(x: nat, n: nat)
    requires n >= 4
    ensures var low := [x / 0x100_0000 % 0x100, x / 0x1_0000 % 0x100, x / 0x100 % 0x100, x % 0x100];
      BigEndian(x, n) == BigEndian(x / 0x1_0000_0000, n - 4) + low && Word(low, 0) == x % 0x1_0000_0000
  {
    hide BigEndian;
    var x1 := x / 0x100;
    var x2 := x1 / 0x100;
    var x3 := x2 / 0x100;
    assert x2 == x / 0x1_0000 && x3 == x / 0x100_0000 && x3 / 0x100 == x / 0x1_0000_0000;
    OneMoreByte(x, n);
    OneMoreByte(x1, n - 1);
    OneMoreByte(x2, n - 2);
    OneMoreByte(x3, n - 3);
    assert x == 0x1_0000_0000 * (x / 0x1_0000_0000) + 0x100_0000 * (x3 % 0x100) + 0x1_0000 * (x2 % 0x100)
        + 0x100 * (x1 % 0x100) + x % 0x100;
  }

  lemma {:induction false} OneMoreByte(x: nat, n: nat)
    requires n > 0
    ensures BigEndian(x, n) == BigEndian(x / 0x100, n - 1) + [x % 0x100]
  {
  }

  lemma {:induction false} EightBytes(x: nat)
    requires x < 0x1_0000_0000_0000_0000
    ensures var b := BigEndian(x, 8); Word(b, 0) * 0x1_0000_0000 + Word(b, 4) == x
  {
    hide BigEndian;
    FourBytes(x, 8);
    FourBytes(x / 0x1_0000_0000, 4);
  }

  /** Messages that fit one block, and two. */
  lemma {:induction false} BlocksOf(m: seq<byte>)
    ensures var p := m + Padding(|m|);
      && (|m| < 56 ==> |p| == 64 && Digest(m) == StateBytes(Compress(INITIAL, p)))
      && (56 <= |m| < 120 ==>
        |p| == 128 && Digest(m) == StateBytes(Compress(Compress(INITIAL, p[0..64]), p[64..128])))
  {
    hide Compress, StateBytes, Streams.Absorb, BigEndian;
    var p := m + Padding(|m|);
    if |m| < 120 {
      Streams.AbsorbOne(Compress, 64, INITIAL, p);
      Streams.AbsorbOne(Compress, 64, Compress(INITIAL, p[..64]), p[64..]);
      assert p[..64] == p[0..64];
      if |m| < 56 {
        assert p[..64] == p;
      } else {
        assert p[64..][..64] == p[64..128];
        Streams.AbsorbOne(Compress, 64, Compress(Compress(INITIAL, p[..64]), p[64..128]), p[64..][64..]);
      }
    }
  }

  /** The eight words of the hash value, each with its most significant byte first. */
  lemma {:induction false} OutputIs(s: State)
    ensures var b := StateBytes(s);
      && Word(b, 0) == s.a && Word(b, 4) == s.b && Word(b, 8) == s.c && Word(b, 12) == s.d
      && Word(b, 16) == s.e && Word(b, 20) == s.f && Word(b, 24) == s.g && Word(b, 28) == s.h
      && b[0] == s.a / 0x100_0000 && b[3] == s.a % 0x100
  {
    hide Word, WordBytes;
    var b := StateBytes(s);
    WordBack(s.a);
    WordBack(s.b);
    WordBack(s.c);
    WordBack(s.d);
    WordBack(s.e);
    WordBack(s.f);
    WordBack(s.g);
    WordBack(s.h);
    assert b[0..4] == WordBytes(s.a) && b[4..8] == WordBytes(s.b) && b[8..12] == WordBytes(s.c);
    assert b[12..16] == WordBytes(s.d) && b[16..20] == WordBytes(s.e) && b[20..24] == WordBytes(s.f);
    assert b[24..28] == WordBytes(s.g) && b[28..32] == WordBytes(s.h);
    WordAt(b, 0, WordBytes(s.a), 0);
    WordAt(b, 4, WordBytes(s.b), 0);
    WordAt(b, 8, WordBytes(s.c), 0);
    WordAt(b, 12, WordBytes(s.d), 0);
    WordAt(b, 16, WordBytes(s.e), 0);
    WordAt(b, 20, WordBytes(s.f), 0);
    WordAt(b, 24, WordBytes(s.g), 0);
    WordAt(b, 28, WordBytes(s.h), 0);
    assert b[0] == b[0..4][0] && b[3] == b[0..4][3];
  }

  lemma {:induction false} WordBack(x: uint32)
    ensures |WordBytes(x)| == 4 && Word(WordBytes(x), 0) == x
    ensures WordBytes(x)[0] == x / 0x100_0000 && WordBytes(x)[3] == x % 0x100
  {
    var a, b := x / 0x100, x / 0x1_0000;
    assert a / 0x100 == b && b / 0x100 == x / 0x100_0000;
  }

  // ---------------------------------------------------------------- constants

  /** The first 32 bits after the point of the square root of p: with the whole part c, the
      root times 2^32, rounded down. */
  ghost predicate SquareRoot(w: uint32, p: nat, c: nat) {
    var x := c * 0x1_0000_0000 + w;
    x * x <= p * 0x1_0000_0000_0000_0000 < (x + 1) * (x + 1)
  }

  /** And of the cube root. */
  ghost predicate CubeRoot(w: uint32, p: nat, c: nat) {
    var x := c * 0x1_0000_0000 + w;
    x * x * x <= p * 0x1_0000_0000_0000_0000_0000_0000 < (x + 1) * (x + 1) * (x + 1)
  }

  /** Section 5.3.3. */
  lemma {:induction false} InitialIsRoots()
    ensures SquareRoot(INITIAL.a, 2, 1) && SquareRoot(INITIAL.b, 3, 1) && SquareRoot(INITIAL.c, 5, 2)
    ensures SquareRoot(INITIAL.d, 7, 2) && SquareRoot(INITIAL.e, 11, 3) && SquareRoot(INITIAL.f, 13, 3)
    ensures SquareRoot(INITIAL.g, 17, 4) && SquareRoot(INITIAL.h, 19, 4)
  {
  }

  /** The whole part of the cube root of a number below 343. */
  function WholeRoot(p: nat): nat {
    if p < 8 then 1 else if p < 27 then 2 else if p < 64 then 3 else if p < 125 then 4 else if p < 216 then 5 else 6
  }

  ghost predicate CubeRoots(ws: seq<uint32>, primes: seq<nat>) {
    |ws| == |primes| == 8 && forall i :: 0 <= i < 8 ==> CubeRoot(ws[i], primes[i], WholeRoot(primes[i]))
  }

  /** Section 4.2.2: the first sixty-four prime numbers. */
  lemma {:induction false} ConstantsAreRoots()
    ensures |K| == 64
    ensures CubeRoots(K[0..8], [2, 3, 5, 7, 11, 13, 17, 19])
    ensures CubeRoots(K[8..16], [23, 29, 31, 37, 41, 43, 47, 53])
    ensures CubeRoots(K[16..24], [59, 61, 67, 71, 73, 79, 83, 89])
    ensures CubeRoots(K[24..32], [97, 101, 103, 107, 109, 113, 127, 131])
    ensures CubeRoots(K[32..40], [137, 139, 149, 151, 157, 163, 167, 173])
    ensures CubeRoots(K[40..48], [179, 181, 191, 193, 197, 199, 211, 223])
    ensures CubeRoots(K[48..56], [227, 229, 233, 239, 241, 251, 257, 263])
    ensures CubeRoots(K[56..64], [269, 271, 277, 281, 283, 293, 307, 311])
  {
    hide CubeRoot;
    Row0();
    Row1();
    Row2();
    Row3();
    Row4();
    Row5();
    Row6();
    Row7();
    assert K[0..8] == K0 && K[8..16] == K1 && K[16..24] == K2 && K[24..32] == K3;
    assert K[32..40] == K4 && K[40..48] == K5 && K[48..56] == K6 && K[56..64] == K7;
  }

  lemma {:induction false} Row0()
    ensures CubeRoots(K0, [2, 3, 5, 7, 11, 13, 17, 19])
  {
  }

  lemma {:induction false} Row1()
    ensures CubeRoots(K1, [23, 29, 31, 37, 41, 43, 47, 53])
  {
  }

  lemma {:induction false} Row2()
    ensures CubeRoots(K2, [59, 61, 67, 71, 73, 79, 83, 89])
  {
  }

  lemma {:induction false} Row3()
    ensures CubeRoots(K3, [97, 101, 103, 107, 109, 113, 127, 131])
  {
  }

  lemma {:induction false} Row4()
    ensures CubeRoots(K4, [137, 139, 149, 151, 157, 163, 167, 173])
  {
  }

  lemma {:induction false} Row5()
    ensures CubeRoots(K5, [179, 181, 191, 193, 197, 199, 211, 223])
  {
  }

  lemma {:induction false} Row6()
    ensures CubeRoots(K6, [227, 229, 233, 239, 241, 251, 257, 263])
  {
  }

  lemma {:induction false} Row7()
    ensures CubeRoots(K7, [269, 271, 277, 281, 283, 293, 307, 311])
  {
  }
}
