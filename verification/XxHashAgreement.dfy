/** Where the program's 64-bit digest is that of the xxHash algorithm, and where it is not. */
module XxHashAgreement {
  import opened Bits
  import opened Streams
  import opened XxHash64

  const MODULUS := 0x1_0000_0000_0000_0000

  // ---------------------------------------------------------------- steps that lose nothing

  lemma {:induction false} Remainder(x: int, k: int, r: int)
    requires x == k * MODULUS + r && 0 <= r < MODULUS
    ensures x % MODULUS == r
  {
  }

  lemma {:induction false} MulIs(a: uint64, b: uint64)
    ensures Mul64(a, b) == a * b % MODULUS
  {
    hide Times;
    TimesIsProduct(a, b);
  }

  lemma {:induction false} Backwards(a: int, p: int, q: int, t: int, k: int, r: int)
    requires p * q == 1 + t * MODULUS && a * p == k * MODULUS + r
    ensures r * q == (a * t - k * q) * MODULUS + a
  {
    calc {
      r * q;
    ==
      (a * p - k * MODULUS) * q;
    ==
      a * (p * q) - k * q * MODULUS;
    ==
      a * (1 + t * MODULUS) - k * q * MODULUS;
    ==
      (a * t - k * q) * MODULUS + a;
    }
  }

  /** Multiplication by p is undone by its inverse q. */
  lemma {:induction false} MulUndone(a: uint64, p: uint64, q: uint64, t: nat)
    requires p * q == 1 + t * MODULUS
    ensures Mul64(Mul64(a, p), q) == a
  {
    hide Mul64;
    var k := a * p / MODULUS;
    var r := Mul64(a, p);
    MulIs(a, p);
    MulIs(r, q);
    Backwards(a, p, q, t, k, r);
    Remainder(r * q, a * t - k * q, a);
  }

  const INVERSE1: uint64 := 614540362697595703
  const INVERSE2: uint64 := 839798700976720815
  const INVERSE3: uint64 := 16855272203555305545

  lemma {:induction false} PrimesInvert(a: uint64)
    ensures Mul64(Mul64(a, PRIME1), INVERSE1) == a
    ensures Mul64(Mul64(a, PRIME2), INVERSE2) == a
    ensures Mul64(Mul64(a, PRIME3), INVERSE3) == a
  {
    MulUndone(a, PRIME1, INVERSE1, 379806830464837242);
    MulUndone(a, PRIME2, INVERSE2, 638699622168397319);
    MulUndone(a, PRIME3, INVERSE3, 1470722560960728959);
  }

  lemma {:induction false} AddKeeps(a: uint64, b: uint64, c: uint64)
    requires Add64(a, c) == Add64(b, c)
    ensures a == b
  {
  }

  lemma {:induction false} XorKeeps(a: uint64, b: uint64, c: uint64)
    requires Xor64(a, c) == Xor64(b, c)
    ensures a == b
  {
    XorUndone(a, c);
    XorUndone(b, c);
  }

  lemma {:induction false} RotlParts(a: uint64, k: nat)
    requires k <= 64
    ensures Low(Rotl64(a, k), k) == Shr(a, 64 - k) && Shr(Rotl64(a, k), k) == Low(a, 64 - k)
  {
    Pow2Values();
    ShrBound(a, 64 - k, k);
    Join(Shr(a, 64 - k), Low(a, 64 - k), k);
  }

  lemma {:induction false} RotlKeeps(a: uint64, b: uint64, k: nat)
    requires k <= 64 && Rotl64(a, k) == Rotl64(b, k)
    ensures a == b
  {
    hide Rotl64, Low, Shr, Shl;
    RotlParts(a, k);
    RotlParts(b, k);
    Split(a, 64 - k);
    Split(b, 64 - k);
  }

  /** A word xored with itself shifted right can be recovered, from the top bits down. */
  lemma {:induction false} XorShiftKeeps(a: uint64, b: uint64, k: nat)
    requires 64 <= 3 * k && Xor64(a, Shr64(a, k)) == Xor64(b, Shr64(b, k))
    ensures a == b
  {
    hide Shr, Xor;
    var x, y := Xor(a, Shr(a, k)), Xor(b, Shr(b, k));
    XorShr(a, Shr(a, k), 2 * k);
    XorShr(b, Shr(b, k), 2 * k);
    ShrShr(a, k, 2 * k);
    ShrShr(b, k, 2 * k);
    AllShifted(a, 3 * k);
    AllShifted(b, 3 * k);
    XorZero(Shr(a, 2 * k));
    XorZero(Shr(b, 2 * k));
    assert Shr(a, 2 * k) == Shr(b, 2 * k);
    XorShr(a, Shr(a, k), k);
    XorShr(b, Shr(b, k), k);
    ShrShr(a, k, k);
    ShrShr(b, k, k);
    XorUndone(Shr(a, k), Shr(a, 2 * k));
    XorUndone(Shr(b, k), Shr(b, 2 * k));
    assert Shr(a, k) == Shr(b, k);
    XorUndone(a, Shr(a, k));
    XorUndone(b, Shr(b, k));
  }

  lemma {:induction false} AllShifted(a: uint64, k: nat)
    requires k >= 64
    ensures Shr(a, k) == 0
  {
    hide Shr;
    Pow2Values();
    Pow2Mono(64, k);
    LowSmall(a, k);
  }

  lemma {:induction false} AvalancheKeeps(a: uint64, b: uint64)
    requires Avalanche(a) == Avalanche(b)
    ensures a == b
  {
    hide Xor64, Mul64, Shr64;
    var x, y := Mul64(Xor64(a, Shr64(a, 33)), PRIME2), Mul64(Xor64(b, Shr64(b, 33)), PRIME2);
    var u, v := Mul64(Xor64(x, Shr64(x, 29)), PRIME3), Mul64(Xor64(y, Shr64(y, 29)), PRIME3);
    XorShiftKeeps(u, v, 32);
    PrimesInvert(Xor64(x, Shr64(x, 29)));
    PrimesInvert(Xor64(y, Shr64(y, 29)));
    XorShiftKeeps(x, y, 29);
    PrimesInvert(Xor64(a, Shr64(a, 33)));
    PrimesInvert(Xor64(b, Shr64(b, 33)));
    XorShiftKeeps(a, b, 33);
  }

  lemma {:induction false} FourStepKeeps(a: uint64, b: uint64, lane: uint64)
    requires FourStep(a, lane) == FourStep(b, lane)
    ensures a == b
  {
    hide Xor64, Mul64, Rotl64, Add64;
    var c := Mul64(lane, PRIME1);
    var x, y := Rotl64(Xor64(a, c), 23), Rotl64(Xor64(b, c), 23);
    AddKeeps(Mul64(x, PRIME2), Mul64(y, PRIME2), PRIME3);
    PrimesInvert(x);
    PrimesInvert(y);
    RotlKeeps(Xor64(a, c), Xor64(b, c), 23);
    XorKeeps(a, b, c);
  }

  lemma {:induction false} ByteStepsKeep(a: uint64, b: uint64, s: seq<byte>)
    requires ByteSteps(a, s) == ByteSteps(b, s)
    ensures a == b
    decreases |s|
  {
    hide Xor64, Mul64, Rotl64, ByteSteps;
    BytesNext(a, s);
    BytesNext(b, s);
    if s != [] {
      ByteStepsKeep(ByteStep(a, s[0]), ByteStep(b, s[0]), s[1..]);
      var c := Mul64(s[0], PRIME5);
      var x, y := Rotl64(Xor64(a, c), 11), Rotl64(Xor64(b, c), 11);
      PrimesInvert(x);
      PrimesInvert(y);
      RotlKeeps(Xor64(a, c), Xor64(b, c), 11);
      XorKeeps(a, b, c);
    }
  }

  lemma {:induction false} ShortStepsKeep(a: uint64, b: uint64, s: seq<byte>)
    requires ShortSteps(a, s) == ShortSteps(b, s)
    ensures a == b
  {
    hide FourStep, ByteSteps, Read32;
    if |s| >= 4 {
      ByteStepsKeep(FourStep(a, Read32(s)), FourStep(b, Read32(s)), s[4..]);
      FourStepKeeps(a, b, Read32(s));
    } else {
      ByteStepsKeep(a, b, s);
    }
  }

  // ---------------------------------------------------------------- agreement

  /** The digests agree exactly if the lanes of the rest leave the same word. */
  lemma {:induction false} AgreeIfLanesDo(data: seq<byte>)
    requires |data| < 0x1_0000_0000_0000_0000
    ensures var rest := Rest(32, data);
      Hash(data, false) == Hash(data, true) <==> Lanes(Start(data), rest, false) == Lanes(Start(data), rest, true)
  {
    hide Start, Lanes, ShortSteps, Avalanche, Rest, AfterLanes;
    var rest := Rest(32, data);
    var a, b := Lanes(Start(data), rest, false), Lanes(Start(data), rest, true);
    if Hash(data, false) == Hash(data, true) {
      AvalancheKeeps(ShortSteps(a, AfterLanes(rest)), ShortSteps(b, AfterLanes(rest)));
      ShortStepsKeep(a, b, AfterLanes(rest));
    }
  }

  /** The word that the algorithm rotates and the program does not. */
  function Unrotated(data: seq<byte>): uint64
    requires |data| < 0x1_0000_0000_0000_0000 && |Rest(32, data)| >= 8
  {
    Xor64(Start(data), Round(0, Read64(Rest(32, data))))
  }

  /** The program's digest is that of the algorithm if fewer than eight bytes follow the last
      stripe; with one lane of eight bytes, exactly if the rotation does nothing to it. */
  lemma {:induction false} AgreesWithXxHash(data: seq<byte>)
    requires |data| < 0x1_0000_0000_0000_0000
    ensures |Rest(32, data)| < 8 ==> Hash(data, false) == Hash(data, true)
    ensures 8 <= |Rest(32, data)| < 16 ==>
      (Hash(data, false) == Hash(data, true) <==> Rotl64(Unrotated(data), 27) == Unrotated(data))
  {
    hide Start, Lanes, Hash, Rest, Read64, Round, Xor64, Rotl64, Add64, Mul64;
    AgreeIfLanesDo(data);
    var rest := Rest(32, data);
    LanesNext(Start(data), rest, false);
    LanesNext(Start(data), rest, true);
    if 8 <= |rest| < 16 {
      var lane := Read64(rest);
      var x := Xor64(Start(data), Round(0, lane));
      LanesNext(LaneStep(Start(data), lane, false), rest[8..], false);
      LanesNext(LaneStep(Start(data), lane, true), rest[8..], true);
      if LaneStep(Start(data), lane, false) == LaneStep(Start(data), lane, true) {
        AddKeeps(Mul64(x, PRIME1), Mul64(Rotl64(x, 27), PRIME1), PRIME4);
        PrimesInvert(x);
        PrimesInvert(Rotl64(x, 27));
      }
    }
  }

  /** Eight zero bytes do not get their xxHash digest. */
  lemma {:induction false} DiffersOnEightZeroes()
    ensures var data: seq<byte> := [0, 0, 0, 0, 0, 0, 0, 0]; Hash(data, false) != Hash(data, true)
  {
    hide Hash, Rotl64, Lanes;
    var data: seq<byte> := [0, 0, 0, 0, 0, 0, 0, 0];
    AgreesWithXxHash(data);
    EightZeroes(data);
    RotlDiffers();
  }

  lemma {:induction false} EightZeroes(data: seq<byte>)
    requires data == [0, 0, 0, 0, 0, 0, 0, 0]
    ensures Rest(32, data) == data && Unrotated(data) == PRIME5 + 8
  {
    hide Rotl64, Xor;
    assert Read64(data) == 0 by {
      assert data[..8] == data;
      ZeroBytes(data);
    }
    assert Round(0, 0) == 0 by { ZeroRound(); }
    XorZero(PRIME5 + 8);
  }

  lemma {:induction false} ZeroBytes(s: seq<byte>)
    requires forall i :: 0 <= i < |s| ==> s[i] == 0
    ensures LE(s) == 0
  {
    if s != [] { ZeroBytes(s[1..]); }
  }

  lemma {:induction false} RotlZero(k: nat)
    requires k <= 64
    ensures Rotl64(0, k) == 0
  {
    ShlZero(64 - k);
    ShlZero(k);
  }

  lemma {:induction false} ZeroRound()
    ensures Round(0, 0) == 0
  {
    hide Rotl64;
    RotlZero(31);
  }

  /** The rotation changes the third-lowest bit. */
  lemma {:induction false} RotlDiffers()
    ensures Rotl64(PRIME5 + 8, 27) != PRIME5 + 8
  {
    hide Rotl64, Low;
    var x: uint64 := 2870177450012600269;
    RotlParts(x, 27);
    TopBits(x);
    LowLow(x, 4, 23);
    ShrFour(x);
    ShrFour(Shr(x, 37));
  }

  lemma {:induction false} TopBits(x: nat)
    ensures Shr(x, 37) == x / 0x1_0000 / 0x1_0000 / 16 / 2
  {
    hide Low, Shl;
    ShrShr(x, 16, 21);
    ShrShr(x / 0x1_0000, 16, 5);
    ShrShr(x / 0x1_0000 / 0x1_0000, 4, 1);
    Shr16(x);
    Shr16(x / 0x1_0000);
    ShrFour(x / 0x1_0000 / 0x1_0000);
  }
}
