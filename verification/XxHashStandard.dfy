/** The steps of the 64-bit digest in numbers, as the xxHash specification gives them. */
module XxHashStandard {
  import opened Bits
  import opened Streams
  import opened XxHash64
  import XxHashAgreement

  lemma {:induction false} AddIs(a: uint64, b: uint64)
    ensures Add64(a, b) == (a + b) % 0x1_0000_0000_0000_0000
  {
  }

  lemma {:induction false} AddToProduct(a: nat, p: nat, c: uint64)
    ensures Add64(a * p % 0x1_0000_0000_0000_0000, c) == (a * p + c) % 0x1_0000_0000_0000_0000
  {
    AddToSum(a * p, c);
  }

  lemma {:induction false} AddToSum(x: nat, c: uint64)
    ensures Add64(x % 0x1_0000_0000_0000_0000, c) == (x + c) % 0x1_0000_0000_0000_0000
    ensures Add64(c, x % 0x1_0000_0000_0000_0000) == (c + x) % 0x1_0000_0000_0000_0000
  {
  }

  /** Rotation to the left. */
  lemma {:induction false} RotlBit(x: uint64, k: nat, j: nat)
    requires k <= 64 && j < 64
    ensures Bit(Rotl64(x, k), j) <==> Bit(x, (j + 64 - k) % 64)
  {
    hide Low, Shl, Shr, Bit, Pow2;
    Pow2Values();
    ShrBound(x, 64 - k, k);
    JoinedBit(Shr(x, 64 - k), Low(x, 64 - k), k, j);
    if j < k {
      ShiftedBit(x, 64 - k, j);
    } else {
      MaskedBit(x, 64 - k, j - k);
    }
  }

  /** The accumulators for seed zero. */
  lemma {:induction false} InitialIs()
    ensures Initial(0) == Acc(0x60ea_27ee_adc0_b5d6, 0xc2b2_ae3d_27d4_eb4f, 0, 0x61c8_864e_7a14_3579)
  {
  }

  lemma {:induction false} RoundIs(acc: uint64, input: uint64)
    ensures var sum := (acc + input * 0xc2b2_ae3d_27d4_eb4f) % 0x1_0000_0000_0000_0000;
      Round(acc, input) == Rotl64(sum, 31) * 0x9e37_79b1_85eb_ca87 % 0x1_0000_0000_0000_0000
  {
    hide Rotl64, Mul64, Add64;
    XxHashAgreement.MulIs(input, PRIME2);
    AddToSum(input * PRIME2, acc);
    XxHashAgreement.MulIs(Rotl64(Add64(acc, Mul64(input, PRIME2)), 31), PRIME1);
  }

  /** One stripe of 32 bytes: four lanes, eight bytes each, the lowest first. */
  lemma {:induction false} StripeIs(a: Acc, s: seq<byte>, l1: uint64, l2: uint64, l3: uint64, l4: uint64)
    requires |s| == 32 && l1 == LE(s[0..8]) && l2 == LE(s[8..16]) && l3 == LE(s[16..24]) && l4 == LE(s[24..32])
    ensures Stripe(a, s) == Acc(Round(a.v1, l1), Round(a.v2, l2), Round(a.v3, l3), Round(a.v4, l4))
  {
    hide Round, LE;
    assert s[..8] == s[0..8] && s[8..][..8] == s[8..16] && s[16..][..8] == s[16..24] && s[24..][..8] == s[24..32];
  }

  lemma {:induction false} MergeRoundIs(acc: uint64, val: uint64)
    ensures MergeRound(acc, val) ==
      (Xor(acc, Round(0, val)) * 0x9e37_79b1_85eb_ca87 + 0x85eb_ca77_c2b2_ae63) % 0x1_0000_0000_0000_0000
  {
    hide Round, Mul64, Add64, Xor;
    var x := Xor64(acc, Round(0, val));
    XxHashAgreement.MulIs(x, PRIME1);
    AddToProduct(x, PRIME1, PRIME4);
  }

  lemma {:induction false} ConvergeIs(a: Acc)
    ensures var sum := Rotl64(a.v1, 1) as nat + Rotl64(a.v2, 7) as nat + Rotl64(a.v3, 12) + Rotl64(a.v4, 18);
      var h := sum % 0x1_0000_0000_0000_0000;
      Converge(a) == MergeRound(MergeRound(MergeRound(MergeRound(h, a.v1), a.v2), a.v3), a.v4)
  {
    hide Rotl64, Add64, MergeRound;
    var r1: nat, r2: nat := Rotl64(a.v1, 1), Rotl64(a.v2, 7);
    var r3, r4 := Rotl64(a.v3, 12), Rotl64(a.v4, 18);
    AddIs(Rotl64(a.v1, 1), Rotl64(a.v2, 7));
    AddToSum(r1 + r2, r3);
    AddToSum(r1 + r2 + r3, r4);
  }

  /** Eight, four and single bytes of the rest. */
  lemma {:induction false} RestStepsAre(h: uint64, lane: uint64, four: uint32, b: byte)
    ensures var x := Xor64(h, Round(0, lane));
      LaneStep(h, lane, true)
        == (Rotl64(x, 27) * 0x9e37_79b1_85eb_ca87 + 0x85eb_ca77_c2b2_ae63) % 0x1_0000_0000_0000_0000
    ensures LaneStep(h, lane, false)
      == (Xor(h, Round(0, lane)) * 0x9e37_79b1_85eb_ca87 + 0x85eb_ca77_c2b2_ae63) % 0x1_0000_0000_0000_0000
    ensures var x := Xor64(h, four * 0x9e37_79b1_85eb_ca87 % 0x1_0000_0000_0000_0000);
      FourStep(h, four) == (Rotl64(x, 23) * 0xc2b2_ae3d_27d4_eb4f + 0x1656_67b1_9e37_79f9) % 0x1_0000_0000_0000_0000
    ensures var x := Xor64(h, b * 0x27d4_eb2f_1656_67c5 % 0x1_0000_0000_0000_0000);
      ByteStep(h, b) == Rotl64(x, 11) * 0x9e37_79b1_85eb_ca87 % 0x1_0000_0000_0000_0000
  {
    hide Round, Mul64, Add64, Xor, Rotl64;
    var x := Rotl64(Xor64(h, Round(0, lane)), 27);
    XxHashAgreement.MulIs(x, PRIME1);
    AddToProduct(x, PRIME1, PRIME4);
    XxHashAgreement.MulIs(Xor64(h, Round(0, lane)), PRIME1);
    AddToProduct(Xor64(h, Round(0, lane)), PRIME1, PRIME4);
    XxHashAgreement.MulIs(four, PRIME1);
    var y := Rotl64(Xor64(h, Mul64(four, PRIME1)), 23);
    XxHashAgreement.MulIs(y, PRIME2);
    AddToProduct(y, PRIME2, PRIME3);
    XxHashAgreement.MulIs(b, PRIME5);
    XxHashAgreement.MulIs(Rotl64(Xor64(h, Mul64(b, PRIME5)), 11), PRIME1);
  }

  lemma {:induction false} AvalancheIs(h: uint64)
    ensures var a := Xor(h, Shr(h, 33)) * 0xc2b2_ae3d_27d4_eb4f % 0x1_0000_0000_0000_0000;
      var b := Xor(a, Shr(a, 29)) * 0x1656_67b1_9e37_79f9 % 0x1_0000_0000_0000_0000;
      Avalanche(h) == Xor(b, Shr(b, 32))
  {
    hide Mul64, Xor, Shr;
    var a := Mul64(Xor64(h, Shr64(h, 33)), PRIME2);
    XxHashAgreement.MulIs(Xor64(h, Shr64(h, 33)), PRIME2);
    XxHashAgreement.MulIs(Xor64(a, Shr64(a, 29)), PRIME3);
  }

  /** Short input starts from the fifth prime; the length is added in any case. */
  lemma {:induction false} StartIs(data: seq<byte>)
    requires |data| < 0x1_0000_0000_0000_0000
    ensures |data| < 32 ==> Start(data) == (0x27d4_eb2f_1656_67c5 + |data|) % 0x1_0000_0000_0000_0000
    ensures |data| >= 32 ==>
      Start(data) == (Converge(Absorb(Stripe, 32, Initial(0), data)) + |data|) % 0x1_0000_0000_0000_0000
  {
    hide Add64, Converge, Absorb;
    AddIs(PRIME5, |data|);
    if |data| >= 32 { AddIs(Converge(Absorb(Stripe, 32, Initial(0), data)), |data|); }
  }

  /** A rest of fifteen bytes: one step for eight of them, one for four, and one each for the
      last three. */
  lemma {:induction false} FifteenBytes(data: seq<byte>, lane: uint64, four: uint32, rotate: bool)
    requires |data| == 15 && lane == LE(data[0..8]) && four == LE(data[8..12])
    ensures var h := FourStep(LaneStep(Start(data), lane, rotate), four);
      Hash(data, rotate) == Avalanche(ByteStep(ByteStep(ByteStep(h, data[12]), data[13]), data[14]))
  {
    hide Start, LaneStep, FourStep, ByteStep, Avalanche, LE, Lanes, ByteSteps, AfterLanes;
    assert data[..8] == data[0..8];
    LanesNext(Start(data), data, rotate);
    var rest := data[8..];
    LanesNext(LaneStep(Start(data), lane, rotate), rest, rotate);
    assert rest[..4] == data[8..12];
    var h := FourStep(LaneStep(Start(data), lane, rotate), four);
    var last := rest[4..];
    assert last == [data[12], data[13], data[14]];
    BytesNext(h, last);
    BytesNext(ByteStep(h, data[12]), last[1..]);
    BytesNext(ByteStep(ByteStep(h, data[12]), data[13]), last[1..][1..]);
    BytesNext(ByteStep(ByteStep(ByteStep(h, data[12]), data[13]), data[14]), last[1..][1..][1..]);
  }
}
