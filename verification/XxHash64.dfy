/** The streaming 64-bit xxHash state, against the algorithm it is named after. */
module XxHash64 {
  import opened Bits
  import opened Streams

  const PRIME1: uint64 := 11400714785074694791
  const PRIME2: uint64 := 14029467366897019727
  const PRIME3: uint64 := 1609587929392839161
  const PRIME4: uint64 := 9650029242287828579
  const PRIME5: uint64 := 2870177450012600261

  // ---------------------------------------------------------------- 64-bit words

  /** Addition modulo 2^64. */
  function Add64(a: uint64, b: uint64): uint64 {
    var sum := a as int + b as int;
    if sum < 0x1_0000_0000_0000_0000 then sum else sum - 0x1_0000_0000_0000_0000
  }

  /** Multiplication modulo 2^64. */
  function Mul64(a: uint64, b: uint64): uint64 {
    Times(a, b) % 0x1_0000_0000_0000_0000
  }

  function Xor64(a: uint64, b: uint64): uint64 {
    Pow2Values();
    XorBound(a, b, 64);
    Xor(a, b)
  }

  function Shr64(a: uint64, k: nat): uint64 {
    ShrMono(a, k);
    Shr(a, k)
  }

  function Rotl64(a: uint64, k: nat): uint64
    requires k <= 64
  {
    Pow2Values();
    LowBound(a, 64 - k);
    ShrBound(a, 64 - k, k);
    JoinBound(Shr(a, 64 - k), Low(a, 64 - k), k, 64 - k);
    Shr(a, 64 - k) + Shl(Low(a, 64 - k), k)
  }

  // ---------------------------------------------------------------- the algorithm

  datatype Acc = Acc(v1: uint64, v2: uint64, v3: uint64, v4: uint64)

  function Read64(s: seq<byte>): uint64
    requires |s| >= 8
  {
    LEBound(s[..8]);
    Pow2Values();
    LE(s[..8])
  }

  function Read32(s: seq<byte>): uint64
    requires |s| >= 4
  {
    LEBound(s[..4]);
    Pow2Values();
    LE(s[..4])
  }

  function Round(acc: uint64, input: uint64): uint64 {
    Mul64(Rotl64(Add64(acc, Mul64(input, PRIME2)), 31), PRIME1)
  }

  function MergeRound(acc: uint64, val: uint64): uint64 {
    Add64(Mul64(Xor64(acc, Round(0, val)), PRIME1), PRIME4)
  }

  function Initial(seed: uint64): Acc {
    Acc(Add64(Add64(seed, PRIME1), PRIME2), Add64(seed, PRIME2), seed, Add64(seed, 0x1_0000_0000_0000_0000 - PRIME1))
  }

  /** One stripe of 32 bytes. */
  function Stripe(a: Acc, s: seq<byte>): Acc {
    if |s| < 32 then a
    else Acc(Round(a.v1, Read64(s)), Round(a.v2, Read64(s[8..])), Round(a.v3, Read64(s[16..])),
        Round(a.v4, Read64(s[24..])))
  }

  function Converge(a: Acc): uint64 {
    var h := Add64(Add64(Add64(Rotl64(a.v1, 1), Rotl64(a.v2, 7)), Rotl64(a.v3, 12)), Rotl64(a.v4, 18));
    MergeRound(MergeRound(MergeRound(MergeRound(h, a.v1), a.v2), a.v3), a.v4)
  }

  /** A lane of eight bytes in the rest. With rotate it is as the algorithm says, without as
      the program does it. */
  function LaneStep(h: uint64, lane: uint64, rotate: bool): uint64 {
    var x := Xor64(h, Round(0, lane));
    Add64(Mul64(if rotate then Rotl64(x, 27) else x, PRIME1), PRIME4)
  }

  function Lanes(h: uint64, s: seq<byte>, rotate: bool): uint64
    decreases |s|
  {
    if |s| < 8 then h else Lanes(LaneStep(h, Read64(s), rotate), s[8..], rotate)
  }

  function AfterLanes(s: seq<byte>): (r: seq<byte>)
    ensures |r| < 8
    decreases |s|
  {
    if |s| < 8 then s else AfterLanes(s[8..])
  }

  function FourStep(h: uint64, lane: uint64): uint64 {
    Add64(Mul64(Rotl64(Xor64(h, Mul64(lane, PRIME1)), 23), PRIME2), PRIME3)
  }

  function ByteStep(h: uint64, b: byte): uint64 {
    Mul64(Rotl64(Xor64(h, Mul64(b, PRIME5)), 11), PRIME1)
  }

  function ByteSteps(h: uint64, s: seq<byte>): uint64
    decreases |s|
  {
    if s == [] then h else ByteSteps(ByteStep(h, s[0]), s[1..])
  }

  /** The rest after the lanes: four bytes if there are as many, then single bytes. */
  function ShortSteps(h: uint64, s: seq<byte>): uint64 {
    if |s| >= 4 then ByteSteps(FourStep(h, Read32(s)), s[4..]) else ByteSteps(h, s)
  }

  function Avalanche(h: uint64): uint64 {
    var a := Mul64(Xor64(h, Shr64(h, 33)), PRIME2);
    var b := Mul64(Xor64(a, Shr64(a, 29)), PRIME3);
    Xor64(b, Shr64(b, 32))
  }

  /** Before the rest: the converged accumulators, or the fifth prime, plus the length. */
  function Start(data: seq<byte>): uint64
    requires |data| < 0x1_0000_0000_0000_0000
  {
    Add64(if |data| >= 32 then Converge(Absorb(Stripe, 32, Initial(0), data)) else PRIME5, |data|)
  }

  function Hash(data: seq<byte>, rotate: bool): uint64
    requires |data| < 0x1_0000_0000_0000_0000
  {
    var rest := Rest(32, data);
    Avalanche(ShortSteps(Lanes(Start(data), rest, rotate), AfterLanes(rest)))
  }

  // ---------------------------------------------------------------- the streaming state

  class XxHash64State {
    const memory: array<byte>
    var totalLen: uint64
    var v1: uint64
    var v2: uint64
    var v3: uint64
    var v4: uint64
    var memsize: nat
    /** Everything consumed. */
    ghost var data: seq<byte>

    ghost predicate Valid()
      reads this, memory
    {
      && memory.Length == 32 && memsize < 32
      && totalLen == |data|
      && memory[..memsize] == Rest(32, data)
      && Acc(v1, v2, v3, v4) == Absorb(Stripe, 32, Initial(0), data)
    }

    constructor ()
      ensures Valid() && data == [] && fresh(memory)
    {
      hide Add64;
      memory := new byte[32](_ => 0);
      totalLen, memsize := 0, 0;
      v1, v2 := Add64(Add64(0, PRIME1), PRIME2), Add64(0, PRIME2);
      v3, v4 := 0, Add64(0, 0x1_0000_0000_0000_0000 - PRIME1);
      data := [];
    }

    /** One stripe into the accumulators. */
    method TakeStripe(s: seq<byte>, p: nat)
      requires p + 32 <= |s|
      modifies this`v1, this`v2, this`v3, this`v4
      ensures Acc(v1, v2, v3, v4) == Stripe(old(Acc(v1, v2, v3, v4)), s[p..p + 32])
    {
      hide Round, Read64;
      var stripe := s[p..p + 32];
      v1 := Round(v1, Read64(stripe));
      v2 := Round(v2, Read64(stripe[8..]));
      v3 := Round(v3, Read64(stripe[16..]));
      v4 := Round(v4, Read64(stripe[24..]));
    }

    method Consume(chunk: seq<byte>)
      requires Valid() && |data| + |chunk| < 0x1_0000_0000_0000_0000
      modifies this, memory
      ensures Valid() && data == old(data) + chunk
    {
      hide Absorb, Rest, Stripe;
      ghost var all := data + chunk;
      AbsorbMore(Stripe, 32, Initial(0), data, chunk);
      totalLen := totalLen + |chunk|;
      data := all;
      ghost var held := memory[..memsize];
      if memsize + |chunk| < 32 {
        forall i | 0 <= i < |chunk| { memory[memsize + i] := chunk[i]; }
        memsize := memsize + |chunk|;
        assert memory[..memsize] == held + chunk;
        AbsorbOne(Stripe, 32, old(Acc(v1, v2, v3, v4)), held + chunk);
        return;
      }
      var p := 0;
      if memsize > 0 {
        var fill := 32 - memsize;
        forall i | 0 <= i < fill { memory[memsize + i] := chunk[i]; }
        assert memory[..] == held + chunk[..fill];
        TakeStripe(memory[..], 0);
        assert memory[..][0..32] == (held + chunk)[..32];
        AbsorbOne(Stripe, 32, old(Acc(v1, v2, v3, v4)), held + chunk);
        assert (held + chunk)[32..] == chunk[fill..];
        p := fill;
        memsize := 0;
      } else {
        assert held + chunk == chunk[0..];
      }
      TakeStripes(chunk, p);
    }

    /** The whole stripes from p on, and what is left after them. */
    method TakeStripes(chunk: seq<byte>, start: nat)
      requires memory.Length == 32 && start <= |chunk|
      modifies this`v1, this`v2, this`v3, this`v4, this`memsize, memory
      ensures memsize < 32 && memory[..memsize] == Rest(32, chunk[start..])
      ensures Acc(v1, v2, v3, v4) == Absorb(Stripe, 32, old(Acc(v1, v2, v3, v4)), chunk[start..])
    {
      hide Absorb, Rest, Stripe;
      var p := start;
      while p + 32 <= |chunk|
        invariant start <= p <= |chunk|
        invariant Absorb(Stripe, 32, Acc(v1, v2, v3, v4), chunk[p..])
          == Absorb(Stripe, 32, old(Acc(v1, v2, v3, v4)), chunk[start..])
        invariant Rest(32, chunk[p..]) == Rest(32, chunk[start..])
      {
        AbsorbOne(Stripe, 32, Acc(v1, v2, v3, v4), chunk[p..]);
        assert chunk[p..][..32] == chunk[p..p + 32] && chunk[p..][32..] == chunk[p + 32..];
        TakeStripe(chunk, p);
        p := p + 32;
      }
      AbsorbOne(Stripe, 32, Acc(v1, v2, v3, v4), chunk[p..]);
      forall i | 0 <= i < |chunk| - p { memory[i] := chunk[p + i]; }
      memsize := |chunk| - p;
      assert memory[..memsize] == chunk[p..];
    }

    method Digest() returns (hash: uint64)
      requires Valid()
      ensures hash == Hash(data, false)
    {
      hide Absorb, Rest, Stripe, Round, Rotl64, Add64, Mul64, Xor64, Lanes, ByteSteps, AfterLanes, Read64, Read32,
           LaneStep, Shr64;
      RestLength(data);
      if totalLen >= 32 {
        hash := Add64(Add64(Add64(Rotl64(v1, 1), Rotl64(v2, 7)), Rotl64(v3, 12)), Rotl64(v4, 18));
        hash := MergeRound(hash, v1);
        hash := MergeRound(hash, v2);
        hash := MergeRound(hash, v3);
        hash := MergeRound(hash, v4);
      } else {
        hash := PRIME5;
      }
      hash := Add64(hash, totalLen);
      assert hash == Start(data);
      hash := DigestRest(memory[..memsize], hash);
      hash := Xor64(hash, Shr64(hash, 33));
      hash := Mul64(hash, PRIME2);
      hash := Xor64(hash, Shr64(hash, 29));
      hash := Mul64(hash, PRIME3);
      hash := Xor64(hash, Shr64(hash, 32));
    }

    lemma {:induction false} RestLength(d: seq<byte>)
      ensures |Rest(32, d)| <= |d|
    {
    }

    /** The loops over what is left in the buffer. */
    method DigestRest(rest: seq<byte>, start: uint64) returns (hash: uint64)
      ensures hash == ShortSteps(Lanes(start, rest, false), AfterLanes(rest))
    {
      hide Lanes, AfterLanes, LaneStep, Read64, ShortSteps;
      hash := start;
      var p := 0;
      assert rest[0..] == rest;
      while p + 8 <= |rest|
        invariant 0 <= p <= |rest|
        invariant Lanes(hash, rest[p..], false) == Lanes(start, rest, false)
        invariant AfterLanes(rest[p..]) == AfterLanes(rest)
      {
        LanesNext(hash, rest[p..], false);
        assert rest[p..][8..] == rest[p + 8..];
        hash := OneLane(hash, Read64(rest[p..]));
        p := p + 8;
      }
      LanesNext(hash, rest[p..], false);
      hash := DigestShort(rest[p..], hash);
    }

    method OneLane(start: uint64, lane: uint64) returns (hash: uint64)
      ensures hash == LaneStep(start, lane, false)
    {
      hide Rotl64, Add64, Mul64, Xor64;
      ZeroPlus(Mul64(lane, PRIME2));
      hash := Xor64(start, Mul64(Rotl64(Mul64(lane, PRIME2), 31), PRIME1));
      hash := Add64(Mul64(hash, PRIME1), PRIME4);
    }

    method DigestShort(rest: seq<byte>, start: uint64) returns (hash: uint64)
      ensures hash == ShortSteps(start, rest)
    {
      hide Rotl64, Add64, Mul64, Xor64, Read32, ByteSteps;
      hash := start;
      var p := 0;
      if p + 4 <= |rest| {
        hash := Xor64(hash, Mul64(Read32(rest), PRIME1));
        hash := Add64(Mul64(Rotl64(hash, 23), PRIME2), PRIME3);
        p := p + 4;
      }
      assert rest[0..] == rest;
      while p < |rest|
        invariant 0 <= p <= |rest|
        invariant ByteSteps(hash, rest[p..]) == ShortSteps(start, rest)
      {
        BytesNext(hash, rest[p..]);
        assert rest[p..][1..] == rest[p + 1..];
        hash := Xor64(hash, Mul64(rest[p], PRIME5));
        hash := Mul64(Rotl64(hash, 11), PRIME1);
        p := p + 1;
      }
      BytesNext(hash, rest[p..]);
    }
  }

  lemma {:induction false} LanesNext(h: uint64, s: seq<byte>, rotate: bool)
    ensures |s| >= 8 ==>
      && Lanes(h, s, rotate) == Lanes(LaneStep(h, Read64(s), rotate), s[8..], rotate)
      && AfterLanes(s) == AfterLanes(s[8..])
    ensures |s| < 8 ==> Lanes(h, s, rotate) == h && AfterLanes(s) == s
  {
    hide LaneStep, Read64;
  }

  lemma {:induction false} BytesNext(h: uint64, s: seq<byte>)
    ensures s != [] ==> ByteSteps(h, s) == ByteSteps(ByteStep(h, s[0]), s[1..])
    ensures s == [] ==> ByteSteps(h, s) == h
  {
    hide ByteStep;
  }

  lemma {:induction false} ZeroPlus(a: uint64)
    ensures Add64(0, a) == a
  {
  }

  /** However a file is cut into chunks, its digest is that of its contents. */
  method HashChunks(chunks: seq<seq<byte>>) returns (hash: uint64)
    requires |Joined(chunks)| < 0x1_0000_0000_0000_0000
    ensures hash == Hash(Joined(chunks), false)
  {
    hide XxHash64State.Valid, Hash;
    var state := new XxHash64State();
    for i := 0 to |chunks|
      invariant fresh(state) && fresh(state.memory) && state.Valid() && state.data == Joined(chunks[..i])
    {
      JoinedPart(chunks, i + 1);
      assert chunks[..i + 1][..i] == chunks[..i];
      state.Consume(chunks[i]);
    }
    assert chunks[..|chunks|] == chunks;
    hash := state.Digest();
  }
}
