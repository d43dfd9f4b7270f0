/** The streaming SHA-256 state, against FIPS 180-4. */
module Sha256 {
  import opened Bits
  import opened Streams

  const K0: seq<uint32> := [
    0x428a2f98, 0x71374491, 0xb5c0fbcf, 0xe9b5dba5, 0x3956c25b, 0x59f111f1, 0x923f82a4, 0xab1c5ed5
  ]
  const K1: seq<uint32> := [
    0xd807aa98, 0x12835b01, 0x243185be, 0x550c7dc3, 0x72be5d74, 0x80deb1fe, 0x9bdc06a7, 0xc19bf174
  ]
  const K2: seq<uint32> := [
    0xe49b69c1, 0xefbe4786, 0x0fc19dc6, 0x240ca1cc, 0x2de92c6f, 0x4a7484aa, 0x5cb0a9dc, 0x76f988da
  ]
  const K3: seq<uint32> := [
    0x983e5152, 0xa831c66d, 0xb00327c8, 0xbf597fc7, 0xc6e00bf3, 0xd5a79147, 0x06ca6351, 0x14292967
  ]
  const K4: seq<uint32> := [
    0x27b70a85, 0x2e1b2138, 0x4d2c6dfc, 0x53380d13, 0x650a7354, 0x766a0abb, 0x81c2c92e, 0x92722c85
  ]
  const K5: seq<uint32> := [
    0xa2bfe8a1, 0xa81a664b, 0xc24b8b70, 0xc76c51a3, 0xd192e819, 0xd6990624, 0xf40e3585, 0x106aa070
  ]
  const K6: seq<uint32> := [
    0x19a4c116, 0x1e376c08, 0x2748774c, 0x34b0bcb5, 0x391c0cb3, 0x4ed8aa4a, 0x5b9cca4f, 0x682e6ff3
  ]
  const K7: seq<uint32> := [
    0x748f82ee, 0x78a5636f, 0x84c87814, 0x8cc70208, 0x90befffa, 0xa4506ceb, 0xbef9a3f7, 0xc67178f2
  ]
  const K := K0 + K1 + K2 + K3 + K4 + K5 + K6 + K7

  // ---------------------------------------------------------------- 32-bit words

  /** Addition modulo 2^32. */
  function Add32(a: uint32, b: uint32): uint32 {
    var sum := a as int + b as int;
    if sum < 0x1_0000_0000 then sum else sum - 0x1_0000_0000
  }

  function Xor32(a: uint32, b: uint32): uint32 {
    Pow2Values();
    XorBound(a, b, 32);
    Xor(a, b)
  }

  function And32(a: uint32, b: uint32): uint32 {
    Pow2Values();
    AndBound(a, b, 32);
    And(a, b)
  }

  function Not32(a: uint32): uint32 {
    0xffff_ffff - a
  }

  function Shr32(a: uint32, k: nat): uint32 {
    ShrMono(a, k);
    Shr(a, k)
  }

  function Rotr32(a: uint32, k: nat): uint32
    requires k <= 32
  {
    Pow2Values();
    LowBound(a, k);
    ShrBound(a, k, 32 - k);
    JoinBound(Shr(a, k), Low(a, k), 32 - k, k);
    Shr(a, k) + Shl(Low(a, k), 32 - k)
  }

  // ---------------------------------------------------------------- section 4.1.2 of FIPS 180-4

  function Ch(x: uint32, y: uint32, z: uint32): uint32 {
    Xor32(And32(x, y), And32(Not32(x), z))
  }

  function Maj(x: uint32, y: uint32, z: uint32): uint32 {
    Xor32(Xor32(And32(x, y), And32(x, z)), And32(y, z))
  }

  function UpperSigma0(x: uint32): uint32 {
    Xor32(Xor32(Rotr32(x, 2), Rotr32(x, 13)), Rotr32(x, 22))
  }

  function UpperSigma1(x: uint32): uint32 {
    Xor32(Xor32(Rotr32(x, 6), Rotr32(x, 11)), Rotr32(x, 25))
  }

  function LowerSigma0(x: uint32): uint32 {
    Xor32(Xor32(Rotr32(x, 7), Rotr32(x, 18)), Shr32(x, 3))
  }

  function LowerSigma1(x: uint32): uint32 {
    Xor32(Xor32(Rotr32(x, 17), Rotr32(x, 19)), Shr32(x, 10))
  }

  // ---------------------------------------------------------------- section 6.2.2 of FIPS 180-4

  /** The working variables, and the hash value. */
  datatype State = State(a: uint32, b: uint32, c: uint32, d: uint32, e: uint32, f: uint32, g: uint32, h: uint32)

  const INITIAL := State(0x6a09e667, 0xbb67ae85, 0x3c6ef372, 0xa54ff53a, 0x510e527f, 0x9b05688c, 0x1f83d9ab, 0x5be0cd19)

  /** A big-endian word. */
  function Word(s: seq<byte>, p: nat): uint32
    requires p + 4 <= |s|
  {
    s[p] * 0x100_0000 + s[p + 1] as int * 0x1_0000 + s[p + 2] as int * 0x100 + s[p + 3] as int
  }

  /** The message schedule. */
  function W(block: seq<byte>, t: nat): uint32
    requires |block| == 64 && t < 64
  {
    if t < 16 then Word(block, 4 * t)
    else Add32(Add32(Add32(LowerSigma1(W(block, t - 2)), W(block, t - 7)), LowerSigma0(W(block, t - 15))),
        W(block, t - 16))
  }

  function Step(s: State, k: uint32, w: uint32): State {
    var t1 := Add32(Add32(Add32(Add32(s.h, UpperSigma1(s.e)), Ch(s.e, s.f, s.g)), k), w);
    var t2 := Add32(UpperSigma0(s.a), Maj(s.a, s.b, s.c));
    State(Add32(t1, t2), s.a, s.b, s.c, Add32(s.d, t1), s.e, s.f, s.g)
  }

  function Steps(s: State, block: seq<byte>, n: nat): State
    requires |block| == 64 && n <= 64
  {
    if n == 0 then s else Step(Steps(s, block, n - 1), K[n - 1], W(block, n - 1))
  }

  function Compress(s: State, block: seq<byte>): State {
    if |block| != 64 then s
    else
      var r := Steps(s, block, 64);
      State(Add32(s.a, r.a), Add32(s.b, r.b), Add32(s.c, r.c), Add32(s.d, r.d), Add32(s.e, r.e), Add32(s.f, r.f),
          Add32(s.g, r.g), Add32(s.h, r.h))
  }

  // ---------------------------------------------------------------- section 5.1.1 of FIPS 180-4

  function Zeroes(n: nat): (s: seq<byte>)
    ensures |s| == n && forall i :: 0 <= i < n ==> s[i] == 0
  {
    if n == 0 then [] else Zeroes(n - 1) + [0]
  }

  /** n bytes, the most significant first. */
  function BigEndian(x: nat, n: nat): (s: seq<byte>)
    ensures |s| == n
  {
    if n == 0 then [] else BigEndian(x / 0x100, n - 1) + [x % 0x100]
  }

  /** Zero bytes so that a message of n bytes, a one bit and these end eight bytes short of a
      block. */
  function ZeroCount(n: nat): nat {
    if n % 64 < 56 then 55 - n % 64 else 119 - n % 64
  }

  lemma {:induction false} ZeroCountIsLeast(n: nat, k: nat)
    ensures (n + 1 + ZeroCount(n) + 8) % 64 == 0
    ensures (n + 1 + k + 8) % 64 == 0 ==> ZeroCount(n) <= k
  {
    var q, r := n / 64, n % 64;
    assert n == 64 * q + r;
    assert (n + 1 + k + 8) % 64 == (r + 9 + k) % 64;
  }

  function Padding(n: nat): (s: seq<byte>)
    ensures |s| == 9 + ZeroCount(n)
  {
    [0x80] + Zeroes(ZeroCount(n)) + BigEndian(8 * n, 8)
  }

  function WordBytes(x: uint32): seq<byte> {
    [x / 0x100_0000, x / 0x1_0000 % 0x100, x / 0x100 % 0x100, x % 0x100]
  }

  function StateBytes(s: State): (r: seq<byte>)
    ensures |r| == 32
  {
    WordBytes(s.a) + WordBytes(s.b) + WordBytes(s.c) + WordBytes(s.d) + WordBytes(s.e) + WordBytes(s.f)
        + WordBytes(s.g) + WordBytes(s.h)
  }

  /** The digest of a message. */
  function Digest(m: seq<byte>): (r: seq<byte>)
    ensures |r| == 32
  {
    StateBytes(Absorb(Compress, 64, INITIAL, m + Padding(|m|)))
  }

  lemma {:induction false} RestSize(data: seq<byte>)
    ensures |Rest(64, data)| == |data| % 64
    decreases |data|
  {
    if |data| >= 64 { RestSize(data[64..]); }
  }

  // ---------------------------------------------------------------- the streaming state

  class Sha256State {
    const buffer: array<byte>
    var h: State
    var totalLen: uint64
    var bufferLen: nat
    ghost var data: seq<byte>

    ghost predicate Valid()
      reads this, buffer
    {
      && buffer.Length == 64 && bufferLen < 64
      && totalLen == |data|
      && buffer[..bufferLen] == Rest(64, data)
      && h == Absorb(Compress, 64, INITIAL, data)
    }

    constructor ()
      ensures Valid() && data == [] && fresh(buffer)
    {
      buffer := new byte[64](_ => 0);
      h := INITIAL;
      totalLen, bufferLen := 0, 0;
      data := [];
    }

    method ProcessBlock(block: seq<byte>)
      requires |block| == 64
      modifies this`h
      ensures h == Compress(old(h), block)
    {
      hide Step, W, Add32, Steps, Word;
      var w := Schedule(block);
      var r := h;
      StepsNext(h, block, 0);
      for i := 0 to 64
        invariant r == Steps(old(h), block, i) && h == old(h)
        invariant forall t :: 0 <= t < 64 ==> w[t] == W(block, t)
      {
        StepsNext(h, block, i);
        r := OneStep(r, K[i], w[i]);
      }
      h := State(Add32(h.a, r.a), Add32(h.b, r.b), Add32(h.c, r.c), Add32(h.d, r.d),
                 Add32(h.e, r.e), Add32(h.f, r.f), Add32(h.g, r.g), Add32(h.h, r.h));
    }

    /** One pass of the compression loop over the working variables. */
    method OneStep(s: State, k: uint32, w: uint32) returns (r: State)
      ensures r == Step(s, k, w)
    {
      hide Xor32, And32, Not32, Rotr32, Add32;
      var s1 := Xor32(Xor32(Rotr32(s.e, 6), Rotr32(s.e, 11)), Rotr32(s.e, 25));
      var ch := Xor32(And32(s.e, s.f), And32(Not32(s.e), s.g));
      var temp1 := Add32(Add32(Add32(Add32(s.h, s1), ch), k), w);
      var s0 := Xor32(Xor32(Rotr32(s.a, 2), Rotr32(s.a, 13)), Rotr32(s.a, 22));
      var maj := Xor32(Xor32(And32(s.a, s.b), And32(s.a, s.c)), And32(s.b, s.c));
      var temp2 := Add32(s0, maj);
      r := s.(h := s.g, g := s.f, f := s.e, e := Add32(s.d, temp1));
      r := r.(d := s.c, c := s.b, b := s.a, a := Add32(temp1, temp2));
    }

    /** The message schedule, in an array. */
    method Schedule(block: seq<byte>) returns (w: array<uint32>)
      requires |block| == 64
      ensures fresh(w) && w.Length == 64 && forall t :: 0 <= t < 64 ==> w[t] == W(block, t)
    {
      hide Word, W, LowerSigma0, LowerSigma1, Add32;
      w := new uint32[64](_ => 0);
      for i := 0 to 16
        invariant forall t :: 0 <= t < i ==> w[t] == W(block, t)
      {
        WordNext(block, i);
        w[i] := Word(block, 4 * i);
      }
      for i := 16 to 64
        invariant forall t :: 0 <= t < i ==> w[t] == W(block, t)
      {
        WordNext(block, i);
        AddFour(w[i - 16], LowerSigma0(w[i - 15]), w[i - 7], LowerSigma1(w[i - 2]));
        w[i] := Add32(Add32(Add32(w[i - 16], LowerSigma0(w[i - 15])), w[i - 7]), LowerSigma1(w[i - 2]));
      }
    }

    method Consume(chunk: seq<byte>)
      requires Valid() && |data| + |chunk| < 0x1_0000_0000_0000_0000
      modifies this, buffer
      ensures Valid() && data == old(data) + chunk
    {
      hide Absorb, Rest, Compress;
      AbsorbMore(Compress, 64, INITIAL, data, chunk);
      totalLen := totalLen + |chunk|;
      data := data + chunk;
      ghost var held := buffer[..bufferLen];
      var p := 0;
      if bufferLen > 0 {
        var fill := if 64 - bufferLen > |chunk| then |chunk| else 64 - bufferLen;
        forall i | 0 <= i < fill { buffer[bufferLen + i] := chunk[i]; }
        bufferLen := bufferLen + fill;
        assert buffer[..bufferLen] == held + chunk[..fill];
        p := fill;
        AbsorbOne(Compress, 64, h, held + chunk);
        if bufferLen == 64 {
          assert buffer[..] == (held + chunk)[..64];
          DropFront(held, chunk, fill);
          ProcessBlock(buffer[..]);
          bufferLen := 0;
        } else {
          assert chunk[..fill] == chunk;
          return;
        }
      } else {
        assert held + chunk == chunk[0..];
      }
      ConsumeRest(chunk, p);
    }

    /** The whole blocks from p on, and what is left after them. */
    method ConsumeRest(chunk: seq<byte>, start: nat)
      requires buffer.Length == 64 && start <= |chunk| && bufferLen == 0
      modifies this`h, this`bufferLen, buffer
      ensures bufferLen < 64 && buffer[..bufferLen] == Rest(64, chunk[start..])
      ensures h == Absorb(Compress, 64, old(h), chunk[start..])
    {
      hide Absorb, Rest, Compress;
      var p := start;
      while |chunk| - p >= 64
        invariant start <= p <= |chunk| && bufferLen == 0
        invariant Absorb(Compress, 64, h, chunk[p..]) == Absorb(Compress, 64, old(h), chunk[start..])
        invariant Rest(64, chunk[p..]) == Rest(64, chunk[start..])
      {
        AbsorbOne(Compress, 64, h, chunk[p..]);
        assert chunk[p..][..64] == chunk[p..p + 64] && chunk[p..][64..] == chunk[p + 64..];
        ProcessBlock(chunk[p..p + 64]);
        p := p + 64;
      }
      AbsorbOne(Compress, 64, h, chunk[p..]);
      if |chunk| - p > 0 {
        forall i | 0 <= i < |chunk| - p { buffer[i] := chunk[p + i]; }
        bufferLen := |chunk| - p;
      }
      assert buffer[..bufferLen] == chunk[p..];
    }

    /** Zero bytes up to the given length. */
    method FillZeroes(end: nat)
      requires buffer.Length == 64 && bufferLen <= end <= 64
      modifies this`bufferLen, buffer
      ensures bufferLen == end && buffer[..end] == old(buffer[..bufferLen]) + Zeroes(end - old(bufferLen))
    {
      ghost var was := buffer[..bufferLen];
      ghost var n := bufferLen;
      while bufferLen < end
        invariant n <= bufferLen <= end && buffer[..bufferLen] == was + Zeroes(bufferLen - n)
      {
        buffer[bufferLen] := 0;
        assert buffer[..bufferLen + 1] == buffer[..bufferLen] + [0];
        bufferLen := bufferLen + 1;
      }
    }

    method PutLength(bitLen: uint64)
      requires buffer.Length == 64 && bufferLen == 56
      modifies this`bufferLen, buffer
      ensures bufferLen == 64 && buffer[..] == old(buffer[..56]) + BigEndian(bitLen, 8)
    {
      hide BigEndian;
      ghost var was := buffer[..56];
      var i := 8;
      BigEndianNone(bitLen);
      while i > 0
        invariant 0 <= i <= 8 && bufferLen == 64 - i
        invariant buffer[..bufferLen] == was + BigEndian(Shr(bitLen, 8 * i), 8 - i)
      {
        i := i - 1;
        BigEndianNext(bitLen, i);
        buffer[bufferLen] := Shr(bitLen, 8 * i) % 0x100;
        assert buffer[..bufferLen + 1] == buffer[..bufferLen] + [buffer[bufferLen]];
        bufferLen := bufferLen + 1;
      }
      assert buffer[..64] == buffer[..];
    }

    method Finalize() returns (out: seq<byte>)
      requires Valid() && 8 * |data| < 0x1_0000_0000_0000_0000
      modifies this, buffer
      ensures out == Digest(old(data))
    {
      hide Absorb, Rest, Compress, BigEndian, StateBytes, Zeroes;
      var bitLen := totalLen * 8;
      ghost var rest := buffer[..bufferLen];
      ghost var message := rest + Padding(|data|);
      RestSize(data);
      AbsorbMore(Compress, 64, INITIAL, data, Padding(|data|));
      buffer[bufferLen] := 0x80;
      bufferLen := bufferLen + 1;
      assert buffer[..bufferLen] == rest + [0x80];
      if bufferLen > 56 {
        FillZeroes(64);
        ghost var first := buffer[..];
        assert buffer[..64] == first;
        LongPadding(|data|, |rest|);
        AbsorbOne(Compress, 64, h, message);
        assert message == first + (Zeroes(56) + BigEndian(bitLen, 8));
        assert message[..64] == first && message[64..] == Zeroes(56) + BigEndian(bitLen, 8);
        message := message[64..];
        ProcessBlock(buffer[..]);
        bufferLen := 0;
      }
      FillZeroes(56);
      PutLength(bitLen);
      assert buffer[..] == message;
      AbsorbOne(Compress, 64, h, message);
      assert message[..64] == message && message[64..] == [];
      ProcessBlock(buffer[..]);
      AbsorbOne(Compress, 64, h, []);
      out := StateBytes(h);
    }
  }

  lemma {:induction false} StepsNext(s: State, block: seq<byte>, i: nat)
    requires |block| == 64 && i < 64
    ensures Steps(s, block, 0) == s && Steps(s, block, i + 1) == Step(Steps(s, block, i), K[i], W(block, i))
  {
    hide Step, W;
  }

  lemma {:induction false} WordNext(block: seq<byte>, t: nat)
    requires |block| == 64 && t < 64
    ensures t < 16 ==> W(block, t) == Word(block, 4 * t)
    ensures t >= 16 ==>
      var sum := Add32(Add32(LowerSigma1(W(block, t - 2)), W(block, t - 7)), LowerSigma0(W(block, t - 15)));
      W(block, t) == Add32(sum, W(block, t - 16))
  {
    hide LowerSigma0, LowerSigma1, Add32, Word;
  }

  /** The order in which the words of the schedule are added does not matter. */
  lemma {:induction false} AddFour(a: uint32, b: uint32, c: uint32, d: uint32)
    ensures Add32(Add32(Add32(a, b), c), d) == Add32(Add32(Add32(d, c), b), a)
  {
  }

  lemma {:induction false} BigEndianNone(x: uint64)
    ensures BigEndian(Shr(x, 64), 0) == []
  {
  }

  lemma {:induction false} BigEndianNext(x: uint64, i: nat)
    requires i < 8
    ensures BigEndian(Shr(x, 8 * i), 8 - i) == BigEndian(Shr(x, 8 * (i + 1)), 7 - i) + [Shr(x, 8 * i) % 0x100]
    ensures Shr(x, 0) == x
  {
    ShrShr(x, 8 * i, 8);
    ShrByte(Shr(x, 8 * i));
  }

  lemma {:induction false} LongPadding(n: nat, r: nat)
    requires r == n % 64 && r >= 56
    ensures Padding(n) == [0x80] + Zeroes(63 - r) + (Zeroes(56) + BigEndian(8 * n, 8))
  {
    assert Zeroes(119 - r) == Zeroes(63 - r) + Zeroes(56);
  }

  /** However a file is cut into chunks, its digest is that of its contents. */
  method HashChunks(chunks: seq<seq<byte>>) returns (out: seq<byte>)
    requires 8 * |Joined(chunks)| < 0x1_0000_0000_0000_0000
    ensures out == Digest(Joined(chunks))
  {
    hide Sha256State.Valid, Digest;
    var state := new Sha256State();
    for i := 0 to |chunks|
      invariant fresh(state) && fresh(state.buffer) && state.Valid() && state.data == Joined(chunks[..i])
    {
      JoinedPart(chunks, i + 1);
      assert chunks[..i + 1][..i] == chunks[..i];
      state.Consume(chunks[i]);
    }
    assert chunks[..|chunks|] == chunks;
    out := state.Finalize();
  }
}
