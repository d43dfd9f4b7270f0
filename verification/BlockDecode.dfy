/** Reading blocks back: the plain decoders, one value at a time.

  Decoders fill out[o..] and take the last docid before the block from out[o - 1]. They look
  at most 16 bytes past the end of a block.
 */
module BlockDecode {
  import opened Bits
  import opened BitPacking
  import opened Interleaving
  import opened BlockFormat
  import opened BlockEncode

  /** One delta-plus-1 step, modulo 2^32. */
  function NextDocid(delta: int, prev: int): uint32 {
    (delta + prev + 1) % 0x1_0000_0000
  }

  /** The i-th docid after prev. */
  function DeltaAt(prev: uint32, deltas: seq<uint32>, i: nat): uint32
    requires i < |deltas|
  {
    if i == 0 then NextDocid(deltas[0], prev)
    else NextDocid(deltas[i], DeltaAt(prev, deltas, i - 1))
  }

  ghost predicate Decoded(s: seq<uint32>, prev: uint32, deltas: seq<uint32>) {
    |s| == |deltas| && forall i :: 0 <= i < |s| ==> s[i] == DeltaAt(prev, deltas, i)
  }

  /** The bytes b lie at position p, with room for the readers' overrun after them. */
  ghost predicate At(data: seq<byte>, p: nat, b: seq<byte>) {
    p + |b| + 16 <= |data| && data[p..p + |b|] == b
  }

  lemma {:induction false} AtSplit(data: seq<byte>, p: nat, a: seq<byte>, b: seq<byte>)
    requires At(data, p, a + b)
    ensures At(data, p, a) && At(data, p + |a|, b)
  {
    var ab := a + b;
    assert data[p..p + |a|] == data[p..p + |ab|][..|a|] == ab[..|a|] == a;
    assert data[p + |a|..p + |a| + |b|] == data[p..p + |ab|][|a|..] == ab[|a|..] == b;
  }

  lemma {:induction false} AtOne(data: seq<byte>, p: nat, b: byte)
    requires At(data, p, [b])
    ensures p < |data| && data[p] == b
  {
    assert data[p] == data[p..p + 1][0];
  }

  // ---------------------------------------------------------------- sections read back

  lemma {:induction false} LinearReadsBack(data: seq<byte>, p: nat, vals: seq<nat>, w: nat, k: nat)
    requires At(data, p, LinearBytes(vals, w)) && Fit(vals, w) && k < |vals|
    ensures ValueAt(data[p..], k, w) == vals[k]
    ensures p + BytesForPackedBits(k + 1, w) + 4 <= |data|
  {
    hide LinearBytes, ValueAt, BytesForPackedBits, Fit;
    var b := LinearBytes(vals, w);
    assert data[p..] == b + data[p + |b|..];
    LinearRoundTrip(vals, w, data[p + |b|..], k);
    BytesMono(k + 1, |vals|, w);
  }

  /** What the four streams at p hold, in block order. */
  function StreamVal(data: seq<byte>, p: nat, w: nat, i: nat): (v: uint32)
    requires i < BLOCK_SIZE && w <= 32 && p + 16 * w + 16 <= |data|
  {
    Below32(Shr(LE(StreamBytes(data, p + 4 * (i % 4), w)), Times(i / 4, w)), w);
    ValueAt(StreamBytes(data, p + 4 * (i % 4), w), i / 4, w)
  }

  function StreamVals(data: seq<byte>, p: nat, w: nat): (r: seq<uint32>)
    requires w <= 32 && p + 16 * w + 16 <= |data|
    ensures |r| == BLOCK_SIZE
  {
    seq(BLOCK_SIZE, i requires 0 <= i < BLOCK_SIZE => StreamVal(data, p, w, i))
  }

  /** De-interleaving undoes interleaving, for every width up to 32. */
  lemma {:induction false} InterleavedReadsBack(data: seq<byte>, p: nat, vals: seq<uint32>, w: nat)
    requires |vals| == BLOCK_SIZE && w <= 32 && Fit(vals, w) && At(data, p, InterleavedBytes(vals, w))
    ensures StreamVals(data, p, w) == vals
  {
    hide LinearBytes, InterleavedBytes, StreamBytes, ValueAt;
    var s := InterleavedBytes(vals, w);
    forall i | 0 <= i < BLOCK_SIZE ensures StreamVal(data, p, w, i) == vals[i] {
      var l, k := i % 4, i / 4;
      StreamShift(data, s, p, 4 * l, w);
      SectionLane(vals, w, l, w);
      LaneLength(vals, w, l);
      var packed := LinearBytes(Lane(vals, l), w);
      assert packed[..4 * w] == packed;
      assert Fit(Lane(vals, l), w);
      LinearRoundTrip(Lane(vals, l), w, [], k);
      assert packed + [] == packed;
    }
  }

  lemma {:induction false} SectionLane(vals: seq<uint32>, w: nat, l: nat, n: nat)
    requires |vals| == BLOCK_SIZE && l < 4 && n <= w
    ensures 4 * w == |LinearBytes(Lane(vals, l), w)|
    ensures StreamBytes(InterleavedBytes(vals, w), 4 * l, n) == LinearBytes(Lane(vals, l), w)[..4 * n]
  {
    hide LinearBytes, Lane, BytesForPackedBits, InterleavedBytes;
    LaneLength(vals, w, l);
    if n > 0 {
      SectionLane(vals, w, l, n - 1);
      var p, packed := 4 * l + 16 * (n - 1), LinearBytes(Lane(vals, l), w);
      assert InterleavedBytes(vals, w)[p..p + 4] == packed[4 * (n - 1)..4 * n] by {
        SectionWord(vals, w, l, n - 1);
      }
    }
  }

  lemma {:induction false} SectionWord(vals: seq<uint32>, w: nat, l: nat, j: nat)
    requires |vals| == BLOCK_SIZE && l < 4 && j < w
    ensures 4 * w == |LinearBytes(Lane(vals, l), w)|
    ensures InterleavedBytes(vals, w)[4 * l + 16 * j..4 * l + 16 * j + 4]
      == LinearBytes(Lane(vals, l), w)[4 * j..4 * j + 4]
  {
    hide LinearBytes, Lane, BytesForPackedBits;
    LaneLength(vals, w, l);
    var s, packed := InterleavedBytes(vals, w), LinearBytes(Lane(vals, l), w);
    forall i | 4 * l + 16 * j <= i < 4 * l + 16 * j + 4 ensures s[i] == packed[i - 4 * l - 12 * j] {
      assert i % 16 / 4 == l && i / 16 == j && i % 4 == i - 4 * l - 16 * j;
    }
  }

  // ---------------------------------------------------------------- base value

  /** The length marks tell the four codes apart, and each code gives its value back. */
  lemma {:induction false} BasevalReadsBack(v: uint32)
    requires v < 0x1000_0000
    ensures var b := BasevalBytes(v);
      && (|b| == 1 <==> b[0] < 128) && (|b| == 2 <==> 128 <= b[0] < 192)
      && (|b| == 3 <==> 192 <= b[0] < 224) && (|b| == 4 <==> 224 <= b[0] < 240)
      && (|b| == 1 ==> v == b[0])
      && (|b| == 2 ==> v == (b[0] as int * 0x100 + b[1] as int) % 0x4000)
      && (|b| == 3 ==> v == (b[0] as int * 0x1_0000 + b[2] as int * 0x100 + b[1] as int) % 0x20_0000)
      && (|b| == 4 ==>
        v == (b[0] as int * 0x100_0000 + b[1] as int * 0x1_0000 + b[2] as int * 0x100 + b[3] as int) % 0x1000_0000)
  {
    if v < 128 {
    } else if v < 0x4000 {
    } else if v < 0x20_0000 {
      ThreeBytes(v);
    } else {
      FourBytes(v);
    }
  }

  lemma {:induction false} ThreeBytes(v: nat)
    requires v < 0x20_0000
    ensures v == v / 0x1_0000 * 0x1_0000 + v / 0x100 % 0x100 * 0x100 + v % 0x100
    ensures v / 0x1_0000 < 0x20
    ensures ((v / 0x1_0000 + 0xc0) * 0x1_0000 + v / 0x100 % 0x100 * 0x100 + v % 0x100) % 0x20_0000 == v
  {
    assert v / 0x100 == v / 0x1_0000 * 0x100 + v / 0x100 % 0x100;
  }

  lemma {:induction false} FourBytes(v: nat)
    requires v < 0x1000_0000
    ensures v / 0x100_0000 < 0x10
    ensures ((v / 0x100_0000 + 0xe0) * 0x100_0000 + v / 0x1_0000 % 0x100 * 0x1_0000 + v / 0x100 % 0x100 * 0x100
      + v % 0x100) % 0x1000_0000 == v
  {
    assert v / 0x1_0000 == v / 0x100_0000 * 0x100 + v / 0x1_0000 % 0x100;
    assert v / 0x100 == v / 0x1_0000 * 0x100 + v / 0x100 % 0x100;
  }

  /** Reads the first docid. */
  method ReadBaseval(data: seq<byte>, pos: nat, ghost v: uint32) returns (val: uint32, next: nat)
    requires v < 0x1000_0000 && At(data, pos, BasevalBytes(v))
    ensures val == v && next == pos + |BasevalBytes(v)|
  {
    hide BasevalBytes;
    ghost var b := BasevalBytes(v);
    BasevalReadsBack(v);
    assert forall i :: 0 <= i < |b| ==> data[pos + i] == data[pos..pos + |b|][i] == b[i];
    var b0: int := data[pos];
    if b0 < 128 {
      val, next := b0, pos + 1;
    } else if b0 < 192 {
      val := (b0 * 0x100 + data[pos + 1] as int) % 0x4000;
      next := pos + 2;
    } else if b0 < 224 {
      val := (b0 * 0x1_0000 + data[pos + 2] as int * 0x100 + data[pos + 1] as int) % 0x20_0000;
      next := pos + 3;
    } else {
      var b1, b2, b3 := data[pos + 1] as int, data[pos + 2] as int, data[pos + 3] as int;
      val := (b0 * 0x100_0000 + b1 * 0x1_0000 + b2 * 0x100 + b3) % 0x1000_0000;
      next := pos + 4;
    }
  }

  // ---------------------------------------------------------------- delta decoding in place

  method DeltaDecode(out: array<uint32>, o: nat, num: nat)
    requires 1 <= o && o + num <= out.Length
    modifies out
    ensures out[..o] == old(out[..o]) && out[o + num..] == old(out[o + num..])
    ensures Decoded(out[o..o + num], old(out[o - 1]), old(out[o..o + num]))
  {
    ghost var deltas := out[o..o + num];
    ghost var prev := out[o - 1];
    var prevVal := out[o - 1];
    for i := 0 to num
      invariant out[..o] == old(out[..o]) && out[o + i..] == old(out[o + i..])
      invariant i == 0 ==> prevVal == prev
      invariant i > 0 ==> prevVal == DeltaAt(prev, deltas, i - 1)
      invariant forall k :: 0 <= k < i ==> out[o + k] == DeltaAt(prev, deltas, k)
    {
      assert out[o + i] == out[o + i..][0] == deltas[i];
      prevVal := NextDocid(out[o + i], prevVal);
      out[o + i] := prevVal;
    }
    ghost var s := out[o..o + num];
    assert forall k :: 0 <= k < num ==> s[k] == out[o + k];
  }

  // ---------------------------------------------------------------- constant and FOR

  method DecodeConstant(data: seq<byte>, pos: nat, num: nat, out: array<uint32>, o: nat, ghost vals: seq<uint32>,
                        ghost c: Choice, ghost il: bool)
    returns (next: nat)
    requires c.kind == CONSTANT && Lossless(vals, c) && c.excWidth <= 32 && |vals| == num && (il ==> num == BLOCK_SIZE)
    requires At(data, pos, BlockBytes(vals, c, il))
    requires 1 <= o && o + num <= out.Length
    modifies out
    ensures next == pos + |BlockBytes(vals, c, il)|
    ensures out[..o] == old(out[..o]) && out[o + num..] == old(out[o + num..])
    ensures Decoded(out[o..o + num], old(out[o - 1]), vals)
  {
    hide LEBytes, LE, NumBits, Low;
    HeaderAt(data, pos, vals, c, il);
    var width := data[pos] % 64;
    ConstantReadsBack(data, pos + 1, vals[0]);
    var val := LE(data[pos + 1..pos + 5]);
    if width < 32 { val := Low(val, width); }
    var prevVal := out[o - 1];
    ghost var prev := prevVal;
    for i := 0 to num
      invariant out[..o] == old(out[..o]) && out[o + num..] == old(out[o + num..])
      invariant i == 0 ==> prevVal == prev
      invariant i > 0 ==> prevVal == DeltaAt(prev, vals, i - 1)
      invariant forall k :: 0 <= k < i ==> out[o + k] == DeltaAt(prev, vals, k)
    {
      assert val == vals[i];
      prevVal := NextDocid(val, prevVal);
      out[o + i] := prevVal;
    }
    next := pos + 1 + DivRoundUp(width, 8);
  }

  lemma {:induction false} HeaderAt(data: seq<byte>, pos: nat, vals: seq<uint32>, c: Choice, il: bool)
    requires 0 < |vals| <= BLOCK_SIZE && c.width <= 32 && c.excWidth <= 32 && (il ==> |vals| == BLOCK_SIZE)
    requires At(data, pos, BlockBytes(vals, c, il))
    ensures data[pos] % 64 == c.width && data[pos] / 64 == TypeCode(c.kind)
    ensures At(data, pos + 1, Body(vals, c, il))
  {
    hide Body;
    AtSplit(data, pos, [HeaderByte(c)], Body(vals, c, il));
    assert data[pos] == data[pos..pos + 1][0];
  }

  lemma {:induction false} ConstantReadsBack(data: seq<byte>, p: nat, v: uint32)
    requires At(data, p, LEBytes(v, DivRoundUp(NumBits(v), 8)))
    ensures NumBits(v) <= 32
    ensures LE(data[p..p + 4]) < 0x1_0000_0000
    ensures NumBits(v) < 32 ==> Low(LE(data[p..p + 4]), NumBits(v)) == v
    ensures NumBits(v) == 32 ==> LE(data[p..p + 4]) == v
  {
    hide Low, LE, LEBytes, NumBits, Pow2;
    var w, n := NumBits(v), DivRoundUp(NumBits(v), 8);
    assert Pow2(32) == 0x1_0000_0000 by { Pow2Values(); }
    NumBitsLeast(v, 32);
    NumBitsLeast(v, w);
    var s := data[p..p + 4];
    LEBound(s);
    assert s[..n] == data[p..p + n];
    LESplit(s, n);
    LEOfLEBytes(v, n);
    Pow2Mono(w, 8 * n);
    LowSmall(v, w);
    LowSmall(v, 8 * n);
    LowLow(LE(s), w, 8 * n - w);
    assert w + (8 * n - w) == 8 * n;
    if w == 32 { LowSmall(LE(s), 32); }
  }
}
