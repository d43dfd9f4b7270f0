/** Unpacking a section into the output: value by value, four scalar streams at a time, or
  as 4-lane vectors with the delta decoding folded in.
 */
module BlockUnpack {
  import opened Bits
  import opened BitPacking
  import opened Interleaving
  import opened BlockFormat
  import opened BlockEncode
  import opened BlockDecode

  /** Base value val below an exception's high part. */
  function Combined(existing: uint32, val: uint32, w: nat): uint32 {
    LowBound(Or(val, Shl(existing, w) % 0x1_0000_0000), 32);
    assert Pow2(32) == 0x1_0000_0000 by { Pow2Values(); }
    Low(Or(val, Shl(existing, w) % 0x1_0000_0000), 32)
  }

  /** What unpacking 128 values at p, over what out already holds, must give. */
  function Unpacked(data: seq<byte>, p: nat, w: nat, existing: seq<uint32>, orExisting: bool): (r: seq<uint32>)
    requires w <= 32 && p + 16 * w + 16 <= |data| && |existing| == BLOCK_SIZE
    ensures |r| == BLOCK_SIZE
  {
    seq(BLOCK_SIZE, i requires 0 <= i < BLOCK_SIZE =>
      if orExisting then Combined(existing[i], StreamVal(data, p, w, i), w) else StreamVal(data, p, w, i))
  }

  /** Low and high part together are the value. */
  lemma {:induction false} CombinedParts(v: uint32, w: nat)
    ensures Combined(ShrWord(v, w), LowWord(v, w), w) == v
  {
    hide Low, Or, Shl, Shr, Pow2;
    Split(v, w);
    OrDisjoint(Low(v, w), Shr(v, w), w);
    assert v < Pow2(32) by { Pow2Values(); }
    LowSmall(v, 32);
  }

  // ---------------------------------------------------------------- linear sections

  method DecodeFor(data: seq<byte>, pos: nat, num: nat, out: array<uint32>, o: nat, ghost vals: seq<uint32>,
                   ghost c: Choice)
    returns (next: nat)
    requires c.kind == FOR && Lossless(vals, c) && c.width <= 24 && c.excWidth <= 32 && |vals| == num
    requires At(data, pos, BlockBytes(vals, c, false))
    requires 1 <= o && o + num <= out.Length
    modifies out
    ensures next == pos + |BlockBytes(vals, c, false)|
    ensures out[..o] == old(out[..o]) && out[o + num..] == old(out[o + num..])
    ensures Decoded(out[o..o + num], old(out[o - 1]), vals)
  {
    hide LinearBytes, BytesForPackedBits, ValueAt, Times, Pow2, Low;
    HeaderAt(data, pos, vals, c, false);
    LowOfFitting(vals, c.width);
    var width := data[pos] % 64;
    var prevVal := out[o - 1];
    ghost var prev := prevVal;
    var bs := new BitReader(data, pos + 1, width);
    for i := 0 to num
      invariant fresh(bs) && bs.Valid() && bs.data == data && bs.bits == width && bs.start == pos + 1 && bs.count == i
      invariant out[..o] == old(out[..o]) && out[o + num..] == old(out[o + num..])
      invariant i == 0 ==> prevVal == prev
      invariant i > 0 ==> prevVal == DeltaAt(prev, vals, i - 1)
      invariant forall k :: 0 <= k < i ==> out[o + k] == DeltaAt(prev, vals, k)
    {
      LinearReadsBack(data, pos + 1, vals, width, i);
      var val := bs.Read();
      prevVal := NextDocid(val, prevVal);
      out[o + i] := prevVal;
    }
    next := pos + 1 + BytesForPackedBits(num, width);
  }

  lemma {:induction false} LowOfFitting(vals: seq<uint32>, w: nat)
    requires Fit(vals, w)
    ensures LowVals(vals, w) == vals
  {
    forall i | 0 <= i < |vals| ensures Low(vals[i], w) == vals[i] { LowSmall(vals[i], w); }
  }

  /** Reads num linear values into out, optionally below what is there. */
  method ReadLinear(data: seq<byte>, p: nat, w: nat, num: nat, orExisting: bool, out: array<uint32>, o: nat,
                    ghost low: seq<uint32>)
    requires w <= 24 && |low| == num && Fit(low, w) && At(data, p, LinearBytes(low, w))
    requires o + num <= out.Length
    modifies out
    ensures out[..o] == old(out[..o]) && out[o + num..] == old(out[o + num..])
    ensures var was := old(out[o..o + num]);
      forall k :: 0 <= k < num ==> out[o + k] == if orExisting then Combined(was[k], low[k], w) else low[k]
  {
    hide LinearBytes, BytesForPackedBits, ValueAt, Times, Pow2, Low, Combined;
    ghost var was := out[o..o + num];
    var bs := new BitReader(data, p, w);
    for i := 0 to num
      invariant fresh(bs) && bs.Valid() && bs.data == data && bs.bits == w && bs.start == p && bs.count == i
      invariant out[..o] == old(out[..o]) && out[o + num..] == old(out[o + num..])
      invariant forall k :: i <= k < num ==> out[o + k] == was[k]
      invariant forall k :: 0 <= k < i ==> out[o + k] == if orExisting then Combined(was[k], low[k], w) else low[k]
    {
      LinearReadsBack(data, p, low, w, i);
      var val := bs.Read();
      out[o + i] := if orExisting then Combined(out[o + i], val, w) else val;
    }
  }

  // ---------------------------------------------------------------- four scalar streams

  ghost predicate Readers(rs: seq<InterleavedBitReader>, data: seq<byte>, p: nat, w: nat, i: nat)
    reads rs
  {
    && |rs| == 4
    && (forall a, b :: 0 <= a < b < 4 ==> rs[a] != rs[b])
    && forall l :: 0 <= l < 4 ==>
         && rs[l].data == data && rs[l].bits == w && rs[l].start == p + 4 * l && rs[l].total == w
         && rs[l].count == i && rs[l].Valid()
  }

  method MakeReaders(data: seq<byte>, p: nat, w: nat) returns (rs: seq<InterleavedBitReader>)
    requires w <= 32 && p + 16 * w + 16 <= |data|
    ensures fresh(rs) && Readers(rs, data, p, w, 0)
  {
    var r0 := new InterleavedBitReader(data, p, w, w);
    var r1 := new InterleavedBitReader(data, p + 4, w, w);
    var r2 := new InterleavedBitReader(data, p + 8, w, w);
    var r3 := new InterleavedBitReader(data, p + 12, w, w);
    rs := [r0, r1, r2, r3];
  }

  /** The generic decoders' reading loop. */
  method ReadInterleavedGeneric(data: seq<byte>, p: nat, w: nat, orExisting: bool, out: array<uint32>, o: nat)
    requires w <= 32 && p + 16 * w + 16 <= |data|
    requires o + BLOCK_SIZE <= out.Length
    modifies out
    ensures out[..o] == old(out[..o]) && out[o + BLOCK_SIZE..] == old(out[o + BLOCK_SIZE..])
    ensures out[o..o + BLOCK_SIZE] == Unpacked(data, p, w, old(out[o..o + BLOCK_SIZE]), orExisting)
  {
    hide ValueAt, Times, StreamBytes, Combined, Unpacked, StreamVal;
    var rs := MakeReaders(data, p, w);
    ghost var existing := out[o..o + BLOCK_SIZE];
    ghost var goal := Unpacked(data, p, w, existing, orExisting);
    for i := 0 to 32
      invariant fresh(rs) && Readers(rs, data, p, w, i)
      invariant out[..o] == old(out[..o]) && out[o + BLOCK_SIZE..] == old(out[o + BLOCK_SIZE..])
      invariant forall k :: 4 * i <= k < BLOCK_SIZE ==> out[o + k] == existing[k]
      invariant forall k :: 0 <= k < 4 * i ==> out[o + k] == goal[k]
    {
      ReadRow(rs, data, p, w, orExisting, out, o, i, existing);
    }
  }

  method ReadRow(rs: seq<InterleavedBitReader>, data: seq<byte>, p: nat, w: nat, orExisting: bool, out: array<uint32>,
                 o: nat, i: nat, ghost existing: seq<uint32>)
    requires Readers(rs, data, p, w, i) && i < 32 && w <= 32 && p + 16 * w + 16 <= |data|
    requires o + BLOCK_SIZE <= out.Length && |existing| == BLOCK_SIZE
    requires forall k :: 4 * i <= k < BLOCK_SIZE ==> out[o + k] == existing[k]
    modifies rs, out
    ensures Readers(rs, data, p, w, i + 1)
    ensures forall k :: 0 <= k < out.Length && !(o + 4 * i <= k < o + 4 * i + 4) ==> out[k] == old(out[k])
    ensures forall k :: 4 * i <= k < 4 * i + 4 ==> out[o + k] == Unpacked(data, p, w, existing, orExisting)[k]
  {
    hide ValueAt, Times, StreamBytes, Combined;
    RowInside(i, w);
    for l := 0 to 4
      invariant |rs| == 4 && forall a, b :: 0 <= a < b < 4 ==> rs[a] != rs[b]
      invariant forall k :: 0 <= k < 4 ==>
        rs[k].data == data && rs[k].bits == w && rs[k].start == p + 4 * k && rs[k].total == w && rs[k].Valid()
        && rs[k].count == if k < l then i + 1 else i
      invariant forall k :: 0 <= k < out.Length && !(o + 4 * i <= k < o + 4 * i + l) ==> out[k] == old(out[k])
      invariant forall k :: 4 * i <= k < 4 * i + l ==> out[o + k] == Unpacked(data, p, w, existing, orExisting)[k]
    {
      var val := rs[l].Read();
      assert (4 * i + l) % 4 == l && (4 * i + l) / 4 == i;
      assert val == StreamVal(data, p, w, 4 * i + l);
      out[o + 4 * i + l] := if orExisting then Combined(out[o + 4 * i + l], val, w) else val;
    }
  }

  lemma {:induction false} RowInside(i: nat, w: nat)
    requires i < 32
    ensures Times(i + 1, w) <= 32 * w
  {
    TimesMono(i + 1, 32, w);
    TimesIsProduct(32, w);
  }

  // ---------------------------------------------------------------- 4-lane vectors

  datatype Vec4 = Vec4(a: uint32, b: uint32, c: uint32, d: uint32)

  /** Lane-wise addition. */
  function Add4(x: Vec4, y: Vec4): Vec4 {
    Vec4(AddWord(x.a, y.a), AddWord(x.b, y.b), AddWord(x.c, y.c), AddWord(x.d, y.d))
  }

  function AddWord(x: int, y: int): uint32 {
    (x + y) % 0x1_0000_0000
  }

  /** Lanes moved up by one or by two places, zeros coming in. */
  function Shift1(x: Vec4): Vec4 { Vec4(0, x.a, x.b, x.c) }

  function Shift2(x: Vec4): Vec4 { Vec4(0, 0, x.a, x.b) }

  function Set1(x: uint32): Vec4 { Vec4(x, x, x, x) }

  /** Reads four streams in step. */
  class InterleavedBitReaderSSE2 {
    const data: seq<byte>
    const bits: nat
    var pos: nat
    var bitsUsed: nat
    ghost const start: nat
    ghost var words: nat
    ghost var count: nat

    ghost predicate Valid()
      reads this
    {
      && bits <= 32 && bitsUsed < 32
      && pos == start + 16 * words
      && 32 * words + bitsUsed == Times(count, bits)
      && start + 16 * bits + 16 <= |data|
    }

    constructor (data: seq<byte>, pos: nat, bits: nat)
      requires bits <= 32 && pos + 16 * bits + 16 <= |data|
      ensures Valid() && count == 0
      ensures this.data == data && this.bits == bits && this.start == pos
    {
      this.data := data;
      this.bits := bits;
      this.pos := pos;
      bitsUsed := 0;
      start := pos;
      words := 0;
      count := 0;
    }

    method Read() returns (val: Vec4)
      requires Valid() && count < 32
      modifies this
      ensures Valid() && count == old(count) + 1
      ensures 4 * old(count) + 3 < BLOCK_SIZE
      ensures val.a == StreamVal(data, start, bits, 4 * old(count))
      ensures val.b == StreamVal(data, start, bits, 4 * old(count) + 1)
      ensures val.c == StreamVal(data, start, bits, 4 * old(count) + 2)
      ensures val.d == StreamVal(data, start, bits, 4 * old(count) + 3)
    {
      hide ValueAt, StreamBytes, Low, Or, Shl, Shr;
      RowInside(count, bits);
      var a := ReadLane(0);
      var b := ReadLane(1);
      var c := ReadLane(2);
      var d := ReadLane(3);
      val := Vec4(a, b, c, d);
      LaneIndex(count);
      bitsUsed := bitsUsed + bits;
      pos := pos + 16 * (bitsUsed / 32);
      words := words + bitsUsed / 32;
      bitsUsed := bitsUsed % 32;
      count := count + 1;
    }

    /** What the vector operations do in lane l. */
    method ReadLane(l: nat) returns (val: uint32)
      requires Valid() && l < 4 && Times(count + 1, bits) <= 32 * bits
      ensures val == ValueAt(StreamBytes(data, start + 4 * l, bits), count, bits)
    {
      hide ValueAt, StreamBytes, Low, Or, Shl, Shr;
      var word := ReadLE32(data, pos + 4 * l);
      if bitsUsed + bits > 32 {
        StreamReadAcross(data, start + 4 * l, bits, words, bitsUsed, bits, count);
        var upper := ReadLE32(data, pos + 4 * l + 16);
        word := Or(Shr(word, bitsUsed), Shl(upper, 32 - bitsUsed) % 0x1_0000_0000);
      } else {
        StreamReadWithin(data, start + 4 * l, bits, words, bitsUsed, bits, count);
        word := Shr(word, bitsUsed);
      }
      Below32(word, bits);
      val := Low(word, bits);
    }
  }

  lemma {:induction false} LaneIndex(n: nat)
    ensures 4 * n % 4 == 0 && (4 * n + 1) % 4 == 1 && (4 * n + 2) % 4 == 2 && (4 * n + 3) % 4 == 3
    ensures 4 * n / 4 == n && (4 * n + 1) / 4 == n && (4 * n + 2) / 4 == n && (4 * n + 3) / 4 == n
  {
  }

  lemma {:induction false} AddReduced(x: int, y: int)
    ensures AddWord(x % 0x1_0000_0000, y) == (x + y) % 0x1_0000_0000
    ensures AddWord(y, x % 0x1_0000_0000) == (x + y) % 0x1_0000_0000
  {
  }

  /** Log-step prefix sums are the running sums. */
  lemma {:induction false} PrefixSums(v: Vec4, prev: uint32)
    ensures var once := Add4(v, Shift1(v));
      var sums := Add4(Add4(once, Shift2(once)), Add4(Set1(prev), Vec4(1, 2, 3, 4)));
      && sums.a == NextDocid(v.a, prev) && sums.b == NextDocid(v.b, sums.a)
      && sums.c == NextDocid(v.c, sums.b) && sums.d == NextDocid(v.d, sums.c)
  {
    assert AddWord(0, 0) == 0;
    RunningSums(v, prev);
  }

  lemma {:induction false} RunningSums(v: Vec4, prev: uint32)
    requires AddWord(0, 0) == 0
    ensures var once := Add4(v, Shift1(v));
      var sums := Add4(Add4(once, Shift2(once)), Add4(Set1(prev), Vec4(1, 2, 3, 4)));
      && sums.a == NextDocid(v.a, prev) && sums.b == NextDocid(v.b, sums.a)
      && sums.c == NextDocid(v.c, sums.b) && sums.d == NextDocid(v.d, sums.c)
  {
    hide AddWord, NextDocid;
    LaneSum(v.a, 0, 0, 0, prev, 1);
    LaneSum(v.b, v.a, 0, 0, prev, 2);
    LaneSum(v.c, v.b, v.a, 0, prev, 3);
    LaneSum(v.d, v.c, v.b, v.a, prev, 4);
    NextReduced(v.a, prev);
    NextReduced(v.b, v.a + prev + 1);
    NextReduced(v.c, v.a + v.b + prev + 2);
    NextReduced(v.d, v.a + v.b + v.c + prev + 3);
    assert prev % 0x1_0000_0000 == prev;
  }

  lemma {:induction false} NextReduced(delta: int, x: int)
    ensures NextDocid(delta, x % 0x1_0000_0000) == (delta + x + 1) % 0x1_0000_0000
  {
  }

  lemma {:induction false} LaneSum(x0: int, x1: int, x2: int, x3: int, p: int, k: int)
    ensures AddWord(AddWord(AddWord(x0, x1), AddWord(x2, x3)), AddWord(p, k))
      == (x0 + x1 + x2 + x3 + p + k) % 0x1_0000_0000
  {
    AddReduced(x0 + x1, AddWord(x2, x3));
    AddReduced(x2 + x3, x0 + x1);
    AddReduced(x0 + x1 + x2 + x3, AddWord(p, k));
    AddReduced(p + k, x0 + x1 + x2 + x3);
  }

  /** Prefix sums by two shifted additions, onto the last docid of the vector before. */
  class DeltaDecoderSSE2 {
    var prevVal: Vec4
    const delta: Vec4 := Vec4(1, 2, 3, 4)

    constructor (prev: uint32)
      ensures prevVal == Set1(prev)
    {
      prevVal := Set1(prev);
    }

    method Decode(v: Vec4, ghost prev: uint32) returns (val: Vec4)
      requires prevVal == Set1(prev)
      modifies this
      ensures val.a == NextDocid(v.a, prev) && val.b == NextDocid(v.b, val.a)
      ensures val.c == NextDocid(v.c, val.b) && val.d == NextDocid(v.d, val.c)
      ensures prevVal == Set1(val.d)
    {
      PrefixSums(v, prev);
      val := Add4(v, Shift1(v));
      val := Add4(val, Shift2(val));
      val := Add4(val, Add4(prevVal, delta));
      prevVal := Set1(val.d);
    }
  }

  function Load4(out: array<uint32>, p: nat): Vec4
    requires p + 4 <= out.Length
    reads out
  {
    Vec4(out[p], out[p + 1], out[p + 2], out[p + 3])
  }

  function OrFour(val: Vec4, existing: Vec4, w: nat): Vec4 {
    Vec4(Combined(existing.a, val.a, w), Combined(existing.b, val.b, w), Combined(existing.c, val.c, w),
         Combined(existing.d, val.d, w))
  }

  /** The vectorised section decoder: OrWithExisting and DeltaDecode as in its template. */
  method DecodeBitmapSSE2(data: seq<byte>, p: nat, w: nat, orExisting: bool, deltaDecode: bool, out: array<uint32>,
                          o: nat)
    requires w <= 32 && p + 16 * w + 16 <= |data|
    requires 1 <= o && o + BLOCK_SIZE <= out.Length
    modifies out
    ensures out[..o] == old(out[..o]) && out[o + BLOCK_SIZE..] == old(out[o + BLOCK_SIZE..])
    ensures var plain := Unpacked(data, p, w, old(out[o..o + BLOCK_SIZE]), orExisting);
      if deltaDecode then Decoded(out[o..o + BLOCK_SIZE], old(out[o - 1]), plain) else out[o..o + BLOCK_SIZE] == plain
  {
    hide StreamVal, Combined, Times, NextDocid, DeltaAt, Unpacked, Decoded, Goal, OrFour;
    ghost var prev := out[o - 1];
    ghost var existing := out[o..o + BLOCK_SIZE];
    ghost var plain := Unpacked(data, p, w, existing, orExisting);
    ghost var goal := Goal(prev, plain, deltaDecode);
    var delta := new DeltaDecoderSSE2(out[o - 1]);
    var bs := new InterleavedBitReaderSSE2(data, p, w);
    for i := 0 to 32
      invariant fresh(delta) && fresh(bs) && bs.Valid() && bs.data == data && bs.bits == w && bs.start == p
      invariant bs.count == i
      invariant out[..o] == old(out[..o]) && out[o + BLOCK_SIZE..] == old(out[o + BLOCK_SIZE..])
      invariant forall k :: 4 * i <= k < BLOCK_SIZE ==> out[o + k] == existing[k]
      invariant deltaDecode ==> delta.prevVal == Set1(if i == 0 then prev else goal[4 * i - 1])
      invariant forall k :: 0 <= k < 4 * i ==> out[o + k] == goal[k]
    {
      var val := bs.Read();
      if orExisting { val := OrFour(val, Load4(out, o + 4 * i), w); }
      UnpackedFour(data, p, w, existing, orExisting, i);
      ghost var four := val;
      if deltaDecode { val := delta.Decode(val, if i == 0 then prev else goal[4 * i - 1]); }
      GoalFour(prev, plain, deltaDecode, i, four, val);
      Store4(val, out, o + 4 * i);
    }
    GoalReached(prev, plain, deltaDecode, out[o..o + BLOCK_SIZE]);
  }

  /** What the section decoder leaves in the output: the values, or their running sums. */
  ghost function Goal(prev: uint32, plain: seq<uint32>, deltaDecode: bool): (r: seq<uint32>)
    ensures |r| == |plain|
  {
    if deltaDecode then seq(|plain|, k requires 0 <= k < |plain| => DeltaAt(prev, plain, k)) else plain
  }

  lemma {:induction false} GoalFour(prev: uint32, plain: seq<uint32>, deltaDecode: bool, i: nat, four: Vec4, val: Vec4)
    requires 4 * i + 4 <= |plain|
    requires four == FourAt(plain, 4 * i)
    requires !deltaDecode ==> val == four
    requires deltaDecode ==>
      && val.a == NextDocid(four.a, if i == 0 then prev else Goal(prev, plain, true)[4 * i - 1])
      && val.b == NextDocid(four.b, val.a) && val.c == NextDocid(four.c, val.b) && val.d == NextDocid(four.d, val.c)
    ensures val == FourAt(Goal(prev, plain, deltaDecode), 4 * i)
  {
    hide NextDocid, DeltaAt;
    if deltaDecode { FourDeltas(prev, plain, i, val); }
  }

  lemma {:induction false} GoalReached(prev: uint32, plain: seq<uint32>, deltaDecode: bool, s: seq<uint32>)
    requires |s| == |plain| && forall k :: 0 <= k < |s| ==> s[k] == Goal(prev, plain, deltaDecode)[k]
    ensures if deltaDecode then Decoded(s, prev, plain) else s == plain
  {
    hide DeltaAt;
  }

  function FourAt(s: seq<uint32>, k: nat): Vec4
    requires k + 4 <= |s|
  {
    Vec4(s[k], s[k + 1], s[k + 2], s[k + 3])
  }

  lemma {:induction false} UnpackedFour(data: seq<byte>, p: nat, w: nat, existing: seq<uint32>, orExisting: bool,
                                        i: nat)
    requires w <= 32 && p + 16 * w + 16 <= |data| && |existing| == BLOCK_SIZE && i < 32
    ensures var val := Vec4(StreamVal(data, p, w, 4 * i), StreamVal(data, p, w, 4 * i + 1),
                            StreamVal(data, p, w, 4 * i + 2), StreamVal(data, p, w, 4 * i + 3));
      FourAt(Unpacked(data, p, w, existing, orExisting), 4 * i)
        == if orExisting then OrFour(val, FourAt(existing, 4 * i), w) else val
  {
    hide StreamVal, Combined;
  }

  lemma {:induction false} FourDeltas(prev: uint32, v: seq<uint32>, i: nat, val: Vec4)
    requires 4 * i + 4 <= |v|
    requires val.a == NextDocid(v[4 * i], if i == 0 then prev else DeltaAt(prev, v, 4 * i - 1))
    requires val.b == NextDocid(v[4 * i + 1], val.a) && val.c == NextDocid(v[4 * i + 2], val.b)
    requires val.d == NextDocid(v[4 * i + 3], val.c)
    ensures val.a == DeltaAt(prev, v, 4 * i) && val.b == DeltaAt(prev, v, 4 * i + 1)
    ensures val.c == DeltaAt(prev, v, 4 * i + 2) && val.d == DeltaAt(prev, v, 4 * i + 3)
  {
    hide NextDocid;
    hide DeltaAt;
    DeltaStep(prev, v, 4 * i);
    DeltaStep(prev, v, 4 * i + 1);
    DeltaStep(prev, v, 4 * i + 2);
    DeltaStep(prev, v, 4 * i + 3);
  }

  lemma {:induction false} DeltaStep(prev: uint32, v: seq<uint32>, i: nat)
    requires i < |v|
    ensures DeltaAt(prev, v, i) == NextDocid(v[i], if i == 0 then prev else DeltaAt(prev, v, i - 1))
  {
    hide NextDocid;
  }

  method Store4(val: Vec4, out: array<uint32>, p: nat)
    requires p + 4 <= out.Length
    modifies out
    ensures out[p] == val.a && out[p + 1] == val.b && out[p + 2] == val.c && out[p + 3] == val.d
    ensures forall k :: 0 <= k < out.Length && !(p <= k < p + 4) ==> out[k] == old(out[k])
  {
    out[p], out[p + 1], out[p + 2], out[p + 3] := val.a, val.b, val.c, val.d;
  }

  /** In-place delta decoding of a full block by vectors. */
  method DeltaDecodeSSE2(out: array<uint32>, o: nat)
    requires 1 <= o && o + BLOCK_SIZE <= out.Length
    modifies out
    ensures out[..o] == old(out[..o]) && out[o + BLOCK_SIZE..] == old(out[o + BLOCK_SIZE..])
    ensures Decoded(out[o..o + BLOCK_SIZE], old(out[o - 1]), old(out[o..o + BLOCK_SIZE]))
  {
    hide NextDocid, DeltaAt;
    ghost var prev := out[o - 1];
    ghost var plain := out[o..o + BLOCK_SIZE];
    var delta := new DeltaDecoderSSE2(out[o - 1]);
    for i := 0 to 32
      invariant fresh(delta)
      invariant out[..o] == old(out[..o]) && out[o + BLOCK_SIZE..] == old(out[o + BLOCK_SIZE..])
      invariant forall k :: 4 * i <= k < BLOCK_SIZE ==> out[o + k] == plain[k]
      invariant delta.prevVal == Set1(if i == 0 then prev else DeltaAt(prev, plain, 4 * i - 1))
      invariant forall k :: 0 <= k < 4 * i ==> out[o + k] == DeltaAt(prev, plain, k)
    {
      var val := Load4(out, o + 4 * i);
      val := delta.Decode(val, if i == 0 then prev else DeltaAt(prev, plain, 4 * i - 1));
      FourDeltas(prev, plain, i, val);
      Store4(val, out, o + 4 * i);
    }
  }
}
