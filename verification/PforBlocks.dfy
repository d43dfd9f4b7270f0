/** Whole blocks with exceptions: each decoder, in its scalar and its vector form, gives back
  the values its encoder was given.
 */
module PforBlocks {
  import opened Bits
  import opened BitPacking
  import opened Interleaving
  import opened BlockFormat
  import opened BlockEncode
  import opened BlockDecode
  import opened BlockUnpack
  import opened PforDecode

  // ---------------------------------------------------------------- base values

  lemma {:induction false} LowFits(vals: seq<uint32>, w: nat)
    ensures Fit(LowVals(vals, w), w)
  {
    forall i | 0 <= i < |vals| ensures Low(vals[i], w) < Pow2(w) { LowBound(vals[i], w); }
  }

  /** Joining the exceptions' high parts with the base values restores the block. */
  lemma {:induction false} UnpackedIsBlock(data: seq<byte>, p: nat, vals: seq<uint32>, w: nat, existing: seq<uint32>)
    requires |vals| == BLOCK_SIZE == |existing| && w <= 32 && At(data, p, InterleavedBytes(LowVals(vals, w), w))
    requires forall k :: 0 <= k < BLOCK_SIZE ==> existing[k] == ShrWord(vals[k], w)
    ensures Unpacked(data, p, w, existing, true) == vals
    ensures Unpacked(data, p, w, existing, false) == LowVals(vals, w)
  {
    hide InterleavedBytes, StreamVal, Combined, LowWord, ShrWord;
    LowFits(vals, w);
    InterleavedReadsBack(data, p, LowVals(vals, w), w);
    forall k | 0 <= k < BLOCK_SIZE
      ensures StreamVal(data, p, w, k) == LowVals(vals, w)[k]
      ensures Combined(existing[k], LowVals(vals, w)[k], w) == vals[k]
    {
      assert StreamVals(data, p, w)[k] == StreamVal(data, p, w, k);
      CombinedParts(vals[k], w);
    }
  }

  lemma {:induction false} UnpackedIsLow(data: seq<byte>, p: nat, vals: seq<uint32>, w: nat, existing: seq<uint32>)
    requires |vals| == BLOCK_SIZE == |existing| && w <= 32 && At(data, p, InterleavedBytes(LowVals(vals, w), w))
    ensures Unpacked(data, p, w, existing, false) == LowVals(vals, w)
  {
    hide InterleavedBytes, StreamVal, Combined, LowWord;
    LowFits(vals, w);
    InterleavedReadsBack(data, p, LowVals(vals, w), w);
    forall k | 0 <= k < BLOCK_SIZE ensures StreamVal(data, p, w, k) == LowVals(vals, w)[k] {
      assert StreamVals(data, p, w)[k] == StreamVal(data, p, w, k);
    }
  }

  /** Scalar reading and delta decoding, or both at once by vectors. */
  method UnpackFull(data: seq<byte>, p: nat, w: nat, orExisting: bool, sse2: bool, out: array<uint32>, o: nat)
    requires w <= 32 && p + 16 * w + 16 <= |data|
    requires 1 <= o && o + BLOCK_SIZE <= out.Length
    modifies out
    ensures out[..o] == old(out[..o]) && out[o + BLOCK_SIZE..] == old(out[o + BLOCK_SIZE..])
    ensures Decoded(out[o..o + BLOCK_SIZE], old(out[o - 1]),
      Unpacked(data, p, w, old(out[o..o + BLOCK_SIZE]), orExisting))
  {
    hide Unpacked;
    if sse2 {
      DecodeBitmapSSE2(data, p, w, orExisting, true, out, o);
    } else {
      ReadInterleavedGeneric(data, p, w, orExisting, out, o);
      assert out[o - 1] == out[..o][o - 1];
      DeltaDecode(out, o, BLOCK_SIZE);
    }
  }

  method DecodeForInterleaved(data: seq<byte>, pos: nat, sse2: bool, out: array<uint32>, o: nat,
                              ghost vals: seq<uint32>, ghost c: Choice)
    returns (next: nat)
    requires c.kind == FOR && Lossless(vals, c) && c.excWidth <= 32 && |vals| == BLOCK_SIZE
    requires At(data, pos, BlockBytes(vals, c, true))
    requires 1 <= o && o + BLOCK_SIZE <= out.Length
    modifies out
    ensures next == pos + |BlockBytes(vals, c, true)|
    ensures out[..o] == old(out[..o]) && out[o + BLOCK_SIZE..] == old(out[o + BLOCK_SIZE..])
    ensures Decoded(out[o..o + BLOCK_SIZE], old(out[o - 1]), vals)
  {
    hide Unpacked, InterleavedBytes, StreamVal;
    HeaderAt(data, pos, vals, c, true);
    var width := data[pos] % 64;
    LowOfFitting(vals, c.width);
    UnpackedIsLow(data, pos + 1, vals, c.width, out[o..o + BLOCK_SIZE]);
    UnpackFull(data, pos + 1, width, false, sse2, out, o);
    FullBytes(width);
    next := pos + 1 + BytesForPackedBits(BLOCK_SIZE, width);
  }

  lemma {:induction false} FullBytes(w: nat)
    ensures BytesForPackedBits(BLOCK_SIZE, w) == 16 * w
  {
    TimesIsProduct(128, w);
  }

  // ---------------------------------------------------------------- bitmap exceptions

  method ClearOut(out: array<uint32>, o: nat, num: nat)
    requires o + num <= out.Length
    modifies out
    ensures out[..o] == old(out[..o]) && out[o + num..] == old(out[o + num..])
    ensures forall k :: o <= k < o + num ==> out[k] == 0
  {
    for i := 0 to num
      invariant out[..o] == old(out[..o]) && out[o + num..] == old(out[o + num..])
      invariant forall k :: o <= k < o + i ==> out[k] == 0
    {
      out[o + i] := 0;
    }
  }

  /** Linear base values under the exceptions, delta decoded on the way. */
  method BitmapBaseLinear(data: seq<byte>, p: nat, w: nat, num: nat, out: array<uint32>, o: nat,
                          ghost vals: seq<uint32>)
    
    requires w <= 24 && |vals| == num && At(data, p, LinearBytes(LowVals(vals, w), w))
    requires 1 <= o && o + num <= out.Length && forall k :: 0 <= k < num ==> out[o + k] == ShrWord(vals[k], w)
    modifies out
    ensures out[..o] == old(out[..o]) && out[o + num..] == old(out[o + num..])
    ensures Decoded(out[o..o + num], old(out[o - 1]), vals)
  {
    hide LinearBytes, BytesForPackedBits, ValueAt, Times, Pow2, LowWord, ShrWord, Combined;
    ghost var prev := out[o - 1];
    var prevVal := out[o - 1];
    LowFits(vals, w);
    var bs := new BitReader(data, p, w);
    for i := 0 to num
      invariant fresh(bs) && bs.Valid() && bs.data == data && bs.bits == w && bs.start == p && bs.count == i
      invariant out[..o] == old(out[..o]) && out[o + num..] == old(out[o + num..])
      invariant i == 0 ==> prevVal == prev
      invariant i > 0 ==> prevVal == DeltaAt(prev, vals, i - 1)
      invariant forall k :: 0 <= k < i ==> out[o + k] == DeltaAt(prev, vals, k)
      invariant forall k :: i <= k < num ==> out[o + k] == ShrWord(vals[k], w)
    {
      LinearReadsBack(data, p, LowVals(vals, w), w, i);
      var val := bs.Read();
      CombinedParts(vals[i], w);
      prevVal := NextDocid(Combined(out[o + i], val, w), prevVal);
      out[o + i] := prevVal;
    }
  }

  method DecodePforBitmap(data: seq<byte>, pos: nat, num: nat, interleaved: bool, sse2: bool, out: array<uint32>,
                          o: nat, ghost vals: seq<uint32>, ghost c: Choice)
    returns (next: nat)
    requires c.kind == PFOR_BITMAP && Lossless(vals, c) && LinearPartsNarrow(c, interleaved) && |vals| == num
    requires interleaved ==> num == BLOCK_SIZE
    requires At(data, pos, BlockBytes(vals, c, interleaved))
    requires 1 <= o && o + num <= out.Length
    modifies out
    ensures next == pos + |BlockBytes(vals, c, interleaved)|
    ensures out[..o] == old(out[..o]) && out[o + num..] == old(out[o + num..])
    ensures Decoded(out[o..o + num], old(out[o - 1]), vals)
  {
    hide Unpacked, InterleavedBytes, StreamVal, LinearBytes, Exceptions, ExceptionBits, BytesForPackedBits, ShrWord,
         LowWord, Decoded, Fit;
    HeaderAt(data, pos, vals, c, interleaved);
    var width := data[pos] % 64;
    ghost var head := [c.excWidth] + LinearBytes(ExceptionBits(vals, c.width), 1)
        + LinearBytes(Exceptions(vals, c.width), c.excWidth);
    ghost var base := Section(LowVals(vals, c.width), c.width, interleaved);
    AtSplit(data, pos + 1, head, base);
    ClearOut(out, o, num);
    assert out[o - 1] == out[..o][o - 1];
    var p := DecodeBitmapExceptions(data, pos + 1, num, out, o, vals, c.width, c.excWidth);
    assert out[o - 1] == out[..o][o - 1];
    if interleaved {
      UnpackedIsBlock(data, p, vals, width, out[o..o + num]);
      UnpackFull(data, p, width, true, sse2, out, o);
      FullBytes(width);
    } else {
      BitmapBaseLinear(data, p, width, num, out, o, vals);
    }
    SectionLength(LowVals(vals, c.width), c.width, interleaved);
    next := p + BytesForPackedBits(num, width);
  }

  // ---------------------------------------------------------------- varbyte exceptions

  /** The first byte of a varbyte tells the form; the rest of it gives the value. */
  lemma {:induction false} VbAt(data: seq<byte>, pos: nat, v: uint32)
    requires At(data, pos, VbBytes(v))
    ensures pos + 5 <= |data|
    ensures var b0 := data[pos];
      && (b0 <= 176 ==> v == b0 && |VbBytes(v)| == 1)
      && (176 < b0 <= 240 ==> v == (b0 - 177) * 0x100 + data[pos + 1] + 177 && |VbBytes(v)| == 2)
      && (240 < b0 <= 248 ==>
            v == (b0 - 241) * 0x1_0000 + LE(data[pos + 1..pos + 3]) + 16561 && |VbBytes(v)| == 3)
      && (b0 == 249 ==> v == LE(data[pos + 1..pos + 4]) && |VbBytes(v)| == 4)
      && (b0 > 249 ==> v == LE(data[pos + 1..pos + 5]) && |VbBytes(v)| == 5)
  {
    hide LE, LEBytes;
    var b := VbBytes(v);
    assert data[pos] == data[pos..pos + |b|][0] == b[0];
    assert data[pos + 1..pos + |b|] == data[pos..pos + |b|][1..] == b[1..];
    if v <= 176 {
    } else if v <= 16560 {
      assert data[pos + 1] == data[pos + 1..pos + 2][0] == b[1];
    } else if v <= 540848 {
      LEBytesBack((v - 16561) % 0x1_0000, 2);
      assert b[1..] == LEBytes((v - 16561) % 0x1_0000, 2);
    } else if v <= 16777215 {
      LEBytesBack(v, 3);
      assert b[1..] == LEBytes(v, 3);
    } else {
      LEBytesBack(v, 4);
      assert b[1..] == LEBytes(v, 4);
    }
  }

  /** Reads one varbyte value. */
  method ReadVb(data: seq<byte>, pos: nat, ghost v: uint32) returns (val: uint32, next: nat)
    requires At(data, pos, VbBytes(v))
    ensures val == v && next == pos + |VbBytes(v)|
  {
    hide LE, VbBytes, At;
    VbAt(data, pos, v);
    var b0 := data[pos];
    if b0 <= 176 {
      val, next := b0, pos + 1;
    } else if b0 <= 240 {
      val := (b0 as int - 177) * 0x100 + data[pos + 1] as int + 177;
      next := pos + 2;
    } else if b0 <= 248 {
      val := (b0 as int - 241) * 0x1_0000 + LE(data[pos + 1..pos + 3]) + 16561;
      next := pos + 3;
    } else if b0 == 249 {
      val := LE(data[pos + 1..pos + 4]);
      next := pos + 4;
    } else {
      val := LE(data[pos + 1..pos + 5]);
      next := pos + 5;
    }
  }

  lemma {:induction false} LEBytesBack(x: nat, n: nat)
    requires (n == 2 && x < 0x1_0000) || (n == 3 && x < 0x100_0000) || (n == 4 && x < 0x1_0000_0000)
    ensures LE(LEBytes(x, n)) == x
  {
    hide LE, LEBytes, Low;
    assert x < Pow2(8 * n) by { Pow2Values(); }
    LEOfLEBytes(x, n);
    LowSmall(x, 8 * n);
  }

  /** Exceptions as 32-bit words, the form marked by a leading 255. */
  function RawBytes(vals: seq<uint32>): seq<byte> {
    if vals == [] then [] else RawBytes(vals[..|vals| - 1]) + LEBytes(vals[|vals| - 1], 4)
  }

  function ExceptionBytes(vals: seq<uint32>, raw: bool): seq<byte> {
    if raw then [255] + RawBytes(vals) else VbAll(vals)
  }

  lemma {:induction false} VbPrefix(vals: seq<uint32>, n: nat)
    requires n < |vals|
    ensures |VbAll(vals[..n])| + |VbBytes(vals[n])| == |VbAll(vals[..n + 1])| <= |VbAll(vals)|
    ensures VbAll(vals)[|VbAll(vals[..n])|..|VbAll(vals[..n + 1])|] == VbBytes(vals[n])
  {
    hide VbBytes;
    assert vals[..n + 1][..n] == vals[..n];
    VbAllMono(vals, n + 1);
  }

  lemma {:induction false} VbAllMono(vals: seq<uint32>, n: nat)
    requires n <= |vals|
    ensures VbAll(vals[..n]) <= VbAll(vals)
  {
    hide VbBytes;
    if n < |vals| {
      VbAllMono(vals[..|vals| - 1], n);
      assert vals[..|vals| - 1][..n] == vals[..n];
    } else {
      assert vals[..n] == vals;
    }
  }

  lemma {:induction false} RawPrefix(vals: seq<uint32>, n: nat)
    requires n < |vals|
    ensures |RawBytes(vals)| == 4 * |vals|
    ensures RawBytes(vals)[4 * n..4 * n + 4] == LEBytes(vals[n], 4)
  {
    hide LEBytes;
    RawLength(vals);
    RawLength(vals[..|vals| - 1]);
    if n < |vals| - 1 {
      RawPrefix(vals[..|vals| - 1], n);
      assert RawBytes(vals)[4 * n..4 * n + 4] == RawBytes(vals[..|vals| - 1])[4 * n..4 * n + 4];
    }
  }

  lemma {:induction false} RawLength(vals: seq<uint32>)
    ensures |RawBytes(vals)| == 4 * |vals|
  {
    if vals != [] { RawLength(vals[..|vals| - 1]); }
  }

  /** Reads the exceptions in whichever of the two forms they are. */
  method ReadExceptions(data: seq<byte>, pos: nat, num: nat, ghost vals: seq<uint32>, ghost raw: bool)
    returns (exceptions: seq<uint32>, next: nat)
    requires num == |vals| > 0 && At(data, pos, ExceptionBytes(vals, raw))
    ensures exceptions == vals && next == pos + |ExceptionBytes(vals, raw)|
  {
    hide VbAll, RawBytes;
    FirstByte(data, pos, vals, raw);
    if data[pos] == 255 {
      AtSplit(data, pos, [255], RawBytes(vals));
      RawLength(vals);
      exceptions := ReadRaw(data, pos + 1, num, vals);
      next := pos + 1 + 4 * num;
    } else {
      exceptions, next := ReadVarbytes(data, pos, num, vals);
    }
  }

  method ReadRaw(data: seq<byte>, pos: nat, num: nat, ghost vals: seq<uint32>) returns (exceptions: seq<uint32>)
    requires num == |vals| && At(data, pos, RawBytes(vals))
    ensures exceptions == vals
  {
    hide RawBytes, LE, LEBytes;
    exceptions := [];
    RawLength(vals);
    for i := 0 to num
      invariant exceptions == vals[..i]
    {
      RawPrefix(vals, i);
      SubSlice(data, pos, pos + 4 * num, 4 * i, 4 * i + 4);
      LEBytesBack(vals[i], 4);
      exceptions := exceptions + [LE(data[pos + 4 * i..pos + 4 * i + 4])];
    }
  }

  method ReadVarbytes(data: seq<byte>, pos: nat, num: nat, ghost vals: seq<uint32>)
    returns (exceptions: seq<uint32>, next: nat)
    requires num == |vals| && At(data, pos, VbAll(vals))
    ensures exceptions == vals && next == pos + |VbAll(vals)|
  {
    hide VbAll, VbBytes;
    exceptions, next := [], pos;
    assert vals[..0] == [] && VbAll([]) == [] by { NoExceptions(0); }
    for i := 0 to num
      invariant exceptions == vals[..i] && next == pos + |VbAll(vals[..i])|
    {
      VbPrefix(vals, i);
      ghost var all := VbAll(vals);
      SubSlice(data, pos, pos + |all|, |VbAll(vals[..i])|, |VbAll(vals[..i + 1])|);
      var v;
      v, next := ReadVb(data, next, vals[i]);
      exceptions := exceptions + [v];
    }
    assert vals[..num] == vals;
  }

  lemma {:induction false} FirstByte(data: seq<byte>, pos: nat, vals: seq<uint32>, raw: bool)
    requires vals != [] && At(data, pos, ExceptionBytes(vals, raw))
    ensures raw <==> data[pos] == 255
  {
    hide VbAll, RawBytes;
    var b := ExceptionBytes(vals, raw);
    if !raw {
      VbPrefix(vals, 0);
      assert vals[..0] == [] && VbAll([]) == [] by { NoExceptions(0); }
      assert b[0] == VbBytes(vals[0])[0];
    }
    assert data[pos] == data[pos..pos + |b|][0];
  }

  /** The j-th index is where the j-th exception came from. */
  lemma {:induction false} IndexPointsAt(vals: seq<uint32>, w: nat, j: nat)
    requires j < |ExceptionIndexes(vals, w)|
    ensures ExceptionIndexes(vals, w)[j] < |vals|
    ensures Exceptions(vals, w)[j] == ShrWord(vals[ExceptionIndexes(vals, w)[j]], w)
  {
    hide Exceptions, ExceptionIndexes, Shr, VbAll, VbBytes, ShrWord;
    NoExceptions(w);
    var n := |vals| - 1;
    ExceptionsLast(vals, w);
    if j < |ExceptionIndexes(vals[..n], w)| {
      IndexPointsAt(vals[..n], w, j);
    }
  }

  lemma {:induction false} IndexesIncrease(vals: seq<uint32>, w: nat, i: nat, j: nat)
    requires i < j < |ExceptionIndexes(vals, w)|
    ensures ExceptionIndexes(vals, w)[i] < ExceptionIndexes(vals, w)[j]
  {
    hide Exceptions, ExceptionIndexes, Shr, VbAll, VbBytes, ShrWord;
    NoExceptions(w);
    var n := |vals| - 1;
    ExceptionsLast(vals, w);
    if j < |ExceptionIndexes(vals[..n], w)| {
      IndexesIncrease(vals[..n], w, i, j);
    }
  }

  lemma {:induction false} IndexesPointAt(vals: seq<uint32>, w: nat)
    ensures var x, e := ExceptionIndexes(vals, w), Exceptions(vals, w);
      && (forall j :: 0 <= j < |x| ==> x[j] < |vals| && e[j] == ShrWord(vals[x[j]], w))
      && forall i, j :: 0 <= i < j < |x| ==> x[i] < x[j]
  {
    hide Exceptions, ExceptionIndexes, ShrWord;
    var x, e := ExceptionIndexes(vals, w), Exceptions(vals, w);
    forall j | 0 <= j < |x| ensures e[j] == ShrWord(vals[x[j]], w) { IndexPointsAt(vals, w, j); }
    forall i, j | 0 <= i < j < |x| ensures x[i] < x[j] { IndexesIncrease(vals, w, i, j); }
  }

  lemma {:induction false} IndexesCover(vals: seq<uint32>, w: nat, k: nat)
    requires k < |vals| && IsException(vals[k], w)
    ensures k in ExceptionIndexes(vals, w)
  {
    hide Exceptions, ExceptionIndexes, Shr, VbAll, VbBytes;
    ExceptionsLast(vals, w);
    var n, x := |vals| - 1, ExceptionIndexes(vals, w);
    if k < n {
      IndexesCover(vals[..n], w, k);
      assert ExceptionIndexes(vals[..n], w) <= x;
    } else {
      assert x[|x| - 1] == n;
    }
  }

  /** Base values with the exceptions in done put back. */
  ghost predicate Patched(s: seq<uint32>, vals: seq<uint32>, w: nat, done: seq<nat>)
    requires |s| == |vals|
  {
    forall k :: 0 <= k < |s| ==> s[k] == if k in done then vals[k] else LowWord(vals[k], w)
  }

  method ApplyExceptions(data: seq<byte>, pos: nat, w: nat, exceptions: seq<uint32>, out: array<uint32>, o: nat,
                         ghost vals: seq<uint32>)
    returns (next: nat)
    requires |vals| <= BLOCK_SIZE && exceptions == Exceptions(vals, w) && At(data, pos, ExceptionIndexes(vals, w))
    requires o + |vals| <= out.Length && out[o..o + |vals|] == LowVals(vals, w)
    modifies out
    ensures next == pos + |exceptions|
    ensures out[..o] == old(out[..o]) && out[o + |vals|..] == old(out[o + |vals|..])
    ensures out[o..o + |vals|] == vals
  {
    hide Exceptions, ExceptionIndexes, ShrWord, LowWord, Combined, IsException;
    ghost var x := ExceptionIndexes(vals, w);
    IndexesPointAt(vals, w);
    next := pos;
    for i := 0 to |exceptions|
      invariant next == pos + i
      invariant out[..o] == old(out[..o]) && out[o + |vals|..] == old(out[o + |vals|..])
      invariant Patched(out[o..o + |vals|], vals, w, x[..i])
    {
      assert data[next] == data[pos..pos + |x|][i] == x[i];
      var idx := data[next];
      CombinedParts(vals[idx], w);
      assert idx !in x[..i];
      assert out[o + idx] == out[o..o + |vals|][idx];
      ghost var was := out[o..o + |vals|];
      out[o + idx] := Combined(exceptions[i], out[o + idx], w);
      assert out[o..o + |vals|] == was[idx := vals[idx]];
      assert x[..i + 1] == x[..i] + [idx];
      next := next + 1;
    }
    assert x[..|x|] == x;
    AllPatched(out[o..o + |vals|], vals, w);
  }

  lemma {:induction false} AllPatched(s: seq<uint32>, vals: seq<uint32>, w: nat)
    requires |s| == |vals| && Patched(s, vals, w, ExceptionIndexes(vals, w))
    ensures s == vals
  {
    hide Exceptions, ExceptionIndexes, Shr, Shl, Low;
    forall k | 0 <= k < |s| ensures s[k] == vals[k] {
      if IsException(vals[k], w) {
        IndexesCover(vals, w, k);
      } else {
        Split(vals[k], w);
        ShlZero(w);
      }
    }
  }

  method DecodePforVb(data: seq<byte>, pos: nat, num: nat, interleaved: bool, sse2: bool, out: array<uint32>, o: nat,
                      ghost vals: seq<uint32>, ghost c: Choice)
    returns (next: nat)
    requires c.kind == PFOR_VB && Lossless(vals, c) && LinearPartsNarrow(c, interleaved) && c.excWidth <= 32
    requires |vals| == num
    requires interleaved ==> num == BLOCK_SIZE
    requires At(data, pos, BlockBytes(vals, c, interleaved))
    requires 1 <= o && o + num <= out.Length
    modifies out
    ensures next == pos + |BlockBytes(vals, c, interleaved)|
    ensures out[..o] == old(out[..o]) && out[o + num..] == old(out[o + num..])
    ensures Decoded(out[o..o + num], old(out[o - 1]), vals)
  {
    hide Unpacked, InterleavedBytes, StreamVal, LinearBytes, Exceptions, ExceptionIndexes, BytesForPackedBits, VbAll,
         ShrWord, LowWord, Decoded;
    HeaderAt(data, pos, vals, c, interleaved);
    var width := data[pos] % 64;
    ghost var low, exc := LowVals(vals, c.width), Exceptions(vals, c.width);
    ghost var base := Section(low, c.width, interleaved);
    VbParts(data, pos + 1, vals, c, interleaved);
    var numExceptions := data[pos + 1];
    ReadBase(data, pos + 2, width, num, interleaved, sse2, out, o, vals);
    SectionLength(low, c.width, interleaved);
    var p := pos + 2 + BytesForPackedBits(num, width);
    var exceptions;
    exceptions, p := ReadExceptions(data, p, numExceptions, exc, false);
    next := ApplyExceptions(data, p, width, exceptions, out, o, vals);
    assert out[o - 1] == out[..o][o - 1];
    if interleaved && sse2 {
      DeltaDecodeSSE2(out, o);
    } else {
      DeltaDecode(out, o, num);
    }
  }

  lemma {:induction false} VbParts(data: seq<byte>, p: nat, vals: seq<uint32>, c: Choice, interleaved: bool)
    requires c.kind == PFOR_VB && 0 < |vals| <= BLOCK_SIZE && c.width <= 32 && c.excWidth <= 32
    requires (interleaved ==> |vals| == BLOCK_SIZE)
    requires At(data, p, Body(vals, c, interleaved))
    ensures var base, exc := Section(LowVals(vals, c.width), c.width, interleaved), Exceptions(vals, c.width);
      && |Body(vals, c, interleaved)| == 1 + |base| + |VbAll(exc)| + |exc|
      && data[p] == |exc| && At(data, p + 1, base) && At(data, p + 1 + |base|, VbAll(exc))
      && At(data, p + 1 + |base| + |VbAll(exc)|, ExceptionIndexes(vals, c.width))
  {
    hide Section, LowVals, Exceptions, ExceptionIndexes, VbAll, Body, At;
    var base, exc := Section(LowVals(vals, c.width), c.width, interleaved), Exceptions(vals, c.width);
    assert |exc| == |ExceptionIndexes(vals, c.width)| <= |vals|;
    var n: seq<byte> := [|exc|];
    VbBody(vals, c, interleaved, n);
    AtSplit(data, p, n + base + VbAll(exc), ExceptionIndexes(vals, c.width));
    AtSplit(data, p, n + base, VbAll(exc));
    AtSplit(data, p, n, base);
    AtOne(data, p, |exc|);
  }

  lemma {:induction false} VbBody(vals: seq<uint32>, c: Choice, interleaved: bool, n: seq<byte>)
    requires c.kind == PFOR_VB && 0 < |vals| <= BLOCK_SIZE && c.width <= 32 && c.excWidth <= 32
    requires (interleaved ==> |vals| == BLOCK_SIZE) && n == [|Exceptions(vals, c.width)|]
    ensures |Exceptions(vals, c.width)| == |ExceptionIndexes(vals, c.width)|
    ensures var base, exc := Section(LowVals(vals, c.width), c.width, interleaved), Exceptions(vals, c.width);
      Body(vals, c, interleaved) == n + base + VbAll(exc) + ExceptionIndexes(vals, c.width)
  {
    hide Section, LowVals, Exceptions, ExceptionIndexes, VbAll;
  }

  method ReadBase(data: seq<byte>, p: nat, w: nat, num: nat, interleaved: bool, sse2: bool, out: array<uint32>, o: nat,
                  ghost vals: seq<uint32>)
    requires |vals| == num && (if interleaved then num == BLOCK_SIZE && w <= 32 else w <= 24)
    requires At(data, p, Section(LowVals(vals, w), w, interleaved))
    requires 1 <= o && o + num <= out.Length
    modifies out
    ensures out[..o] == old(out[..o]) && out[o + num..] == old(out[o + num..])
    ensures out[o..o + num] == LowVals(vals, w)
  {
    hide Unpacked, InterleavedBytes, StreamVal, LinearBytes, BytesForPackedBits, LowWord;
    if interleaved {
      UnpackedIsLow(data, p, vals, w, out[o..o + num]);
      if sse2 {
        DecodeBitmapSSE2(data, p, w, false, false, out, o);
      } else {
        ReadInterleavedGeneric(data, p, w, false, out, o);
      }
    } else {
      LowFits(vals, w);
      ReadLinear(data, p, w, num, false, out, o, LowVals(vals, w));
    }
  }
}
