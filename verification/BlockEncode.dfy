/** Writing one block into a byte buffer. Every write lands at or after the cursor, and at
  most 16 bytes past the end of the block.
 */
module BlockEncode {
  import opened Bits
  import opened BitPacking
  import opened Interleaving
  import opened BlockFormat

  // ---------------------------------------------------------------- packed sections

  lemma {:induction false} BytesMono(n: nat, m: nat, w: nat)
    requires n <= m
    ensures BytesForPackedBits(n, w) <= BytesForPackedBits(m, w)
    ensures Times(n, w) <= Times(m, w)
  {
    TimesMono(n, m, w);
  }

  lemma {:induction false} TimesMono(n: nat, m: nat, w: nat)
    requires n <= m
    ensures Times(n, w) <= Times(m, w)
  {
    if n < m { TimesMono(n, m - 1, w); }
  }

  method EncodeLinear(vals: seq<uint32>, w: nat, buf: array<byte>, out: nat) returns (end: nat)
    requires w <= 24 && out + BytesForPackedBits(|vals|, w) + 16 <= buf.Length
    modifies buf
    ensures end == out + BytesForPackedBits(|vals|, w)
    ensures buf[..out] == old(buf[..out])
    ensures buf[out..end] == LinearBytes(LowVals(vals, w), w)
  {
    hide Pow2, Low, Packing, LinearBytes, BytesForPackedBits, Times;
    var bs := new BitWriter(buf, out, w);
    ghost var low := LowVals(vals, w);
    for i := 0 to |vals|
      invariant fresh(bs) && bs.buf == buf && bs.bits == w && bs.start == out && bs.Valid()
      invariant bs.written == low[..i]
      invariant buf[..out] == old(buf[..out])
    {
      bs.Packed();
      BytesMono(i, |vals|, w);
      LowBound(vals[i], w);
      bs.Write(LowWord(vals[i], w));
      assert low[..i + 1] == low[..i] + [low[i]];
    }
    bs.Packed();
    assert low[..|vals|] == low;
    end := out + BytesForPackedBits(|vals|, w);
  }

  /** Four streams holding the packed lanes are the interleaved section. */
  lemma {:induction false} LanesMakeSection(s: seq<byte>, vals: seq<uint32>, w: nat)
    requires |vals| == BLOCK_SIZE && |s| == 16 * w
    requires forall l :: 0 <= l < 4 && w > 0 ==> StreamBytes(s, 4 * l, w) == LinearBytes(Lane(vals, l), w)
    ensures s == InterleavedBytes(vals, w)
  {
    hide LinearBytes, Lane, StreamBytes, LaneByte;
    forall i | 0 <= i < |s| ensures s[i] == LaneByte(vals, w, i) {
      ByteOfStream(s, vals, w, i);
    }
  }

  lemma {:induction false} ByteOfStream(s: seq<byte>, vals: seq<uint32>, w: nat, i: nat)
    requires |vals| == BLOCK_SIZE && i < |s| == 16 * w
    requires StreamBytes(s, 4 * (i % 16 / 4), w) == LinearBytes(Lane(vals, i % 16 / 4), w)
    ensures s[i] == LaneByte(vals, w, i)
  {
    hide LinearBytes, Lane, StreamBytes;
    var l, j, b := i % 16 / 4, i / 16, i % 4;
    PlaceInLane(i, w);
    StreamWord(s, 4 * l, w, j);
    LaneLength(vals, w, l);
    var t := StreamBytes(s, 4 * l, w);
    assert t[4 * j..4 * j + 4][b] == t[4 * j + b];
    assert s[4 * l + 16 * j..4 * l + 16 * j + 4][b] == s[i];
  }

  lemma {:induction false} PlaceInLane(i: nat, w: nat)
    requires i < 16 * w
    ensures i % 16 / 4 < 4 && i / 16 < w && i % 4 < 4 && i == 4 * (i % 16 / 4) + 16 * (i / 16) + i % 4
  {
  }

  /** After all its words are out, a stream holds its packed values. */
  lemma {:induction false} StreamDone(done: seq<byte>, cur: nat, used: nat, written: seq<nat>, w: nat)
    requires Packing(done, cur, used, written, w) && used < 32 && |written| == 32 && |done| % 4 == 0
    ensures |done| == 4 * w && done == LinearBytes(written, w)
  {
    TimesIsProduct(32, w);
    assert used == 0;
    ShlZero(8 * |done|);
    LEBytesLE(done);
  }

  /** The writers of the four lanes of the section at base. */
  ghost predicate Writers(bs: seq<InterleavedBitWriter>, buf: array<byte>, base: nat, w: nat)
    reads bs, buf
  {
    && |bs| == 4
    && (forall i, j :: 0 <= i < j < 4 ==> bs[i] != bs[j])
    && forall l :: 0 <= l < 4 ==>
         bs[l].buf == buf && bs[l].bits == w && bs[l].start == base + 4 * l && bs[l].Valid()
  }

  lemma {:induction false} OtherWord(before: seq<byte>, after: seq<byte>, base: nat, l: nat, k: nat, i: nat)
    requires l < 4 && k < 4 && l != k && |before| == |after|
    requires base + 4 * k + 16 * i + 4 <= |before|
    requires forall i :: 0 <= i < |before| && (i - (base + 4 * l)) % 16 >= 4 ==> after[i] == before[i]
    ensures after[base + 4 * k + 16 * i..base + 4 * k + 16 * i + 4]
      == before[base + 4 * k + 16 * i..base + 4 * k + 16 * i + 4]
  {
    var p := base + 4 * k + 16 * i;
    OtherLaneOffset(base, l, k, i);
    assert after[p] == before[p] && after[p + 1] == before[p + 1] && after[p + 2] == before[p + 2];
    assert after[p + 3] == before[p + 3];
  }

  lemma {:induction false} OtherLaneOffset(base: nat, l: nat, k: nat, i: nat)
    requires l < 4 && k < 4 && l != k
    ensures var d := base + 4 * k + 16 * i - (base + 4 * l);
      d % 16 >= 4 && (d + 1) % 16 >= 4 && (d + 2) % 16 >= 4 && (d + 3) % 16 >= 4
  {
    var q, r := if k > l then i as int else i - 1, if k > l then 4 * (k - l) else 16 + 4 * (k - l);
    Mod16(q, r);
    Mod16(q, r + 1);
    Mod16(q, r + 2);
    Mod16(q, r + 3);
  }

  lemma {:induction false} Mod16(q: int, r: nat)
    requires r < 16
    ensures (16 * q + r) % 16 == r
  {
  }

  /** Writing one lane leaves the others alone. */
  lemma {:induction false} OtherLane(before: seq<byte>, after: seq<byte>, base: nat, l: nat, k: nat, n: nat)
    requires l < 4 && k < 4 && l != k && |before| == |after|
    requires n > 0 ==> base + 4 * k + 16 * (n - 1) + 4 <= |before|
    requires forall i :: 0 <= i < |before| && (i - (base + 4 * l)) % 16 >= 4 ==> after[i] == before[i]
    ensures StreamBytes(after, base + 4 * k, n) == StreamBytes(before, base + 4 * k, n)
  {
    forall i | 0 <= i < n
      ensures after[base + 4 * k + 16 * i..base + 4 * k + 16 * i + 4]
        == before[base + 4 * k + 16 * i..base + 4 * k + 16 * i + 4]
    {
      OtherWord(before, after, base, l, k, i);
    }
    StreamFrame(after, before, base + 4 * k, n);
  }

  method WriteLane(bs: seq<InterleavedBitWriter>, buf: array<byte>, ghost base: nat, w: nat, l: nat, val: uint32)
    requires Writers(bs, buf, base, w) && l < 4 && val < Pow2(w)
    requires bs[l].out + 4 <= buf.Length && (bs[l].bitsUsed + w >= 32 ==> bs[l].out + 20 <= buf.Length)
    modifies bs[l], buf
    ensures Writers(bs, buf, base, w)
    ensures bs[l].written == old(bs[l].written) + [val]
    ensures buf[..base] == old(buf[..base])
  {
    hide Packing, StreamBytes, Pow2;
    ghost var before := buf[..];
    bs[l].Write(val);
    forall k | 0 <= k < 4 && k != l ensures bs[k].Valid() {
      OtherLane(before, buf[..], base, l, k, bs[k].words);
    }
  }

  /** One value to each lane. */
  method WriteRow(bs: seq<InterleavedBitWriter>, buf: array<byte>, base: nat, w: nat, vals: seq<uint32>, i: nat)
    requires Writers(bs, buf, base, w) && |vals| == BLOCK_SIZE && i < 32
    requires w <= 32 && base + 16 * w + 16 <= buf.Length
    requires forall l :: 0 <= l < 4 ==> bs[l].written == Lane(LowVals(vals, w), l)[..i]
    modifies bs, buf
    ensures Writers(bs, buf, base, w)
    ensures forall l :: 0 <= l < 4 ==> bs[l].written == Lane(LowVals(vals, w), l)[..i + 1]
    ensures buf[..base] == old(buf[..base])
  {
    hide Packing, StreamBytes, Pow2, Low;
    ghost var low := LowVals(vals, w);
    for l := 0 to 4
      invariant Writers(bs, buf, base, w)
      invariant forall k :: 0 <= k < 4 ==> bs[k].written == Lane(low, k)[..if k < l then i + 1 else i]
      invariant buf[..base] == old(buf[..base])
    {
      LaneRoom(bs[l], i, w);
      LowBound(vals[4 * i + l], w);
      WriteLane(bs, buf, base, w, l, LowWord(vals[4 * i + l], w));
      assert Lane(low, l)[..i + 1] == Lane(low, l)[..i] + [Lane(low, l)[i]];
    }
  }

  method EncodeInterleaved(vals: seq<uint32>, w: nat, buf: array<byte>, out: nat) returns (end: nat)
    requires |vals| == BLOCK_SIZE && w <= 32 && out + 16 * w + 16 <= buf.Length
    modifies buf
    ensures end == out + 16 * w
    ensures buf[..out] == old(buf[..out])
    ensures buf[out..end] == InterleavedBytes(LowVals(vals, w), w)
  {
    hide InterleavedBitWriter.Valid, LinearBytes, InterleavedBytes, Lane, LowVals;
    var bs0 := new InterleavedBitWriter(buf, out, w);
    var bs1 := new InterleavedBitWriter(buf, out + 4, w);
    var bs2 := new InterleavedBitWriter(buf, out + 8, w);
    var bs3 := new InterleavedBitWriter(buf, out + 12, w);
    var bs := [bs0, bs1, bs2, bs3];
    ghost var low := LowVals(vals, w);
    assert forall l :: 0 <= l < 4 ==> bs[l].written == Lane(low, l)[..0];
    for i := 0 to 32
      invariant fresh(bs) && Writers(bs, buf, out, w)
      invariant forall l :: 0 <= l < 4 ==> bs[l].written == Lane(low, l)[..i]
      invariant buf[..out] == old(buf[..out])
    {
      WriteRow(bs, buf, out, w, vals, i);
    }
    end := out + 16 * w;
    SectionDone(bs, buf, out, w, low);
  }

  /** Before its value number i < 32, a lane's writer is inside the section. */
  lemma {:induction false} LaneRoom(b: InterleavedBitWriter, i: nat, w: nat)
    requires b.Valid() && b.bits == w && |b.written| == i < 32
    ensures 32 * b.words + b.bitsUsed + w <= 32 * w
  {
    IndexBelow(i, 32, w);
    TimesIsProduct(32, w);
  }

  lemma {:induction false} SectionDone(bs: seq<InterleavedBitWriter>, buf: array<byte>, base: nat, w: nat,
                                       low: seq<uint32>)
    requires Writers(bs, buf, base, w) && |low| == BLOCK_SIZE && base + 16 * w <= buf.Length
    requires forall l :: 0 <= l < 4 ==> bs[l].written == Lane(low, l)[..32]
    ensures buf[base..base + 16 * w] == InterleavedBytes(low, w)
  {
    hide Packing, LinearBytes, Lane, InterleavedBytes, StreamBytes;
    var s := buf[base..base + 16 * w];
    forall l | 0 <= l < 4 && w > 0 ensures StreamBytes(s, 4 * l, w) == LinearBytes(Lane(low, l), w) {
      assert Lane(low, l)[..32] == Lane(low, l);
      StreamDone(StreamBytes(buf[..], bs[l].start, bs[l].words), bs[l].curVal, bs[l].bitsUsed, bs[l].written, w);
      StreamShift(buf[..], s, base, 4 * l, w);
    }
    LanesMakeSection(s, low, w);
  }

  lemma {:induction false} StreamShift(a: seq<byte>, s: seq<byte>, base: nat, start: nat, n: nat)
    requires n > 0 ==> start + 16 * (n - 1) + 4 <= |s|
    requires base + |s| <= |a| && s == a[base..base + |s|]
    ensures StreamBytes(a, base + start, n) == StreamBytes(s, start, n)
  {
    if n > 0 {
      StreamShift(a, s, base, start, n - 1);
      var p := start + 16 * (n - 1);
      SubSlice(a, base, base + |s|, p, p + 4);
      assert base + p == base + start + 16 * (n - 1);
    }
  }

  method EncodeBitmap(vals: seq<uint32>, w: nat, interleaved: bool, buf: array<byte>, out: nat) returns (end: nat)
    requires if interleaved then |vals| == BLOCK_SIZE && w <= 32 else w <= 24
    requires out + |Section(LowVals(vals, w), w, interleaved)| + 16 <= buf.Length
    modifies buf
    ensures end == out + |Section(LowVals(vals, w), w, interleaved)|
    ensures buf[..out] == old(buf[..out])
    ensures buf[out..end] == Section(LowVals(vals, w), w, interleaved)
  {
    hide InterleavedBytes, LinearBytes, Low;
    if interleaved {
      end := EncodeInterleaved(vals, w, buf, out);
    } else {
      end := EncodeLinear(vals, w, buf, out);
    }
  }

  // ---------------------------------------------------------------- bitmap exceptions

  method WriteExceptionBits(vals: seq<uint32>, w: nat, buf: array<byte>, out: nat) returns (end: nat)
    requires out + BytesForPackedBits(|vals|, 1) + 16 <= buf.Length
    modifies buf
    ensures end == out + BytesForPackedBits(|vals|, 1)
    ensures buf[..out] == old(buf[..out])
    ensures buf[out..end] == LinearBytes(ExceptionBits(vals, w), 1)
  {
    hide Shr, Packing, LinearBytes, BytesForPackedBits, Times;
    var bs := new BitWriter(buf, out, 1);
    ghost var bits := ExceptionBits(vals, w);
    for i := 0 to |vals|
      invariant fresh(bs) && bs.buf == buf && bs.bits == 1 && bs.start == out && bs.Valid()
      invariant bs.written == bits[..i]
      invariant buf[..out] == old(buf[..out])
    {
      bs.Packed();
      BytesMono(i, |vals|, 1);
      assert Pow2(1) == 2;
      bs.Write(if IsException(vals[i], w) then 1 else 0);
      assert bits[..i + 1] == bits[..i] + [bits[i]];
    }
    bs.Packed();
    assert bits[..|vals|] == bits;
    end := out + BytesForPackedBits(|vals|, 1);
  }

  lemma {:induction false} ExceptionsPrefix(vals: seq<uint32>, w: nat, i: nat)
    requires i <= |vals|
    ensures Exceptions(vals[..i], w) <= Exceptions(vals, w)
    ensures ExceptionIndexes(vals[..i], w) <= ExceptionIndexes(vals, w)
    ensures VbAll(Exceptions(vals[..i], w)) <= VbAll(Exceptions(vals, w))
  {
    hide Exceptions, ExceptionIndexes, VbAll, VbBytes, ShrWord;
    var n := |vals|;
    if i < n {
      ExceptionsPrefix(vals[..n - 1], w, i);
      assert vals[..n - 1][..i] == vals[..i];
      ExceptionsLast(vals, w);
    } else {
      assert vals[..i] == vals;
    }
  }

  /** What the last value adds. */
  lemma {:induction false} ExceptionsLast(vals: seq<uint32>, w: nat)
    requires vals != []
    ensures var n := |vals| - 1;
      var e, x, v := Exceptions(vals[..n], w), ExceptionIndexes(vals[..n], w), ShrWord(vals[n], w);
      && Exceptions(vals, w) == (if v != 0 then e + [v] else e)
      && ExceptionIndexes(vals, w) == (if v != 0 then x + [n] else x)
      && VbAll(Exceptions(vals, w)) == (if v != 0 then VbAll(e) + VbBytes(v) else VbAll(e))
  {
    hide VbBytes;
    var n := |vals| - 1;
    var e := Exceptions(vals[..n], w);
    assert (e + [ShrWord(vals[n], w)])[..|e|] == e;
  }

  lemma {:induction false} ExceptionsNext(vals: seq<uint32>, w: nat, i: nat)
    requires i < |vals|
    ensures var e, v := Exceptions(vals[..i], w), ShrWord(vals[i], w);
      Exceptions(vals[..i + 1], w) == if v != 0 then e + [v] else e
    ensures |Exceptions(vals[..i], w)| <= |Exceptions(vals, w)|
  {
    hide ShrWord, Exceptions, ExceptionIndexes, VbAll, VbBytes;
    ExceptionsPrefix(vals, w, i);
    ExceptionsLast(vals[..i + 1], w);
    assert vals[..i + 1][..i] == vals[..i];
  }

  method WriteExceptions(vals: seq<uint32>, w: nat, ew: nat, buf: array<byte>, out: nat) returns (end: nat)
    requires ew <= 24 && Fit(vals, w + ew)
    requires out + BytesForPackedBits(|Exceptions(vals, w)|, ew) + 16 <= buf.Length
    modifies buf
    ensures end == out + BytesForPackedBits(|Exceptions(vals, w)|, ew)
    ensures buf[..out] == old(buf[..out])
    ensures buf[out..end] == LinearBytes(Exceptions(vals, w), ew)
  {
    hide Shr, Packing, LinearBytes, BytesForPackedBits, Times, Exceptions, ExceptionIndexes, VbAll, VbBytes, Pow2;
    var bs := new BitWriter(buf, out, ew);
    var numExceptions := 0;
    assert vals[..0] == [] && Exceptions([], w) == [] by { NoExceptions(w); }
    for i := 0 to |vals|
      invariant fresh(bs) && bs.buf == buf && bs.bits == ew && bs.start == out && bs.Valid()
      invariant bs.written == Exceptions(vals[..i], w) && numExceptions == |bs.written|
      invariant buf[..out] == old(buf[..out])
    {
      ExceptionsNext(vals, w, i);
      if ShrWord(vals[i], w) != 0 {
        bs.Packed();
        BytesMono(|bs.written|, |Exceptions(vals, w)|, ew);
        ShrBound(vals[i], w, ew);
        bs.Write(ShrWord(vals[i], w));
        numExceptions := numExceptions + 1;
      }
    }
    assert vals[..|vals|] == vals;
    bs.Packed();
    end := out + BytesForPackedBits(numExceptions, ew);
  }

  lemma {:induction false} NoExceptions(w: nat)
    ensures Exceptions([], w) == [] && ExceptionIndexes([], w) == [] && VbAll([]) == []
  {
  }

  method EncodePforBitmap(vals: seq<uint32>, c: Choice, interleaved: bool, buf: array<byte>, out: nat)
    returns (end: nat)
    requires c.kind == PFOR_BITMAP && Lossless(vals, c) && LinearPartsNarrow(c, interleaved)
    requires interleaved ==> |vals| == BLOCK_SIZE
    requires out + |Body(vals, c, interleaved)| + 16 <= buf.Length
    modifies buf
    ensures end == out + |Body(vals, c, interleaved)|
    ensures buf[..out] == old(buf[..out])
    ensures buf[out..end] == Body(vals, c, interleaved)
  {
    hide LinearBytes, BytesForPackedBits, Exceptions, ExceptionBits, Section, LowVals, Low, Pow2, Fit;
    ghost var head := buf[..out];
    WriteByte(c.excWidth, buf, out);
    BitmapParts(vals, c, interleaved);
    var p1 := WriteExceptionBits(vals, c.width, buf, out + 1);
    ghost var s1 := buf[out..p1];
    Appended(buf[..], out, out + 1, p1, head, [c.excWidth]);
    var p2 := WriteExceptions(vals, c.width, c.excWidth, buf, p1);
    ghost var s2 := buf[out..p2];
    Appended(buf[..], out, p1, p2, head, s1);
    end := EncodeBitmap(vals, c.width, interleaved, buf, p2);
    Appended(buf[..], out, p2, end, head, s2);
  }

  lemma {:induction false} BitmapParts(vals: seq<uint32>, c: Choice, interleaved: bool)
    requires 0 < |vals| <= BLOCK_SIZE && c.kind == PFOR_BITMAP && c.excWidth <= 32
    requires interleaved ==> |vals| == BLOCK_SIZE
    ensures var map_ := LinearBytes(ExceptionBits(vals, c.width), 1);
      var exc := LinearBytes(Exceptions(vals, c.width), c.excWidth);
      var base := Section(LowVals(vals, c.width), c.width, interleaved);
      && Body(vals, c, interleaved) == [c.excWidth] + map_ + exc + base
      && |map_| == BytesForPackedBits(|vals|, 1)
      && |exc| == BytesForPackedBits(|Exceptions(vals, c.width)|, c.excWidth)
  {
  }

  /** A section written after others leaves them in place. */
  lemma {:induction false} Appended(buf: seq<byte>, out: nat, mid: nat, end: nat, head: seq<byte>, done: seq<byte>)
    requires out <= mid <= end <= |buf| && |head| == out && |done| == mid - out
    requires buf[..mid] == head + done
    ensures buf[..out] == head && buf[out..end] == done + buf[mid..end]
  {
    SubSlice(buf, 0, mid, out, mid);
    SubSlice(buf, 0, mid, 0, out);
    ThreeParts(buf, out, mid, end);
  }

  // ---------------------------------------------------------------- varbyte exceptions

  method WriteVb(val: uint32, buf: array<byte>, out: nat) returns (end: nat)
    requires out + 5 <= buf.Length
    modifies buf
    ensures end == out + |VbBytes(val)|
    ensures buf[..out] == old(buf[..out])
    ensures buf[out..end] == VbBytes(val)
  {
    hide LEBytes;
    if val <= 176 {
      buf[out] := val;
      end := out + 1;
    } else if val <= 16560 {
      var v := val - 177;
      buf[out], buf[out + 1] := v / 0x100 + 177, v % 0x100;
      end := out + 2;
    } else if val <= 540848 {
      var v := val - 16561;
      buf[out] := v / 0x1_0000 + 241;
      WriteLE16(v % 0x1_0000, buf, out + 1);
      end := out + 3;
    } else {
      buf[out] := if val <= 16777215 then 249 else 250;
      WriteLE32(val, buf, out + 1);
      LEBytesPrefix(val, 4, 3);
      SubSlice(buf[..], out + 1, out + 5, 0, 3);
      assert buf[..][out + 1..out + 5] == buf[out + 1..out + 5] && buf[..][out + 1..out + 4] == buf[out + 1..out + 4];
      end := if val <= 16777215 then out + 4 else out + 5;
    }
    assert buf[..out] == old(buf[..out]);
    assert buf[out..end] == [buf[out]] + buf[out + 1..end];
  }

  method WriteLE16(val: nat, buf: array<byte>, out: nat)
    requires out + 2 <= buf.Length
    modifies buf
    ensures buf[out..out + 2] == LEBytes(val, 2)
    ensures forall i :: 0 <= i < buf.Length && !(out <= i < out + 2) ==> buf[i] == old(buf[i])
  {
    buf[out], buf[out + 1] := val % 0x100, val / 0x100 % 0x100;
    assert LEBytes(val, 2) == [val % 0x100] + LEBytes(val / 0x100, 1);
  }

  method WriteVbExceptions(vals: seq<uint32>, w: nat, buf: array<byte>, out: nat) returns (end: nat)
    requires out + |VbAll(Exceptions(vals, w))| + 16 <= buf.Length
    modifies buf
    ensures end == out + |VbAll(Exceptions(vals, w))|
    ensures buf[..out] == old(buf[..out])
    ensures buf[out..end] == VbAll(Exceptions(vals, w))
  {
    hide Shr, Exceptions, ExceptionIndexes, VbAll, VbBytes;
    NoExceptions(w);
    assert vals[..0] == [];
    end := out;
    for i := 0 to |vals|
      invariant end == out + |VbAll(Exceptions(vals[..i], w))|
      invariant end <= out + |VbAll(Exceptions(vals, w))|
      invariant buf[..out] == old(buf[..out]) && end <= buf.Length
      invariant buf[out..end] == VbAll(Exceptions(vals[..i], w))
    {
      ExceptionsPrefix(vals, w, i + 1);
      ExceptionsLast(vals[..i + 1], w);
      assert vals[..i + 1][..i] == vals[..i];
      var val := ShrWord(vals[i], w);
      if val != 0 {
        ghost var done := buf[out..end];
        ThreeParts(buf[..], 0, out, end);
        var next := WriteVb(val, buf, end);
        Appended(buf[..], out, end, next, old(buf[..out]), done);
        end := next;
      }
    }
    assert vals[..|vals|] == vals;
  }

  lemma {:induction false} IndexesNext(vals: seq<uint32>, w: nat, i: nat)
    requires i < |vals| <= BLOCK_SIZE
    ensures var x := ExceptionIndexes(vals[..i], w);
      ExceptionIndexes(vals[..i + 1], w) == if ShrWord(vals[i], w) != 0 then x + [i] else x
    ensures |ExceptionIndexes(vals[..i + 1], w)| <= |ExceptionIndexes(vals, w)|
  {
    hide ShrWord, Exceptions, ExceptionIndexes, VbAll, VbBytes;
    ExceptionsPrefix(vals, w, i + 1);
    ExceptionsLast(vals[..i + 1], w);
    assert vals[..i + 1][..i] == vals[..i];
  }

  method WriteByte(b: byte, buf: array<byte>, out: nat)
    requires out < buf.Length
    modifies buf
    ensures buf[..out] == old(buf[..out]) && buf[out..out + 1] == [b]
  {
    buf[out] := b;
  }

  method WriteExceptionIndexes(vals: seq<uint32>, w: nat, buf: array<byte>, out: nat) returns (end: nat)
    requires |vals| <= BLOCK_SIZE && out + |ExceptionIndexes(vals, w)| <= buf.Length
    modifies buf
    ensures end == out + |ExceptionIndexes(vals, w)|
    ensures buf[..out] == old(buf[..out])
    ensures buf[out..end] == ExceptionIndexes(vals, w)
  {
    hide ShrWord, Exceptions, ExceptionIndexes;
    NoExceptions(w);
    assert vals[..0] == [];
    end := out;
    for i := 0 to |vals|
      invariant out <= end == out + |ExceptionIndexes(vals[..i], w)| <= buf.Length
      invariant buf[..out] == old(buf[..out])
      invariant buf[out..end] == ExceptionIndexes(vals[..i], w)
    {
      IndexesNext(vals, w, i);
      if ShrWord(vals[i], w) != 0 {
        ghost var done := buf[out..end];
        WriteByte(i, buf, end);
        ThreeParts(buf[..], 0, out, end);
        Appended(buf[..], out, end, end + 1, old(buf[..out]), done);
        end := end + 1;
      }
    }
    assert vals[..|vals|] == vals;
  }

  method CountExceptions(vals: seq<uint32>, w: nat) returns (n: nat)
    ensures n == |Exceptions(vals, w)|
  {
    hide Shr, Exceptions, ExceptionIndexes, VbAll, VbBytes;
    NoExceptions(w);
    assert vals[..0] == [];
    n := 0;
    for i := 0 to |vals|
      invariant n == |Exceptions(vals[..i], w)|
    {
      ExceptionsLast(vals[..i + 1], w);
      assert vals[..i + 1][..i] == vals[..i];
      if ShrWord(vals[i], w) != 0 { n := n + 1; }
    }
    assert vals[..|vals|] == vals;
  }

  method EncodePforVb(vals: seq<uint32>, c: Choice, interleaved: bool, buf: array<byte>, out: nat) returns (end: nat)
    requires c.kind == PFOR_VB && c.excWidth == 0 && Lossless(vals, c) && LinearPartsNarrow(c, interleaved)
    requires interleaved ==> |vals| == BLOCK_SIZE
    requires out + |Body(vals, c, interleaved)| + 16 <= buf.Length
    modifies buf
    ensures end == out + |Body(vals, c, interleaved)|
    ensures buf[..out] == old(buf[..out])
    ensures buf[out..end] == Body(vals, c, interleaved)
  {
    hide LinearBytes, BytesForPackedBits, Exceptions, ExceptionIndexes, VbAll, Section, Low, Pow2;
    var numExceptions := CountExceptions(vals, c.width);
    assert numExceptions == |ExceptionIndexes(vals, c.width)| <= |vals|;
    ghost var head := buf[..out];
    WriteByte(numExceptions, buf, out);
    var p1 := EncodeBitmap(vals, c.width, interleaved, buf, out + 1);
    Appended(buf[..], out, out + 1, p1, head, [numExceptions]);
    ghost var s1 := buf[out..p1];
    var p2 := WriteVbExceptions(vals, c.width, buf, p1);
    Appended(buf[..], out, p1, p2, head, s1);
    ghost var s2 := buf[out..p2];
    end := WriteExceptionIndexes(vals, c.width, buf, p2);
    Appended(buf[..], out, p2, end, head, s2);
  }
}
