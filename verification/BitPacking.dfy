/** Packing fixed-width values back to back: the linear writer and reader, and the
  writer and reader of one of four interleaved streams.
 */
module BitPacking {
  import opened Bits

  predicate Fit(vals: seq<nat>, w: nat) {
    forall i :: 0 <= i < |vals| ==> vals[i] < Pow2(w)
  }

  /** The number whose k-th w-bit digit is vals[k]. */
  function PackNum(vals: seq<nat>, w: nat): nat {
    if vals == [] then 0 else vals[0] + Shl(PackNum(vals[1..], w), w)
  }

  /** Values packed linearly, the last byte padded with zero bits. */
  function LinearBytes(vals: seq<nat>, w: nat): (s: seq<byte>)
    ensures |s| == BytesForPackedBits(|vals|, w)
  {
    LEBytes(PackNum(vals, w), BytesForPackedBits(|vals|, w))
  }

  /** The k-th w-bit value of a buffer. */
  function ValueAt(data: seq<byte>, k: nat, w: nat): nat {
    Field(LE(data), Times(k, w), w)
  }

  // ---------------------------------------------------------------- facts about packing

  lemma {:induction false} IndexBelow(k: nat, n: nat, w: nat)
    requires k < n
    ensures Times(k, w) + w <= Times(n, w)
  {
    if k + 1 < n { IndexBelow(k, n - 1, w); }
  }

  lemma {:induction false} PackAppend(vals: seq<nat>, v: nat, w: nat)
    ensures PackNum(vals + [v], w) == PackNum(vals, w) + Shl(v, Times(|vals|, w))
  {
    if vals == [] {
      assert vals + [v] == [v];
      ShlZero(w);
    } else {
      PackAppend(vals[1..], v, w);
      assert (vals + [v])[1..] == vals[1..] + [v];
      ShlAdd(PackNum(vals[1..], w), Shl(v, Times(|vals| - 1, w)), w);
      ShlShl(v, Times(|vals| - 1, w), w);
    }
  }

  lemma {:induction false} PackBound(vals: seq<nat>, w: nat)
    requires Fit(vals, w)
    ensures PackNum(vals, w) < Pow2(Times(|vals|, w))
  {
    if vals != [] {
      PackBound(vals[1..], w);
      JoinBound(vals[0], PackNum(vals[1..], w), w, Times(|vals| - 1, w));
    }
  }

  lemma {:induction false} PackField(vals: seq<nat>, w: nat, k: nat)
    requires Fit(vals, w) && k < |vals|
    ensures Field(PackNum(vals, w), Times(k, w), w) == vals[k]
  {
    Join(vals[0], PackNum(vals[1..], w), w);
    if k > 0 {
      PackField(vals[1..], w, k - 1);
      ShrShr(PackNum(vals, w), w, Times(k - 1, w));
    }
  }

  lemma {:induction false} PackedBytesEnough(n: nat, w: nat)
    ensures Times(n, w) <= 8 * BytesForPackedBits(n, w) < Times(n, w) + 8
  {
  }

  lemma {:induction false} LinearLE(vals: seq<nat>, w: nat)
    requires Fit(vals, w)
    ensures LE(LinearBytes(vals, w)) == PackNum(vals, w) < Pow2(8 * BytesForPackedBits(|vals|, w))
  {
    var len := BytesForPackedBits(|vals|, w);
    PackBound(vals, w);
    PackedBytesEnough(|vals|, w);
    Pow2Mono(Times(|vals|, w), 8 * len);
    LEOfLEBytes(PackNum(vals, w), len);
    LowSmall(PackNum(vals, w), 8 * len);
  }

  /** Whatever follows a packed section, its k-th value reads back. */
  lemma {:induction false} LinearRoundTrip(vals: seq<nat>, w: nat, slop: seq<byte>, k: nat)
    requires Fit(vals, w) && k < |vals|
    ensures ValueAt(LinearBytes(vals, w) + slop, k, w) == vals[k]
  {
    LinearLE(vals, w);
    LEAppend(LinearBytes(vals, w), slop);
    PackedBytesEnough(|vals|, w);
    IndexBelow(k, |vals|, w);
    FieldIgnoresHigh(PackNum(vals, w), 8 * BytesForPackedBits(|vals|, w), LE(slop), Times(k, w), w);
    PackField(vals, w, k);
  }

  // ---------------------------------------------------------------- little-endian words

  /** Stores the low four bytes of val at out. */
  method WriteLE32(val: nat, buf: array<byte>, out: nat)
    requires out + 4 <= buf.Length
    modifies buf
    ensures buf[out..out + 4] == LEBytes(val, 4)
    ensures forall i :: 0 <= i < buf.Length && !(out <= i < out + 4) ==> buf[i] == old(buf[i])
  {
    var v1 := val / 0x100;
    var v2 := v1 / 0x100;
    var v3 := v2 / 0x100;
    buf[out], buf[out + 1], buf[out + 2], buf[out + 3] := val % 0x100, v1 % 0x100, v2 % 0x100, v3 % 0x100;
    assert LEBytes(val, 4) == [val % 0x100] + LEBytes(v1, 3);
    assert LEBytes(v1, 3) == [v1 % 0x100] + LEBytes(v2, 2);
    assert LEBytes(v2, 2) == [v2 % 0x100] + LEBytes(v3, 1);
    assert LEBytes(v3, 1) == [v3 % 0x100];
  }

  /** The same store, seen as c whole bytes appended to the section begun at start. */
  method WriteWord(word: nat, buf: array<byte>, ghost start: nat, out: nat, ghost c: nat)
    requires start <= out && out + 4 <= buf.Length && c < 4
    modifies buf
    ensures buf[start..out + c] == old(buf[start..out]) + LEBytes(word, c)
    ensures buf[out + c] == Shr(word, 8 * c) % 0x100
    ensures forall i :: 0 <= i < buf.Length && !(out <= i < out + 4) ==> buf[i] == old(buf[i])
  {
    hide LEBytes, Shr;
    ghost var was := buf[..];
    WriteLE32(word, buf, out);
    ghost var now := buf[..];
    SameSlice(now, was, start, out);
    assert now[out..out + 4] == buf[out..out + 4] && was[start..out] == old(buf[start..out]);
    WordAt(now, start, out, c, word);
    assert now[start..out + c] == buf[start..out + c];
  }

  /** The first c bytes of a word just after a section extend it. */
  lemma {:induction false} WordAt(buf: seq<byte>, start: nat, out: nat, c: nat, word: nat)
    requires start <= out && out + 4 <= |buf| && c < 4 && buf[out..out + 4] == LEBytes(word, 4)
    ensures buf[start..out + c] == buf[start..out] + LEBytes(word, c)
    ensures buf[out + c] == Shr(word, 8 * c) % 0x100
  {
    hide LEBytes, Shr;
    ThreeParts(buf, start, out, out + c);
    SubSlice(buf, out, out + 4, 0, c);
    LEBytesPrefix(word, 4, c);
    LEBytesAt(word, 4, c);
    assert buf[out + c] == buf[out..out + 4][c];
  }

  /** The 32-bit word at position p. */
  function ReadLE32(data: seq<byte>, p: nat): (v: nat)
    requires p + 4 <= |data|
  {
    LE(data[p..p + 4])
  }

  lemma {:induction false} ReadLE32Field(data: seq<byte>, p: nat)
    requires p + 4 <= |data|
    ensures ReadLE32(data, p) == Field(LE(data), 8 * p, 32) < 0x1_0000_0000
  {
    LESlice(data, p, 4);
    Pow2Values();
    LowBound(Shr(LE(data), 8 * p), 32);
  }

  /** Puts val into a 32-bit word above its low used bits. */
  method OrShifted(cur: nat, val: nat, used: nat, bits: nat) returns (word: nat)
    requires cur < Pow2(used) && val < Pow2(bits) && used + bits <= 32
    ensures word == cur + Shl(val, used) < Pow2(used + bits)
  {
    hide Or, Shl, Pow2;
    FitsWord(cur, val, used, bits);
    OrDisjoint(cur, val, used);
    word := Or(cur, Shl(val, used) % 0x1_0000_0000);
  }

  lemma {:induction false} FitsWord(cur: nat, val: nat, used: nat, bits: nat)
    requires cur < Pow2(used) && val < Pow2(bits) && used + bits <= 32
    ensures cur + Shl(val, used) < Pow2(used + bits) <= 0x1_0000_0000
  {
    JoinBound(cur, val, used, bits);
    Pow2Mono(used + bits, 32);
    Pow2Values();
  }

  /** Adding one more value at its place in the packed number. */
  lemma {:induction false} AppendWord(vals: seq<nat>, val: nat, w: nat, base: nat, used: nat, cur: nat, done: nat)
    requires base + used == Times(|vals|, w)
    requires PackNum(vals, w) == done + Shl(cur, base)
    ensures PackNum(vals + [val], w) == done + Shl(cur + Shl(val, used), base)
  {
    PackAppend(vals, val, w);
    ShlAdd(cur, Shl(val, used), base);
    ShlShl(val, used, base);
  }

  lemma {:induction false} MoveBytes(prev: seq<byte>, c: nat, word: nat)
    ensures LE(prev + LEBytes(word, c)) + Shl(Shr(word, 8 * c), 8 * (|prev| + c)) == LE(prev) + Shl(word, 8 * |prev|)
  {
    LEOfLEBytes(word, c);
    LEAppend(prev, LEBytes(word, c));
    Split(word, 8 * c);
    ShlAdd(Low(word, 8 * c), Shl(Shr(word, 8 * c), 8 * c), 8 * |prev|);
    ShlShl(Shr(word, 8 * c), 8 * c, 8 * |prev|);
    assert 8 * c + 8 * |prev| == 8 * (|prev| + c);
  }

  /** State of a writer between values: the bytes done, and the bits still in its word. */
  ghost predicate Packing(done: seq<byte>, cur: nat, used: nat, written: seq<nat>, bits: nat) {
    && 8 * |done| + used == Times(|written|, bits)
    && cur < Pow2(used)
    && Fit(written, bits)
    && PackNum(written, bits) == LE(done) + Shl(cur, 8 * |done|)
  }

  /** One more value enters the word, and c bytes leave it. */
  lemma {:induction false} PackingStep(done: seq<byte>, cur: nat, used: nat, written: seq<nat>, bits: nat, val: nat,
                                       c: nat)
    requires Packing(done, cur, used, written, bits) && val < Pow2(bits) && 8 * c <= used + bits
    ensures var word := cur + Shl(val, used);
      && cur < Pow2(used) && word < Pow2(used + bits)
      && Packing(done + LEBytes(word, c), Shr(word, 8 * c), used + bits - 8 * c, written + [val], bits)
  {
    var word := cur + Shl(val, used);
    JoinBound(cur, val, used, bits);
    ShrBound(word, 8 * c, used + bits - 8 * c);
    MoveBytes(done, c, word);
    AppendWord(written, val, bits, 8 * |done|, used, cur, LE(done));
  }

  lemma {:induction false} PackingEnds(done: seq<byte>, cur: nat, used: nat, written: seq<nat>, bits: nat)
    requires Packing(done, cur, used, written, bits) && used < 8
    ensures cur < 0x100
    ensures LinearBytes(written, bits) == if used > 0 then done + [cur] else done
  {
    Pow2Mono(used, 7);
    Pow2Values();
    var s := if used > 0 then done + [cur as byte] else done;
    if used > 0 {
      LEAppend(done, [cur]);
      assert LE([cur]) == cur;
    } else {
      ShlZero(8 * |done|);
    }
    LEBytesLE(s);
  }

  lemma {:induction false} SmallWord(x: nat, used: nat)
    requires used < 8 && x < Pow2(used)
    ensures x < 0x100
  {
    Pow2Mono(used, 8);
    Pow2Values();
  }

  // ---------------------------------------------------------------- linear writer

  /** Packs values linearly through one 32-bit word.

    The word is shifted right by whole bytes after each value, so a write is defined
    only while bitsUsed + bits < 32: at 32 the shift count would be the word size.
   */
  class BitWriter {
    const buf: array<byte>
    const bits: nat
    var out: nat
    var bitsUsed: nat
    var curVal: nat
    ghost const start: nat
    ghost var written: seq<nat>

    ghost predicate Valid()
      reads this, buf
    {
      && start <= out <= buf.Length
      && bitsUsed < 8
      && Packing(buf[start..out], curVal, bitsUsed, written, bits)
      && (bitsUsed > 0 ==> out < buf.Length && buf[out] == curVal)
    }

    constructor (buf: array<byte>, out: nat, bits: nat)
      requires out <= buf.Length
      ensures Valid() && written == []
      ensures this.buf == buf && this.bits == bits && this.out == out && start == out
    {
      this.buf := buf;
      this.bits := bits;
      this.out := out;
      bitsUsed := 0;
      curVal := 0;
      start := out;
      written := [];
      new;
      ShlZero(0);
    }

    method Write(val: uint32)
      requires Valid()
      requires val < Pow2(bits)
      requires bitsUsed + bits < 32
      requires out + 4 <= buf.Length
      modifies this, buf
      ensures Valid() && written == old(written) + [val]
      ensures old(out) <= out <= old(out) + 3
      ensures forall i :: 0 <= i < buf.Length && !(old(out) <= i < old(out) + 4) ==> buf[i] == old(buf[i])
    {
      hide Packing, Pow2, Shl, Shr, LEBytes;
      PackingStep(buf[start..out], curVal, bitsUsed, written, bits, val, (bitsUsed + bits) / 8);
      var word := OrShifted(curVal, val, bitsUsed, bits);
      var used := bitsUsed + bits;
      WriteWord(word, buf, start, out, used / 8);
      curVal, out, bitsUsed := Shr(word, 8 * (used / 8)), out + used / 8, used % 8;
      written := written + [val];
      SmallWord(curVal, bitsUsed);
    }

    /** After the writes, the section holds the packed values. */
    lemma Packed()
      requires Valid()
      ensures start + BytesForPackedBits(|written|, bits) <= buf.Length
      ensures buf[start..start + BytesForPackedBits(|written|, bits)] == LinearBytes(written, bits)
      ensures out <= start + BytesForPackedBits(|written|, bits)
    {
      PackingEnds(buf[start..out], curVal, bitsUsed, written, bits);
    }
  }

  /** The linear writer is defined on every block of a given width exactly up to width 24. */
  lemma {:induction false} LinearWidthSound(bits: nat)
    requires bits <= 32
    ensures (forall k: nat {:trigger Times(k, bits)} :: Times(k, bits) % 8 + bits < 32) <==> bits <= 24
  {
    if bits > 24 {
      TimesIsProduct(7, bits); TimesIsProduct(3, bits); TimesIsProduct(2, bits); TimesIsProduct(1, bits);
      var k := if bits == 25 then 7 else if bits == 26 then 3 else if bits == 27 then 2 else if bits < 32 then 1 else 0;
      assert Times(k, bits) % 8 + bits >= 32;
    }
  }

  // ---------------------------------------------------------------- linear reader

  /** Reads linearly packed values; looks at four bytes from the one its next bit is in. */
  lemma {:induction false} CountedBytes(count: nat, bits: nat)
    ensures Times(count + 1, bits) == Times(count, bits) + bits <= 8 * BytesForPackedBits(count + 1, bits)
  {
    PackedBytesEnough(count + 1, bits);
  }

  /** Value count of a section lies in the 32-bit word at byte rel of it, from bit used on. */
  lemma {:induction false} WordValue(s: seq<byte>, rel: nat, used: nat, count: nat, bits: nat)
    requires rel + 4 <= |s| && 8 * rel + used == Times(count, bits) && used < 8 && bits <= 24
    ensures var v := Low(Shr(ReadLE32(s, rel), used), bits);
      v == ValueAt(s, count, bits) && v < Pow2(bits) <= 0x1_0000_0000
  {
    hide Low, Shr, LE, Times;
    ReadLE32Field(s, rel);
    FieldField(LE(s), 8 * rel, 32, used, bits);
    LowBound(Shr(LE(s), Times(count, bits)), bits);
    Pow2Mono(bits, 32);
    Pow2Values();
  }

  class BitReader {
    const data: seq<byte>
    const bits: nat
    var pos: nat
    var bitsUsed: nat
    ghost const start: nat
    ghost var count: nat

    ghost predicate Valid()
      reads this
    {
      && bits <= 24
      && bitsUsed < 8
      && start <= pos
      && start <= |data|
      && 8 * (pos - start) + bitsUsed == Times(count, bits)
    }

    constructor (data: seq<byte>, pos: nat, bits: nat)
      requires bits <= 24 && pos <= |data|
      ensures Valid() && count == 0 && start == pos
      ensures this.data == data && this.bits == bits && this.pos == pos
    {
      this.data := data;
      this.bits := bits;
      this.pos := pos;
      bitsUsed := 0;
      start := pos;
      count := 0;
    }

    method Read() returns (val: uint32)
      requires Valid()
      requires start + BytesForPackedBits((count + 1), bits) + 4 <= |data|
      modifies this
      ensures Valid() && count == old(count) + 1
      ensures val == ValueAt(data[start..], old(count), bits) < Pow2(bits)
    {
      hide Low, Shr, LE, Pow2, Times, BytesForPackedBits;
      CountedBytes(count, bits);
      var word := ReadLE32(data, pos);
      WordValue(data[start..], pos - start, bitsUsed, count, bits);
      SubSlice(data, start, |data|, pos - start, pos - start + 4);
      assert data[start..][pos - start..pos - start + 4] == data[pos..pos + 4];
      val := Low(Shr(word, bitsUsed), bits);
      bitsUsed := bitsUsed + bits;
      pos := pos + bitsUsed / 8;
      bitsUsed := bitsUsed % 8;
      count := count + 1;
    }
  }
}
