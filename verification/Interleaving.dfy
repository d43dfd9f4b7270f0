/** Four packed streams whose 32-bit words alternate in memory, as full blocks use them. */
module Interleaving {
  import opened Bits
  import opened BitPacking

  /** The first n words of the stream whose first word is at start. */
  function StreamBytes(data: seq<byte>, start: nat, n: nat): (s: seq<byte>)
    requires n > 0 ==> start + 16 * (n - 1) + 4 <= |data|
    ensures |s| == 4 * n
  {
    if n == 0 then []
    else StreamBytes(data, start, n - 1) + data[start + 16 * (n - 1)..start + 16 * (n - 1) + 4]
  }

  lemma {:induction false} StreamWord(data: seq<byte>, start: nat, n: nat, j: nat)
    requires j < n && start + 16 * (n - 1) + 4 <= |data|
    ensures StreamBytes(data, start, n)[4 * j..4 * j + 4] == data[start + 16 * j..start + 16 * j + 4]
  {
    if j < n - 1 {
      StreamWord(data, start, n - 1, j);
      assert StreamBytes(data, start, n)[..4 * (n - 1)] == StreamBytes(data, start, n - 1);
      assert StreamBytes(data, start, n)[4 * j..4 * j + 4] == StreamBytes(data, start, n - 1)[4 * j..4 * j + 4];
    }
  }

  /** A stream sees only its own words. */
  lemma {:induction false} StreamFrame(a: seq<byte>, b: seq<byte>, start: nat, n: nat)
    requires n > 0 ==> start + 16 * (n - 1) + 4 <= |a| && start + 16 * (n - 1) + 4 <= |b|
    requires forall i :: 0 <= i < n ==> a[start + 16 * i..start + 16 * i + 4] == b[start + 16 * i..start + 16 * i + 4]
    ensures StreamBytes(a, start, n) == StreamBytes(b, start, n)
  {
    if n > 0 {
      StreamFrame(a, b, start, n - 1);
      assert a[start + 16 * (n - 1)..start + 16 * (n - 1) + 4] == b[start + 16 * (n - 1)..start + 16 * (n - 1) + 4];
    }
  }

  // ---------------------------------------------------------------- writer

  /** Packs one stream through a 64-bit word, moving out 32 bits at a time. */
  class InterleavedBitWriter {
    const buf: array<byte>
    const bits: nat
    var out: nat
    var bitsUsed: uint32
    var curVal: nat
    ghost const start: nat
    ghost var words: nat
    ghost var written: seq<nat>

    ghost predicate Valid()
      reads this, buf
    {
      && bits <= 32 && bitsUsed < 32
      && out == start + 16 * words
      && (words > 0 ==> start + 16 * (words - 1) + 4 <= buf.Length)
      && Packing(StreamBytes(buf[..], start, words), curVal, bitsUsed, written, bits)
    }

    constructor (buf: array<byte>, out: nat, bits: nat)
      requires bits <= 32
      ensures Valid() && written == [] && words == 0
      ensures this.buf == buf && this.bits == bits && start == out
    {
      this.buf := buf;
      this.bits := bits;
      this.out := out;
      bitsUsed := 0;
      curVal := 0;
      start := out;
      words := 0;
      written := [];
      new;
      ShlZero(0);
    }

    method Write(val: uint32)
      requires Valid()
      requires val < Pow2(bits)
      requires out + 4 <= buf.Length && (bitsUsed + bits >= 32 ==> out + 20 <= buf.Length)
      modifies this, buf
      ensures Valid() && written == old(written) + [val]
      ensures old(words) <= words
      ensures forall i :: 0 <= i < buf.Length && (i < old(out) || (i - start) % 16 >= 4) ==> buf[i] == old(buf[i])
    {
      hide Packing, Pow2, Shl, Shr, LEBytes, StreamBytes;
      ghost var done := StreamBytes(buf[..], start, words);
      var word := OrShifted64(done, curVal, bitsUsed, written, bits, val);
      var used := bitsUsed + bits;
      if used >= 32 {
        PackingStep(done, curVal, bitsUsed, written, bits, val, 4);
        StoreWord(word, words);
        out := out + 16;
        words := words + 1;
        word := Shr(word, 32);
        bitsUsed := (bitsUsed - 32) % 0x1_0000_0000;
      } else {
        PackingStep(done, curVal, bitsUsed, written, bits, val, 0);
        assert done + LEBytes(word, 0) == done by { LEBytesEmpty(word); }
        assert Shr(word, 0) == word by { ShrNothing(word); }
      }
      StoreWord(word, words);
      curVal := word;
      bitsUsed := (bitsUsed + bits) % 0x1_0000_0000;
      written := written + [val];
    }

    /** Stores the low 32 bits of word as the stream's word n. */
    method StoreWord(word: nat, ghost n: nat)
      requires out == start + 16 * n && out + 4 <= buf.Length
      modifies buf
      ensures StreamBytes(buf[..], start, n) == old(StreamBytes(buf[..], start, n))
      ensures StreamBytes(buf[..], start, n + 1) == old(StreamBytes(buf[..], start, n)) + LEBytes(word, 4)
      ensures forall i :: 0 <= i < buf.Length && (i < out || (i - start) % 16 >= 4) ==> buf[i] == old(buf[i])
    {
      ghost var before := buf[..];
      WriteLE32(word, buf, out);
      forall i | 0 <= i < n
        ensures before[start + 16 * i..start + 16 * i + 4] == buf[..][start + 16 * i..start + 16 * i + 4]
      {
      }
      StreamFrame(before, buf[..], start, n);
      assert buf[..][out..out + 4] == LEBytes(word, 4);
    }
  }

  lemma LEBytesEmpty(x: nat)
    ensures LEBytes(x, 0) == []
  {
  }

  lemma ShrNothing(x: nat)
    ensures Shr(x, 0) == x
  {
  }

  lemma {:induction false} Fits64(done: seq<byte>, cur: nat, used: nat, written: seq<nat>, bits: nat, val: uint32)
    requires Packing(done, cur, used, written, bits) && val < Pow2(bits) && used < 32 && bits <= 32
    ensures cur < Pow2(used) && cur + Shl(val, used) < 0x1_0000_0000_0000_0000
  {
    JoinBound(cur, val, used, bits);
    Pow2Mono(used + bits, 64);
    Pow2Values();
  }

  /** Puts val into a 64-bit word above the bits in use. */
  method OrShifted64(ghost done: seq<byte>, cur: nat, used: nat, ghost written: seq<nat>, ghost bits: nat, val: uint32)
    returns (word: nat)
    requires Packing(done, cur, used, written, bits) && val < Pow2(bits) && used < 32 && bits <= 32
    ensures word == cur + Shl(val, used)
  {
    hide Or, Shl, Pow2;
    Fits64(done, cur, used, written, bits, val);
    OrDisjoint(cur, val, used);
    word := Or(cur, Shl(val, used) % 0x1_0000_0000_0000_0000);
  }

  // ---------------------------------------------------------------- reader

  /** Reads one stream of total words. */
  class InterleavedBitReader {
    const data: seq<byte>
    const bits: nat
    var pos: nat
    var bitsUsed: nat
    ghost const start: nat
    ghost const total: nat
    ghost var words: nat
    ghost var count: nat

    ghost predicate Valid()
      reads this
    {
      && bits <= 32 && bitsUsed < 32
      && pos == start + 16 * words
      && 32 * words + bitsUsed == Times(count, bits)
      && start + 16 * total + 4 <= |data|
    }

    constructor (data: seq<byte>, pos: nat, bits: nat, ghost total: nat)
      requires bits <= 32 && pos + 16 * total + 4 <= |data|
      ensures Valid() && count == 0
      ensures this.data == data && this.bits == bits && this.start == pos && this.total == total
    {
      this.data := data;
      this.bits := bits;
      this.pos := pos;
      this.total := total;
      bitsUsed := 0;
      start := pos;
      words := 0;
      count := 0;
    }

    method Read() returns (val: uint32)
      requires Valid()
      requires Times(count + 1, bits) <= 32 * total
      modifies this
      ensures Valid() && count == old(count) + 1
      ensures val == ValueAt(StreamBytes(data, start, total), old(count), bits)
    {
      hide StreamBytes, ValueAt, Low, Or, Shl, Shr, Pow2, LE;
      var word := ReadLE32(data, pos);
      if bitsUsed + bits > 32 {
        StreamReadAcross(data, start, total, words, bitsUsed, bits, count);
        var next := ReadLE32(data, pos + 16);
        word := Or(Shr(word, bitsUsed), Shl(next, 32 - bitsUsed) % 0x1_0000_0000);
      } else {
        StreamReadWithin(data, start, total, words, bitsUsed, bits, count);
        word := Shr(word, bitsUsed);
      }
      bitsUsed := bitsUsed + bits;
      pos := pos + 16 * (bitsUsed / 32);
      words := words + bitsUsed / 32;
      bitsUsed := bitsUsed % 32;
      count := count + 1;
      Below32(word, bits);
      val := Low(word, bits);
    }
  }

  lemma {:induction false} Below32(x: nat, bits: nat)
    requires bits <= 32
    ensures Low(x, bits) < 0x1_0000_0000
  {
    LowBound(x, bits);
    Pow2Mono(bits, 32);
    Pow2Values();
  }

  /** A value that ends at or before the end of its word. */
  lemma {:induction false} ReadWithin(stream: seq<byte>, j: nat, used: nat, bits: nat, k: nat)
    requires 4 * j + 4 <= |stream| && used + bits <= 32 && 32 * j + used == Times(k, bits)
    ensures Low(Shr(LE(stream[4 * j..4 * j + 4]), used), bits) == ValueAt(stream, k, bits)
  {
    LESlice(stream, 4 * j, 4);
    FieldField(LE(stream), 32 * j, 32, used, bits);
  }

  lemma {:induction false} StreamReadWithin(data: seq<byte>, start: nat, total: nat, j: nat, used: nat, bits: nat,
                                            k: nat)
    requires start + 16 * total + 4 <= |data| && start + 16 * j + 4 <= |data|
    requires used + bits <= 32 && 32 * j + used == Times(k, bits) && Times(k, bits) + bits <= 32 * total
    ensures Low(Shr(ReadLE32(data, start + 16 * j), used), bits) == ValueAt(StreamBytes(data, start, total), k, bits)
  {
    if j < total {
      StreamWord(data, start, total, j);
      ReadWithin(StreamBytes(data, start, total), j, used, bits, k);
    } else {
      assert bits == 0;
    }
  }

  lemma {:induction false} StreamReadAcross(data: seq<byte>, start: nat, total: nat, j: nat, used: nat, bits: nat,
                                            k: nat)
    requires start + 16 * total + 4 <= |data|
    requires used < 32 && bits <= 32 < used + bits && 32 * j + used == Times(k, bits)
    requires Times(k, bits) + bits <= 32 * total
    ensures Low(Or(Shr(ReadLE32(data, start + 16 * j), used),
      Shl(ReadLE32(data, start + 16 * j + 16), 32 - used) % 0x1_0000_0000), bits)
         == ValueAt(StreamBytes(data, start, total), k, bits)
  {
    hide Or, Shr, Shl, Low, StreamBytes, ValueAt, LE;
    StreamWord(data, start, total, j);
    StreamWord(data, start, total, j + 1);
    ReadAcross(StreamBytes(data, start, total), j, used, bits, k);
  }

  /** A value that starts in one word and ends in the next. */
  lemma {:induction false} ReadAcross(stream: seq<byte>, j: nat, used: nat, bits: nat, k: nat)
    requires 4 * j + 8 <= |stream| && used < 32 && bits <= 32 < used + bits && 32 * j + used == Times(k, bits)
    ensures var w0, w1 := LE(stream[4 * j..4 * j + 4]), LE(stream[4 * (j + 1)..4 * (j + 1) + 4]);
      Low(Or(Shr(w0, used), Shl(w1, 32 - used) % 0x1_0000_0000), bits) == ValueAt(stream, k, bits)
  {
    hide Shr, Shl, Low, Or, Pow2, LE;
    var w0, w1 := LE(stream[4 * j..4 * j + 4]), LE(stream[4 * (j + 1)..4 * (j + 1) + 4]);
    var both := stream[4 * j..4 * j + 8];
    assert both == stream[4 * j..4 * j + 4] + stream[4 * (j + 1)..4 * (j + 1) + 4];
    LEAppend(stream[4 * j..4 * j + 4], stream[4 * (j + 1)..4 * (j + 1) + 4]);
    LEBound(stream[4 * j..4 * j + 4]);
    LESlice(stream, 4 * j, 8);
    FieldField(LE(stream), 32 * j, 64, used, bits);
    OrAcross(w0, w1, used, bits);
  }

  lemma {:induction false} OrAcross(w0: nat, w1: nat, used: nat, bits: nat)
    requires w0 < Pow2(8 * 4) && used < 32 && bits <= 32
    ensures Low(Or(Shr(w0, used), Shl(w1, 32 - used) % 0x1_0000_0000), bits) == Field(w0 + Shl(w1, 32), used, bits)
  {
    hide Shr, Shl, Low, Or, Pow2;
    var a, k := Shr(w0, used), 32 - used;
    ShrBound(w0, used, k);
    ShlTruncated(w1, k, used);
    OrDisjoint(a, Low(w1, used), k);
    LowJoin(a, w1, k, used);
    ShrJoin(w0, w1, used, 32);
    LowLow(a + Shl(w1, k), bits, 32 - bits);
  }

  lemma {:induction false} ShlTruncated(x: nat, k: nat, m: nat)
    requires k + m == 32
    ensures Shl(x, k) % 0x1_0000_0000 == Shl(Low(x, m), k)
  {
    LowIsMod32(Shl(x, k));
    LowJoin(0, x, k, m);
  }

  /** Shifting right a sum whose parts meet at bit n >= k. */
  lemma {:induction false} ShrJoin(lo: nat, hi: nat, k: nat, n: nat)
    requires k <= n
    ensures Shr(lo + Shl(hi, n), k) == Shr(lo, k) + Shl(hi, n - k)
  {
    if k > 0 {
      ShrJoin(lo / 2, hi, k - 1, n - 1);
      assert (lo + Shl(hi, n)) / 2 == lo / 2 + Shl(hi, n - 1);
    }
  }
}
