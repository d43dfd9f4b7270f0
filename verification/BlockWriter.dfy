/** The encoder's entry points: one block, and the first docid of a list. */
module BlockWriter {
  import opened Bits
  import opened BitPacking
  import opened Interleaving
  import opened BlockFormat
  import opened BlockEncode
  import opened BlockChoice

  /** Bytes of buffer the builder sets aside for n values: P4NENC_BOUND(n). */
  function EncodeBound(n: nat): nat {
    (n + 127) / 128 + (n + 32) * 4
  }

  method EncodeConstant(val: uint32, width: nat, buf: array<byte>, out: nat) returns (end: nat)
    requires width <= 32 && out + 4 <= buf.Length
    modifies buf
    ensures end == out + DivRoundUp(width, 8)
    ensures buf[..out] == old(buf[..out])
    ensures buf[out..end] == LEBytes(val, DivRoundUp(width, 8))
  {
    hide LEBytes;
    WriteLE32(val, buf, out);
    end := out + DivRoundUp(width, 8);
    LEBytesPrefix(val, 4, DivRoundUp(width, 8));
    SubSlice(buf[..], out, out + 4, 0, DivRoundUp(width, 8));
    assert buf[..][out..out + 4] == buf[out..out + 4] && buf[..][out..end] == buf[out..end];
    assert buf[..out] == old(buf[..out]);
  }

  lemma {:induction false} BodySize(vals: seq<uint32>, c: Choice, interleaved: bool)
    requires Lossless(vals, c) && c.width <= MaxBits(vals) && c.width + c.excWidth <= MaxBits(vals)
    requires CostOf(vals, c) <= ForCost(vals)
    requires c.kind == PFOR_BITMAP ==> c.excWidth == MaxBits(vals) - c.width
    requires c.kind == FOR ==> c.width == MaxBits(vals)
    requires c.kind != PFOR_BITMAP ==> c.excWidth == 0
    requires interleaved ==> |vals| == BLOCK_SIZE
    ensures |Body(vals, c, interleaved)| <= CostOf(vals, c)
    ensures |BlockBytes(vals, c, interleaved)| <= 1 + ForCost(vals)
  {
    hide BitmapCost, VbEstimate, BytesForPackedBits, MaxBits, NumBits, Section, LinearBytes, Exceptions, VbAll,
         ExceptionIndexes;
    MaxBits32(vals);
    CostsBoundSizes(vals, c.width, interleaved);
  }

  /** One block: a lossless choice, at most 1 + ceil(n * max_bits / 8) bytes long. */
  method EncodePforSingleBlock(vals: seq<uint32>, interleaved: bool, buf: array<byte>, out: nat)
    returns (end: nat, ghost c: Choice)
    requires 0 < |vals| <= BLOCK_SIZE && NarrowWins(vals, interleaved)
    requires interleaved ==> |vals| == BLOCK_SIZE
    requires out + 1 + ForCost(vals) + 16 <= buf.Length
    modifies buf
    ensures Lossless(vals, c) && LinearPartsNarrow(c, interleaved) && c.excWidth <= 32
    ensures buf[..out] == old(buf[..out])
    ensures out < end <= out + 1 + ForCost(vals)
    ensures buf[out..end] == BlockBytes(vals, c, interleaved)
  {
    hide Body, BitmapCost, VbEstimate, BytesForPackedBits, MaxBits, Fit, Low, LowVals, NumBits, LEBytes, LinearBytes,
         InterleavedBytes, Exceptions, NarrowWins, BitmapBeaten, VbBeaten;
    var choice := DecideBlockType(vals);
    c := choice;
    MaxBits32(vals);
    assert LinearPartsNarrow(c, interleaved) by { ChoiceIsNarrow(vals, c, interleaved); }
    BodySize(vals, c, interleaved);
    buf[out] := 64 * TypeCode(choice.kind) + choice.width;
    ghost var start := buf[..out + 1];
    match choice.kind {
      case CONSTANT =>
        end := EncodeConstant(vals[0], NumBits(vals[0]), buf, out + 1);
        BodyConstant(vals, c, interleaved);
      case FOR =>
        BodyFor(vals, c, interleaved);
        end := EncodeBitmap(vals, choice.width, interleaved, buf, out + 1);
      case PFOR_BITMAP =>
        end := EncodePforBitmap(vals, choice, interleaved, buf, out + 1);
      case PFOR_VB =>
        end := EncodePforVb(vals, choice, interleaved, buf, out + 1);
    }
    assert buf[..out + 1] == start;
    Appended(buf[..], out, out + 1, end, start[..out], [start[out]]);
  }

  lemma {:induction false} BodyConstant(vals: seq<uint32>, c: Choice, interleaved: bool)
    requires c.kind == CONSTANT && 0 < |vals| <= BLOCK_SIZE && c.excWidth <= 32
    requires interleaved ==> |vals| == BLOCK_SIZE
    ensures Body(vals, c, interleaved) == LEBytes(vals[0], DivRoundUp(c.width, 8))
  {
  }

  lemma {:induction false} BodyFor(vals: seq<uint32>, c: Choice, interleaved: bool)
    requires c.kind == FOR && 0 < |vals| <= BLOCK_SIZE && c.excWidth <= 32
    requires interleaved ==> |vals| == BLOCK_SIZE
    ensures Body(vals, c, interleaved) == Section(LowVals(vals, c.width), c.width, interleaved)
  {
  }

  /** No block, slop included, leaves the buffer the builder allots. */
  lemma {:induction false} BlockFitsBuffer(vals: seq<uint32>)
    requires |vals| <= BLOCK_SIZE
    ensures 1 + ForCost(vals) + 16 <= EncodeBound(BLOCK_SIZE)
  {
    MaxBits32(vals);
    TimesWider(|vals|, MaxBits(vals), 32);
    TimesMono(|vals|, 128, 32);
    TimesIsProduct(128, 32);
  }

  /** Writes the first docid. */
  method WriteBaseval(v: uint32, buf: array<byte>, out: nat) returns (end: nat)
    requires v < 0x1000_0000 && out + 4 <= buf.Length
    modifies buf
    ensures end == out + |BasevalBytes(v)|
    ensures buf[..out] == old(buf[..out])
    ensures buf[out..end] == BasevalBytes(v)
  {
    hide Or;
    if v < 128 {
      buf[out] := v;
      end := out + 1;
    } else if v < 0x4000 {
      MarkBits(v / 0x100);
      buf[out], buf[out + 1] := Or(v / 0x100, 0x80), v % 0x100;
      end := out + 2;
    } else if v < 0x20_0000 {
      MarkBits(v / 0x1_0000);
      buf[out], buf[out + 1], buf[out + 2] := Or(v / 0x1_0000, 0xc0), v % 0x100, v / 0x100 % 0x100;
      end := out + 3;
    } else {
      MarkBits(v / 0x100_0000);
      buf[out], buf[out + 1] := Or(v / 0x100_0000, 0xe0), v / 0x1_0000 % 0x100;
      buf[out + 2], buf[out + 3] := v / 0x100 % 0x100, v % 0x100;
      end := out + 4;
    }
  }

  /** The length marks of the first byte lie above its value bits. */
  lemma {:induction false} MarkBits(lo: nat)
    ensures lo < 0x40 ==> Or(lo, 0x80) == lo + 0x80
    ensures lo < 0x20 ==> Or(lo, 0xc0) == lo + 0xc0
    ensures lo < 0x10 ==> Or(lo, 0xe0) == lo + 0xe0
  {
    hide Or;
    assert Pow2(7) == 0x80 && Pow2(6) == 0x40 && Pow2(5) == 0x20;
    assert Shl(1, 7) == 0x80 && Shl(3, 6) == 0xc0 && Shl(7, 5) == 0xe0;
    if lo < 0x40 { OrDisjoint(lo, 1, 7); }
    if lo < 0x20 { OrDisjoint(lo, 3, 6); }
    if lo < 0x10 { OrDisjoint(lo, 7, 5); }
  }
}
