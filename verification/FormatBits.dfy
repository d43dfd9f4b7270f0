/** Where each bit of a value goes in a posting list, and which bytes mark its parts. */
module FormatBits {
  import opened Bits
  import opened BitPacking
  import opened BlockFormat
  import PostingList

  /** Bit j of value i is bit i * w + j of a linear section. */
  lemma {:induction false} LinearBit(vals: seq<nat>, w: nat, i: nat, j: nat)
    requires Fit(vals, w) && i < |vals| && j < w
    ensures var b, s := i * w + j, LinearBytes(vals, w);
      b / 8 < |s| && Bit(s[b / 8], b % 8) == Bit(vals[i], j)
  {
    hide LinearBytes, LE, Low, Shr, PackNum, Times;
    var s := LinearBytes(vals, w);
    var p := Times(i, w);
    TimesIsProduct(i, w);
    IndexBelow(i, |vals|, w);
    PackedBytesEnough(|vals|, w);
    LinearLE(vals, w);
    PackField(vals, w, i);
    MaskedBit(Shr(LE(s), p), w, j);
    ShiftedBit(LE(s), p, j);
    BufferBit(s, p + j);
  }

  /** In a full block, value 4k + l is number k of lane l, and each lane has every fourth word
      of the section. */
  lemma {:induction false} InterleavedBit(vals: seq<uint32>, w: nat, k: nat, l: nat, j: nat, b: nat)
    requires |vals| == 128 && Fit(vals, w) && k < 32 && l < 4 && j < w && b == k * w + j
    ensures var s, at := InterleavedBytes(vals, w), 16 * (b / 32) + 4 * l + b % 32 / 8;
      at < |s| && Bit(s[at], b % 8) == Bit(vals[4 * k + l], j)
  {
    hide LinearBytes, InterleavedBytes, Fit, Bit, Lane;
    LaneOf(vals, w, k, l);
    LinearBit(Lane(vals, l), w, k, j);
    LaneLength(vals, w, l);
    WordPlace(b, l, w);
    LaneByteIs(vals, w, 16 * (b / 32) + 4 * l + b % 32 / 8);
  }

  lemma {:induction false} LaneOf(vals: seq<uint32>, w: nat, k: nat, l: nat)
    requires |vals| == BLOCK_SIZE && Fit(vals, w) && k < 32 && l < 4
    ensures var lane := Lane(vals, l); |lane| == 32 && lane[k] == vals[4 * k + l] && Fit(lane, w)
  {
    hide Pow2;
  }

  lemma {:induction false} WordPlace(b: nat, l: nat, w: nat)
    requires l < 4 && b / 8 < 4 * w
    ensures var at := 16 * (b / 32) + 4 * l + b % 32 / 8;
      at < 16 * w && at % 16 / 4 == l && 4 * (at / 16) + at % 4 == b / 8
  {
    var k, m := b / 32, b % 32 / 8;
    assert b / 8 == 4 * k + m;
    BySixteen(k, 4 * l + m);
    ByFour(l, m);
    ByFour(4 * k + l, m);
  }

  lemma {:induction false} BySixteen(q: nat, r: nat)
    requires r < 16
    ensures (16 * q + r) / 16 == q && (16 * q + r) % 16 == r
  {
  }

  lemma {:induction false} ByFour(q: nat, r: nat)
    requires r < 4
    ensures (4 * q + r) / 4 == q && (4 * q + r) % 4 == r
  {
  }

  lemma {:induction false} LaneByteIs(vals: seq<uint32>, w: nat, k: nat)
    requires |vals| == BLOCK_SIZE && k < 16 * w
    ensures var s := LinearBytes(Lane(vals, k % 16 / 4), w);
      4 * (k / 16) + k % 4 < |s| && InterleavedBytes(vals, w)[k] == s[4 * (k / 16) + k % 4]
  {
    hide LinearBytes, Lane;
    LaneLength(vals, w, k % 16 / 4);
  }

  /** The two top bits of the first byte tell the type, the others the width; what follows is
      laid out by type. */
  lemma {:induction false} BlockLayout(vals: seq<uint32>, c: Choice, interleaved: bool)
    requires 0 < |vals| <= 128 && c.width <= 32 && c.excWidth <= 32 && (interleaved ==> |vals| == 128)
    ensures var s, w := BlockBytes(vals, c, interleaved), c.width;
      var base := Section(LowVals(vals, w), w, interleaved);
      var high := Exceptions(vals, w);
      match c.kind
      case FOR => s == [w] + base
      case PFOR_VB => s == [64 + w, |high|] + base + VbAll(high) + ExceptionIndexes(vals, w)
      case PFOR_BITMAP =>
        s == [128 + w, c.excWidth] + LinearBytes(ExceptionBits(vals, w), 1) + LinearBytes(high, c.excWidth) + base
      case CONSTANT => s == [192 + w] + LEBytes(vals[0], (w + 7) / 8)
  {
    hide LinearBytes, Section, VbAll, Exceptions, ExceptionIndexes, LEBytes, LowVals, ExceptionBits, Body, HeaderByte;
    HeaderIs(c);
    match c.kind
    case FOR => PlainBody(vals, c, interleaved);
    case PFOR_VB =>
      VbBody(vals, c, interleaved);
    case PFOR_BITMAP =>
      BitmapBody(vals, c, interleaved);
    case CONSTANT => PlainBody(vals, c, interleaved);
  }

  lemma {:induction false} HeaderIs(c: Choice)
    requires c.width <= 32
    ensures HeaderByte(c) == c.width
      + (match c.kind case FOR => 0 case PFOR_VB => 64 case PFOR_BITMAP => 128 case CONSTANT => 192)
  {
  }

  lemma {:induction false} PlainBody(vals: seq<uint32>, c: Choice, interleaved: bool)
    requires 0 < |vals| <= 128 && c.width <= 32 && c.excWidth <= 32 && (interleaved ==> |vals| == 128)
    ensures c.kind == FOR ==> Body(vals, c, interleaved) == Section(LowVals(vals, c.width), c.width, interleaved)
    ensures c.kind == CONSTANT ==> Body(vals, c, interleaved) == LEBytes(vals[0], (c.width + 7) / 8)
  {
    hide LinearBytes, Section, LEBytes, LowVals;
  }

  lemma {:induction false} VbBody(vals: seq<uint32>, c: Choice, interleaved: bool)
    requires 0 < |vals| <= 128 && c.width <= 32 && c.excWidth <= 32 && (interleaved ==> |vals| == 128)
    requires c.kind == PFOR_VB
    ensures var w, high := c.width, Exceptions(vals, c.width);
      && |high| <= 128
      && forall h: byte :: [h] + Body(vals, c, interleaved)
           == [h, |high|] + Section(LowVals(vals, w), w, interleaved) + VbAll(high) + ExceptionIndexes(vals, w)
  {
    hide LinearBytes, Section, VbAll, Exceptions, ExceptionIndexes, LowVals;
    var w, high := c.width, Exceptions(vals, c.width);
    assert |ExceptionIndexes(vals, w)| <= 128;
    forall h: byte
      ensures [h] + Body(vals, c, interleaved)
           == [h, |high|] + Section(LowVals(vals, w), w, interleaved) + VbAll(high) + ExceptionIndexes(vals, w)
    {
      FirstTwo(h, |high|, Section(LowVals(vals, w), w, interleaved), VbAll(high), ExceptionIndexes(vals, w));
    }
  }

  lemma {:induction false} BitmapBody(vals: seq<uint32>, c: Choice, interleaved: bool)
    requires 0 < |vals| <= 128 && c.width <= 32 && c.excWidth <= 32 && (interleaved ==> |vals| == 128)
    requires c.kind == PFOR_BITMAP
    ensures var w, high := c.width, LinearBytes(Exceptions(vals, c.width), c.excWidth);
      forall h: byte :: [h] + Body(vals, c, interleaved)
        == [h, c.excWidth] + LinearBytes(ExceptionBits(vals, w), 1) + high + Section(LowVals(vals, w), w, interleaved)
  {
    hide LinearBytes, Section, Exceptions, LowVals, ExceptionBits;
    var w, high := c.width, LinearBytes(Exceptions(vals, c.width), c.excWidth);
    forall h: byte
      ensures [h] + Body(vals, c, interleaved)
        == [h, c.excWidth] + LinearBytes(ExceptionBits(vals, w), 1) + high + Section(LowVals(vals, w), w, interleaved)
    {
      FirstTwo(h, c.excWidth, LinearBytes(ExceptionBits(vals, w), 1), high, Section(LowVals(vals, w), w, interleaved));
    }
  }

  lemma {:induction false} FirstTwo(a: byte, b: byte, x: seq<byte>, y: seq<byte>, z: seq<byte>)
    ensures [a] + ([b] + x + y + z) == [a, b] + x + y + z
  {
    assert [a] + [b] == [a, b];
  }

  /** The ends of the ranges of the varbyte code. */
  lemma {:induction false} VbRanges()
    ensures VbBytes(176) == [176] && VbBytes(177) == [177, 0] && VbBytes(0x1234) == [194, 131]
    ensures VbBytes(16560) == [240, 255] && VbBytes(16561) == [241, 0, 0] && VbBytes(16561 + 0x1_0203) == [242, 3, 2]
    ensures VbBytes(540848) == [248, 255, 255] && VbBytes(540849) == [249, 0xb1, 0x40, 0x08]
    ensures VbBytes(16777215) == [249, 255, 255, 255] && VbBytes(0x0403_0201) == [250, 1, 2, 3, 4]
  {
  }

  /** And of the code of the first docid. */
  lemma {:induction false} BasevalRanges()
    ensures BasevalBytes(127) == [127] && BasevalBytes(128) == [0x80, 128] && BasevalBytes(0x3fff) == [0xbf, 0xff]
    ensures BasevalBytes(0x4000) == [0xc0, 0, 0x40] && BasevalBytes(0x12_3456) == [0xd2, 0x56, 0x34]
    ensures BasevalBytes(0x1f_ffff) == [0xdf, 0xff, 0xff] && BasevalBytes(0x20_0000) == [0xe0, 0x20, 0, 0]
    ensures BasevalBytes(0x8ab_cdef) == [0xe8, 0xab, 0xcd, 0xef]
  {
  }

  /** Values 0 and 5 in three bits each. */
  lemma {:induction false} TwoInThreeBits()
    ensures LowVals([0, 5], 3) == [0, 5] && LinearBytes([0, 5], 3) == [0x28]
  {
    assert PackNum([5], 3) == 5;
    assert PackNum([0, 5], 3) == 40;
  }

  /** Docids 3, 4 and 10: the first as it is, then what lies between each two, in three bits. */
  lemma {:induction false} ListOfThree()
    ensures PostingList.Encodes([3, 3, 0x28], [3, 4, 10], [Choice(FOR, 3, 0)])
  {
    hide LinearBytes, LowVals;
    var docids: seq<uint32>, choices := [3, 4, 10], [Choice(FOR, 3, 0)];
    var deltas := PostingList.Deltas(docids);
    assert deltas == [0, 5];
    assert Pow2(3) == 8;
    assert PostingList.Block(deltas, 0) == [0, 5];
    TwoInThreeBits();
    assert choices[..0] == [] && PostingList.BlocksBytes(deltas, []) == [];
    assert BlockBytes([0, 5], choices[0], false) == [3, 0x28];
  }
}
