/** The bytes of one posting-list block, in each of the four block types. */
module BlockFormat {
  import opened Bits
  import opened BitPacking
  import opened Interleaving

  const BLOCK_SIZE: nat := 128

  datatype BlockType = FOR | PFOR_VB | PFOR_BITMAP | CONSTANT

  /** What decide_block_type settles: the type, the base width and the exception width. */
  datatype Choice = Choice(kind: BlockType, width: nat, excWidth: nat)

  function TypeCode(t: BlockType): (c: nat)
    ensures c < 4
  {
    match t
    case FOR => 0
    case PFOR_VB => 1
    case PFOR_BITMAP => 2
    case CONSTANT => 3
  }

  // ---------------------------------------------------------------- parts of a block

  function LowWord(v: uint32, w: nat): (r: uint32)
    ensures r == Low(v, w)
  {
    LowBound(v, w);
    Low(v, w)
  }

  function ShrWord(v: uint32, w: nat): (r: uint32)
    ensures r == Shr(v, w)
  {
    ShrMono(v, w);
    Shr(v, w)
  }

  function LowVals(vals: seq<uint32>, w: nat): (r: seq<uint32>)
    ensures |r| == |vals|
  {
    seq(|vals|, i requires 0 <= i < |vals| => LowWord(vals[i], w))
  }

  /** Values l, l+4, l+8, ... */
  function Lane(vals: seq<uint32>, l: nat): (r: seq<uint32>)
    requires l < 4
    ensures |r| == |vals| / 4
  {
    seq(|vals| / 4, k requires 0 <= k < |vals| / 4 => vals[4 * k + l])
  }

  /** A full block as four streams of w words each. */
  function InterleavedBytes(vals: seq<uint32>, w: nat): (s: seq<byte>)
    requires |vals| == BLOCK_SIZE
    ensures |s| == 16 * w
  {
    seq(16 * w, i requires 0 <= i < 16 * w => LaneByte(vals, w, i))
  }

  function LaneByte(vals: seq<uint32>, w: nat, i: nat): byte
    requires |vals| == BLOCK_SIZE && i < 16 * w
  {
    LaneLength(vals, w, i % 16 / 4);
    LinearBytes(Lane(vals, i % 16 / 4), w)[4 * (i / 16) + i % 4]
  }

  lemma {:induction false} LaneLength(vals: seq<uint32>, w: nat, l: nat)
    requires |vals| == BLOCK_SIZE && l < 4
    ensures |LinearBytes(Lane(vals, l), w)| == 4 * w
    ensures Times(32, w) == 32 * w
  {
    TimesIsProduct(32, w);
  }

  function Section(vals: seq<uint32>, w: nat, interleaved: bool): seq<byte>
    requires interleaved ==> |vals| == BLOCK_SIZE
  {
    if interleaved then InterleavedBytes(vals, w) else LinearBytes(vals, w)
  }

  lemma {:induction false} SectionLength(vals: seq<uint32>, w: nat, interleaved: bool)
    requires interleaved ==> |vals| == BLOCK_SIZE
    ensures |Section(vals, w, interleaved)| == BytesForPackedBits(|vals|, w)
  {
    TimesIsProduct(|vals|, w);
  }

  /** Values with a bit at or above w. */
  predicate IsException(v: nat, w: nat) {
    Shr(v, w) != 0
  }

  function ExceptionBits(vals: seq<uint32>, w: nat): (r: seq<uint32>)
    ensures |r| == |vals|
  {
    seq(|vals|, i requires 0 <= i < |vals| => if IsException(vals[i], w) then 1 else 0)
  }

  /** The high parts of the exceptions, in order. */
  function Exceptions(vals: seq<uint32>, w: nat): seq<uint32> {
    if vals == [] then []
    else
      var last := vals[|vals| - 1];
      Exceptions(vals[..|vals| - 1], w) + (if IsException(last, w) then [ShrWord(last, w)] else [])
  }

  /** Where the exceptions are, in order. */
  function ExceptionIndexes(vals: seq<uint32>, w: nat): (r: seq<nat>)
    ensures |r| == |Exceptions(vals, w)| <= |vals|
    ensures forall j :: 0 <= j < |r| ==> r[j] < |vals|
  {
    if vals == [] then []
    else
      var n := |vals| - 1;
      ExceptionIndexes(vals[..n], w) + (if IsException(vals[n], w) then [n] else [])
  }

  // ---------------------------------------------------------------- varbyte

  /** One varbyte-coded exception. */
  function VbBytes(val: uint32): (s: seq<byte>)
    ensures 1 <= |s| <= 5 && s[0] <= 250
  {
    if val <= 176 then [val]
    else if val <= 16560 then [(val - 177) / 0x100 + 177, (val - 177) % 0x100]
    else if val <= 540848 then [(val - 16561) / 0x1_0000 + 241] + LEBytes((val - 16561) % 0x1_0000, 2)
    else if val <= 16777215 then [249] + LEBytes(val, 3)
    else [250] + LEBytes(val, 4)
  }

  function VbAll(vals: seq<uint32>): (s: seq<byte>)
    ensures |s| >= |vals|
  {
    if vals == [] then [] else VbAll(vals[..|vals| - 1]) + VbBytes(vals[|vals| - 1])
  }

  // ---------------------------------------------------------------- base value

  /** The first docid of a list; larger ones have no code. */
  function BasevalBytes(v: nat): (s: seq<byte>)
    requires v < 0x1000_0000
    ensures 1 <= |s| <= 4
  {
    if v < 128 then [v]
    else if v < 0x4000 then [v / 0x100 + 0x80, v % 0x100]
    else if v < 0x20_0000 then [v / 0x1_0000 + 0xc0, v % 0x100, v / 0x100 % 0x100]
    else [v / 0x100_0000 + 0xe0, v / 0x1_0000 % 0x100, v / 0x100 % 0x100, v % 0x100]
  }

  // ---------------------------------------------------------------- whole blocks

  /** A choice that loses nothing of vals. */
  ghost predicate Lossless(vals: seq<uint32>, c: Choice) {
    && 0 < |vals| <= BLOCK_SIZE
    && c.width <= 32
    && match c.kind
       case CONSTANT => c.width == NumBits(vals[0]) && forall i :: 0 <= i < |vals| ==> vals[i] == vals[0]
       case FOR => Fit(vals, c.width)
       case PFOR_BITMAP => c.excWidth <= 32 && Fit(vals, c.width + c.excWidth)
       case PFOR_VB => Exceptions(vals, c.width) != []
  }

  /** Linearly packed parts at most 24 bits wide; see LinearWidthSound. */
  ghost predicate LinearPartsNarrow(c: Choice, interleaved: bool) {
    match c.kind
    case CONSTANT => true
    case FOR => interleaved || c.width <= 24
    case PFOR_BITMAP => c.excWidth <= 24 && (interleaved || c.width <= 24)
    case PFOR_VB => interleaved || c.width <= 24
  }

  lemma {:induction false} ExceptionsFit(vals: seq<uint32>, w: nat, ew: nat)
    requires Fit(vals, w + ew)
    ensures Fit(Exceptions(vals, w), ew)
    ensures forall v :: v in Exceptions(vals, w) ==> v < Pow2(ew) && v != 0
  {
    if vals != [] {
      ExceptionsFit(vals[..|vals| - 1], w, ew);
      ShrBound(vals[|vals| - 1], w, ew);
      assert vals[|vals| - 1] < Pow2(w + ew);
    }
  }

  function HeaderByte(c: Choice): byte
    requires c.width <= 32
  {
    64 * TypeCode(c.kind) + c.width
  }

  /** Everything after the header byte. */
  function Body(vals: seq<uint32>, c: Choice, interleaved: bool): seq<byte>
    requires |vals| <= BLOCK_SIZE && c.excWidth <= 32
    requires interleaved ==> |vals| == BLOCK_SIZE
    requires vals != []
  {
    match c.kind
    case CONSTANT => LEBytes(vals[0], DivRoundUp(c.width, 8))
    case FOR => Section(LowVals(vals, c.width), c.width, interleaved)
    case PFOR_BITMAP =>
      [c.excWidth] + LinearBytes(ExceptionBits(vals, c.width), 1)
      + LinearBytes(Exceptions(vals, c.width), c.excWidth) + Section(LowVals(vals, c.width), c.width, interleaved)
    case PFOR_VB =>
      [|Exceptions(vals, c.width)|] + Section(LowVals(vals, c.width), c.width, interleaved)
      + VbAll(Exceptions(vals, c.width)) + ExceptionIndexes(vals, c.width)
  }

  function BlockBytes(vals: seq<uint32>, c: Choice, interleaved: bool): seq<byte>
    requires 0 < |vals| <= BLOCK_SIZE && c.width <= 32 && c.excWidth <= 32
    requires interleaved ==> |vals| == BLOCK_SIZE
  {
    [HeaderByte(c)] + Body(vals, c, interleaved)
  }
}
