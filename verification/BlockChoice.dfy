/** Which block type is the smallest: the cost search over a histogram of bit widths. */
module BlockChoice {
  import opened Bits
  import opened BitPacking
  import opened Interleaving
  import opened BlockFormat
  import opened BlockEncode

  /** How many values need exactly b bits. */
  function CountExactly(vals: seq<uint32>, b: nat): nat {
    if vals == [] then 0
    else CountExactly(vals[..|vals| - 1], b) + (if NumBits(vals[|vals| - 1]) == b then 1 else 0)
  }

  /** How many values need b bits or more. */
  function CountAtLeast(vals: seq<uint32>, b: nat): (n: nat)
    ensures n <= |vals|
  {
    if vals == [] then 0
    else CountAtLeast(vals[..|vals| - 1], b) + (if NumBits(vals[|vals| - 1]) >= b then 1 else 0)
  }

  function MaxBits(vals: seq<uint32>): nat {
    if vals == [] then 0
    else
      var m, b := MaxBits(vals[..|vals| - 1]), NumBits(vals[|vals| - 1]);
      if b > m then b else m
  }

  function ForCost(vals: seq<uint32>): nat {
    BytesForPackedBits(|vals|, MaxBits(vals))
  }

  /** A type byte for the exception width, the bitmap, the base values, the exceptions. */
  function BitmapCost(vals: seq<uint32>, w: nat): nat
    requires w <= MaxBits(vals)
  {
    1 + BytesForPackedBits(|vals|, 1) + BytesForPackedBits(|vals|, w)
    + BytesForPackedBits(CountAtLeast(vals, w + 1), MaxBits(vals) - w)
  }

  /** The estimate for varbyte exceptions: widths stand in for the exact varbyte limits. */
  function VbEstimate(vals: seq<uint32>, w: nat): nat {
    1 + BytesForPackedBits(|vals|, w) + 2 * CountAtLeast(vals, w + 1) + CountAtLeast(vals, w + 7)
    + CountAtLeast(vals, w + 14) + CountAtLeast(vals, w + 19) + CountAtLeast(vals, w + 24)
  }

  // ---------------------------------------------------------------- counting

  lemma {:induction false} CountStep(vals: seq<uint32>, b: nat)
    ensures CountAtLeast(vals, b) == CountExactly(vals, b) + CountAtLeast(vals, b + 1)
  {
    if vals != [] { CountStep(vals[..|vals| - 1], b); }
  }

  lemma {:induction false} CountAboveMax(vals: seq<uint32>, b: nat)
    ensures b > MaxBits(vals) ==> CountAtLeast(vals, b) == 0
    ensures b <= MaxBits(vals) && vals != [] ==> CountAtLeast(vals, b) > 0
  {
    if vals != [] {
      CountAboveMax(vals[..|vals| - 1], b);
      if |vals| == 1 { assert MaxBits(vals[..0]) == 0; }
    }
  }

  lemma {:induction false} MaxBitsFits(vals: seq<uint32>, w: nat)
    ensures Fit(vals, w) <==> MaxBits(vals) <= w
  {
    if vals != [] {
      var n := |vals| - 1;
      MaxBitsFits(vals[..n], w);
      NumBitsLeast(vals[n], w);
      assert Fit(vals, w) ==> Fit(vals[..n], w) && vals[n] < Pow2(w);
    }
  }

  lemma {:induction false} ExceptionCount(vals: seq<uint32>, w: nat)
    ensures |Exceptions(vals, w)| == CountAtLeast(vals, w + 1)
  {
    if vals != [] {
      ExceptionCount(vals[..|vals| - 1], w);
      NumBitsShift(vals[|vals| - 1], w);
    }
  }

  // ---------------------------------------------------------------- sizes

  /** Bytes of one varbyte, from the width of its value before the base bits came off. */
  lemma {:induction false} VbSize(v: uint32, w: nat)
    requires IsException(v, w)
    ensures var b := NumBits(v);
      b >= w + 1 && |VbBytes(ShrWord(v, w))| <= 1 + (if b >= w + 7 then 1 else 0) + (if b >= w + 14 then 1 else 0)
                          + (if b >= w + 19 then 1 else 0) + (if b >= w + 24 then 1 else 0)
  {
    var x := ShrWord(v, w);
    NumBitsShift(v, w);
    NumBitsLeast(x, 7);
    NumBitsLeast(x, 14);
    NumBitsLeast(x, 19);
    NumBitsLeast(x, 24);
    Pow2Values();
  }

  /** What the estimate charges for a value of b bits. */
  function VbCharge(b: nat, w: nat): nat {
    if b <= w then 0
    else 2 + (if b >= w + 7 then 1 else 0) + (if b >= w + 14 then 1 else 0) + (if b >= w + 19 then 1 else 0)
         + (if b >= w + 24 then 1 else 0)
  }

  function VbCharges(vals: seq<uint32>, w: nat): nat {
    if vals == [] then 0 else VbCharges(vals[..|vals| - 1], w) + VbCharge(NumBits(vals[|vals| - 1]), w)
  }

  /** The estimate is a sum over the values: a byte for the number of exceptions, the base
      values, and the charge for each. */
  lemma {:induction false} EstimateIsSum(vals: seq<uint32>, w: nat)
    ensures VbEstimate(vals, w) == 1 + (|vals| * w + 7) / 8 + VbCharges(vals, w)
  {
    TimesIsProduct(|vals|, w);
    ChargesAreCounts(vals, w);
  }

  lemma {:induction false} ChargesAreCounts(vals: seq<uint32>, w: nat)
    ensures VbCharges(vals, w) == 2 * CountAtLeast(vals, w + 1) + CountAtLeast(vals, w + 7)
      + CountAtLeast(vals, w + 14) + CountAtLeast(vals, w + 19) + CountAtLeast(vals, w + 24)
  {
    hide NumBits;
    if vals != [] { ChargesAreCounts(vals[..|vals| - 1], w); }
  }

  lemma {:induction false} VbAllSize(vals: seq<uint32>, w: nat)
    ensures |VbAll(Exceptions(vals, w))| + |ExceptionIndexes(vals, w)|
         <= 2 * CountAtLeast(vals, w + 1) + CountAtLeast(vals, w + 7)
            + CountAtLeast(vals, w + 14) + CountAtLeast(vals, w + 19) + CountAtLeast(vals, w + 24)
  {
    if vals != [] {
      var n := |vals| - 1;
      VbAllSize(vals[..n], w);
      NumBitsShift(vals[n], w);
      if IsException(vals[n], w) {
        VbSize(vals[n], w);
        var e := Exceptions(vals, w);
        assert e[..|e| - 1] == Exceptions(vals[..n], w) && e[|e| - 1] == ShrWord(vals[n], w);
      } else {
        assert Exceptions(vals, w) == Exceptions(vals[..n], w);
      }
    }
  }

  /** The bitmap cost is exact, the varbyte estimate an upper bound. */
  lemma {:induction false} CostsBoundSizes(vals: seq<uint32>, w: nat, interleaved: bool)
    requires 0 < |vals| <= BLOCK_SIZE && w <= MaxBits(vals) <= 32
    requires interleaved ==> |vals| == BLOCK_SIZE
    ensures |Body(vals, Choice(FOR, MaxBits(vals), 0), interleaved)| == ForCost(vals)
    ensures |Body(vals, Choice(PFOR_BITMAP, w, MaxBits(vals) - w), interleaved)| == BitmapCost(vals, w)
    ensures |Body(vals, Choice(PFOR_VB, w, 0), interleaved)| <= VbEstimate(vals, w)
  {
    hide BytesForPackedBits, Times, Low, Shr, Section, VbAll;
    SectionLength(LowVals(vals, w), w, interleaved);
    SectionLength(LowVals(vals, MaxBits(vals)), MaxBits(vals), interleaved);
    ExceptionCount(vals, w);
    VbAllSize(vals, w);
  }

  // ---------------------------------------------------------------- the search

  ghost predicate AllEqual(vals: seq<uint32>) {
    forall i :: 0 <= i < |vals| ==> vals[i] == vals[0]
  }

  lemma {:induction false} MaxBits32(vals: seq<uint32>)
    ensures MaxBits(vals) <= 32
  {
    Pow2Values();
    MaxBitsFits(vals, 32);
  }

  /** The histogram of widths and the largest width. */
  method BuildHistogram(vals: seq<uint32>) returns (histogram: array<nat>, maxBits: nat)
    ensures fresh(histogram) && histogram.Length == 33
    ensures maxBits == MaxBits(vals) <= 32
    ensures forall b :: 0 <= b <= 32 ==> histogram[b] == CountExactly(vals, b)
  {
    hide NumBits;
    histogram := new nat[33](_ => 0);
    maxBits := 0;
    for i := 0 to |vals|
      invariant maxBits == MaxBits(vals[..i]) <= 32
      invariant forall b :: 0 <= b <= 32 ==> histogram[b] == CountExactly(vals[..i], b)
    {
      MaxBits32(vals[..i + 1]);
      assert vals[..i + 1][..i] == vals[..i];
      var bits := NumBits(vals[i]);
      histogram[bits] := histogram[bits] + 1;
      if bits > maxBits { maxBits := bits; }
    }
    assert vals[..|vals|] == vals;
  }

  /** No bitmap width costs less than best, over the widths from lo up to the maximum. */
  ghost predicate BitmapBeaten(vals: seq<uint32>, lo: nat, best: nat) {
    forall w :: lo <= w < MaxBits(vals) ==> best <= BitmapCost(vals, w)
  }

  ghost predicate VbBeaten(vals: seq<uint32>, lo: nat, hi: nat, best: nat) {
    forall w :: lo <= w < hi ==> best <= VbEstimate(vals, w)
  }

  /** Tries every exception width for the bitmap format. */
  method SearchBitmap(vals: seq<uint32>, histogram: array<nat>, maxBits: nat) returns (bestCost: nat, bestWidth: nat)
    requires histogram.Length == 33 && maxBits == MaxBits(vals) <= 32
    requires forall b :: 0 <= b <= 32 ==> histogram[b] == CountExactly(vals, b)
    ensures bestWidth <= maxBits
    ensures bestCost == if bestWidth == maxBits then ForCost(vals) else BitmapCost(vals, bestWidth)
    ensures bestCost <= ForCost(vals) && BitmapBeaten(vals, 0, bestCost)
  {
    hide CountExactly, CountAtLeast, BytesForPackedBits, MaxBits;
    bestCost := BytesForPackedBits(|vals|, maxBits);
    bestWidth := maxBits;
    var bitmapCost := BytesForPackedBits(|vals|, 1);
    var numExceptions := 0;
    CountAboveMax(vals, maxBits + 1);
    for ew := 1 to maxBits + 1
      invariant numExceptions == CountAtLeast(vals, maxBits - ew + 2)
      invariant maxBits - ew + 1 <= bestWidth <= maxBits
      invariant bestCost == if bestWidth == maxBits then ForCost(vals) else BitmapCost(vals, bestWidth)
      invariant bestCost <= ForCost(vals) && BitmapBeaten(vals, maxBits - ew + 1, bestCost)
    {
      var width := maxBits - ew;
      CountStep(vals, width + 1);
      numExceptions := numExceptions + histogram[width + 1];
      var cost := 1 + bitmapCost + BytesForPackedBits(|vals|, width) + BytesForPackedBits(numExceptions, ew);
      assert cost == BitmapCost(vals, width);
      if cost < bestCost {
        bestCost, bestWidth := cost, width;
      }
    }
  }

  /** Turns counts of exact widths into counts of "this width or more". */
  method Accumulate(vals: seq<uint32>, histogram: array<nat>, maxBits: nat)
    requires histogram.Length == 33 && maxBits == MaxBits(vals) <= 32
    requires forall b :: 0 <= b <= 32 ==> histogram[b] == CountExactly(vals, b)
    modifies histogram
    ensures forall b :: 0 <= b <= maxBits ==> histogram[b] == CountAtLeast(vals, b)
  {
    hide CountExactly, CountAtLeast, MaxBits;
    CountAboveMax(vals, maxBits + 1);
    CountStep(vals, maxBits);
    var i := maxBits;
    while i > 0
      invariant 0 <= i <= maxBits
      invariant forall b :: i <= b <= maxBits ==> histogram[b] == CountAtLeast(vals, b)
      invariant forall b :: 0 <= b < i ==> histogram[b] == CountExactly(vals, b)
    {
      CountStep(vals, i - 1);
      histogram[i - 1] := histogram[i - 1] + histogram[i];
      i := i - 1;
    }
  }

  /** The estimate, read off the cumulative histogram. */
  method EstimateVb(vals: seq<uint32>, histogram: array<nat>, maxBits: nat, w: nat) returns (cost: nat)
    requires histogram.Length == 33 && w < maxBits == MaxBits(vals) <= 32
    requires forall b :: 0 <= b <= maxBits ==> histogram[b] == CountAtLeast(vals, b)
    ensures cost == VbEstimate(vals, w)
  {
    hide CountAtLeast, BytesForPackedBits, MaxBits;
    cost := 1 + BytesForPackedBits(|vals|, w);
    CountAboveMax(vals, w + 7);
    CountAboveMax(vals, w + 14);
    CountAboveMax(vals, w + 19);
    CountAboveMax(vals, w + 24);
    cost := cost + 2 * histogram[w + 1];
    if w + 7 <= maxBits {
      cost := cost + histogram[w + 7];
      if w + 14 <= maxBits {
        cost := cost + histogram[w + 14];
        if w + 19 <= maxBits {
          cost := cost + histogram[w + 19];
          if w + 24 <= maxBits {
            cost := cost + histogram[w + 24];
          }
        }
      }
    }
  }

  /** Cost of the chosen format, as the search counts it; exact but for PFOR_VB. */
  ghost function CostOf(vals: seq<uint32>, c: Choice): nat
    requires c.width <= MaxBits(vals)
  {
    match c.kind
    case CONSTANT => DivRoundUp(c.width, 8)
    case FOR => ForCost(vals)
    case PFOR_BITMAP => BitmapCost(vals, c.width)
    case PFOR_VB => VbEstimate(vals, c.width)
  }

  /** The cheapest format by the costs above; the early exit skips nothing cheaper. */
  method DecideBlockType(vals: seq<uint32>) returns (c: Choice)
    requires 0 < |vals| <= BLOCK_SIZE
    ensures Lossless(vals, c) && c.width <= MaxBits(vals) && c.width + c.excWidth <= MaxBits(vals)
    ensures CostOf(vals, c) <= ForCost(vals)
    ensures c.kind == CONSTANT <==> AllEqual(vals)
    ensures c.kind != CONSTANT ==>
      BitmapBeaten(vals, 0, CostOf(vals, c)) && VbBeaten(vals, 0, MaxBits(vals), CostOf(vals, c))
    ensures c.kind == PFOR_BITMAP ==> c.excWidth == MaxBits(vals) - c.width
    ensures c.kind == FOR ==> c.width == MaxBits(vals)
    ensures c.kind != PFOR_BITMAP ==> c.excWidth == 0
    ensures c.kind == PFOR_BITMAP || c.kind == PFOR_VB ==> c.width < MaxBits(vals)
  {
    hide NumBits, CountExactly, CountAtLeast, BytesForPackedBits, MaxBits, Exceptions, Pow2, BitmapCost, VbEstimate;
    var constant := true;
    for i := 1 to |vals|
      invariant constant && forall j :: 0 <= j < i ==> vals[j] == vals[0]
    {
      if vals[i] != vals[0] {
        constant := false;
        break;
      }
    }
    if constant {
      c := Choice(CONSTANT, NumBits(vals[0]), 0);
      ConstantChoice(vals);
      return;
    }
    var histogram, maxBits := BuildHistogram(vals);
    var bestCost, bestWidth := SearchBitmap(vals, histogram, maxBits);
    Accumulate(vals, histogram, maxBits);
    var varbyte := false;
    var w := 0;
    while w < maxBits
      invariant w <= maxBits
      invariant forall b :: 0 <= b <= maxBits ==> histogram[b] == CountAtLeast(vals, b)
      invariant bestWidth <= maxBits && (varbyte ==> bestWidth < maxBits)
      invariant bestCost == if varbyte then VbEstimate(vals, bestWidth)
                            else if bestWidth == maxBits then ForCost(vals) else BitmapCost(vals, bestWidth)
      invariant bestCost <= ForCost(vals)
      invariant BitmapBeaten(vals, 0, bestCost) && VbBeaten(vals, 0, w, bestCost)
    {
      var base := 1 + BytesForPackedBits(|vals|, w);
      if base >= bestCost {
        DearerBase(vals, w, bestCost);
        break;
      }
      var cost := EstimateVb(vals, histogram, maxBits, w);
      if cost < bestCost {
        bestCost, bestWidth, varbyte := cost, w, true;
      }
      w := w + 1;
    }
    c := if varbyte then Choice(PFOR_VB, bestWidth, 0)
         else if bestWidth == maxBits then Choice(FOR, maxBits, 0)
         else Choice(PFOR_BITMAP, bestWidth, maxBits - bestWidth);
    MaxBitsFits(vals, maxBits);
    ExceptionCount(vals, bestWidth);
    CountAboveMax(vals, bestWidth + 1);
  }

  /** What the search considers for a block whose values are not all equal. */
  ghost predicate Candidate(vals: seq<uint32>, c: Choice) {
    match c.kind
    case CONSTANT => false
    case FOR => c.width == MaxBits(vals) && c.excWidth == 0
    case PFOR_BITMAP => c.width < MaxBits(vals) && c.excWidth == MaxBits(vals) - c.width
    case PFOR_VB => c.width < MaxBits(vals) && c.excWidth == 0
  }

  /** No candidate with linear parts of more than 24 bits is cheapest. */
  ghost predicate NarrowWins(vals: seq<uint32>, interleaved: bool) {
    || AllEqual(vals)
    || forall c :: Candidate(vals, c) && !LinearPartsNarrow(c, interleaved) ==>
         exists d :: Candidate(vals, d) && CostOf(vals, d) < CostOf(vals, c)
  }

  /** Values below 2^24 leave no such candidate; in a full block, wider ones may do too. */
  lemma {:induction false} FitsNarrow(vals: seq<uint32>, interleaved: bool)
    requires Fit(vals, 24)
    ensures NarrowWins(vals, interleaved)
  {
    hide MaxBits, Fit;
    MaxBitsFits(vals, 24);
  }

  /** So the choice has none either. */
  lemma {:induction false} ChoiceIsNarrow(vals: seq<uint32>, c: Choice, interleaved: bool)
    requires NarrowWins(vals, interleaved) && (AllEqual(vals) ==> c.kind == CONSTANT)
    requires c.kind != CONSTANT ==>
      && Candidate(vals, c) && CostOf(vals, c) <= ForCost(vals)
      && BitmapBeaten(vals, 0, CostOf(vals, c)) && VbBeaten(vals, 0, MaxBits(vals), CostOf(vals, c))
    ensures LinearPartsNarrow(c, interleaved)
  {
    hide MaxBits, BitmapCost, VbEstimate, ForCost;
  }

  lemma {:induction false} ConstantChoice(vals: seq<uint32>)
    requires vals != [] && AllEqual(vals)
    ensures MaxBits(vals) == NumBits(vals[0]) <= 32
    ensures DivRoundUp(NumBits(vals[0]), 8) <= ForCost(vals)
  {
    var n, b := |vals|, NumBits(vals[0]);
    MaxBits32(vals);
    MaxBitsFits(vals, b);
    NumBitsLeast(vals[0], b);
    MaxBitsFits(vals, MaxBits(vals));
    NumBitsLeast(vals[0], MaxBits(vals));
    assert Times(n, b) >= b;
  }

  /** Once the base values alone cost as much as the best, wider ones do too. */
  lemma {:induction false} DearerBase(vals: seq<uint32>, w: nat, best: nat)
    requires 1 + BytesForPackedBits(|vals|, w) >= best
    ensures VbBeaten(vals, w, MaxBits(vals), best)
  {
    forall v | w <= v < MaxBits(vals) ensures best <= VbEstimate(vals, v) {
      TimesWider(|vals|, w, v);
    }
  }

  lemma {:induction false} TimesWider(n: nat, w: nat, v: nat)
    requires w <= v
    ensures Times(n, w) <= Times(n, v)
  {
    if n > 0 { TimesWider(n - 1, w, v); }
  }
}
