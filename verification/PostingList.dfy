/** Posting lists: built one docid at a time, decoded whole. */
module PostingList {
  import opened Bits
  import opened BitPacking
  import opened Interleaving
  import opened BlockFormat
  import opened BlockEncode
  import opened BlockChoice
  import opened BlockWriter
  import opened BlockDecode
  import opened BlockUnpack
  import opened PforDecode
  import opened PforBlocks

  function DeltaOf(docid: int, last: int): uint32 {
    (docid - last - 1) % 0x1_0000_0000
  }

  /** Delta-minus-1 coding of all docids but the first. */
  function Deltas(docids: seq<uint32>): (r: seq<uint32>)
    requires docids != []
    ensures |r| == |docids| - 1
  {
    seq(|docids| - 1, i requires 0 <= i < |docids| - 1 => DeltaOf(docids[i + 1], docids[i]))
  }

  /** Block k: 128 deltas, or what is left at the end. */
  function Block(deltas: seq<uint32>, k: nat): (r: seq<uint32>)
    requires 128 * k < |deltas|
    ensures 0 < |r| <= BLOCK_SIZE
  {
    if 128 * (k + 1) <= |deltas| then deltas[128 * k..128 * (k + 1)] else deltas[128 * k..]
  }

  /** Choices for the leading blocks under which decoding loses nothing. */
  ghost predicate ValidChoices(deltas: seq<uint32>, choices: seq<Choice>) {
    forall k :: 0 <= k < |choices| ==>
      && 128 * k < |deltas|
      && var b := Block(deltas, k);
         Lossless(b, choices[k]) && LinearPartsNarrow(choices[k], |b| == BLOCK_SIZE) && choices[k].excWidth <= 32
  }

  ghost function BlocksBytes(deltas: seq<uint32>, choices: seq<Choice>): seq<byte>
    requires ValidChoices(deltas, choices)
  {
    if choices == [] then []
    else
      var k := |choices| - 1;
      BlocksBytes(deltas, choices[..k]) + BlockBytes(Block(deltas, k), choices[k], |Block(deltas, k)| == BLOCK_SIZE)
  }

  ghost function ListBytes(docids: seq<uint32>, choices: seq<Choice>): seq<byte>
    requires docids != [] && docids[0] < 0x1000_0000 && ValidChoices(Deltas(docids), choices)
  {
    BasevalBytes(docids[0]) + BlocksBytes(Deltas(docids), choices)
  }

  /** The whole list is covered by its choices. */
  ghost predicate Encodes(b: seq<byte>, docids: seq<uint32>, choices: seq<Choice>) {
    && docids != [] && docids[0] < 0x1000_0000
    && ValidChoices(Deltas(docids), choices)
    && 128 * |choices| >= |docids| - 1
    && b == ListBytes(docids, choices)
  }

  // ---------------------------------------------------------------- building

  lemma {:induction false} BlockKept(a: seq<uint32>, b: seq<uint32>, k: nat)
    requires a <= b && 128 * (k + 1) <= |a|
    ensures Block(a, k) == Block(b, k)
  {
  }

  lemma {:induction false} BlocksKept(a: seq<uint32>, b: seq<uint32>, choices: seq<Choice>)
    requires a <= b && 128 * |choices| <= |a| && ValidChoices(a, choices)
    ensures ValidChoices(b, choices) && BlocksBytes(a, choices) == BlocksBytes(b, choices)
  {
    hide BlockBytes, Lossless, LinearPartsNarrow, Block;
    forall k | 0 <= k < |choices| ensures Block(a, k) == Block(b, k) { BlockKept(a, b, k); }
    if choices != [] { BlocksKept(a, b, choices[..|choices| - 1]); }
  }

  lemma {:induction false} DeltasAppend(docids: seq<uint32>, d: uint32)
    requires docids != []
    ensures Deltas(docids + [d]) == Deltas(docids) + [DeltaOf(d, docids[|docids| - 1])]
  {
  }

  class PostingListBuilder {
    var encoded: seq<byte>
    var pendingDeltas: seq<uint32>
    var numDocids: nat
    var lastDocid: uint32
    ghost var docids: seq<uint32>
    ghost var choices: seq<Choice>
    ghost var finished: bool

    ghost predicate Valid()
      reads this
    {
      if docids == [] then
        encoded == [] && pendingDeltas == [] && numDocids == 0 && choices == [] && !finished
      else
        && docids[0] < 0x1000_0000
        && lastDocid == docids[|docids| - 1]
        && (forall i :: 0 <= i < |Deltas(docids)| ==> Deltas(docids)[i] < 0x100_0000)
        && ValidChoices(Deltas(docids), choices)
        && encoded == ListBytes(docids, choices)
        && if finished then
             pendingDeltas == [] && numDocids == |docids| && 128 * |choices| >= |docids| - 1
           else
             && 128 * |choices| <= |Deltas(docids)|
             && pendingDeltas == Deltas(docids)[128 * |choices|..] && |pendingDeltas| < BLOCK_SIZE
             && numDocids == 1 + 128 * |choices|
    }

    constructor ()
      ensures Valid() && docids == [] && !finished
    {
      encoded, pendingDeltas, numDocids, lastDocid := [], [], 0, 0xffff_ffff;
      docids, choices, finished := [], [], false;
    }

    method AddFirstDocid(docid: uint32)
      requires Valid() && docids == [] && docid < 0x1000_0000
      modifies this
      ensures Valid() && docids == [docid] && !finished
    {
      WriteHeader(docid);
      numDocids := numDocids + 1;
      lastDocid := docid;
      docids := [docid];
      assert Deltas(docids) == [];
    }

    method WriteHeader(docid: uint32)
      requires docid < 0x1000_0000
      modifies this`encoded
      ensures encoded == old(encoded) + BasevalBytes(docid)
    {
      var buf := new byte[EncodeBound(1)];
      var end := WriteBaseval(docid, buf, 0);
      encoded := encoded + buf[..end];
    }

    /** Adds a docid; one equal to the last is dropped. */
    method AddDocid(docid: uint32)
      requires Valid() && docids != [] && !finished
      requires docid == docids[|docids| - 1] || DeltaOf(docid, docids[|docids| - 1]) < 0x100_0000
      modifies this
      ensures Valid() && !finished
      ensures docids == if docid == old(docids[|docids| - 1]) then old(docids) else old(docids) + [docid]
    {
      hide BlocksBytes, BasevalBytes, BlockBytes, Lossless, LinearPartsNarrow, ValidChoices, Deltas, DeltaOf;
      if docid == lastDocid {
        return;
      }
      DeltasAppend(docids, docid);
      BlocksKept(Deltas(docids), Deltas(docids + [docid]), choices);
      pendingDeltas := pendingDeltas + [DeltaOf(docid, lastDocid)];
      lastDocid := docid;
      docids := docids + [docid];
      assert pendingDeltas == Deltas(docids)[128 * |choices|..];
      if |pendingDeltas| == BLOCK_SIZE {
        AppendBlock(true);
        pendingDeltas := [];
        numDocids := numDocids + 128;
      }
    }

    /** Encodes the pending deltas as the next block. */
    method AppendBlock(interleaved: bool)
      requires docids != [] && docids[0] < 0x1000_0000 && ValidChoices(Deltas(docids), choices)
      requires encoded == ListBytes(docids, choices)
      requires 128 * |choices| < |Deltas(docids)| && pendingDeltas == Deltas(docids)[128 * |choices|..]
      requires |pendingDeltas| <= BLOCK_SIZE && interleaved == (|pendingDeltas| == BLOCK_SIZE)
      requires forall i :: 0 <= i < |pendingDeltas| ==> pendingDeltas[i] < 0x100_0000
      modifies this`encoded, this`choices
      ensures ValidChoices(Deltas(docids), choices) && encoded == ListBytes(docids, choices)
      ensures |choices| == old(|choices|) + 1
    {
      hide BasevalBytes, BlockBytes, Lossless, LinearPartsNarrow, Deltas, ForCost, BlocksBytes, NarrowWins;
      var buf := new byte[EncodeBound(128)];
      ghost var deltas := Deltas(docids);
      assert Fit(pendingDeltas, 24) by { Pow2Values(); }
      FitsNarrow(pendingDeltas, interleaved);
      BlockFitsBuffer(pendingDeltas);
      var end;
      ghost var c;
      end, c := EncodePforSingleBlock(pendingDeltas, interleaved, buf, 0);
      encoded := encoded + buf[..end];
      assert buf[0..end] == buf[..end];
      assert Block(deltas, |choices|) == pendingDeltas;
      BlocksGrow(deltas, choices, c);
      choices := choices + [c];
    }

    /** Encodes what is left; after this the list is complete. */
    method Finish()
      requires Valid() && docids != [] && !finished
      modifies this
      ensures Valid() && finished && docids == old(docids)
      ensures Encodes(encoded, docids, choices)
    {
      hide BlocksBytes, BasevalBytes, BlockBytes, Lossless, LinearPartsNarrow;
      finished := true;
      if pendingDeltas == [] {
        return;
      }
      AppendBlock(false);
      numDocids := numDocids + |pendingDeltas|;
      pendingDeltas := [];
    }

    /** Defined once the list is finished. */
    method GetNumDocids() returns (n: nat)
      requires Valid() && finished && docids != []
      ensures n == |docids|
    {
      n := numDocids;
    }
  }

  lemma {:induction false} BlocksGrow(deltas: seq<uint32>, choices: seq<Choice>, c: Choice)
    requires ValidChoices(deltas, choices) && 128 * |choices| < |deltas| && c.excWidth <= 32
    requires var b := Block(deltas, |choices|); Lossless(b, c) && LinearPartsNarrow(c, |b| == BLOCK_SIZE)
    ensures ValidChoices(deltas, choices + [c])
    ensures BlocksBytes(deltas, choices + [c])
         == BlocksBytes(deltas, choices)
             + BlockBytes(Block(deltas, |choices|), c, |Block(deltas, |choices|)| == BLOCK_SIZE)
  {
    hide BlockBytes, LinearPartsNarrow;
    assert (choices + [c])[..|choices|] == choices;
  }

  // ---------------------------------------------------------------- decoding

  lemma {:induction false} BlockPlace(deltas: seq<uint32>, choices: seq<Choice>, k: nat)
    requires ValidChoices(deltas, choices) && k < |choices|
    ensures ValidChoices(deltas, choices[..k]) && ValidChoices(deltas, choices[..k + 1])
    ensures 128 * k < |deltas| && choices[k].width <= 32 && choices[k].excWidth <= 32
    ensures Lossless(Block(deltas, k), choices[k]) && LinearPartsNarrow(choices[k], |Block(deltas, k)| == BLOCK_SIZE)
    ensures BlocksBytes(deltas, choices[..k + 1]) <= BlocksBytes(deltas, choices)
    ensures BlocksBytes(deltas, choices[..k + 1])
         == BlocksBytes(deltas, choices[..k])
             + BlockBytes(Block(deltas, k), choices[k], |Block(deltas, k)| == BLOCK_SIZE)
  {
    hide BlockBytes, LinearPartsNarrow, Block;
    assert choices[..k + 1][..k] == choices[..k];
    assert choices[..k + 1][k] == choices[k];
    if k + 1 < |choices| {
      BlockPlace(deltas, choices[..|choices| - 1], k);
      assert choices[..|choices| - 1][..k + 1] == choices[..k + 1] && choices[..|choices| - 1][..k] == choices[..k];
    } else {
      assert choices[..k + 1] == choices;
    }
  }

  lemma {:induction false} DeltaIs(docids: seq<uint32>, i: nat)
    requires 0 < i < |docids|
    ensures Deltas(docids)[i - 1] == DeltaOf(docids[i], docids[i - 1])
    ensures NextDocid(DeltaOf(docids[i], docids[i - 1]), docids[i - 1]) == docids[i]
  {
  }

  /** Adding a delta back gives the next docid. */
  lemma {:induction false} DeltasRestore(docids: seq<uint32>, i: nat, n: nat, k: nat)
    requires docids != [] && 1 <= i && i + n <= |docids| && k < n
    ensures DeltaAt(docids[i - 1], Deltas(docids)[i - 1..i - 1 + n], k) == docids[i + k]
  {
    hide Deltas, NextDocid, DeltaOf, DeltaAt;
    var v := Deltas(docids)[i - 1..i - 1 + n];
    DeltaIs(docids, i + k);
    if k > 0 { DeltasRestore(docids, i, n, k - 1); }
    assert v[k] == Deltas(docids)[i - 1 + k] == DeltaOf(docids[i + k], docids[i + k - 1]);
    DeltaStep(docids[i - 1], v, k);
  }

  /** Decodes a whole list, full blocks by vectors if sse2, else by the scalar code. */
  method DecodePforDelta1(data: seq<byte>, num: nat, sse2: bool, out: array<uint32>, ghost docids: seq<uint32>,
                          ghost choices: seq<Choice>)
    returns (ghost end: nat)
    requires num == |docids| <= out.Length
    requires docids != [] ==>
      && docids[0] < 0x1000_0000 && ValidChoices(Deltas(docids), choices) && 128 * |choices| >= num - 1
      && At(data, 0, ListBytes(docids, choices))
    modifies out
    ensures out[..num] == docids
    ensures out[num..] == old(out[num..])
  {
    hide BlocksBytes, BasevalBytes, BlockBytes, Lossless, LinearPartsNarrow, ValidChoices, Deltas, At;
    end := 0;
    if num == 0 {
      return;
    }
    ghost var deltas := Deltas(docids);
    AtSplit(data, 0, BasevalBytes(docids[0]), BlocksBytes(deltas, choices));
    var first, pos := ReadBaseval(data, 0, docids[0]);
    out[0] := first;
    assert out[..1] == docids[..1] && out[num..] == old(out[num..]);
    var i := 1;
    ghost var k := 0;
    ghost var start := pos;
    NoBlocks(deltas, choices);
    while i < num
      invariant i == 1 + 128 * k && i <= num + 127
      invariant ValidChoices(deltas, choices)
      invariant k <= |choices| && ValidChoices(deltas, choices[..k])
      invariant pos == start + |BlocksBytes(deltas, choices[..k])|
      invariant out[..if i < num then i else num] == docids[..if i < num then i else num]
      invariant out[num..] == old(out[num..])
    {
      var n := if num - i < BLOCK_SIZE then num - i else BLOCK_SIZE;
      pos := DecodeNext(data, pos, i, n, sse2, out, docids, choices, start, k);
      i := i + BLOCK_SIZE;
      k := k + 1;
    }
    end := pos;
  }

  /** The body of the loop: block k, into out[i..]. */
  method DecodeNext(data: seq<byte>, pos: nat, i: nat, n: nat, sse2: bool, out: array<uint32>,
                    ghost docids: seq<uint32>, ghost choices: seq<Choice>, ghost start: nat, ghost k: nat)
    returns (next: nat)
    requires docids != [] && ValidChoices(Deltas(docids), choices) && k < |choices|
    requires ValidChoices(Deltas(docids), choices[..k])
    requires At(data, start, BlocksBytes(Deltas(docids), choices))
    requires pos == start + |BlocksBytes(Deltas(docids), choices[..k])|
    requires i == 1 + 128 * k < |docids| <= out.Length
    requires n == if |docids| - i < BLOCK_SIZE then |docids| - i else BLOCK_SIZE
    requires out[..i] == docids[..i]
    modifies out
    ensures ValidChoices(Deltas(docids), choices[..k + 1])
    ensures next == start + |BlocksBytes(Deltas(docids), choices[..k + 1])|
    ensures out[..i + n] == docids[..i + n]
    ensures out[|docids|..] == old(out[|docids|..])
  {
    hide BlocksBytes, BlockBytes, Lossless, LinearPartsNarrow, ValidChoices, Deltas, Decoded, DeltaAt;
    ghost var deltas := Deltas(docids);
    BlockPlace(deltas, choices, k);
    ghost var vals, c := Block(deltas, k), choices[k];
    assert n == |vals| && vals == deltas[i - 1..i - 1 + n];
    ghost var done := BlocksBytes(deltas, choices[..k]);
    ghost var b := BlockBytes(vals, c, n == BLOCK_SIZE);
    PlaceInside(data, start, BlocksBytes(deltas, choices), |done|, b);
    next := DecodeBlock(data, pos, n, sse2, out, i, vals, c);
    assert old(out[i - 1]) == docids[i - 1] by { assert old(out[..i])[i - 1] == docids[..i][i - 1]; }
    RestoreAll(docids, i, n, out[i..i + n]);
    assert out[..i + n] == out[..i] + out[i..i + n];
    assert out[|docids|..] == out[i + n..][|docids| - i - n..];
  }

  lemma {:induction false} RestoreAll(docids: seq<uint32>, i: nat, n: nat, s: seq<uint32>)
    requires docids != [] && 1 <= i && i + n <= |docids|
    requires Decoded(s, docids[i - 1], Deltas(docids)[i - 1..i - 1 + n])
    ensures s == docids[i..i + n]
  {
    hide DeltaAt, Deltas;
    forall j | 0 <= j < n ensures s[j] == docids[i..i + n][j] {
      DeltasRestore(docids, i, n, j);
    }
  }

  lemma {:induction false} NoBlocks(deltas: seq<uint32>, choices: seq<Choice>)
    ensures ValidChoices(deltas, choices[..0]) && BlocksBytes(deltas, choices[..0]) == []
  {
  }

  lemma {:induction false} PlaceInside(data: seq<byte>, start: nat, all: seq<byte>, p: nat, b: seq<byte>)
    requires At(data, start, all) && p + |b| <= |all| && all[p..p + |b|] == b
    ensures At(data, start + p, b)
  {
    SubSlice(data, start, start + |all|, p, p + |b|);
  }

  /** One block, by its type and by whether it is full. */
  method DecodeBlock(data: seq<byte>, pos: nat, num: nat, sse2: bool, out: array<uint32>, o: nat,
                     ghost vals: seq<uint32>, ghost c: Choice)
    returns (next: nat)
    requires |vals| == num && Lossless(vals, c) && LinearPartsNarrow(c, num == BLOCK_SIZE) && c.excWidth <= 32
    requires At(data, pos, BlockBytes(vals, c, num == BLOCK_SIZE))
    requires 1 <= o && o + num <= out.Length
    modifies out
    ensures next == pos + |BlockBytes(vals, c, num == BLOCK_SIZE)|
    ensures out[..o] == old(out[..o]) && out[o + num..] == old(out[o + num..])
    ensures Decoded(out[o..o + num], old(out[o - 1]), vals)
  {
    hide BlockBytes, Decoded;
    HeaderAt(data, pos, vals, c, num == BLOCK_SIZE);
    var kind := data[pos] / 64;
    if kind == TypeCode(FOR) {
      if num == BLOCK_SIZE {
        next := DecodeForInterleaved(data, pos, sse2, out, o, vals, c);
      } else {
        next := DecodeFor(data, pos, num, out, o, vals, c);
      }
    } else if kind == TypeCode(PFOR_VB) {
      next := DecodePforVb(data, pos, num, num == BLOCK_SIZE, sse2, out, o, vals, c);
    } else if kind == TypeCode(PFOR_BITMAP) {
      next := DecodePforBitmap(data, pos, num, num == BLOCK_SIZE, sse2, out, o, vals, c);
    } else {
      next := DecodeConstant(data, pos, num, out, o, vals, c, num == BLOCK_SIZE);
    }
  }

  // ---------------------------------------------------------------- round trip

  /** The sequence without repeats of the element before. */
  function Dedup(s: seq<uint32>): (r: seq<uint32>)
    ensures s != [] ==> r != [] && r[0] == s[0] && r[|r| - 1] == s[|s| - 1]
  {
    if |s| <= 1 then s
    else
      var r := Dedup(s[..|s| - 1]);
      if s[|s| - 1] == s[|s| - 2] then r else r + [s[|s| - 1]]
  }

  /** What the index builder feeds a posting list: non-decreasing docids, not too far apart. */
  ghost predicate Feedable(s: seq<uint32>) {
    && s != [] && s[0] < 0x1000_0000
    && forall i :: 0 <= i < |s| - 1 ==> s[i] <= s[i + 1] <= s[i] as int + 0x100_0000
  }

  lemma {:induction false} DedupOne(d: uint32)
    ensures Dedup([d]) == [d]
  {
  }

  lemma {:induction false} DedupNext(s: seq<uint32>, i: nat)
    requires 0 < i < |s|
    ensures Dedup(s[..i + 1]) == if s[i] == s[i - 1] then Dedup(s[..i]) else Dedup(s[..i]) + [s[i]]
    ensures Dedup(s[..i]) != [] && Dedup(s[..i])[|Dedup(s[..i])| - 1] == s[i - 1]
  {
    assert s[..i + 1][..i] == s[..i] && s[..i + 1][i - 1] == s[i - 1] && s[..i][i - 1] == s[i - 1];
  }

  method BuildList(input: seq<uint32>) returns (encoded: seq<byte>, num: nat, ghost choices: seq<Choice>)
    requires Feedable(input)
    ensures Encodes(encoded, Dedup(input), choices) && num == |Dedup(input)|
  {
    hide ListBytes, ValidChoices, PostingListBuilder.Valid, Encodes, Dedup;
    var builder := new PostingListBuilder();
    builder.AddFirstDocid(input[0]);
    assert input[..1] == [input[0]] && Dedup([input[0]]) == [input[0]] by { DedupOne(input[0]); }
    for i := 1 to |input|
      invariant fresh(builder) && builder.Valid() && !builder.finished
      invariant builder.docids == Dedup(input[..i])
    {
      DedupNext(input, i);
      assert builder.docids[|builder.docids| - 1] == input[i - 1];
      builder.AddDocid(input[i]);
    }
    assert input[..|input|] == input;
    builder.Finish();
    encoded := builder.encoded;
    choices := builder.choices;
    num := builder.GetNumDocids();
  }

  /** Build, then decode with anything in the 16 bytes that follow: the docids come back,
      each once, on the scalar and on the vector path. */
  method BuildAndDecode(input: seq<uint32>, slop: seq<byte>, sse2: bool) returns (decoded: seq<uint32>)
    requires input != [] && input[0] < 0x1000_0000 && |slop| >= 16
    requires forall i :: 0 <= i < |input| - 1 ==> input[i] <= input[i + 1] <= input[i] as int + 0x100_0000
    ensures decoded == Dedup(input)
  {
    hide ListBytes, ValidChoices;
    var encoded, num, choices := BuildList(input);
    var out := new uint32[num];
    var data := encoded + slop;
    assert data[0..|encoded|] == encoded;
    var _ := DecodePforDelta1(data, num, sse2, out, Dedup(input), choices);
    decoded := out[..];
    assert out[..num] == out[..];
  }
}
