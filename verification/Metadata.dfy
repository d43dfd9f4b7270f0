/** File metadata, its comparison, and the records in which it is stored. */
module Metadata {
  import opened Bits
  import opened Wrappers

  type int64 = x: int | -0x8000_0000_0000_0000 <= x < 0x8000_0000_0000_0000
  type int32 = x: int | -0x8000_0000 <= x < 0x8000_0000

  datatype DirTime = DirTime(sec: int64, nsec: int32)

  const UNKNOWN_DIR_TIME := DirTime(0, 0)
  const NOT_A_DIR := DirTime(-1, 0)

  const HASH_SIZE := 32

  function Zeroes(n: nat): (s: seq<byte>)
    ensures |s| == n
  {
    if n == 0 then [] else [0] + Zeroes(n - 1)
  }

  type HashValue = v: seq<byte> | |v| == HASH_SIZE witness Zeroes(HASH_SIZE)

  /** length says how many bytes of the value count. */
  datatype MetadataHash = MetadataHash(kind: byte, value: HashValue, length: nat)

  const NO_HASH := MetadataHash(0, Zeroes(HASH_SIZE), 0)
  
  datatype FileMetadata = FileMetadata(
    enabled: bool, mode: uint32, uid: uint32, gid: uint32, size: uint64,
    mtime: DirTime, ctime: DirTime, atime: DirTime, hash: MetadataHash
  )

  const NO_METADATA := FileMetadata(false, 0, 0, 0, 0, UNKNOWN_DIR_TIME, UNKNOWN_DIR_TIME, UNKNOWN_DIR_TIME, NO_HASH)

  function Min(a: nat, b: nat): nat {
    if a < b then a else b
  }

  /** Comparison of hashes; a length beyond the array is compared up to its end. */
  predicate HashEquals(a: MetadataHash, b: MetadataHash) {
    && a.kind == b.kind && a.length == b.length
    && a.value[..Min(a.length, HASH_SIZE)] == b.value[..Min(a.length, HASH_SIZE)]
  }

  predicate MetadataEquals(a: FileMetadata, b: FileMetadata, compareAtime: bool) {
    if a.enabled != b.enabled then false
    else if !a.enabled then true
    else if compareAtime && a.atime != b.atime then false
    else
      && a.mode == b.mode && a.uid == b.uid && a.gid == b.gid && a.size == b.size
      && a.mtime == b.mtime && a.ctime == b.ctime && HashEquals(a.hash, b.hash)
  }

  lemma {:induction false} MetadataEqualsIsEquivalence(a: FileMetadata, b: FileMetadata, c: FileMetadata,
      compareAtime: bool)
    ensures MetadataEquals(a, a, compareAtime)
    ensures MetadataEquals(a, b, compareAtime) ==> MetadataEquals(b, a, compareAtime)
    ensures MetadataEquals(a, b, compareAtime) && MetadataEquals(b, c, compareAtime) ==>
      MetadataEquals(a, c, compareAtime)
  {
  }

  // ---------------------------------------------------------------- integers

  function Unsigned64(x: int64): uint64 {
    if x < 0 then x + 0x1_0000_0000_0000_0000 else x
  }

  function Signed64(x: uint64): int64 {
    if x >= 0x8000_0000_0000_0000 then x - 0x1_0000_0000_0000_0000 else x
  }

  function Unsigned32(x: int32): uint32 {
    if x < 0 then x + 0x1_0000_0000 else x
  }

  function Signed32(x: uint32): int32 {
    if x >= 0x8000_0000 then x - 0x1_0000_0000 else x
  }

  /** Appends the low n bytes of v, low byte first. */
  method Put(dst: seq<byte>, v: nat, n: nat) returns (r: seq<byte>)
    ensures r == dst + LEBytes(v, n)
  {
    r := dst;
    for i := 0 to n
      invariant r == dst + LEBytes(v, n)[..i]
    {
      LEBytesAt(v, n, i);
      r := r + [Shr(v, 8 * i) % 0x100];
    }
    assert LEBytes(v, n)[..n] == LEBytes(v, n);
  }

  /** Reads n bytes from p on, low byte first. */
  method Get(data: seq<byte>, p: nat, n: nat) returns (v: nat)
    requires p + n <= |data|
    ensures v == LE(data[p..p + n]) && v < Pow2(8 * n)
  {
    v := 0;
    for i := 0 to n
      invariant v == LE(data[p..p + i])
    {
      var b := data[p + i];
      assert data[p..p + i + 1] == data[p..p + i] + [b];
      LEAppend(data[p..p + i], [b]);
      assert LE([b]) == b;
      LEBound(data[p..p + i]);
      assert |data[p..p + i]| == i;
      OrDisjoint(v, b, 8 * i);
      v := Or(v, Shl(b, 8 * i));
    }
    LEBound(data[p..p + n]);
  }

  // ---------------------------------------------------------------- records

  /** Bytes of a time, and then the tail. */
  function TimeBytes(t: DirTime, tail: seq<byte>): seq<byte> {
    LEBytes(Unsigned64(t.sec), 8) + (LEBytes(Unsigned32(t.nsec), 4) + tail)
  }

  function HashLength(h: MetadataHash): (n: byte)
    ensures n <= HASH_SIZE
  {
    Min(h.length, HASH_SIZE)
  }

  function HashBytes(h: MetadataHash, tail: seq<byte>): seq<byte> {
    [h.kind, HashLength(h)] + (h.value[..HashLength(h)] + tail)
  }

  /** The record of some metadata, and then the tail. */
  function RecordBytes(m: FileMetadata, tail: seq<byte>): seq<byte> {
    if !m.enabled then [0] + tail
    else
      var times := TimeBytes(m.mtime, TimeBytes(m.ctime, TimeBytes(m.atime, HashBytes(m.hash, tail))));
      [1] + (LEBytes(m.mode, 4) + (LEBytes(m.uid, 4) + (LEBytes(m.gid, 4) + (LEBytes(m.size, 8) + times))))
  }

  const UP_TO_HASH_LEN := 59

  function RecordLength(m: FileMetadata): nat {
    if m.enabled then UP_TO_HASH_LEN + HashLength(m.hash) else 1
  }

  /** Size of the record at the front, or 0 if the buffer does not hold all of it. */
  function RecordSize(s: seq<byte>): (n: nat)
    ensures n <= |s|
  {
    if s == [] then 0
    else if s[0] == 0 then 1
    else if |s| < UP_TO_HASH_LEN then 0
    else if UP_TO_HASH_LEN + s[UP_TO_HASH_LEN - 1] <= |s| then UP_TO_HASH_LEN + s[UP_TO_HASH_LEN - 1] else 0
  }

  function U32At(s: seq<byte>): uint32
    requires |s| >= 4
  {
    LEBound(s[..4]);
    Pow2Values();
    LE(s[..4])
  }

  function U64At(s: seq<byte>): uint64
    requires |s| >= 8
  {
    LEBound(s[..8]);
    Pow2Values();
    LE(s[..8])
  }

  function TimeAt(s: seq<byte>): DirTime
    requires |s| >= 12
  {
    DirTime(Signed64(U64At(s)), Signed32(U32At(s[8..])))
  }

  /** A value of which only the first bytes are known. */
  function Padded(s: seq<byte>): HashValue
    requires |s| <= HASH_SIZE
  {
    s + Zeroes(HASH_SIZE - |s|)
  }

  function HashAt(s: seq<byte>): MetadataHash
    requires |s| >= 2 && |s| >= 2 + s[1] as nat
  {
    var n := Min(s[1], HASH_SIZE);
    MetadataHash(s[0], Padded(s[2..2 + n]), n)
  }

  /** The metadata in the record at the front. */
  function DecodeRecord(s: seq<byte>): FileMetadata
    requires RecordSize(s) > 0
  {
    if s[0] == 0 then NO_METADATA
    else
      FileMetadata(true, U32At(s[1..]), U32At(s[5..]), U32At(s[9..]), U64At(s[13..]),
                   TimeAt(s[21..]), TimeAt(s[33..]), TimeAt(s[45..]), HashAt(s[57..]))
  }

  /** What a record keeps of some metadata. */
  function Canonical(m: FileMetadata): FileMetadata {
    if !m.enabled then NO_METADATA
    else m.(hash := MetadataHash(m.hash.kind, Padded(m.hash.value[..HashLength(m.hash)]), HashLength(m.hash)))
  }

  // ---------------------------------------------------------------- round trip

  lemma {:induction false} Field32(v: uint32, tail: seq<byte>)
    ensures var s := LEBytes(v, 4) + tail; U32At(s) == v && s[4..] == tail
  {
    hide LE, LEBytes, Low;
    var s := LEBytes(v, 4) + tail;
    assert s[..4] == LEBytes(v, 4);
    LEOfLEBytes(v, 4);
    Pow2Values();
    LowSmall(v, 32);
  }

  lemma {:induction false} Field64(v: uint64, tail: seq<byte>)
    ensures var s := LEBytes(v, 8) + tail; U64At(s) == v && s[8..] == tail
  {
    hide LE, LEBytes, Low;
    var s := LEBytes(v, 8) + tail;
    assert s[..8] == LEBytes(v, 8);
    LEOfLEBytes(v, 8);
    Pow2Values();
    LowSmall(v, 64);
  }

  lemma {:induction false} TimeField(t: DirTime, tail: seq<byte>)
    ensures |TimeBytes(t, tail)| == 12 + |tail|
    ensures TimeAt(TimeBytes(t, tail)) == t && TimeBytes(t, tail)[12..] == tail
  {
    hide LE, LEBytes, U32At, U64At;
    var s := TimeBytes(t, tail);
    var r := LEBytes(Unsigned32(t.nsec), 4) + tail;
    Field64(Unsigned64(t.sec), r);
    Field32(Unsigned32(t.nsec), tail);
    assert s[12..] == s[8..][4..];
  }

  lemma {:induction false} HashField(h: MetadataHash, tail: seq<byte>)
    ensures var s := HashBytes(h, tail);
      && |s| == 2 + HashLength(h) + |tail| && s[1] == HashLength(h)
      && HashAt(s) == MetadataHash(h.kind, Padded(h.value[..HashLength(h)]), HashLength(h))
      && s[2 + HashLength(h)..] == tail
  {
    var s := HashBytes(h, tail);
    assert s[2..2 + HashLength(h)] == h.value[..HashLength(h)];
  }

  lemma {:induction false} Drop<T>(s: seq<T>, a: nat, b: nat)
    requires a + b <= |s|
    ensures s[a..][b..] == s[a + b..]
  {
  }

  /** A record in a buffer: its size, what it decodes to, and where it ends. */
  lemma {:induction false} RecordReadsBack(m: FileMetadata, tail: seq<byte>)
    ensures var s := RecordBytes(m, tail);
      && RecordSize(s) == RecordLength(m) && |s| == RecordLength(m) + |tail|
      && DecodeRecord(s) == Canonical(m) && s[RecordLength(m)..] == tail
  {
    hide LE, LEBytes, U32At, U64At, TimeAt, HashAt, TimeBytes, HashBytes, Padded;
    var s := RecordBytes(m, tail);
    if !m.enabled {
      assert s[1..] == tail;
    } else {
      var h := HashBytes(m.hash, tail);
      var ta := TimeBytes(m.atime, h);
      var tc := TimeBytes(m.ctime, ta);
      var tm := TimeBytes(m.mtime, tc);
      var size := LEBytes(m.size, 8) + tm;
      var gid := LEBytes(m.gid, 4) + size;
      var uid := LEBytes(m.uid, 4) + gid;
      var mode := LEBytes(m.mode, 4) + uid;
      assert s[1..] == mode;
      Field32(m.mode, uid);
      Drop(s, 1, 4);
      Field32(m.uid, gid);
      Drop(s, 5, 4);
      Field32(m.gid, size);
      Drop(s, 9, 4);
      Field64(m.size, tm);
      Drop(s, 13, 8);
      TimeField(m.mtime, tc);
      Drop(s, 21, 12);
      TimeField(m.ctime, ta);
      Drop(s, 33, 12);
      TimeField(m.atime, h);
      Drop(s, 45, 12);
      HashField(m.hash, tail);
      assert s[57..] == h;
      assert s[58] == h[1];
      Drop(s, 57, 2 + HashLength(m.hash));
    }
  }

  /** Nothing less than the whole record is ever taken for a record. */
  lemma {:induction false} PartialRecord(m: FileMetadata, tail: seq<byte>, n: nat)
    requires n <= RecordLength(m) + |tail|
    ensures |RecordBytes(m, tail)| == RecordLength(m) + |tail|
    ensures RecordSize(RecordBytes(m, tail)[..n]) == if n < RecordLength(m) then 0 else RecordLength(m)
  {
    hide RecordBytes, DecodeRecord;
    RecordReadsBack(m, tail);
    FirstByte(m, tail);
  }

  lemma {:induction false} FirstByte(m: FileMetadata, tail: seq<byte>)
    ensures RecordBytes(m, tail) != [] && RecordBytes(m, tail)[0] == if m.enabled then 1 else 0
  {
  }

  lemma {:induction false} RecordThenTail(m: FileMetadata, tail: seq<byte>)
    ensures RecordBytes(m, tail) == RecordBytes(m, []) + tail
  {
    hide LEBytes;
    assert m.hash.value[..HashLength(m.hash)] + tail == m.hash.value[..HashLength(m.hash)] + [] + tail;
  }

  /** What comes back is equal to what was stored, access time included, exactly if no more
      of the hash counts than the array holds. */
  lemma {:induction false} StoredIsEqual(m: FileMetadata)
    ensures MetadataEquals(Canonical(m), m, true) <==> (m.enabled ==> m.hash.length <= HASH_SIZE)
    ensures Canonical(Canonical(m)) == Canonical(m)
  {
    var n := HashLength(m.hash);
    var p := Padded(m.hash.value[..n]);
    assert p[..n] == m.hash.value[..n];
    if m.enabled && m.hash.length <= HASH_SIZE { assert n == m.hash.length; }
  }

  /** A hash of 33 bytes comes back with 32. */
  lemma {:induction false} LongHashDiffers()
    ensures var m := NO_METADATA.(enabled := true, hash := MetadataHash(1, Zeroes(HASH_SIZE), HASH_SIZE + 1));
      !MetadataEquals(DecodeRecord(RecordBytes(m, [])), m, true)
  {
    hide RecordBytes, DecodeRecord, Canonical, MetadataEquals;
    var m := NO_METADATA.(enabled := true, hash := MetadataHash(1, Zeroes(HASH_SIZE), HASH_SIZE + 1));
    RecordReadsBack(m, []);
    StoredIsEqual(m);
  }

  // ---------------------------------------------------------------- writing and reading

  method PutTime(dst: seq<byte>, t: DirTime) returns (r: seq<byte>)
    ensures r == dst + TimeBytes(t, [])
  {
    hide LEBytes;
    r := Put(dst, Unsigned64(t.sec), 8);
    r := Put(r, Unsigned32(t.nsec), 4);
  }

  /** The front of an enabled record, up to the times. */
  function NumberBytes(m: FileMetadata): seq<byte> {
    [1] + LEBytes(m.mode, 4) + LEBytes(m.uid, 4) + LEBytes(m.gid, 4) + LEBytes(m.size, 8)
  }

  method PutNumbers(dst: seq<byte>, m: FileMetadata) returns (r: seq<byte>)
    ensures r == dst + NumberBytes(m)
  {
    hide LEBytes;
    r := Put(dst + [1], m.mode, 4);
    r := Put(r, m.uid, 4);
    r := Put(r, m.gid, 4);
    r := Put(r, m.size, 8);
  }

  method PutTimes(dst: seq<byte>, m: FileMetadata) returns (r: seq<byte>)
    ensures r == dst + TimeBytes(m.mtime, TimeBytes(m.ctime, TimeBytes(m.atime, [])))
  {
    hide TimeBytes;
    r := PutTime(dst, m.mtime);
    r := PutTime(r, m.ctime);
    r := PutTime(r, m.atime);
    TimeThenTail(m.ctime, TimeBytes(m.atime, []));
    TimeThenTail(m.mtime, TimeBytes(m.ctime, TimeBytes(m.atime, [])));
  }

  method EncodeMetadataRecord(dst: seq<byte>, m: FileMetadata) returns (r: seq<byte>)
    ensures r == dst + RecordBytes(m, [])
  {
    hide LEBytes, TimeBytes, NumberBytes, RecordBytes;
    RecordInParts(m);
    if !m.enabled {
      r := dst + [0];
      return;
    }
    r := PutNumbers(dst, m);
    r := PutTimes(r, m);
    var hashLen := Min(m.hash.length, HASH_SIZE);
    r := r + [m.hash.kind, hashLen] + m.hash.value[..hashLen];
  }

  lemma {:induction false} TimeThenTail(t: DirTime, tail: seq<byte>)
    ensures TimeBytes(t, tail) == TimeBytes(t, []) + tail
  {
    hide LEBytes;
  }

  lemma {:induction false} TimesThenTail(m: FileMetadata, tail: seq<byte>)
    ensures TimeBytes(m.mtime, TimeBytes(m.ctime, TimeBytes(m.atime, tail)))
      == TimeBytes(m.mtime, TimeBytes(m.ctime, TimeBytes(m.atime, []))) + tail
  {
    hide TimeBytes;
    TimeThenTail(m.atime, tail);
    TimeThenTail(m.ctime, TimeBytes(m.atime, tail));
    TimeThenTail(m.ctime, TimeBytes(m.atime, []));
    TimeThenTail(m.mtime, TimeBytes(m.ctime, TimeBytes(m.atime, tail)));
    TimeThenTail(m.mtime, TimeBytes(m.ctime, TimeBytes(m.atime, [])));
  }

  lemma {:induction false} RecordInParts(m: FileMetadata)
    ensures !m.enabled ==> RecordBytes(m, []) == [0]
    ensures var times := TimeBytes(m.mtime, TimeBytes(m.ctime, TimeBytes(m.atime, [])));
      m.enabled ==> RecordBytes(m, []) == NumberBytes(m) + times + HashBytes(m.hash, [])
  {
    hide LEBytes, TimeBytes, HashBytes;
    TimesThenTail(m, HashBytes(m.hash, []));
  }

  method Get32(data: seq<byte>, p: nat) returns (v: uint32)
    requires p + 4 <= |data|
    ensures v == U32At(data[p..])
  {
    hide LE;
    Pow2Values();
    assert data[p..][..4] == data[p..p + 4];
    var x := Get(data, p, 4);
    v := x;
  }

  method Get64(data: seq<byte>, p: nat) returns (v: uint64)
    requires p + 8 <= |data|
    ensures v == U64At(data[p..])
  {
    hide LE;
    Pow2Values();
    assert data[p..][..8] == data[p..p + 8];
    var x := Get(data, p, 8);
    v := x;
  }

  method GetTime(data: seq<byte>, p: nat) returns (t: DirTime)
    requires p + 12 <= |data|
    ensures t == TimeAt(data[p..])
  {
    hide U32At, U64At;
    var sec := Get64(data, p);
    var nsec := Get32(data, p + 8);
    Drop(data, p, 8);
    t := DirTime(Signed64(sec), Signed32(nsec));
  }

  /** Decodes one record from p on; None if the buffer ends before it does. */
  method DecodeMetadataRecord(data: seq<byte>, p: nat) returns (r: Option<(FileMetadata, nat)>)
    requires p <= |data|
    ensures r.None? <==> RecordSize(data[p..]) == 0
    ensures r.Some? ==> r.value == (DecodeRecord(data[p..]), p + RecordSize(data[p..]))
  {
    hide TimeAt, U32At, U64At, Padded;
    var s := data[p..];
    var size := RecordSize(s);
    if size == 0 {
      return None;
    }
    if data[p] == 0 {
      return Some((NO_METADATA, p + 1));
    }
    var mode := Get32(s, 1);
    var uid := Get32(s, 5);
    var gid := Get32(s, 9);
    var bytes := Get64(s, 13);
    var mtime := GetTime(s, 21);
    var ctime := GetTime(s, 33);
    var atime := GetTime(s, 45);
    var n := Min(s[58], HASH_SIZE);
    var hash := MetadataHash(s[57], Padded(s[59..59 + n]), n);
    assert s[57..][2..2 + n] == s[59..59 + n];
    r := Some((FileMetadata(true, mode, uid, gid, bytes, mtime, ctime, atime, hash), p + size));
  }
}
