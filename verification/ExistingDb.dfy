/** The old database, read record by record from three streams in lockstep. */
module ExistingDb {
  import opened Bits
  import opened Wrappers
  import opened TrigramIndex
  import opened EncodingCorpora
  import opened BlockScan
  import opened Metadata
  import opened FileRecords

  // ---------------------------------------------------------------- decompression

  /** A compressed stream being read: the bytes it has yet to give, compressed bytes held,
      and compressed bytes still in the file. */
  datatype Decoder = Decoder(plain: seq<byte>, held: nat, left: nat)

  const CHUNK := 4096

  /** One call of the decompressor. It may give any part of what is to come, or nothing; but
      when it has been fed everything and gives nothing, there is nothing to come. */
  method Decompress(d: Decoder) returns (r: Decoder, out: seq<byte>)
    ensures out + r.plain == d.plain && |out| <= CHUNK
    ensures r.held <= d.held && r.left == d.left
    ensures out == [] && d.left == 0 ==> d.plain == []
  {
    var n: nat :| n <= |d.plain| && n <= CHUNK && (n == 0 && d.left == 0 ==> d.plain == []) by {
      var m: nat := if |d.plain| < CHUNK then |d.plain| else CHUNK;
      assert m <= |d.plain| && m <= CHUNK && (m == 0 && d.left == 0 ==> d.plain == []);
    }
    var held: nat :| held <= d.held;
    out := d.plain[..n];
    r := Decoder(d.plain[n..], held, d.left);
  }

  /** Reads more of the compressed file. */
  method ReadMore(d: Decoder) returns (r: Decoder)
    requires d.left > 0
    ensures r.plain == d.plain && r.left < d.left
  {
    var n := if d.left < CHUNK then d.left else CHUNK;
    r := Decoder(d.plain, d.held + n, d.left - n);
  }

  // ---------------------------------------------------------------- the reader

  class ExistingDB {
    /** Decompressed filename blocks. */
    const blocks: seq<seq<byte>>
    /** What the database was made from. */
    ghost const records: seq<FileRecord>

    var currentDocid: nat
    var filenameBlock: seq<byte>
    /** Place in the block, or -1 for none. */
    var filenamePtr: int

    var dirTimeBlock: seq<byte>
    var dirTimePtr: nat
    var dirTimes: Decoder

    var metadataAvailable: bool
    var metadataBlock: seq<byte>
    var metadataOffset: nat
    var metadata: Decoder

    var lastMetadata: FileMetadata
    var unreadRecord: (Path, DirTime)
    var unreadMetadata: FileMetadata
    var unreadMetadataValid: bool
    var eof: bool
    var error: bool

    /** Whether the database has metadata at all. */
    ghost const hasMetadata: bool
    /** Records taken from the streams, and records given to the caller and not taken back. */
    ghost var taken: nat
    ghost var given: nat

    ghost function NamesLeft(): seq<Path>
      requires filenamePtr < |filenameBlock| && currentDocid <= |blocks|
      reads this`filenamePtr, this`filenameBlock, this`currentDocid
    {
      (if filenamePtr < 0 then [] else SplitPaths(filenameBlock[filenamePtr..|filenameBlock| - 1]))
          + Files(blocks[currentDocid..])
    }

    /** Record n is the next one in the filename blocks. */
    ghost predicate NamesAt(n: nat)
      requires n <= |records|
      reads this`filenamePtr, this`filenameBlock, this`currentDocid
    {
      && currentDocid <= |blocks| && -1 <= filenamePtr < |filenameBlock|
      && (filenamePtr >= 0 ==> filenameBlock[|filenameBlock| - 1] == 0)
      && NamesLeft() == PathsOf(records[n..])
    }

    /** Record n is the next one in the directory times. */
    ghost predicate DirTimesAt(n: nat)
      requires n <= |records|
      reads this`dirTimeBlock, this`dirTimePtr, this`dirTimes
    {
      dirTimePtr <= |dirTimeBlock| && dirTimeBlock[dirTimePtr..] + dirTimes.plain == DirStream(records[n..])
    }

    /** Record n is the next one in the metadata, if there is any. */
    ghost predicate MetadataAt(n: nat)
      requires n <= |records|
      reads this`metadataAvailable, this`metadataBlock, this`metadataOffset, this`metadata
    {
      && metadataOffset <= |metadataBlock| && metadataAvailable == hasMetadata
      && (hasMetadata ==> metadataBlock[metadataOffset..] + metadata.plain == MetadataStream(records[n..]))
    }

    ghost function Back(i: nat): (Path, DirTime)
      requires i < |records|
    {
      (records[i].path, TimeBack(records[i].dirTimestamp))
    }

    ghost function MetadataBack(i: nat): FileMetadata
      requires i < |records|
    {
      if hasMetadata then Canonical(records[i].metadata) else NO_METADATA
    }

    ghost predicate Readable()
    {
      forall i :: 0 <= i < |records| ==> records[i].path != [] && NulFree(records[i].path)
    }

    ghost predicate Valid()
      reads this
    {
      && Readable() && given <= taken <= |records| && !error
      && NamesAt(taken) && DirTimesAt(taken) && MetadataAt(taken)
      && (eof ==> taken == |records|)
      && if unreadRecord.0 == [] then
           given == taken && (given > 0 ==> lastMetadata == MetadataBack(given - 1))
         else
           && taken == given + 1 && unreadRecord == Back(given)
           && unreadMetadataValid && unreadMetadata == MetadataBack(given)
    }

    constructor (blocks: seq<seq<byte>>, dirTimes: Decoder, metadata: Decoder, metadataAvailable: bool,
                 ghost records: seq<FileRecord>)
      requires Files(blocks) == PathsOf(records)
      requires forall i :: 0 <= i < |records| ==> records[i].path != [] && NulFree(records[i].path)
      requires dirTimes.plain == DirStream(records) && (metadataAvailable ==> metadata.plain == MetadataStream(records))
      ensures Valid() && given == 0
      ensures this.records == records && this.hasMetadata == metadataAvailable
    {
      this.blocks, this.records, this.hasMetadata := blocks, records, metadataAvailable;
      currentDocid, filenameBlock, filenamePtr := 0, [], -1;
      dirTimeBlock, dirTimePtr, this.dirTimes := [], 0, dirTimes;
      this.metadataAvailable, metadataBlock, metadataOffset, this.metadata := metadataAvailable, [], 0, metadata;
      lastMetadata, unreadMetadata := NO_METADATA, NO_METADATA;
      unreadRecord, unreadMetadataValid, eof, error := ([], NOT_A_DIR), false, false, false;
      taken, given := 0, 0;
      new;
      assert blocks[0..] == blocks && records[0..] == records;
      assert dirTimeBlock[0..] == [] && metadataBlock[0..] == [];
    }

    // ------------------------------------------------------------ names

    /** Goes on to the next filename block. */
    method NextBlock(ghost n: nat)
      requires n <= |records| && NamesAt(n) && filenamePtr == -1 && currentDocid < |blocks|
      modifies this`filenameBlock, this`filenamePtr, this`currentDocid
      ensures NamesAt(n) && filenamePtr >= 0
    {
      hide SplitPaths, Files;
      var block := blocks[currentDocid];
      FilesFront(blocks[currentDocid..]);
      assert blocks[currentDocid..][1..] == blocks[currentDocid + 1..];
      filenameBlock := block + [0];
      filenamePtr := 0;
      currentDocid := currentDocid + 1;
      assert filenameBlock[0..|filenameBlock| - 1] == block;
    }

    /** Takes the name at the current place. */
    method TakeName(ghost n: nat) returns (filename: Path)
      requires n < |records| && Readable() && NamesAt(n) && filenamePtr >= 0
      modifies this`filenamePtr
      ensures filename == records[n].path && NamesAt(n + 1)
    {
      hide SplitPaths, Files, FindNul;
      ghost var block := filenameBlock[..|filenameBlock| - 1];
      assert filenameBlock == block + [0];
      assert filenameBlock[filenamePtr..|filenameBlock| - 1] == block[filenamePtr..];
      var end := FindNul(filenameBlock, filenamePtr);
      filename := filenameBlock[filenamePtr..end];
      ghost var names := PathsOf(records[n..]);
      assert names[0] == records[n].path && names[1..] == PathsOf(records[n + 1..]);
      FirstName(block, filenamePtr, end, Files(blocks[currentDocid..]), names);
      filenamePtr := end + 1;
      if filenamePtr == |filenameBlock| {
        filenamePtr := -1;
      }
      assert filenamePtr >= 0 ==> filenameBlock[filenamePtr..|filenameBlock| - 1] == block[end + 1..];
    }

    // ------------------------------------------------------------ directory times

    predicate TimeBuffered()
      reads this`dirTimeBlock, this`dirTimePtr
    {
      dirTimePtr < |dirTimeBlock| && (dirTimeBlock[dirTimePtr] == 0 || |dirTimeBlock| - dirTimePtr >= 13)
    }

    /** Decompresses until the next time is in the buffer; false if the stream ends before. */
    method FillDirTimes(ghost n: nat) returns (ok: bool)
      requires n < |records| && DirTimesAt(n)
      modifies this`dirTimeBlock, this`dirTimePtr, this`dirTimes
      ensures DirTimesAt(n) && ok && TimeBuffered()
    {
      hide DirStream;
      TimeAhead(n);
      while !TimeBuffered()
        invariant DirTimesAt(n)
        decreases |dirTimes.plain|, dirTimes.left, dirTimes.held
      {
        ghost var stream := DirStream(records[n..]);
        dirTimeBlock := dirTimeBlock[dirTimePtr..];
        dirTimePtr := 0;
        var was := dirTimes;
        var r, out := Decompress(dirTimes);
        dirTimes := r;
        assert dirTimeBlock + out + r.plain == dirTimeBlock + (out + r.plain);
        dirTimeBlock := dirTimeBlock + out;
        assert dirTimeBlock[0..] == dirTimeBlock;
        assert dirTimes.plain == [] ==> dirTimeBlock == stream;
        if r.held == was.held && out == [] {
          if dirTimes.left == 0 {
            assert false;
          }
          dirTimes := ReadMore(dirTimes);
        }
      }
      ok := true;
    }

    /** The stream goes on with a whole time. */
    lemma {:induction false} TimeAhead(n: nat)
      requires n < |records|
      ensures var s := DirStream(records[n..]); s != [] && (s[0] == 0 || |s| >= 13)
    {
      TimeLength(records[n].dirTimestamp, DirStream(records[n..][1..]));
    }

    method TakeDirTime(ghost n: nat) returns (dt: DirTime)
      requires n < |records| && DirTimesAt(n) && TimeBuffered()
      modifies this`dirTimePtr
      ensures DirTimesAt(n + 1) && dt == TimeBack(records[n].dirTimestamp)
    {
      hide TimeBytes, TimeAt;
      ghost var t := records[n].dirTimestamp;
      ghost var tail := DirStream(records[n + 1..]);
      assert records[n..][1..] == records[n + 1..];
      ghost var s := dirTimeBlock[dirTimePtr..] + dirTimes.plain;
      assert s == DirTimeBytes(t, tail);
      TimeField(t, tail);
      if dirTimeBlock[dirTimePtr] == 0 {
        assert s[0] == 0 && s[1..] == tail;
        assert s[1..] == dirTimeBlock[dirTimePtr + 1..] + dirTimes.plain;
        dirTimePtr := dirTimePtr + 1;
        return NOT_A_DIR;
      }
      assert s[0] != 0 && s[1..] == TimeBytes(t, tail);
      dt := GetTime(dirTimeBlock, dirTimePtr + 1);
      TimePrefix(dirTimeBlock[dirTimePtr + 1..], dirTimes.plain);
      assert s[1..] == dirTimeBlock[dirTimePtr + 1..] + dirTimes.plain;
      Drop(s, 1, 12);
      assert s[13..] == dirTimeBlock[dirTimePtr + 13..] + dirTimes.plain;
      dirTimePtr := dirTimePtr + 13;
    }

    // ------------------------------------------------------------ metadata

    /** refill_metadata_block: at least one more byte, unless the stream has ended. */
    method RefillMetadataBlock() returns (more: bool)
      requires metadataAvailable && metadataOffset <= |metadataBlock|
      modifies this`metadataBlock, this`metadataOffset, this`metadata
      ensures metadataOffset == 0
      ensures metadataBlock + metadata.plain == old(metadataBlock[metadataOffset..] + metadata.plain)
      ensures more ==> |metadata.plain| < old(|metadata.plain|)
      ensures !more ==> metadata.plain == [] && |metadataBlock| == old(|metadataBlock| - metadataOffset)
    {
      metadataBlock := metadataBlock[metadataOffset..];
      metadataOffset := 0;
      while true
        invariant metadataOffset == 0 && metadataBlock == old(metadataBlock[metadataOffset..])
        invariant metadata.plain == old(metadata.plain)
        decreases metadata.left
      {
        var r, out := Decompress(metadata);
        if out != [] {
          assert metadataBlock + out + r.plain == metadataBlock + (out + r.plain);
          metadata := r;
          metadataBlock := metadataBlock + out;
          return true;
        }
        assert out + r.plain == r.plain;
        metadata := r;
        if metadata.left == 0 {
          return false;
        }
        metadata := ReadMore(metadata);
      }
    }

    /** Buffers at least so many bytes; fails only if the stream does not have them. */
    method EnsureMetadataBytes(need: nat) returns (ok: bool)
      requires metadataAvailable && metadataOffset <= |metadataBlock|
      modifies this`metadataBlock, this`metadataOffset, this`metadata
      ensures metadataOffset <= |metadataBlock|
      ensures metadataBlock[metadataOffset..] + metadata.plain == old(metadataBlock[metadataOffset..] + metadata.plain)
      ensures ok <==> need <= old(|metadataBlock| - metadataOffset + |metadata.plain|)
      ensures ok ==> |metadataBlock| - metadataOffset >= need
    {
      ghost var stream := metadataBlock[metadataOffset..] + metadata.plain;
      assert |stream| == |metadataBlock| - metadataOffset + |metadata.plain|;
      while |metadataBlock| - metadataOffset < need
        invariant metadataOffset <= |metadataBlock| && metadataBlock[metadataOffset..] + metadata.plain == stream
        decreases |metadata.plain|
      {
        var more := RefillMetadataBlock();
        assert metadataBlock[0..] == metadataBlock;
        if !more {
          assert |stream| == |metadataBlock|;
          return false;
        }
      }
      ok := true;
    }

    /** Buffers the whole record: first its flag, then up to the hash length, then the hash. */
    method BufferRecord(ghost m: FileMetadata, ghost tail: seq<byte>) returns (ok: bool)
      requires metadataAvailable && metadataOffset <= |metadataBlock|
      requires metadataBlock[metadataOffset..] + metadata.plain == RecordBytes(m, tail)
      modifies this`metadataBlock, this`metadataOffset, this`metadata
      ensures metadataOffset <= |metadataBlock|
      ensures metadataBlock[metadataOffset..] + metadata.plain == RecordBytes(m, tail)
      ensures ok && |metadataBlock| - metadataOffset >= RecordLength(m)
    {
      hide RecordBytes, RecordLength;
      ghost var s := RecordBytes(m, tail);
      RecordReadsBack(m, tail);
      FirstByte(m, tail);
      RecordLengthIs(m, tail);
      assert |s| == |metadataBlock| - metadataOffset + |metadata.plain|;
      ok := EnsureMetadataBytes(1);
      assert |s| == |metadataBlock| - metadataOffset + |metadata.plain|;
      assert metadataBlock[metadataOffset] == s[0];
      if metadataBlock[metadataOffset] != 0 {
        ok := EnsureMetadataBytes(UP_TO_HASH_LEN);
        assert |s| == |metadataBlock| - metadataOffset + |metadata.plain|;
        assert metadataBlock[metadataOffset + UP_TO_HASH_LEN - 1] == s[UP_TO_HASH_LEN - 1];
        ok := EnsureMetadataBytes(UP_TO_HASH_LEN + metadataBlock[metadataOffset + UP_TO_HASH_LEN - 1] as nat);
      }
    }

    lemma {:induction false} StreamNext(n: nat)
      requires n < |records|
      ensures MetadataStream(records[n..]) == RecordBytes(records[n].metadata, MetadataStream(records[n + 1..]))
    {
      hide RecordBytes;
      assert records[n..][1..] == records[n + 1..];
    }

    /** Decodes the record at the front of the buffer. */
    method TakeBuffered(ghost m: FileMetadata, ghost tail: seq<byte>) returns (meta: FileMetadata)
      requires metadataOffset <= |metadataBlock|
      requires metadataBlock[metadataOffset..] + metadata.plain == RecordBytes(m, tail)
      requires |metadataBlock| - metadataOffset >= RecordLength(m)
      modifies this`metadataOffset
      ensures metadataOffset <= |metadataBlock| && metadataBlock[metadataOffset..] + metadata.plain == tail
      ensures meta == Canonical(m)
    {
      hide RecordBytes, RecordLength, RecordSize, DecodeRecord, Canonical;
      RecordInPrefix(m, tail, metadataBlock[metadataOffset..], metadata.plain);
      var r := DecodeMetadataRecord(metadataBlock, metadataOffset);
      Drop(metadataBlock, metadataOffset, r.value.1 - metadataOffset);
      meta := r.value.0;
      metadataOffset := r.value.1;
    }

    method ReadNextMetadataRecord(ghost n: nat)
      requires n < |records| && MetadataAt(n)
      modifies this`metadataBlock, this`metadataOffset, this`metadata, this`lastMetadata, this`metadataAvailable
      ensures MetadataAt(n + 1) && lastMetadata == MetadataBack(n)
    {
      hide RecordBytes, RecordLength, Canonical, MetadataStream;
      lastMetadata := NO_METADATA;
      if !metadataAvailable {
        return;
      }
      StreamNext(n);
      ghost var tail := MetadataStream(records[n + 1..]);
      var ok := BufferRecord(records[n].metadata, tail);
      lastMetadata := TakeBuffered(records[n].metadata, tail);
    }

    // ------------------------------------------------------------ reading

    /** The next record: the one taken back, or the next one of the streams. After the last
        one, an empty path. */
    method ReadNext() returns (r: (Path, DirTime))
      requires Valid()
      modifies this
      ensures Valid()
      ensures old(given) < |records| ==>
        r == Back(old(given)) && given == old(given) + 1 && lastMetadata == MetadataBack(old(given))
          && unreadRecord.0 == []
      ensures old(given) == |records| ==> r == ([], NOT_A_DIR) && given == old(given)
    {
      hide NamesAt, DirTimesAt, MetadataAt, MetadataBack;
      if unreadRecord.0 != [] {
        r := unreadRecord;
        unreadRecord := ([], unreadRecord.1);
        lastMetadata := if unreadMetadataValid then unreadMetadata else NO_METADATA;
        unreadMetadataValid := false;
        given := given + 1;
        return;
      }
      if eof || error {
        return ([], NOT_A_DIR);
      }
      PlaceOrNone(taken);
      if filenamePtr == -1 {
        BlocksLeft(taken);
        if currentDocid >= |blocks| {
          eof := true;
          return ([], NOT_A_DIR);
        }
        NextBlock(taken);
      }
      NamesToCome(taken);
      r := TakeRecord();
    }

    lemma {:induction false} PlaceOrNone(n: nat)
      requires n <= |records| && NamesAt(n)
      ensures filenamePtr >= -1
    {
    }

    lemma {:induction false} BlocksLeft(n: nat)
      requires n <= |records| && NamesAt(n) && filenamePtr == -1
      ensures currentDocid >= |blocks| ==> n == |records|
    {
      if currentDocid == |blocks| {
        assert blocks[currentDocid..] == [];
        assert |PathsOf(records[n..])| == 0;
      }
    }

    lemma {:induction false} NamesToCome(n: nat)
      requires n <= |records| && NamesAt(n) && filenamePtr >= 0
      ensures n < |records|
    {
      hide SplitPaths;
      assert |NamesLeft()| > 0;
    }

    /** One record from the three streams. */
    method TakeRecord() returns (r: (Path, DirTime))
      requires Valid() && unreadRecord.0 == [] && filenamePtr >= 0 && taken < |records| && !eof
      modifies this
      ensures Valid() && r == Back(old(given)) && given == old(given) + 1 && lastMetadata == MetadataBack(old(given))
      ensures unreadRecord.0 == []
    {
      hide NamesAt, DirTimesAt, MetadataAt, MetadataBack;
      var ok := FillDirTimes(taken);
      var filename := TakeName(taken);
      var dt := TakeDirTime(taken);
      if filename != [] {
        ReadNextMetadataRecord(taken);
      }
      r := (filename, dt);
      taken := taken + 1;
      given := given + 1;
    }

    /** Takes back the record just given. */
    method Unread(record: (Path, DirTime))
      requires Valid() && unreadRecord.0 == [] && given > 0 && record == Back(given - 1)
      modifies this`unreadRecord, this`unreadMetadata, this`unreadMetadataValid, this`given
      ensures Valid() && given == old(given) - 1
    {
      hide NamesAt, DirTimesAt, MetadataAt, MetadataBack;
      unreadRecord := record;
      unreadMetadata := lastMetadata;
      unreadMetadataValid := true;
      given := given - 1;
    }
  }

  lemma {:induction false} RecordLengthIs(m: FileMetadata, tail: seq<byte>)
    ensures var s := RecordBytes(m, tail);
      && |s| == RecordLength(m) + |tail|
      && (s[0] == 0 ==> RecordLength(m) == 1)
      && (s[0] != 0 ==> |s| >= UP_TO_HASH_LEN && RecordLength(m) == UP_TO_HASH_LEN + s[UP_TO_HASH_LEN - 1] as int)
  {
    hide RecordBytes, DecodeRecord;
    RecordReadsBack(m, tail);
    FirstByte(m, tail);
  }

  /** A record is decoded alike from a buffer that holds only part of what follows it. */
  lemma {:induction false} RecordInPrefix(m: FileMetadata, tail: seq<byte>, s: seq<byte>, more: seq<byte>)
    requires s + more == RecordBytes(m, tail) && |s| >= RecordLength(m)
    ensures RecordSize(s) == RecordLength(m) > 0 && DecodeRecord(s) == Canonical(m)
    ensures s[RecordLength(m)..] + more == tail
  {
    hide RecordBytes, RecordLength, RecordSize, DecodeRecord, Canonical;
    var n := RecordLength(m);
    RecordReadsBack(m, tail);
    RecordThenTail(m, tail);
    RecordReadsBack(m, []);
    PositiveRecord(m);
    var head := RecordBytes(m, []);
    assert (s + more)[..n] == head;
    assert s[..n] == head;
    assert s == head + s[n..];
    RecordThenTail(m, s[n..]);
    RecordReadsBack(m, s[n..]);
    assert (s + more)[n..] == s[n..] + more;
  }

  lemma {:induction false} PositiveRecord(m: FileMetadata)
    ensures RecordLength(m) > 0
  {
  }

  /** The name at p of a block is the first of the names to come. */
  lemma {:induction false} FirstName(block: seq<byte>, p: nat, end: nat, more: seq<Path>, names: seq<Path>)
    requires p <= |block| && end == FindNul(block + [0], p)
    requires SplitPaths(block[p..]) + more == names && names != []
    ensures end <= |block| && (block + [0])[p..end] == names[0]
    ensures end == |block| ==> [] + more == names[1..]
    ensures end < |block| ==> SplitPaths(block[end + 1..]) + more == names[1..]
  {
    hide SplitPaths, FindNul;
    var s := block[p..];
    assert (block + [0])[|block|] == 0;
    assert s[0..] == s;
    assert [] + SplitPaths(s) == SplitPaths(s);
    var name := (block + [0])[p..end];
    if end == |block| {
      assert name == s;
      SplitOne(name);
      assert names == [name] + more;
    } else {
      assert s == name + [0] + block[end + 1..];
      SplitFront(name, block[end + 1..]);
      assert names == [name] + (SplitPaths(block[end + 1..]) + more);
    }
  }

  lemma {:induction false} FilesFront(blocks: seq<seq<byte>>)
    requires blocks != []
    ensures Files(blocks) == SplitPaths(blocks[0]) + Files(blocks[1..])
  {
    hide SplitPaths;
    var n := |blocks| - 1;
    if n == 0 {
      assert blocks[..0] == [] && blocks[1..] == [];
    } else {
      FilesFront(blocks[..n]);
      assert blocks[..n][1..] == blocks[1..][..n - 1];
      assert blocks[1..][n - 1] == blocks[n];
    }
  }

  lemma {:induction false} TimeLength(t: DirTime, tail: seq<byte>)
    ensures var s := DirTimeBytes(t, tail); s != [] && (s[0] == 0 || |s| >= 13)
  {
    hide LEBytes;
  }

  lemma {:induction false} TimePrefix(s: seq<byte>, more: seq<byte>)
    requires |s| >= 12
    ensures TimeAt(s) == TimeAt(s + more)
  {
    hide LE;
    assert (s + more)[..8] == s[..8] && (s + more)[8..][..4] == s[8..][..4];
  }

  /** Reading an old database to its end, taking back any records on the way, gives exactly
      what was added to it, in order; a time that is not of a directory comes back as such. */
  method ReadAll(blocks: seq<seq<byte>>, dirTimes: Decoder, metadata: Decoder, hasMetadata: bool,
                 ghost records: seq<FileRecord>)
    returns (got: seq<(Path, DirTime, FileMetadata)>)
    requires Files(blocks) == PathsOf(records)
    requires forall i :: 0 <= i < |records| ==> records[i].path != [] && NulFree(records[i].path)
    requires dirTimes.plain == DirStream(records) && (hasMetadata ==> metadata.plain == MetadataStream(records))
    ensures |got| == |records|
    ensures forall i :: 0 <= i < |records| ==>
      && got[i].0 == records[i].path
      && got[i].1 == (if records[i].dirTimestamp.sec == -1 then DirTime(-1, 0) else records[i].dirTimestamp)
      && got[i].2 == (if hasMetadata then Canonical(records[i].metadata) else NO_METADATA)
  {
    hide ExistingDB.Valid, Canonical, NulFree, Files, DirStream, MetadataStream;
    var db := new ExistingDB(blocks, dirTimes, metadata, hasMetadata, records);
    got := [];
    while true
      invariant fresh(db) && db.Valid() && db.given == |got| <= |records|
      invariant db.records == records && db.hasMetadata == hasMetadata
      invariant forall i :: 0 <= i < |got| ==>
        got[i] == (records[i].path, TimeBack(records[i].dirTimestamp),
                   if hasMetadata then Canonical(records[i].metadata) else NO_METADATA)
      decreases |records| - |got|
    {
      var r := db.ReadNext();
      if r.0 == [] {
        break;
      }
      var again: bool := *;
      if again {
        db.Unread(r);
        r := db.ReadNext();
      }
      got := got + [(r.0, r.1, db.lastMetadata)];
    }
  }

  /** Whatever files updatedb adds to a corpus, the next updatedb reads back: from the blocks
      in the file and however the two streams come out of the decompressor. */
  method AddAndRead(records: seq<FileRecord>, blockSize: nat, header: seq<byte>, compress: seq<byte> -> seq<byte>,
                    decompress: seq<byte> -> seq<byte>, heldTimes: nat, leftTimes: nat, heldMetadata: nat,
                    leftMetadata: nat)
    returns (got: seq<(Path, DirTime, FileMetadata)>)
    requires blockSize > 0 && |records| <= 0x100_0000 && forall b :: decompress(compress(b)) == b
    requires forall i :: 0 <= i < |records| ==> records[i].path != [] && NulFree(records[i].path)
    ensures |got| == |records|
    ensures forall i :: 0 <= i < |records| ==>
      && got[i].0 == records[i].path
      && got[i].1 == (if records[i].dirTimestamp.sec == -1 then DirTime(-1, 0) else records[i].dirTimestamp)
      && got[i].2 == Canonical(records[i].metadata)
  {
    hide EncodingCorpus.Valid, Canonical, NulFree, Files, DirStream, MetadataStream, Written, Chunks, Joined;
    var corpus := AddAll(records, blockSize, header, compress, true, true);
    var blocks := ReadBlocks(corpus.output, corpus.filenameBlocks, decompress, corpus.blocks, compress);
    got := ReadAll(blocks, Decoder(corpus.dirTimes, heldTimes, leftTimes),
        Decoder(corpus.metadataStream, heldMetadata, leftMetadata),
                   true, records);
  }
}
