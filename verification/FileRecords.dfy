/** Files as updatedb records them, and the two streams that go into the database beside
    their names. */
module FileRecords {
  import opened Bits
  import opened TrigramIndex
  import opened Metadata

  /** The directory time is that of a directory or NOT_A_DIR. */
  datatype FileRecord = FileRecord(path: Path, dirTimestamp: DirTime, metadata: FileMetadata)

  function PathsOf(records: seq<FileRecord>): (r: seq<Path>)
    ensures |r| == |records|
  {
    seq(|records|, i requires 0 <= i < |records| => records[i].path)
  }

  lemma {:induction false} PathsGrow(records: seq<FileRecord>, record: FileRecord)
    ensures PathsOf(records + [record]) == PathsOf(records) + [record.path]
  {
  }

  function DirTimeBytes(t: DirTime, tail: seq<byte>): seq<byte> {
    if t.sec == -1 then [0] + tail else [1] + TimeBytes(t, tail)
  }

  function DirStream(records: seq<FileRecord>): seq<byte> {
    if records == [] then [] else DirTimeBytes(records[0].dirTimestamp, DirStream(records[1..]))
  }

  function MetadataStream(records: seq<FileRecord>): seq<byte> {
    if records == [] then [] else RecordBytes(records[0].metadata, MetadataStream(records[1..]))
  }

  /** A time as it is read back. */
  function TimeBack(t: DirTime): DirTime {
    if t.sec == -1 then NOT_A_DIR else t
  }

  lemma {:induction false} DirTimeThenTail(t: DirTime, tail: seq<byte>)
    ensures DirTimeBytes(t, tail) == DirTimeBytes(t, []) + tail
  {
    hide TimeBytes;
    TimeThenTail(t, tail);
    assert [1] + (TimeBytes(t, []) + tail) == [1] + TimeBytes(t, []) + tail && [0] + [] == [0];
  }

  lemma {:induction false} DirStreamGrows(records: seq<FileRecord>, r: FileRecord)
    ensures DirStream(records + [r]) == DirStream(records) + DirTimeBytes(r.dirTimestamp, [])
  {
    hide DirTimeBytes;
    if records == [] {
      assert [r][1..] == [] && DirStream([]) == [];
    } else {
      var first, rest := records[0].dirTimestamp, records[1..];
      assert (records + [r])[1..] == rest + [r];
      DirStreamGrows(rest, r);
      DirTimeThenTail(first, DirStream(rest + [r]));
      DirTimeThenTail(first, DirStream(rest));
    }
  }

  lemma {:induction false} MetadataStreamGrows(records: seq<FileRecord>, r: FileRecord)
    ensures MetadataStream(records + [r]) == MetadataStream(records) + RecordBytes(r.metadata, [])
  {
    hide RecordBytes;
    if records == [] {
      assert [r][1..] == [] && MetadataStream([]) == [];
    } else {
      var first, rest := records[0].metadata, records[1..];
      assert (records + [r])[1..] == rest + [r];
      MetadataStreamGrows(rest, r);
      RecordThenTail(first, MetadataStream(rest + [r]));
      RecordThenTail(first, MetadataStream(rest));
    }
  }
}
