/** The hash stored for a file, from the chunks in which it is read. */
module MetadataHashes {
  import opened Bits
  import opened Metadata
  import Streams
  import Sha256
  import XxHash64

  const SHA256: byte := 1
  const XXHASH64: byte := 2

  /** The hash of a file's contents: none, SHA-256, or the 64-bit hash in canonical form. */
  function FileHash(kind: byte, contents: seq<byte>): (h: MetadataHash)
    requires 8 * |contents| < 0x1_0000_0000_0000_0000
  {
    if kind == XXHASH64 then MetadataHash(XXHASH64, Padded(Sha256.BigEndian(XxHash64.Hash(contents, false), 8)), 8)
    else if kind == SHA256 then MetadataHash(SHA256, Sha256.Digest(contents), HASH_SIZE)
    else NO_HASH
  }

  lemma {:induction false} JoinedMore(chunks: seq<seq<byte>>, chunk: seq<byte>)
    ensures Streams.Joined(chunks + [chunk]) == Streams.Joined(chunks) + chunk
  {
    assert (chunks + [chunk])[..|chunks|] == chunks;
  }

  class MetadataHashBuilder {
    const kind: byte
    var finished: bool
    const xxhState: XxHash64.XxHash64State
    const shaState: Sha256.Sha256State
    /** What the hash is of. */
    ghost var contents: seq<byte>

    ghost predicate Valid()
      reads this, xxhState, xxhState.memory, shaState, shaState.buffer
    {
      && xxhState.memory != shaState.buffer
      && (!finished && kind == XXHASH64 ==> xxhState.Valid() && xxhState.data == contents)
      && (!finished && kind == SHA256 ==> shaState.Valid() && shaState.data == contents)
    }

    constructor (kind: byte)
      ensures Valid() && !finished && contents == [] && this.kind == kind
      ensures fresh(xxhState) && fresh(xxhState.memory) && fresh(shaState) && fresh(shaState.buffer)
    {
      this.kind := kind;
      finished := false;
      xxhState := new XxHash64.XxHash64State();
      shaState := new Sha256.Sha256State();
      contents := [];
    }

    /** Nothing is added once the hash has been taken. */
    method Update(data: seq<byte>)
      requires Valid() && 8 * (|contents| + |data|) < 0x1_0000_0000_0000_0000
      modifies this`contents, xxhState, xxhState.memory, shaState, shaState.buffer
      ensures Valid() && contents == if finished then old(contents) else old(contents) + data
    {
      hide XxHash64.XxHash64State.Valid, Sha256.Sha256State.Valid;
      if finished {
        return;
      }
      contents := contents + data;
      if data == [] {
        assert contents == old(contents);
      } else if kind == XXHASH64 {
        xxhState.Consume(data);
      } else if kind == SHA256 {
        shaState.Consume(data);
      }
    }

    method Finalize() returns (hash: MetadataHash)
      requires Valid() && !finished && 8 * |contents| < 0x1_0000_0000_0000_0000
      modifies this`finished, shaState, shaState.buffer
      ensures Valid() && finished && contents == old(contents) && hash == FileHash(kind, contents)
    {
      hide XxHash64.XxHash64State.Valid, Sha256.Sha256State.Valid, XxHash64.Hash;
      finished := true;
      if kind == XXHASH64 {
        var value := xxhState.Digest();
        var bytes := Canonical64(value);
        hash := MetadataHash(XXHASH64, Padded(bytes), 8);
      } else if kind == SHA256 {
        var digest := shaState.Finalize();
        hash := MetadataHash(SHA256, digest, HASH_SIZE);
      } else {
        hash := NO_HASH;
      }
    }

    /** The most significant byte first. */
    method Canonical64(value: uint64) returns (bytes: seq<byte>)
      ensures bytes == Sha256.BigEndian(value, 8)
    {
      hide Sha256.BigEndian;
      bytes := [];
      Sha256.BigEndianNone(value);
      for i := 0 to 8
        invariant bytes == Sha256.BigEndian(Shr(value, 64 - 8 * i), i)
      {
        Sha256.BigEndianNext(value, 7 - i);
        bytes := bytes + [Shr(value, 56 - 8 * i) % 0x100];
      }
    }
  }

  /** compute_file_hash_at, from the chunks that read returns. */
  method ComputeFileHash(kind: byte, chunks: seq<seq<byte>>) returns (hash: MetadataHash)
    requires 8 * |Streams.Joined(chunks)| < 0x1_0000_0000_0000_0000
    ensures hash == FileHash(kind, Streams.Joined(chunks))
    ensures kind != 1 && kind != 2 ==> hash.kind == 0 && hash.length == 0
    ensures kind == 1 ==> hash == MetadataHash(1, Sha256.Digest(Streams.Joined(chunks)), 32)
    ensures kind == 2 ==>
      && hash.kind == 2 && hash.length == 8
      && hash.value[..8] == Sha256.BigEndian(XxHash64.Hash(Streams.Joined(chunks), false), 8)
  {
    hide MetadataHashBuilder.Valid, XxHash64.Hash, Sha256.Digest, Sha256.BigEndian;
    var builder := new MetadataHashBuilder(kind);
    for i := 0 to |chunks|
      invariant fresh(builder) && fresh(builder.xxhState) && fresh(builder.xxhState.memory)
      invariant fresh(builder.shaState) && fresh(builder.shaState.buffer)
      invariant builder.Valid() && !builder.finished && builder.contents == Streams.Joined(chunks[..i])
    {
      Streams.JoinedPart(chunks, i + 1);
      assert chunks[..i + 1] == chunks[..i] + [chunks[i]];
      JoinedMore(chunks[..i], chunks[i]);
      builder.Update(chunks[i]);
    }
    assert chunks[..|chunks|] == chunks;
    hash := builder.Finalize();
  }
}
