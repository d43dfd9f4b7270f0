/** The corpus under construction: filename blocks, a posting-list builder per trigram, and
    the streams of directory times and metadata. */
module EncodingCorpora {
  import opened Bits
  import opened TrigramIndex
  import opened Metadata
  import opened FileRecords
  import PostingList

  /** Docids fed to a trigram's posting-list builder; none if it has no builder yet. */
  function Docs(index: map<nat, seq<uint32>>, t: nat): seq<uint32> {
    if t in index then index[t] else []
  }

  ghost predicate NonDecreasing(s: seq<uint32>) {
    forall i, j :: 0 <= i <= j < |s| ==> s[i] <= s[j]
  }

  ghost predicate Increasing(s: seq<uint32>) {
    forall i, j :: 0 <= i < j < |s| ==> s[i] < s[j]
  }

  ghost predicate Lists(index: map<nat, seq<uint32>>) {
    forall t :: t in index ==> index[t] != [] && NonDecreasing(index[t])
  }

  /** Docid d is in the list of t exactly if block d has an indexed path with trigram t. */
  ghost predicate Indexes(index: map<nat, seq<uint32>>, blocks: seq<seq<byte>>) {
    && Lists(index)
    && forall t: nat, d: uint32 {:trigger d in Docs(index, t)} ::
      d in Docs(index, t) <==> d < |blocks| && t in PathTrigrams(IndexedPaths(blocks[d]))
  }

  /** index is was with docid, the newest, added to the lists of some trigrams. */
  ghost predicate Walked(was: map<nat, seq<uint32>>, index: map<nat, seq<uint32>>, added: set<nat>, docid: uint32) {
    && Lists(index)
    && forall t: nat, d: uint32 {:trigger d in Docs(index, t)} ::
         && (d in Docs(index, t) <==> d in Docs(was, t) || (d == docid && t in added))
         && (d in Docs(index, t) ==> d <= docid)
  }

  /** All paths of the blocks, in order. */
  function Files(blocks: seq<seq<byte>>): seq<Path> {
    if blocks == [] then [] else Files(blocks[..|blocks| - 1]) + SplitPaths(blocks[|blocks| - 1])
  }

  ghost predicate Storable(paths: seq<Path>) {
    forall i :: 0 <= i < |paths| ==> paths[i] != [] && NulFree(paths[i])
  }

  lemma {:induction false} SplitAfterNul(s: seq<byte>, p: Path)
    requires NulFree(p)
    ensures SplitPaths(s + [0] + p) == SplitPaths(s) + [p]
  {
    var x := s + [0] + p;
    if p == [] {
      assert x[..|x| - 1] == s;
    } else {
      var q := p[..|p| - 1];
      SplitAfterNul(s, q);
      assert x[..|x| - 1] == s + [0] + q;
      assert p == q + [p[|p| - 1]];
    }
  }

  lemma {:induction false} SplitOne(p: Path)
    requires NulFree(p)
    ensures SplitPaths(p) == [p]
  {
    if p != [] {
      SplitOne(p[..|p| - 1]);
      assert p == p[..|p| - 1] + [p[|p| - 1]];
    }
  }

  /** Splitting a block gives back the paths joined into it. */
  lemma {:induction false} SplitJoin(paths: seq<Path>)
    requires paths != [] && Storable(paths)
    ensures SplitPaths(JoinPaths(paths)) == paths
  {
    var n := |paths| - 1;
    if n == 0 {
      SplitOne(paths[0]);
    } else {
      SplitJoin(paths[..n]);
      SplitAfterNul(JoinPaths(paths[..n]), paths[n]);
      assert paths == paths[..n] + [paths[n]];
    }
  }

  lemma {:induction false} AddStep(was: map<nat, seq<uint32>>, index: map<nat, seq<uint32>>, added: set<nat>,
                                   docid: uint32, t: nat)
    requires Walked(was, index, added, docid)
    ensures Walked(was, index[t := Docs(index, t) + [docid]], added + {t}, docid)
  {
    var s := Docs(index, t);
    var next := index[t := s + [docid]];
    assert forall i :: 0 <= i < |s| ==> s[i] in s;
    assert NonDecreasing(s + [docid]);
    forall u: nat, d: uint32
      ensures d in Docs(next, u) <==> d in Docs(index, u) || (d == docid && u == t)
    {
      if u == t { assert Docs(next, u) == s + [docid]; } else { assert Docs(next, u) == Docs(index, u); }
    }
  }

  lemma {:induction false} NoLists()
    ensures Indexes(map[], [])
  {
    assert forall t: nat :: Docs(map[], t) == [];
  }

  lemma {:induction false} WalkStart(index: map<nat, seq<uint32>>, blocks: seq<seq<byte>>, docid: uint32)
    requires Indexes(index, blocks) && docid == |blocks|
    ensures Walked(index, index, {}, docid)
  {
    hide PathTrigrams, IndexedPaths, Docs;
  }

  lemma {:induction false} BlockIndexed(was: map<nat, seq<uint32>>, index: map<nat, seq<uint32>>,
                                        blocks: seq<seq<byte>>, block: seq<byte>, docid: uint32)
    requires Indexes(was, blocks) && docid == |blocks|
    requires Walked(was, index, PathTrigrams(IndexedPaths(block)), docid)
    ensures Indexes(index, blocks + [block])
  {
    hide IndexedPaths, PathTrigrams, Lists, Docs;
    var all := blocks + [block];
    forall t: nat, d: uint32
      ensures d in Docs(index, t) <==> d < |all| && t in PathTrigrams(IndexedPaths(all[d]))
    {
      if d < |blocks| { assert all[d] == blocks[d]; }
    }
  }

  /** The paths of each block: all blocks but the last are full. */
  function Chunks(paths: seq<Path>, blockSize: nat): seq<seq<Path>> {
    if paths == [] then []
    else
      var p := paths[|paths| - 1];
      var r := Chunks(paths[..|paths| - 1], blockSize);
      var n := |r| - 1;
      if r != [] && |r[n]| < blockSize then r[..n] + [r[n] + [p]] else r + [[p]]
  }

  lemma {:induction false} ChunksMore(paths: seq<Path>, p: Path, blockSize: nat, chunks: seq<seq<Path>>,
                                      inBlock: seq<Path>)
    requires Chunks(paths, blockSize) == chunks + (if inBlock == [] then [] else [inBlock])
    requires |inBlock| < blockSize && forall d :: 0 <= d < |chunks| ==> |chunks[d]| == blockSize
    ensures Chunks(paths + [p], blockSize) == chunks + [inBlock + [p]]
  {
    assert (paths + [p])[..|paths|] == paths;
    if inBlock == [] {
      assert Chunks(paths, blockSize) == chunks;
      assert inBlock + [p] == [p];
    } else {
      assert (chunks + [inBlock])[..|chunks|] == chunks;
    }
  }

  ghost predicate Joined(blocks: seq<seq<byte>>, chunks: seq<seq<Path>>) {
    |blocks| == |chunks| && forall d :: 0 <= d < |blocks| ==>
      blocks[d] == JoinPaths(chunks[d]) && Storable(chunks[d]) && chunks[d] != []
  }

  lemma {:induction false} JoinedMore(blocks: seq<seq<byte>>, chunks: seq<seq<Path>>, chunk: seq<Path>)
    requires Joined(blocks, chunks) && Storable(chunk) && chunk != []
    ensures Joined(blocks + [JoinPaths(chunk)], chunks + [chunk])
  {
    hide JoinPaths, Storable;
  }

  /** Block d of the file is c; each block ends where the next begins, the last at the end. */
  ghost predicate WrittenAt(output: seq<byte>, offsets: seq<nat>, d: nat, c: seq<byte>)
    requires d < |offsets|
  {
    var end := if d + 1 < |offsets| then offsets[d + 1] else |output|;
    offsets[d] <= end <= |output| && output[offsets[d]..end] == c
  }

  /** The file holds the compressed blocks. */
  ghost predicate Written(output: seq<byte>, offsets: seq<nat>, blocks: seq<seq<byte>>,
                          compress: seq<byte> -> seq<byte>)
    {
    && |offsets| == |blocks|
    && forall d :: 0 <= d < |blocks| ==> WrittenAt(output, offsets, d, compress(blocks[d]))
  }

  lemma {:induction false} WrittenMore(output: seq<byte>, offsets: seq<nat>, blocks: seq<seq<byte>>,
                                       compress: seq<byte> -> seq<byte>, block: seq<byte>)
    requires Written(output, offsets, blocks, compress)
    ensures Written(output + compress(block), offsets + [|output|], blocks + [block], compress)
  {
    var out, all := output + compress(block), blocks + [block];
    forall d | 0 <= d < |all|
      ensures WrittenAt(out, offsets + [|output|], d, compress(all[d]))
    {
      if d < |blocks| { assert WrittenAt(output, offsets, d, compress(blocks[d])); }
    }
  }

  /** A builder that has taken these docids. */
  ghost predicate Took(builder: PostingList.PostingListBuilder, docids: seq<uint32>)
    reads builder
  {
    && builder.Valid() && !builder.finished
    && PostingList.Feedable(docids) && builder.docids == PostingList.Dedup(docids)
  }

  class EncodingCorpus {
    const blockSize: nat
    const storeDirTimes: bool
    const storeMetadata: bool
    /** One compressed frame. */
    const compress: seq<byte> -> seq<byte>

    var currentBlock: seq<byte>
    var numFiles: nat
    var numFilesInBlock: nat
    var numBlocks: nat
    var output: seq<byte>
    var filenameBlocks: seq<nat>
    var invindex: map<nat, PostingList.PostingListBuilder>
    var dirTimes: seq<byte>
    var metadataStream: seq<byte>

    /** All files added; the blocks closed, the paths in each of them, and those in the
        current block; and the docids fed to each builder. */
    ghost var records: seq<FileRecord>
    ghost var blocks: seq<seq<byte>>
    ghost var chunks: seq<seq<Path>>
    ghost var inBlock: seq<Path>
    ghost var fed: map<nat, seq<uint32>>
    ghost var finished: bool

    /** Each trigram has a builder of its own, which has taken the docids fed to it. */
    ghost predicate Live()
      reads this`invindex, this`fed, invindex.Values
    {
      && invindex.Keys == fed.Keys
      && (forall t, u :: t in invindex && u in invindex && t != u ==> invindex[t] != invindex[u])
      && forall t :: t in invindex ==> Took(invindex[t], fed[t])
    }

    ghost predicate BlocksValid()
      reads this`currentBlock, this`numFilesInBlock, this`numBlocks, this`output, this`filenameBlocks,
            this`blocks, this`chunks, this`inBlock, this`fed
    {
      && Joined(blocks, chunks)
      && Chunks(Paths(), blockSize) == chunks + (if inBlock == [] then [] else [inBlock])
      && Storable(inBlock)
      && currentBlock == JoinPaths(inBlock)
      && numFilesInBlock == |inBlock|
      && numBlocks == |blocks|
      && Written(output, filenameBlocks, blocks, compress)
      && Indexes(fed, blocks)
    }

    ghost predicate StreamsValid()
      reads this`numFiles, this`records, this`dirTimes, this`metadataStream
    {
      && numFiles == |records|
      && dirTimes == (if storeDirTimes then DirStream(records) else [])
      && metadataStream == (if storeMetadata then MetadataStream(records) else [])
    }

    ghost predicate Valid()
      reads this, invindex.Values
    {
      && BlocksValid() && StreamsValid() && Live()
      && Paths() == PathsOf(records)
      && (!finished ==> forall d :: 0 <= d < |chunks| ==> |chunks[d]| == blockSize)
      && |inBlock| < blockSize
    }

    /** The paths added so far. */
    ghost function Paths(): seq<Path>
      reads this`blocks, this`inBlock
    {
      Files(blocks) + inBlock
    }

    constructor (blockSize: nat, output: seq<byte>, compress: seq<byte> -> seq<byte>, storeDirTimes: bool,
                 storeMetadata: bool)
      requires blockSize > 0
      ensures Valid() && records == [] && blocks == [] && inBlock == [] && numBlocks == 0 && !finished
      ensures invindex == map[] && fed == map[]
      ensures this.blockSize == blockSize && this.compress == compress
      ensures this.storeDirTimes == storeDirTimes && this.storeMetadata == storeMetadata
    {
      this.blockSize, this.compress := blockSize, compress;
      this.storeDirTimes, this.storeMetadata := storeDirTimes, storeMetadata;
      currentBlock, numFiles, numFilesInBlock, numBlocks, this.output, filenameBlocks := [], 0, 0, 0, output, [];
      invindex, dirTimes, metadataStream := map[], [], [];
      records, blocks, chunks, inBlock, fed, finished := [], [], [], [], map[], false;
      new;
      NoLists();
    }

    /** Adds a file: its name to the current block, its time and metadata to their streams. */
    method AddFile(record: FileRecord)
      requires Valid() && !finished && record.path != [] && NulFree(record.path) && numBlocks < 0x100_0000
      modifies this, invindex.Values
      ensures Valid() && !finished && records == old(records) + [record]
      ensures old(blocks) <= blocks && numBlocks + |inBlock| <= old(numBlocks + |inBlock|) + 1
      ensures fresh(invindex.Values - old(invindex.Values))
    {
      hide BlocksValid, Live, DirStream, MetadataStream, Paths, NulFree, PathsOf;
      numFiles := numFiles + 1;
      AddToBlock(record.path);
      AddTime(record);
      AddMetadata(record);
      PathsGrow(records, record);
      records := records + [record];
    }

    /** The name goes into the block, which is closed if that fills it. */
    method AddToBlock(path: Path)
      requires BlocksValid() && Live() && |inBlock| < blockSize && path != [] && NulFree(path) && numBlocks < 0x100_0000
      requires forall d :: 0 <= d < |chunks| ==> |chunks[d]| == blockSize
      modifies this`currentBlock, this`numFilesInBlock, this`numBlocks, this`output, this`filenameBlocks, this`invindex,
               this`blocks, this`chunks, this`inBlock, this`fed, invindex.Values
      ensures BlocksValid() && Live() && |inBlock| < blockSize && Paths() == old(Paths()) + [path]
      ensures forall d :: 0 <= d < |chunks| ==> |chunks[d]| == blockSize
      ensures old(blocks) <= blocks && numBlocks + |inBlock| <= old(numBlocks + |inBlock|) + 1
      ensures fresh(invindex.Values - old(invindex.Values))
    {
      hide BlocksValid, Live, Paths, NulFree;
      AddName(path);
      if numFilesInBlock == blockSize {
        FlushBlock();
      }
    }

    /** The name goes to the end of the current block. */
    method AddName(path: Path)
      requires BlocksValid() && |inBlock| < blockSize && path != [] && NulFree(path)
      requires forall d :: 0 <= d < |chunks| ==> |chunks[d]| == blockSize
      modifies this`currentBlock, this`inBlock, this`numFilesInBlock
      ensures BlocksValid() && numFilesInBlock == |inBlock| <= blockSize && inBlock == old(inBlock) + [path]
      ensures Paths() == old(Paths()) + [path]
    {
      hide Indexes, Files, JoinPaths, NulFree, Chunks, Joined, Written;
      JoinMore(inBlock, path);
      ChunksMore(Paths(), path, blockSize, chunks, inBlock);
      if currentBlock != [] {
        currentBlock := currentBlock + [0];
      }
      currentBlock := currentBlock + path;
      inBlock := inBlock + [path];
      numFilesInBlock := numFilesInBlock + 1;
      assert Files(blocks) + inBlock == old(Paths()) + [path];
    }

    method AddTime(record: FileRecord)
      requires dirTimes == (if storeDirTimes then DirStream(records) else [])
      modifies this`dirTimes
      ensures dirTimes == (if storeDirTimes then DirStream(records + [record]) else [])
    {
      hide TimeBytes, DirStream;
      if storeDirTimes {
        DirStreamGrows(records, record);
        if record.dirTimestamp.sec == -1 {
          dirTimes := dirTimes + [0];
        } else {
          dirTimes := PutTime(dirTimes + [1], record.dirTimestamp);
        }
      }
    }

    method AddMetadata(record: FileRecord)
      requires metadataStream == (if storeMetadata then MetadataStream(records) else [])
      modifies this`metadataStream
      ensures metadataStream == (if storeMetadata then MetadataStream(records + [record]) else [])
    {
      hide RecordBytes, MetadataStream;
      if storeMetadata {
        MetadataStreamGrows(records, record);
        metadataStream := EncodeMetadataRecord(metadataStream, record.metadata);
      }
    }

    /** Closes the last block, full or not. */
    method Finish()
      requires Valid() && !finished && (inBlock == [] || numBlocks < 0x100_0000)
      modifies this, invindex.Values
      ensures Valid() && finished && records == old(records)
      ensures Files(blocks) == PathsOf(records) && Joined(blocks, Chunks(PathsOf(records), blockSize)) && inBlock == []
      ensures Live() && StreamsValid() && Indexes(fed, blocks) && Written(output, filenameBlocks, blocks, compress)
      ensures old(blocks) <= blocks && numBlocks <= old(numBlocks) + 1
      ensures fresh(invindex.Values - old(invindex.Values))
    {
      hide Indexes, Files, JoinPaths, NulFree, Chunks, Joined, Live, DirStream, MetadataStream, Written;
      FlushBlock();
      finished := true;
    }

    /** Closes the current block, writes it to the file and indexes it under the next docid. */
    method FlushBlock()
      requires BlocksValid() && Live() && blockSize > 0 && (inBlock == [] || numBlocks < 0x100_0000)
      modifies this`currentBlock, this`numFilesInBlock, this`numBlocks, this`output, this`filenameBlocks, this`invindex,
               this`blocks, this`chunks, this`inBlock, this`fed, invindex.Values
      ensures BlocksValid() && Live() && inBlock == [] && Paths() == old(Paths())
      ensures blocks == old(blocks) + (if old(inBlock) == [] then [] else [old(currentBlock)])
      ensures chunks == old(chunks) + (if old(inBlock) == [] then [] else [old(inBlock)])
      ensures numBlocks <= old(numBlocks) + 1
      ensures fresh(invindex.Values - old(invindex.Values))
    {
      hide Live, Indexes, Walked, Files, Chunks, Joined, JoinPaths, SplitPaths, PathTrigrams, IndexedPaths, Storable,
           Written;
      NonemptyJoin(inBlock);
      if currentBlock == [] {
        return;
      }
      var docid: uint32 := numBlocks;
      WalkBlock(docid);
      BlockIndexed(old(fed), fed, blocks, currentBlock, docid);
      CloseBlock();
    }

    /** The block that has been indexed is written, and the next one begins. */
    method CloseBlock()
      requires Joined(blocks, chunks) && Chunks(Paths(), blockSize) == chunks + [inBlock]
      requires Storable(inBlock) && inBlock != [] && currentBlock == JoinPaths(inBlock) && numBlocks == |blocks|
      requires Written(output, filenameBlocks, blocks, compress) && Indexes(fed, blocks + [currentBlock])
      modifies this`currentBlock, this`numFilesInBlock, this`numBlocks, this`output, this`filenameBlocks,
               this`blocks, this`chunks, this`inBlock
      ensures BlocksValid() && inBlock == [] && Paths() == old(Paths())
      ensures blocks == old(blocks + [currentBlock]) && chunks == old(chunks + [inBlock])
      ensures numBlocks == old(numBlocks) + 1
    {
      hide Indexes, Files, Chunks, Joined, JoinPaths, SplitPaths, Storable, Written;
      SplitJoin(inBlock);
      FilesGrow(blocks, currentBlock);
      JoinedMore(blocks, chunks, inBlock);
      WrittenMore(output, filenameBlocks, blocks, compress, currentBlock);
      ghost var all := Paths();
      filenameBlocks := filenameBlocks + [|output|];
      output := output + compress(currentBlock);
      blocks := blocks + [currentBlock];
      chunks := chunks + [inBlock];
      currentBlock := [];
      inBlock := [];
      assert Paths() == all;
      assert Storable(inBlock) && JoinPaths(inBlock) == [] by { NothingJoined(); }
      numFilesInBlock := 0;
      numBlocks := numBlocks + 1;
    }

    /** Hands a docid to the trigram's builder, which the first one creates. */
    method AddDocid(trgm: nat, docid: uint32)
      requires Live() && PostingList.Feedable(Docs(fed, trgm) + [docid])
      modifies this`invindex, this`fed, invindex.Values
      ensures Live() && fed == old(fed)[trgm := Docs(old(fed), trgm) + [docid]]
      ensures fresh(invindex.Values - old(invindex.Values))
    {
      hide Took, PostingList.Feedable;
      ghost var s := Docs(fed, trgm);
      if trgm !in invindex {
        assert s + [docid] == [docid];
        var builder := NewBuilder(docid);
        invindex := invindex[trgm := builder];
      } else {
        TookSome(invindex[trgm], s);
        AddToBuilder(invindex[trgm], s, docid);
      }
      fed := fed[trgm := s + [docid]];
    }

    /** The pointer walk over the block and the zero byte that ends it. */
    method WalkBlock(docid: uint32)
      requires Live() && Indexes(fed, blocks) && docid == |blocks| && docid < 0x100_0000
      modifies this`invindex, this`fed, invindex.Values
      ensures Live() && Walked(old(fed), fed, PathTrigrams(IndexedPaths(currentBlock)), docid)
      ensures fresh(invindex.Values - old(invindex.Values))
    {
      hide Live, LastStart, SplitPaths, WindowsBefore, PathTrigrams, Walked, Indexes;
      var block := currentBlock;
      var data := block + [0];
      WalkStart(fed, blocks, docid);
      assert WindowsBefore(block, 0) == {} by { NoWindows(block); }
      var ptr := 0;
      var end := |block|;
      while ptr < end - 3
        invariant AtPathStart(block, ptr)
        invariant Live() && Walked(old(fed), fed, WindowsBefore(block, ptr), docid)
        invariant fresh(invindex.Values - old(invindex.Values))
        decreases |block| - ptr
      {
        if data[ptr] == 0 {
          Skip(block, ptr, ptr + 1);
          ptr := ptr + 1;
        } else if data[ptr + 1] == 0 {
          Skip(block, ptr, ptr + 2);
          ptr := ptr + 2;
        } else if data[ptr + 2] == 0 {
          Skip(block, ptr, ptr + 3);
          ptr := ptr + 3;
        } else {
          ptr := WalkPath(data, ptr, docid, old(fed));
        }
      }
      WalkDone(block, ptr);
    }

    /** The inner loop: the trigrams of one path, up to the zero byte after it. */
    method WalkPath(data: seq<byte>, begin: nat, docid: uint32, ghost was: map<nat, seq<uint32>>) returns (ptr: nat)
      requires data == currentBlock + [0] && begin + 3 < |currentBlock| && Window(currentBlock, begin)
      requires AtPathStart(currentBlock, begin) && docid < 0x100_0000
      requires Live() && Walked(was, fed, WindowsBefore(currentBlock, begin), docid)
      modifies this`invindex, this`fed, invindex.Values
      ensures begin < ptr && AtPathStart(currentBlock, ptr)
      ensures Live() && Walked(was, fed, WindowsBefore(currentBlock, ptr), docid)
      ensures fresh(invindex.Values - old(invindex.Values))
    {
      hide Live, LastStart, WindowsBefore, Walked, PostingList.Feedable, Docs;
      ghost var block := currentBlock;
      ptr := begin;
      while true
        invariant begin <= ptr && Window(block, ptr)
        invariant forall i :: begin <= i < ptr + 3 ==> block[i] != 0
        invariant Live() && Walked(was, fed, WindowsBefore(block, ptr), docid)
        invariant fresh(invindex.Values - old(invindex.Values))
        decreases |block| - ptr
      {
        var trgm := TrigramIndex.Trigram(data[ptr], data[ptr + 1], data[ptr + 2]);
        var fourth := data[ptr + 3];
        OneWindow(block, ptr);
        AddStep(was, fed, WindowsBefore(block, ptr), docid, trgm);
        FeedsMore(was, fed, WindowsBefore(block, ptr), docid, trgm);
        ptr := ptr + 1;
        AddDocid(trgm, docid);
        if fourth == 0 {
          Skip(block, ptr, ptr + 3);
          ptr := ptr + 3;
          break;
        }
      }
    }
  }

  /** Adds all files to a new corpus and finishes it. */
  method AddAll(records: seq<FileRecord>, blockSize: nat, output: seq<byte>, compress: seq<byte> -> seq<byte>,
                storeDirTimes: bool, storeMetadata: bool)
    returns (corpus: EncodingCorpus)
    requires blockSize > 0 && |records| <= 0x100_0000
    requires forall i :: 0 <= i < |records| ==> records[i].path != [] && NulFree(records[i].path)
    ensures fresh(corpus) && fresh(corpus.invindex.Values) && corpus.Live() && corpus.compress == compress
    ensures Indexes(corpus.fed, corpus.blocks) && Files(corpus.blocks) == PathsOf(records)
    ensures Joined(corpus.blocks, Chunks(PathsOf(records), blockSize))
    ensures Written(corpus.output, corpus.filenameBlocks, corpus.blocks, compress)
    ensures corpus.dirTimes == (if storeDirTimes then DirStream(records) else [])
    ensures corpus.metadataStream == (if storeMetadata then MetadataStream(records) else [])
  {
    hide EncodingCorpus.Valid, EncodingCorpus.Live, Indexes, Files, Chunks, Joined, NulFree, Written, DirStream,
         MetadataStream, PathsOf;
    corpus := new EncodingCorpus(blockSize, output, compress, storeDirTimes, storeMetadata);
    for i := 0 to |records|
      invariant fresh(corpus) && fresh(corpus.invindex.Values) && corpus.Valid() && !corpus.finished
      invariant corpus.records == records[..i] && corpus.numBlocks + |corpus.inBlock| <= i
    {
      assert records[..i + 1] == records[..i] + [records[i]];
      corpus.AddFile(records[i]);
    }
    assert records[..|records|] == records;
    corpus.Finish();
  }

  /** Reads one block of the file. */
  method ReadBlock(output: seq<byte>, offsets: seq<nat>, d: nat, decompress: seq<byte> -> seq<byte>,
                   ghost blocks: seq<seq<byte>>, ghost compress: seq<byte> -> seq<byte>)
    returns (block: seq<byte>)
    requires Written(output, offsets, blocks, compress) && (forall b :: decompress(compress(b)) == b) && d < |offsets|
    ensures block == blocks[d]
  {
    assert WrittenAt(output, offsets, d, compress(blocks[d]));
    var end := if d + 1 < |offsets| then offsets[d + 1] else |output|;
    block := decompress(output[offsets[d]..end]);
  }

  /** Reads all blocks of the file. */
  method ReadBlocks(output: seq<byte>, offsets: seq<nat>, decompress: seq<byte> -> seq<byte>,
                    ghost blocks: seq<seq<byte>>, ghost compress: seq<byte> -> seq<byte>)
    returns (r: seq<seq<byte>>)
    requires Written(output, offsets, blocks, compress) && forall b :: decompress(compress(b)) == b
    ensures r == blocks
  {
    hide WrittenAt;
    r := [];
    for d := 0 to |offsets|
      invariant r == blocks[..d]
    {
      var block := ReadBlock(output, offsets, d, decompress, blocks, compress);
      r := r + [block];
    }
  }

  lemma {:induction false} TookSome(builder: PostingList.PostingListBuilder, docids: seq<uint32>)
    requires Took(builder, docids)
    ensures docids != []
  {
    hide PostingList.PostingListBuilder.Valid, PostingList.Dedup;
  }

  method NewBuilder(docid: uint32) returns (builder: PostingList.PostingListBuilder)
    requires PostingList.Feedable([docid])
    ensures fresh(builder) && Took(builder, [docid])
  {
    hide PostingList.PostingListBuilder.Valid;
    builder := new PostingList.PostingListBuilder();
    builder.AddFirstDocid(docid);
  }

  method AddToBuilder(builder: PostingList.PostingListBuilder, ghost s: seq<uint32>, docid: uint32)
    requires s != [] && Took(builder, s) && PostingList.Feedable(s + [docid])
    modifies builder
    ensures Took(builder, s + [docid])
  {
    hide PostingList.PostingListBuilder.Valid, PostingList.Dedup;
    DedupMore(s, docid);
    assert (s + [docid])[|s| - 1] == s[|s| - 1] && (s + [docid])[|s|] == docid;
    builder.AddDocid(docid);
  }

  lemma {:induction false} DedupMore(s: seq<uint32>, d: uint32)
    ensures PostingList.Dedup(s + [d])
      == if s == [] then [d] else if s[|s| - 1] == d then PostingList.Dedup(s) else PostingList.Dedup(s) + [d]
  {
    assert (s + [d])[..|s|] == s;
  }

  /** The newest docid may follow those a builder has. */
  lemma {:induction false} FeedsMore(was: map<nat, seq<uint32>>, index: map<nat, seq<uint32>>, added: set<nat>,
                                     docid: uint32, t: nat)
    requires Walked(was, index, added, docid) && docid < 0x100_0000
    ensures PostingList.Feedable(Docs(index, t) + [docid])
  {
    var s := Docs(index, t);
    assert forall i :: 0 <= i < |s| ==> s[i] in s;
  }

  lemma {:induction false} NonemptyJoin(paths: seq<Path>)
    requires Storable(paths)
    ensures JoinPaths(paths) == [] <==> paths == []
  {
  }

  lemma {:induction false} NothingJoined()
    ensures Storable([]) && JoinPaths([]) == []
  {
  }

  lemma {:induction false} JoinMore(paths: seq<Path>, path: Path)
    requires Storable(paths)
    ensures JoinPaths(paths + [path]) == if JoinPaths(paths) == [] then path else JoinPaths(paths) + [0] + path
  {
    NonemptyJoin(paths);
    assert (paths + [path])[..|paths|] == paths;
  }

  lemma {:induction false} FilesGrow(blocks: seq<seq<byte>>, block: seq<byte>)
    ensures Files(blocks + [block]) == Files(blocks) + SplitPaths(block)
  {
    assert (blocks + [block])[..|blocks|] == blocks;
  }

  // ---------------------------------------------------------------- what the lists hold

  lemma {:induction false} DedupIncreases(s: seq<uint32>)
    requires NonDecreasing(s)
    ensures Increasing(PostingList.Dedup(s))
    ensures forall d: uint32 :: d in PostingList.Dedup(s) <==> d in s
  {
    if |s| <= 1 {
    } else {
      var t := s[..|s| - 1];
      DedupIncreases(t);
      IncreaseMore(t, PostingList.Dedup(t), s[|s| - 1]);
      assert s == t + [s[|s| - 1]];
    }
  }

  lemma {:induction false} IncreaseMore(t: seq<uint32>, r: seq<uint32>, e: uint32)
    requires t != [] && NonDecreasing(t + [e]) && Increasing(r) && forall d: uint32 :: d in r <==> d in t
    ensures e == t[|t| - 1] ==> forall d: uint32 :: d in r <==> d in t + [e]
    ensures e != t[|t| - 1] ==> Increasing(r + [e]) && forall d: uint32 :: d in r + [e] <==> d in t + [e]
  {
    var s := t + [e];
    assert forall i :: 0 <= i < |t| ==> s[i] == t[i] && s[i] <= s[|t| - 1] <= s[|t|];
    assert forall i :: 0 <= i < |r| ==> r[i] in r;
  }

  /** The list of a trigram is the increasing sequence of the blocks that hold it, and with
      at most 2^24 blocks the codec takes it. */
  lemma {:induction false} ListIsBlocks(index: map<nat, seq<uint32>>, blocks: seq<seq<byte>>, t: nat)
    requires Indexes(index, blocks) && t in index
    ensures Increasing(PostingList.Dedup(index[t]))
    ensures forall d: uint32 ::
      d in PostingList.Dedup(index[t]) <==> d < |blocks| && t in PathTrigrams(IndexedPaths(blocks[d]))
    ensures |blocks| <= 0x100_0000 ==> PostingList.Feedable(index[t])
  {
    hide PathTrigrams, IndexedPaths, PostingList.Dedup;
    DedupIncreases(index[t]);
    assert index[t] == Docs(index, t);
    assert forall i :: 0 <= i < |index[t]| ==> index[t][i] in Docs(index, t);
  }

  /** A block counts for a trigram exactly if the trigram occurs inside one of its indexed
      paths. */
  lemma {:induction false} IndexedIffOccurs(index: map<nat, seq<uint32>>, blocks: seq<seq<byte>>, t: nat, d: uint32)
    requires Indexes(index, blocks) && d < |blocks|
    ensures d in Docs(index, t)
      <==> exists i :: 0 <= i < |IndexedPaths(blocks[d])| && exists p: nat :: OccursAt(IndexedPaths(blocks[d])[i], p, t)
  {
    hide IndexedPaths, PathTrigrams, TrigramsIn, OccursAt;
    var paths := IndexedPaths(blocks[d]);
    TrigramsOfSome(paths, t);
    forall i | 0 <= i < |paths|
      ensures t in TrigramsIn(paths[i]) <==> exists p: nat :: OccursAt(paths[i], p, t)
    {
      TrigramsOccur(paths[i], t);
    }
  }
}
