/**
 * Moving one file's blocks between client and server
 * (src/surfstore/SurfstoreClientUtils.go, `uploadFile` and `downloadFile`).
 */
module Transfer {
  import opened Interfaces
  import opened Chunking
  import opened Meta
  import opened Blocks
  import opened Facade

  /** The block the client builds for one chunk: its bytes, declaring their count. */
  function ChunkBlock(chunk: seq<byte>): Block {
    Block(chunk, |chunk|)
  }

  /** The zero value of a Go `Block`: no data and a declared size of 0. */
  const ZeroBlock: Block := Block([], 0)

  /** The store after the client offers one chunk: put only when its digest is missing. */
  function UploadStep(m: map<string, Block>, chunk: seq<byte>, h: Hasher): map<string, Block> {
    if h(chunk) in m then m else AfterPut(m, ChunkBlock(chunk), h)
  }

  /** The store after the client uploads `chunks` in order. */
  function Uploaded(m: map<string, Block>, chunks: seq<seq<byte>>, h: Hasher): map<string, Block>
    decreases |chunks|
  {
    if chunks == [] then m else Uploaded(UploadStep(m, chunks[0], h), chunks[1..], h)
  }

  /**
   * The shape of a store only this client has written to: every block is
   * non-empty, declares its true size and is stored under its digest.
   */
  ghost predicate KeyedByContent(m: map<string, Block>, h: Hasher) {
    forall k :: k in m ==> |m[k].data| > 0 && m[k].size == |m[k].data| && h(m[k].data) == k
  }

  /** Store `after` still holds every block of store `before`, unchanged. */
  ghost predicate Extends(after: map<string, Block>, before: map<string, Block>) {
    forall k :: k in before ==> k in after && after[k] == before[k]
  }

  /** The data held in a store. */
  ghost function StoredData(m: map<string, Block>): set<seq<byte>> {
    set k | k in m :: m[k].data
  }

  /** No two different byte strings of `s` share a digest. */
  ghost predicate CollisionFree(h: Hasher, s: set<seq<byte>>) {
    forall x, y :: x in s && y in s && h(x) == h(y) ==> x == y
  }

  /** Uploading keeps every stored block and stores every non-empty chunk under its digest. */
  lemma {:induction false} UploadedKeeps(m: map<string, Block>, chunks: seq<seq<byte>>, h: Hasher)
    ensures Extends(Uploaded(m, chunks, h), m)
    ensures forall i :: 0 <= i < |chunks| && |chunks[i]| > 0 ==> h(chunks[i]) in Uploaded(m, chunks, h)
    decreases |chunks|
  {
    if chunks != [] {
      var rest := chunks[1..];
      UploadedKeeps(UploadStep(m, chunks[0], h), rest, h);
      assert forall i :: 0 < i < |chunks| ==> chunks[i] == rest[i - 1];
    }
  }

  /**
   * Uploading to a store only this client has written to adds only chunk
   * data and keeps the store keyed by content.
   */
  lemma {:induction false} UploadedShape(m: map<string, Block>, chunks: seq<seq<byte>>, h: Hasher)
    requires KeyedByContent(m, h)
    ensures KeyedByContent(Uploaded(m, chunks, h), h)
    ensures forall k :: k in Uploaded(m, chunks, h) && k !in m ==> Uploaded(m, chunks, h)[k].data in chunks
    decreases |chunks|
  {
    if chunks != [] {
      var next := UploadStep(m, chunks[0], h);
      var rest := chunks[1..];
      UploadedShape(next, rest, h);
      UploadedKeeps(next, rest, h);
      assert forall x :: x in rest ==> x in chunks;
    }
  }

  /**
   * After a file is uploaded, every entry of its hash list is in the store,
   * except the digest of the empty block, which the store refuses.
   */
  lemma FileHashesHeld(m: map<string, Block>, c: seq<byte>, blockSize: nat, h: Hasher)
    requires blockSize > 0
    ensures var hs := HashesOf(Chunks(c, blockSize), h);
      forall i :: 0 <= i < |hs| ==> hs[i] in Uploaded(m, Chunks(c, blockSize), h) || hs[i] == h([])
  {
    var cs := Chunks(c, blockSize);
    UploadedKeeps(m, cs, h);
    SlicesShape(c, blockSize);
    forall i | 0 <= i < |cs| && |cs[i]| == 0 ensures cs[i] == [] {
    }
  }

  /**
   * The digest of the empty block reaches a store the client has written to
   * only through a collision: the client's empty block declares size 0 and
   * the store refuses it, so any block under that digest holds other data.
   */
  lemma EmptyDigestOnlyByCollision(m: map<string, Block>, h: Hasher)
    requires KeyedByContent(m, h)
    ensures h([]) in m ==> exists d: seq<byte> :: |d| > 0 && h(d) == h([])
  {
    if h([]) in m {
      var d := m[h([])].data;
      assert |d| > 0 && h(d) == h([]);
    }
  }

  /** The client's empty block leaves any store as it was. */
  lemma EmptyBlockIsRefused(m: map<string, Block>, h: Hasher)
    ensures AfterPut(m, ChunkBlock([]), h) == m
    ensures Uploaded(m, [[]], h) == m
  {
    var empty: seq<seq<byte>> := [[]];
    assert empty[1..] == [];
  }

  /** The data of a list of blocks, block by block. */
  function DataOf(blocks: seq<Block>): (data: seq<seq<byte>>)
    ensures |data| == |blocks|
  {
    seq(|blocks|, i requires 0 <= i < |blocks| => blocks[i].data)
  }

  /** The blocks `downloadFile` collects for a hash list from store `m`: a missing hash leaves the zero block. */
  function Fetched(hashes: seq<string>, m: map<string, Block>): (blocks: seq<Block>)
    ensures |blocks| == |hashes|
  {
    seq(|hashes|, i requires 0 <= i < |hashes| => if hashes[i] in m then m[hashes[i]] else ZeroBlock)
  }

  /**
   * Upload and download round-trip: after the client uploads a file, fetching
   * its hash list from the store gives blocks that concatenate to the file,
   * the empty file included, provided the digest separates the chunks, the
   * empty data and what the store held.
   */
  lemma UploadThenFetch(m: map<string, Block>, c: seq<byte>, blockSize: nat, h: Hasher)
    requires blockSize > 0
    requires KeyedByContent(m, h)
    requires CollisionFree(h, {[]} + StoredData(m) + set x | x in Chunks(c, blockSize))
    ensures Flatten(DataOf(Fetched(HashesOf(Chunks(c, blockSize), h), Uploaded(m, Chunks(c, blockSize), h)))) == c
  {
    var cs := Chunks(c, blockSize);
    var after := Uploaded(m, cs, h);
    var s := {[]} + StoredData(m) + set x | x in cs;
    UploadedKeeps(m, cs, h);
    UploadedShape(m, cs, h);
    var got := DataOf(Fetched(HashesOf(cs, h), after));
    forall i | 0 <= i < |cs|
      ensures got[i] == cs[i]
    {
      var k := h(cs[i]);
      if k in after {
        var d := after[k].data;
        assert d in s by {
          if k in m {
            assert d in StoredData(m);
          } else {
            assert d in cs;
          }
        }
        assert cs[i] in s;
      } else {
        assert cs[i] == [];
      }
    }
    assert got == cs;
    ChunksFlatten(c, blockSize);
  }

  /**
   * `uploadFile`: a tombstone only has its record sent; otherwise the file is
   * read (a missing file is fatal), each chunk whose digest the store lacks
   * is put (the empty file's single empty block is put unconditionally and
   * refused), and then the record is sent.
   */
  method UploadFile(server: Server, fileMeta: FileMetaData, dir: map<string, seq<byte>>, blockSize: nat)
    returns (fatal: bool)
    requires blockSize > 0
    modifies server.blockStore, server.metaStore
    ensures fatal <==> !fileMeta.IsTombstone() && fileMeta.filename !in dir
    ensures fatal ==> server.blockStore.blockMap == old(server.blockStore.blockMap)
    ensures fatal ==> server.metaStore.fileMetaMap == old(server.metaStore.fileMetaMap)
    ensures !fatal ==> server.metaStore.fileMetaMap == AfterUpdate(old(server.metaStore.fileMetaMap), fileMeta)
    ensures !fatal && fileMeta.IsTombstone() ==> server.blockStore.blockMap == old(server.blockStore.blockMap)
    ensures !fatal && !fileMeta.IsTombstone() ==>
      server.blockStore.blockMap == Uploaded(old(server.blockStore.blockMap), Chunks(dir[fileMeta.filename], blockSize), server.blockStore.hash)
  {
    var filename := fileMeta.filename;
    if |fileMeta.blockHashList| == 1 && fileMeta.blockHashList[0] == TombstoneHash {
      var v, e := server.UpdateFile(fileMeta, 0);
      return false;
    }
    if filename !in dir {
      return true;
    }
    var content := dir[filename];
    PutFileBlocks(server, content, blockSize);
    var latestVersion, err := server.UpdateFile(fileMeta, 0);
    fatal := false;
  }

  /** The block loop of `uploadFile`: every chunk of `content` the store lacks is put. */
  method PutFileBlocks(server: Server, content: seq<byte>, blockSize: nat)
    requires blockSize > 0
    modifies server.blockStore
    ensures server.blockStore.blockMap == Uploaded(old(server.blockStore.blockMap), Chunks(content, blockSize), server.blockStore.hash)
  {
    var numBlocks := CeilDiv(|content|, blockSize);
    if numBlocks == 0 {
      CeilDivBounds(|content|, blockSize, 0);
      assert Chunks(content, blockSize) == [[]];
      EmptyBlockIsRefused(server.blockStore.blockMap, server.blockStore.hash);
      var succ, err := server.PutBlock(Block([], 0));
    } else {
      PutSlices(server, content, blockSize, numBlocks);
    }
  }

  /** The loop over the `numBlocks` reads of a non-empty file. */
  method PutSlices(server: Server, content: seq<byte>, blockSize: nat, numBlocks: nat)
    requires blockSize > 0 && numBlocks == CeilDiv(|content|, blockSize)
    modifies server.blockStore
    ensures server.blockStore.blockMap == Uploaded(old(server.blockStore.blockMap), Slices(content, blockSize), server.blockStore.hash)
  {
    var fileSize := |content|;
    var position: nat := 0;
    var i: nat := 0;
    ghost var cs := Slices(content, blockSize);
    ghost var target := Uploaded(server.blockStore.blockMap, cs, server.blockStore.hash);
    SlicesShape(content, blockSize);
    assert cs[i..] == cs;
    while i < numBlocks
      invariant 0 <= i <= numBlocks == |cs|
      invariant i < numBlocks ==> position == Offset(i, blockSize)
      invariant Uploaded(server.blockStore.blockMap, cs[i..], server.blockStore.hash) == target
    {
      var currentBlockSize := CurrentBlockSize(fileSize, blockSize, i);
      UploadSlice(server, content, blockSize, position, currentBlockSize, cs, i, target);
      position := position + currentBlockSize;
      i := i + 1;
    }
    assert cs[i..] == [];
  }

  /** One iteration of the block loop: read block `i` at `position` and put it if the store lacks it. */
  method UploadSlice(server: Server, content: seq<byte>, blockSize: nat, position: nat, cur: int,
                     ghost cs: seq<seq<byte>>, ghost i: nat, ghost target: map<string, Block>)
    requires blockSize > 0 && cs == Slices(content, blockSize) && i < |cs|
    requires position == Offset(i, blockSize) && cur == Min(blockSize, |content| - position)
    requires Uploaded(server.blockStore.blockMap, cs[i..], server.blockStore.hash) == target
    modifies server.blockStore
    ensures i + 1 < |cs| ==> position + cur == Offset(i + 1, blockSize)
    ensures Uploaded(server.blockStore.blockMap, cs[i + 1..], server.blockStore.hash) == target
  {
    SliceAtOffset(content, blockSize, i, position);
    SlicesShape(content, blockSize);
    ReadStep(|content|, blockSize, |cs|, i, position);
    var blockBuffer := content[position .. position + cur];
    assert cs[i..] == [blockBuffer] + cs[i + 1..];
    UploadNext(server, blockBuffer, cs[i + 1..], target);
  }

  lemma UploadedCons(m: map<string, Block>, chunk: seq<byte>, rest: seq<seq<byte>>, h: Hasher)
    ensures Uploaded(m, [chunk] + rest, h) == Uploaded(UploadStep(m, chunk, h), rest, h)
  {
    assert ([chunk] + rest)[0] == chunk && ([chunk] + rest)[1..] == rest;
  }

  /** The block loop's progress: after offering the next chunk, what is left to upload is `rest`. */
  method UploadNext(server: Server, blockBuffer: seq<byte>, ghost rest: seq<seq<byte>>, ghost target: map<string, Block>)
    requires Uploaded(server.blockStore.blockMap, [blockBuffer] + rest, server.blockStore.hash) == target
    modifies server.blockStore
    ensures Uploaded(server.blockStore.blockMap, rest, server.blockStore.hash) == target
  {
    UploadedCons(server.blockStore.blockMap, blockBuffer, rest, server.blockStore.hash);
    PutMissingBlock(server, blockBuffer);
  }

  /** One step of the block loop: ask whether the store holds the chunk, and put it if not. */
  method PutMissingBlock(server: Server, blockBuffer: seq<byte>)
    modifies server.blockStore
    ensures server.blockStore.blockMap == UploadStep(old(server.blockStore.blockMap), blockBuffer, server.blockStore.hash)
  {
    var found, e := server.blockStore.HasBlock(server.blockStore.hash(blockBuffer));
    if !found {
      var succ, err := server.PutBlock(Block(blockBuffer, |blockBuffer|));
    }
  }

  /**
   * `downloadFile`: unless the remote record is a tombstone, one `GetBlock`
   * per hash into a fresh zero block; the local record becomes a copy of the
   * remote one. The blocks are what the (unmodelled) file writer receives.
   */
  method DownloadFile(server: Server, localFileMeta: FileMetaData, remoteFileMeta: FileMetaData)
    returns (updated: FileMetaData, fileBlocks: seq<Block>)
    ensures updated == remoteFileMeta
    ensures fileBlocks == if remoteFileMeta.IsTombstone() then []
      else Fetched(remoteFileMeta.blockHashList, server.blockStore.blockMap)
  {
    fileBlocks := [];
    var hashes := remoteFileMeta.blockHashList;
    if |hashes| != 1 || hashes[0] != TombstoneHash {
      for i := 0 to |hashes|
        invariant fileBlocks == Fetched(hashes[..i], server.blockStore.blockMap)
      {
        var block, err := server.GetBlock(hashes[i], ZeroBlock);
        fileBlocks := fileBlocks + [block];
      }
      assert hashes[..|hashes|] == hashes;
    }
    updated := localFileMeta.(filename := remoteFileMeta.filename);
    updated := updated.(version := remoteFileMeta.version);
    updated := updated.(blockHashList := remoteFileMeta.blockHashList);
  }
}
