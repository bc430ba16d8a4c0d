/**
 * The client's local-change detection (src/surfstore/SurfstoreClientUtils.go,
 * `getLocalFileHashBlockListMap` and `updateFileMetaMapWithLocalFiles`): the
 * base directory is a map from file name to content.
 */
module LocalChanges {
  import opened Interfaces
  import opened Chunking

  /** The client's own index file, never treated as a synced file. */
  const IndexFileName: string := "index.txt"

  /** A hash list the chunker can produce: non-empty and made of digests. */
  ghost predicate IsChunkHashList(hs: seq<string>) {
    |hs| > 0 && forall i :: 0 <= i < |hs| ==> IsDigest(hs[i])
  }

  lemma ChunksNonEmpty(c: seq<byte>, blockSize: nat)
    requires blockSize > 0
    ensures |Chunks(c, blockSize)| > 0
  {
    if |c| > 0 {
      assert Slices(c, blockSize)[0] == c[..Min(blockSize, |c|)];
    }
  }

  /** The hash list of every file of the directory but the index file. */
  function LocalHashLists(dir: map<string, seq<byte>>, blockSize: nat, h: Hasher): (r: map<string, seq<string>>)
    requires blockSize > 0
    ensures Digests(h) ==> forall k :: k in r ==> IsChunkHashList(r[k])
  {
    var r := map k | k in dir && k != IndexFileName :: HashesOf(Chunks(dir[k], blockSize), h);
    assert Digests(h) ==> forall k :: k in r ==> IsChunkHashList(r[k]) by {
      forall k | k in r && Digests(h) ensures IsChunkHashList(r[k]) {
        ChunksNonEmpty(dir[k], blockSize);
      }
    }
    r
  }

  /**
   * `getLocalFileHashBlockListMap`: every file but `index.txt` mapped to the
   * hash list of its chunks.
   */
  method GetLocalFileHashBlockListMap(dir: map<string, seq<byte>>, blockSize: nat, h: Hasher)
    returns (localFileMap: map<string, seq<string>>)
    requires blockSize > 0
    ensures localFileMap.Keys == dir.Keys - {IndexFileName}
    ensures forall k :: k in localFileMap ==> localFileMap[k] == HashesOf(Chunks(dir[k], blockSize), h)
  {
    localFileMap := map[];
    var pending := dir.Keys;
    while pending != {}
      invariant pending <= dir.Keys
      invariant localFileMap.Keys == (dir.Keys - pending) - {IndexFileName}
      invariant forall k :: k in localFileMap ==> localFileMap[k] == HashesOf(Chunks(dir[k], blockSize), h)
      decreases pending
    {
      var name :| name in pending;
      pending := pending - {name};
      if name == IndexFileName {
        continue;
      }
      var blockHashList := HashBlockList(dir[name], blockSize, h);
      localFileMap := localFileMap[name := blockHashList];
    }
  }

  /** A known file still present: the local list and one more version if the list changed. */
  function Refreshed(stored: FileMetaData, local: seq<string>): FileMetaData {
    if local != stored.blockHashList then
      stored.(blockHashList := local, version := stored.version + 1)
    else stored
  }

  /** A known file no longer present: a tombstone, one version later, unless it is one already. */
  function Deleted(stored: FileMetaData): FileMetaData {
    if stored.IsTombstone() then stored
    else stored.MarkTombstone().(version := stored.version + 1)
  }

  /** The entry detection leaves for the name `k`. */
  function DetectedEntry(index: map<string, FileMetaData>, local: map<string, seq<string>>, k: string): FileMetaData
    requires k in index || k in local
  {
    if k in index then
      (if k in local then Refreshed(index[k], local[k]) else Deleted(index[k]))
    else FileMetaData(k, 1, local[k])
  }

  /** The index after local changes are detected, from the old index and the local hash lists. */
  function Detect(index: map<string, FileMetaData>, local: map<string, seq<string>>): map<string, FileMetaData> {
    map k | k in index.Keys + local.Keys :: DetectedEntry(index, local, k)
  }

  /**
   * The element-wise overwrite for lists of equal length: the list becomes the
   * local one, and the update flag tells whether any element differed.
   */
  method RefreshHashList(stored: seq<string>, local: seq<string>) returns (list: seq<string>, isFileUpdated: bool)
    requires |stored| == |local|
    ensures list == local
    ensures isFileUpdated <==> stored != local
  {
    list := stored;
    isFileUpdated := false;
    for i := 0 to |local|
      invariant |list| == |local|
      invariant list[..i] == local[..i] && list[i..] == stored[i..]
      invariant isFileUpdated <==> stored[..i] != local[..i]
    {
      if local[i] != list[i] {
        list := list[i := local[i]];
        isFileUpdated := true;
      }
      assert stored[..i + 1] == stored[..i] + [stored[i]];
      assert local[..i + 1] == local[..i] + [local[i]];
    }
    assert list == list[..|local|] && stored == stored[..|local|] && local == local[..|local|];
  }

  /** The effect of the first loop of `updateFileMetaMapWithLocalFiles` on one entry. */
  method RefreshEntry(filename: string, fileMeta: FileMetaData, local: map<string, seq<string>>) returns (r: FileMetaData)
    ensures r == if filename in local then Refreshed(fileMeta, local[filename]) else Deleted(fileMeta)
  {
    r := fileMeta;
    if filename in local {
      var localBlockHashList := local[filename];
      if |localBlockHashList| != |fileMeta.blockHashList| {
        r := r.(blockHashList := localBlockHashList, version := r.version + 1);
      } else {
        var list, isFileUpdated := RefreshHashList(fileMeta.blockHashList, localBlockHashList);
        r := r.(blockHashList := list);
        if isFileUpdated {
          r := r.(version := r.version + 1);
        }
      }
    } else {
      var isAlreadyDeleted := |fileMeta.blockHashList| == 1 && fileMeta.blockHashList[0] == TombstoneHash;
      if !isAlreadyDeleted {
        r := r.(blockHashList := [TombstoneHash], version := r.version + 1);
      }
    }
  }

  /**
   * `updateFileMetaMapWithLocalFiles`: refreshes every index entry against the
   * directory, then adds every new local file at version 1.
   */
  method UpdateFileMetaMapWithLocalFiles(fileMetaMap: map<string, FileMetaData>, dir: map<string, seq<byte>>, blockSize: nat, h: Hasher)
    returns (updated: map<string, FileMetaData>)
    requires blockSize > 0
    ensures updated == Detect(fileMetaMap, LocalHashLists(dir, blockSize, h))
  {
    var localFileMap := GetLocalFileHashBlockListMap(dir, blockSize, h);
    assert localFileMap == LocalHashLists(dir, blockSize, h);
    updated := DetectChanges(fileMetaMap, localFileMap);
  }

  /** The two loops of `updateFileMetaMapWithLocalFiles`, given the local hash lists. */
  method DetectChanges(fileMetaMap: map<string, FileMetaData>, localFileMap: map<string, seq<string>>)
    returns (updated: map<string, FileMetaData>)
    ensures updated == Detect(fileMetaMap, localFileMap)
  {
    updated := fileMetaMap;
    var pending := fileMetaMap.Keys;
    while pending != {}
      invariant pending <= fileMetaMap.Keys && updated.Keys == fileMetaMap.Keys
      invariant forall k :: k in pending ==> updated[k] == fileMetaMap[k]
      invariant forall k :: k in fileMetaMap && k !in pending ==>
        updated[k] == DetectedEntry(fileMetaMap, localFileMap, k)
      decreases pending
    {
      var filename :| filename in pending;
      var fileMeta := RefreshEntry(filename, updated[filename], localFileMap);
      updated := updated[filename := fileMeta];
      pending := pending - {filename};
    }
    pending := localFileMap.Keys;
    while pending != {}
      invariant pending <= localFileMap.Keys
      invariant updated.Keys == fileMetaMap.Keys + (localFileMap.Keys - pending)
      invariant forall k :: k in updated ==> updated[k] == DetectedEntry(fileMetaMap, localFileMap, k)
      decreases pending
    {
      var filename :| filename in pending;
      if filename !in fileMetaMap {
        updated := updated[filename := FileMetaData(filename, 1, localFileMap[filename])];
      }
      pending := pending - {filename};
    }
  }

  /**
   * Detection keeps every index entry and adds exactly the new local files;
   * it keeps each record under its own name.
   */
  lemma DetectKeys(index: map<string, FileMetaData>, local: map<string, seq<string>>)
    requires WellKeyed(index)
    ensures Detect(index, local).Keys == index.Keys + local.Keys
    ensures WellKeyed(Detect(index, local))
  {
  }

  /**
   * A known entry's version goes up by exactly one when its file changed or
   * disappeared (and it was not already a tombstone), and stays otherwise; a
   * new file starts at version 1 with its local list.
   */
  lemma DetectVersions(index: map<string, FileMetaData>, local: map<string, seq<string>>, k: string)
    requires k in index.Keys + local.Keys
    ensures var r := Detect(index, local)[k];
      (k in index && k in local ==>
        r.blockHashList == local[k] &&
        r.version == if local[k] == index[k].blockHashList then index[k].version else index[k].version + 1) &&
      (k in index && k !in local ==>
        r.IsTombstone() &&
        r.version == if index[k].IsTombstone() then index[k].version else index[k].version + 1) &&
      (k !in index ==> r == FileMetaData(k, 1, local[k]))
  {
  }

  /**
   * Every entry detection leaves live (not a tombstone) is a local file and
   * carries that file's local hash list.
   */
  lemma LiveEntriesAreLocal(index: map<string, FileMetaData>, local: map<string, seq<string>>)
    ensures forall k :: k in Detect(index, local) && !Detect(index, local)[k].IsTombstone() ==>
      k in local && Detect(index, local)[k].blockHashList == local[k]
  {
  }

  /**
   * After detection the live (non-tombstone) entries are exactly the local
   * files, each carrying its local hash list.
   */
  lemma LiveEntriesAreLocalFiles(index: map<string, FileMetaData>, local: map<string, seq<string>>)
    requires forall k :: k in local ==> IsChunkHashList(local[k])
    ensures forall k :: k in Detect(index, local) ==>
      (!Detect(index, local)[k].IsTombstone() <==> k in local)
    ensures forall k :: k in local ==> Detect(index, local)[k].blockHashList == local[k]
  {
    forall k | k in local
      ensures !Detect(index, local)[k].IsTombstone()
    {
      DigestIsNotTombstone(local[k][0]);
    }
  }

  /** Detecting again against the same directory changes nothing. */
  lemma DetectIsIdempotent(index: map<string, FileMetaData>, local: map<string, seq<string>>)
    ensures Detect(Detect(index, local), local) == Detect(index, local)
  {
    var once := Detect(index, local);
    forall k | k in once
      ensures Detect(once, local)[k] == once[k]
    {
      if k in index && k !in local {
        assert once[k].IsTombstone();
      }
    }
  }
}
