/**
 * One run of the sync client (src/surfstore/SurfstoreClientUtils.go,
 * `ClientSync`): read the index, detect local changes, fetch the server's
 * records, then upload or download each file and write the index back.
 */
module Sync {
  import opened Wrappers
  import opened Interfaces
  import opened Chunking
  import opened Meta
  import opened Blocks
  import opened Facade
  import opened IndexFile
  import opened LocalChanges
  import opened Transfer
  import opened GoText

  /**
   * The record a sync keeps for a name: the client's when it is strictly
   * newer than the server's, or when the server has none; the server's otherwise.
   */
  function SyncedEntry(local: map<string, FileMetaData>, remote: map<string, FileMetaData>, k: string): FileMetaData
    requires k in local || k in remote
  {
    if k in remote && (k !in local || local[k].version <= remote[k].version) then remote[k] else local[k]
  }

  /** The index, and the server's records, after a sync of `local` against `remote`. */
  function SyncedIndex(local: map<string, FileMetaData>, remote: map<string, FileMetaData>): map<string, FileMetaData> {
    map k | k in local.Keys + remote.Keys :: SyncedEntry(local, remote, k)
  }

  /** The server's records once the names it already had are synced. */
  function RemoteSynced(local: map<string, FileMetaData>, remote: map<string, FileMetaData>): map<string, FileMetaData> {
    map k | k in remote.Keys :: SyncedEntry(local, remote, k)
  }

  /**
   * Every hash of every live record is held by the block store, or is the
   * digest of the empty block, which the store refuses.
   */
  ghost predicate BlocksAvailable(meta: map<string, FileMetaData>, blocks: map<string, Block>, h: Hasher) {
    forall k :: k in meta && !meta[k].IsTombstone() ==> HashesHeld(meta[k].blockHashList, blocks, h)
  }

  ghost predicate HashesHeld(hashes: seq<string>, blocks: map<string, Block>, h: Hasher) {
    forall i :: 0 <= i < |hashes| ==> hashes[i] in blocks || hashes[i] == h([])
  }

  /** Every live record of `local` describes the content of its file in `dir`. */
  ghost predicate LiveRecordsAreFiles(local: map<string, FileMetaData>, dir: map<string, seq<byte>>, blockSize: nat, h: Hasher)
    requires blockSize > 0
  {
    forall k :: k in local && !local[k].IsTombstone() ==>
      k in dir && local[k].blockHashList == HashesOf(Chunks(dir[k], blockSize), h)
  }

  /**
   * A sync keeps every name of either side, keeps records under their own
   * names, and never goes back in version: each name ends at the higher of
   * its two versions, and the client's record survives only when strictly newer.
   */
  lemma SyncedIndexShape(local: map<string, FileMetaData>, remote: map<string, FileMetaData>)
    requires WellKeyed(local) && WellKeyed(remote)
    ensures SyncedIndex(local, remote).Keys == local.Keys + remote.Keys
    ensures WellKeyed(SyncedIndex(local, remote))
    ensures forall k :: k in local && k in remote ==>
      SyncedIndex(local, remote)[k].version == if local[k].version > remote[k].version then local[k].version else remote[k].version
    ensures forall k :: k in local && k in remote ==>
      (SyncedIndex(local, remote)[k] == local[k] <==> local[k].version > remote[k].version || local[k] == remote[k])
  {
  }

  /** Syncing against the server's own records changes nothing. */
  lemma SyncIsIdempotent(local: map<string, FileMetaData>, remote: map<string, FileMetaData>)
    ensures SyncedIndex(SyncedIndex(local, remote), SyncedIndex(local, remote)) == SyncedIndex(local, remote)
  {
  }

  /** A record replaced by one whose hashes are held keeps the store consistent, and so does a growing store. */
  lemma AvailableAfterReplace(meta: map<string, FileMetaData>, blocks: map<string, Block>, blocks': map<string, Block>,
                              k: string, entry: FileMetaData, h: Hasher)
    requires BlocksAvailable(meta, blocks, h) && Extends(blocks', blocks)
    requires !entry.IsTombstone() ==> HashesHeld(entry.blockHashList, blocks', h)
    ensures BlocksAvailable(meta[k := entry], blocks', h)
  {
    var meta' := meta[k := entry];
    forall j | j in meta' && !meta'[j].IsTombstone() ensures HashesHeld(meta'[j].blockHashList, blocks', h) {
      if j != k {
        assert HashesHeld(meta[j].blockHashList, blocks, h);
      }
    }
  }

  /** The live records of the detected index describe the files in the directory. */
  lemma DetectedRecordsAreFiles(index: map<string, FileMetaData>, dir: map<string, seq<byte>>, blockSize: nat, h: Hasher)
    requires blockSize > 0
    ensures LiveRecordsAreFiles(Detect(index, LocalHashLists(dir, blockSize, h)), dir, blockSize, h)
  {
    LiveEntriesAreLocal(index, LocalHashLists(dir, blockSize, h));
  }

  /** After the first loop, the records of names the server lacked are still the client's. */
  lemma UnsyncedRecordsAreFiles(local: map<string, FileMetaData>, remote: map<string, FileMetaData>,
                                dir: map<string, seq<byte>>, blockSize: nat, h: Hasher)
    requires blockSize > 0
    requires LiveRecordsAreFiles(local, dir, blockSize, h)
    ensures forall k :: k in SyncedIndex(local, remote) && k !in remote && !SyncedIndex(local, remote)[k].IsTombstone() ==>
      k in dir && SyncedIndex(local, remote)[k].blockHashList == HashesOf(Chunks(dir[k], blockSize), h)
  {
  }

  /**
   * From (`meta0`, `blocks0`) to (`meta`, `blocks`) the block store only
   * grew, stayed keyed by content if it was, and kept every live record's
   * blocks available if it did.
   */
  ghost predicate StoreKept(meta0: map<string, FileMetaData>, blocks0: map<string, Block>,
                            meta: map<string, FileMetaData>, blocks: map<string, Block>, h: Hasher) {
    Extends(blocks, blocks0) &&
    (KeyedByContent(blocks0, h) ==> KeyedByContent(blocks, h)) &&
    (BlocksAvailable(meta0, blocks0, h) ==> BlocksAvailable(meta, blocks, h))
  }

  lemma StoreKeptTrans(meta0: map<string, FileMetaData>, blocks0: map<string, Block>,
                       meta1: map<string, FileMetaData>, blocks1: map<string, Block>,
                       meta2: map<string, FileMetaData>, blocks2: map<string, Block>, h: Hasher)
    requires StoreKept(meta0, blocks0, meta1, blocks1, h) && StoreKept(meta1, blocks1, meta2, blocks2, h)
    ensures StoreKept(meta0, blocks0, meta2, blocks2, h)
  {
  }

  /**
   * `uploadFile` for a record of the detected index: it is never fatal, and
   * the stores end as the server's update and the file's upload leave them.
   */
  method UploadRecord(server: Server, record: FileMetaData, dir: map<string, seq<byte>>, blockSize: nat)
    requires blockSize > 0
    requires !record.IsTombstone() ==>
      record.filename in dir && record.blockHashList == HashesOf(Chunks(dir[record.filename], blockSize), server.blockStore.hash)
    modifies server.blockStore, server.metaStore
    ensures server.metaStore.fileMetaMap == AfterUpdate(old(server.metaStore.fileMetaMap), record)
    ensures Extends(server.blockStore.blockMap, old(server.blockStore.blockMap))
    ensures KeyedByContent(old(server.blockStore.blockMap), server.blockStore.hash) ==>
      KeyedByContent(server.blockStore.blockMap, server.blockStore.hash)
    ensures !record.IsTombstone() ==> HashesHeld(record.blockHashList, server.blockStore.blockMap, server.blockStore.hash)
    ensures record.IsTombstone() ==> server.blockStore.blockMap == old(server.blockStore.blockMap)
    ensures !record.IsTombstone() ==>
      server.blockStore.blockMap == Uploaded(old(server.blockStore.blockMap), Chunks(dir[record.filename], blockSize), server.blockStore.hash)
  {
    ghost var m0 := server.blockStore.blockMap;
    var fatal := UploadFile(server, record, dir, blockSize);
    assert !fatal;
    if !record.IsTombstone() {
      var c := dir[record.filename];
      UploadedKeeps(m0, Chunks(c, blockSize), server.blockStore.hash);
      FileHashesHeld(m0, c, blockSize, server.blockStore.hash);
      if KeyedByContent(m0, server.blockStore.hash) {
        UploadedShape(m0, Chunks(c, blockSize), server.blockStore.hash);
      }
    }
  }

  /**
   * One iteration of the loop over the server's records: upload the client's
   * record when it is strictly newer, otherwise download the server's (into a
   * zero record when the client has none).
   */
  method SyncRemoteRecord(server: Server, local: map<string, FileMetaData>, remote: map<string, FileMetaData>,
                          k: string, dir: map<string, seq<byte>>, blockSize: nat)
    returns (entry: FileMetaData)
    requires blockSize > 0 && WellKeyed(local) && k in remote
    requires LiveRecordsAreFiles(local, dir, blockSize, server.blockStore.hash)
    requires k in server.metaStore.fileMetaMap && server.metaStore.fileMetaMap[k] == remote[k]
    modifies server.blockStore, server.metaStore
    ensures entry == SyncedEntry(local, remote, k)
    ensures server.metaStore.fileMetaMap == old(server.metaStore.fileMetaMap)[k := entry]
    ensures StoreKept(old(server.metaStore.fileMetaMap), old(server.blockStore.blockMap),
                      server.metaStore.fileMetaMap, server.blockStore.blockMap, server.blockStore.hash)
    ensures !(k in local && local[k].version > remote[k].version) ==>
      server.blockStore.blockMap == old(server.blockStore.blockMap)
    ensures k in local && local[k].version > remote[k].version && local[k].IsTombstone() ==>
      server.blockStore.blockMap == old(server.blockStore.blockMap)
    ensures k in local && local[k].version > remote[k].version && !local[k].IsTombstone() ==>
      k in dir && server.blockStore.blockMap ==
        Uploaded(old(server.blockStore.blockMap), Chunks(dir[k], blockSize), server.blockStore.hash)
  {
    ghost var meta0, blocks0 := server.metaStore.fileMetaMap, server.blockStore.blockMap;
    var remoteFileMeta := remote[k];
    if k in local {
      var localFileMeta := local[k];
      if localFileMeta.version > remoteFileMeta.version {
        UploadRecord(server, localFileMeta, dir, blockSize);
        entry := localFileMeta;
        assert meta0[k := entry] == AfterUpdate(meta0, localFileMeta);
      } else {
        var fileBlocks;
        entry, fileBlocks := DownloadFile(server, localFileMeta, remoteFileMeta);
        assert meta0[k := entry] == meta0;
      }
    } else {
      var fileBlocks;
      entry, fileBlocks := DownloadFile(server, FileMetaData("", 0, []), remoteFileMeta);
      assert meta0[k := entry] == meta0;
    }
    if BlocksAvailable(meta0, blocks0, server.blockStore.hash) {
      if entry != meta0[k] && !entry.IsTombstone() {
        assert HashesHeld(entry.blockHashList, server.blockStore.blockMap, server.blockStore.hash);
      } else if !entry.IsTombstone() {
        assert HashesHeld(meta0[k].blockHashList, blocks0, server.blockStore.hash);
      }
      AvailableAfterReplace(meta0, blocks0, server.blockStore.blockMap, k, entry, server.blockStore.hash);
    }
  }

  /** The client's index once the server's names outside `pending` are synced. */
  function IndexPartlySynced(local: map<string, FileMetaData>, remote: map<string, FileMetaData>, pending: set<string>): map<string, FileMetaData> {
    map k | k in local.Keys + (remote.Keys - pending) ::
      if k in remote && k !in pending then SyncedEntry(local, remote, k) else local[k]
  }

  /** The server's records once its names outside `pending` are synced. */
  function RemotePartlySynced(local: map<string, FileMetaData>, remote: map<string, FileMetaData>, pending: set<string>): map<string, FileMetaData> {
    map k | k in remote.Keys :: if k in pending then remote[k] else SyncedEntry(local, remote, k)
  }

  lemma PartlySyncedStep(local: map<string, FileMetaData>, remote: map<string, FileMetaData>, pending: set<string>, k: string)
    requires k in pending && pending <= remote.Keys
    ensures IndexPartlySynced(local, remote, pending)[k := SyncedEntry(local, remote, k)] ==
      IndexPartlySynced(local, remote, pending - {k})
    ensures RemotePartlySynced(local, remote, pending)[k := SyncedEntry(local, remote, k)] ==
      RemotePartlySynced(local, remote, pending - {k})
    ensures k in RemotePartlySynced(local, remote, pending) && RemotePartlySynced(local, remote, pending)[k] == remote[k]
  {
  }

  /** Before the loop nothing is synced; after it, everything is. */
  lemma PartlySyncedEnds(local: map<string, FileMetaData>, remote: map<string, FileMetaData>)
    ensures IndexPartlySynced(local, remote, remote.Keys) == local
    ensures RemotePartlySynced(local, remote, remote.Keys) == remote
    ensures IndexPartlySynced(local, remote, {}) == SyncedIndex(local, remote)
    ensures RemotePartlySynced(local, remote, {}) == RemoteSynced(local, remote)
  {
  }

  /** The loop over the server's records. */
  method SyncRemoteFiles(server: Server, local: map<string, FileMetaData>, remote: map<string, FileMetaData>,
                         dir: map<string, seq<byte>>, blockSize: nat)
    returns (fileMetaMap: map<string, FileMetaData>)
    requires blockSize > 0 && WellKeyed(local)
    requires LiveRecordsAreFiles(local, dir, blockSize, server.blockStore.hash)
    requires server.metaStore.fileMetaMap == remote
    modifies server.blockStore, server.metaStore
    ensures fileMetaMap == SyncedIndex(local, remote)
    ensures server.metaStore.fileMetaMap == RemoteSynced(local, remote)
    ensures StoreKept(remote, old(server.blockStore.blockMap),
                      server.metaStore.fileMetaMap, server.blockStore.blockMap, server.blockStore.hash)
  {
    ghost var blocks0 := server.blockStore.blockMap;
    fileMetaMap := local;
    var pending := remote.Keys;
    PartlySyncedEnds(local, remote);
    while pending != {}
      invariant pending <= remote.Keys
      invariant fileMetaMap == IndexPartlySynced(local, remote, pending)
      invariant server.metaStore.fileMetaMap == RemotePartlySynced(local, remote, pending)
      invariant StoreKept(remote, blocks0, server.metaStore.fileMetaMap, server.blockStore.blockMap, server.blockStore.hash)
      decreases pending
    {
      var remoteFilename :| remoteFilename in pending;
      PartlySyncedStep(local, remote, pending, remoteFilename);
      ghost var meta1, blocks1 := server.metaStore.fileMetaMap, server.blockStore.blockMap;
      var entry := SyncRemoteRecord(server, local, remote, remoteFilename, dir, blockSize);
      StoreKeptTrans(remote, blocks0, meta1, blocks1, server.metaStore.fileMetaMap, server.blockStore.blockMap, server.blockStore.hash);
      fileMetaMap := fileMetaMap[remoteFilename := entry];
      pending := pending - {remoteFilename};
    }
  }

  /** `base`, with the records of `extra` under names outside `pending` that `base` lacks added. */
  function AddedWhereMissing(base: map<string, FileMetaData>, extra: map<string, FileMetaData>, pending: set<string>): map<string, FileMetaData> {
    map k | k in base.Keys + (extra.Keys - pending) :: if k in base then base[k] else extra[k]
  }

  lemma AddedWhereMissingStep(base: map<string, FileMetaData>, extra: map<string, FileMetaData>, pending: set<string>, k: string)
    requires k in pending && k in extra
    ensures k in base ==> AddedWhereMissing(base, extra, pending) == AddedWhereMissing(base, extra, pending - {k})
    ensures k !in base ==> k !in AddedWhereMissing(base, extra, pending)
    ensures k !in base ==> AddedWhereMissing(base, extra, pending)[k := extra[k]] == AddedWhereMissing(base, extra, pending - {k})
  {
  }

  /**
   * The server's records after both loops are the synced index: the synced
   * records of the names it had, and the client's for the names it lacked.
   */
  lemma BothLoopsSync(local: map<string, FileMetaData>, remote: map<string, FileMetaData>)
    ensures AddedWhereMissing(RemoteSynced(local, remote), SyncedIndex(local, remote), {}) == SyncedIndex(local, remote)
  {
  }

  /** The loop over the client's records the server did not have: each is uploaded. */
  method UploadLocalOnlyFiles(server: Server, fileMetaMap: map<string, FileMetaData>, remote: map<string, FileMetaData>,
                              dir: map<string, seq<byte>>, blockSize: nat)
    requires blockSize > 0 && WellKeyed(fileMetaMap)
    requires forall k :: k in fileMetaMap && k !in remote && !fileMetaMap[k].IsTombstone() ==>
      k in dir && fileMetaMap[k].blockHashList == HashesOf(Chunks(dir[k], blockSize), server.blockStore.hash)
    requires server.metaStore.fileMetaMap.Keys == remote.Keys
    modifies server.blockStore, server.metaStore
    ensures server.metaStore.fileMetaMap == AddedWhereMissing(old(server.metaStore.fileMetaMap), fileMetaMap, {})
    ensures StoreKept(old(server.metaStore.fileMetaMap), old(server.blockStore.blockMap),
                      server.metaStore.fileMetaMap, server.blockStore.blockMap, server.blockStore.hash)
  {
    ghost var meta0, blocks0 := server.metaStore.fileMetaMap, server.blockStore.blockMap;
    var pending := fileMetaMap.Keys;
    assert AddedWhereMissing(meta0, fileMetaMap, pending) == meta0;
    while pending != {}
      invariant pending <= fileMetaMap.Keys
      invariant server.metaStore.fileMetaMap == AddedWhereMissing(meta0, fileMetaMap, pending)
      invariant StoreKept(meta0, blocks0, server.metaStore.fileMetaMap, server.blockStore.blockMap, server.blockStore.hash)
      decreases pending
    {
      var localFilename :| localFilename in pending;
      AddedWhereMissingStep(meta0, fileMetaMap, pending, localFilename);
      if localFilename !in remote {
        ghost var meta1, blocks1 := server.metaStore.fileMetaMap, server.blockStore.blockMap;
        var localFileMeta := fileMetaMap[localFilename];
        UploadRecord(server, localFileMeta, dir, blockSize);
        if BlocksAvailable(meta1, blocks1, server.blockStore.hash) {
          AvailableAfterReplace(meta1, blocks1, server.blockStore.blockMap, localFilename, localFileMeta, server.blockStore.hash);
        }
        StoreKeptTrans(meta0, blocks0, meta1, blocks1, server.metaStore.fileMetaMap, server.blockStore.blockMap, server.blockStore.hash);
      }
      pending := pending - {localFilename};
    }
  }

  /**
   * The middle of `ClientSync`: fetch the server's records, then sync the
   * detected index against them in both loops.
   */
  method SyncDetected(server: Server, local: map<string, FileMetaData>, dir: map<string, seq<byte>>, blockSize: nat)
    returns (fileMetaMap: map<string, FileMetaData>)
    requires blockSize > 0
    requires WellKeyed(local) && WellKeyed(server.metaStore.fileMetaMap)
    requires LiveRecordsAreFiles(local, dir, blockSize, server.blockStore.hash)
    modifies server.blockStore, server.metaStore
    ensures fileMetaMap == SyncedIndex(local, old(server.metaStore.fileMetaMap))
    ensures server.metaStore.fileMetaMap == fileMetaMap
    ensures StoreKept(old(server.metaStore.fileMetaMap), old(server.blockStore.blockMap),
                      server.metaStore.fileMetaMap, server.blockStore.blockMap, server.blockStore.hash)
  {
    ghost var remote0 := server.metaStore.fileMetaMap;
    var remoteFileMetaMap, err := server.GetFileInfoMap(true, map[]);
    assert remoteFileMetaMap == remote0;

    fileMetaMap := SyncRemoteFiles(server, local, remoteFileMetaMap, dir, blockSize);
    UnsyncedRecordsAreFiles(local, remote0, dir, blockSize, server.blockStore.hash);
    UploadLocalOnlyFiles(server, fileMetaMap, remoteFileMetaMap, dir, blockSize);
    BothLoopsSync(local, remote0);
  }

  /**
   * The part of `ClientSync` after a well-formed index is read: detect local
   * changes, sync against the server's records, write the index.
   */
  method SyncIndex(server: Server, index: map<string, FileMetaData>, dir: map<string, seq<byte>>, blockSize: nat)
    returns (text: string, ghost order: seq<string>)
    requires blockSize > 0
    requires WellKeyed(index) && WellKeyed(server.metaStore.fileMetaMap)
    modifies server.blockStore, server.metaStore
    ensures var synced := SyncedIndex(Detect(index, LocalHashLists(dir, blockSize, server.blockStore.hash)),
                                      old(server.metaStore.fileMetaMap));
      server.metaStore.fileMetaMap == synced &&
      Enumerates(order, synced.Keys) && text == IndexText(synced, order)
    ensures StoreKept(old(server.metaStore.fileMetaMap), old(server.blockStore.blockMap),
                      server.metaStore.fileMetaMap, server.blockStore.blockMap, server.blockStore.hash)
  {
    var h := server.blockStore.hash;  // the client hashes with the same digest as the store
    var fileMetaMap := UpdateFileMetaMapWithLocalFiles(index, dir, blockSize, h);
    DetectKeys(index, LocalHashLists(dir, blockSize, h));
    DetectedRecordsAreFiles(index, dir, blockSize, h);
    fileMetaMap := SyncDetected(server, fileMetaMap, dir, blockSize);
    var newServerFileMap, err := server.GetFileInfoMap(false, map[]);
    text, order := WriteIndexFile(fileMetaMap);
  }

  /**
   * `ClientSync`: a malformed index aborts the run before anything is sent.
   * Otherwise the index written back and the server's records both become
   * the synced index of the detected local index against the server's
   * records: each name keeps the client's record when strictly newer, the
   * server's otherwise. The block store only grows, stays keyed by content
   * if it was, and keeps every live record's blocks available if it did.
   * The index text is returned; `order` is the map order it was written in.
   */
  method ClientSync(server: Server, indexText: string, dir: map<string, seq<byte>>, blockSize: nat)
    returns (r: Result<string>, ghost order: seq<string>)
    requires blockSize > 0
    requires WellKeyed(server.metaStore.fileMetaMap)
    modifies server.blockStore, server.metaStore
    ensures r.Failure? <==> ParseIndex(indexText).Failure?
    ensures r.Failure? ==>
      r.error == "Invalid index.txt" &&
      server.metaStore.fileMetaMap == old(server.metaStore.fileMetaMap) &&
      server.blockStore.blockMap == old(server.blockStore.blockMap)
    ensures r.Success? ==>
      var synced := SyncedIndex(Detect(ParseIndex(indexText).value, LocalHashLists(dir, blockSize, server.blockStore.hash)),
                                old(server.metaStore.fileMetaMap));
      server.metaStore.fileMetaMap == synced &&
      Enumerates(order, synced.Keys) && r.value == IndexText(synced, order)
    ensures Extends(server.blockStore.blockMap, old(server.blockStore.blockMap))
    ensures KeyedByContent(old(server.blockStore.blockMap), server.blockStore.hash) ==>
      KeyedByContent(server.blockStore.blockMap, server.blockStore.hash)
    ensures BlocksAvailable(old(server.metaStore.fileMetaMap), old(server.blockStore.blockMap), server.blockStore.hash) ==>
      BlocksAvailable(server.metaStore.fileMetaMap, server.blockStore.blockMap, server.blockStore.hash)
  {
    var read := ReadIndexFile(indexText);
    IndexOfLinesShape(ScanLines(indexText));
    if read.Failure? {
      return Failure(read.error), [];
    }
    var text;
    text, order := SyncIndex(server, read.value, dir, blockSize);
    r := Success(text);
  }
}
