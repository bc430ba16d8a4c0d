/**
 * The server facade (src/surfstore/SurfstoreServer.go): it forwards each call
 * to the block store or the metadata store and drops their errors, except that
 * it refuses `GetFileInfoMap` when the flag it is given is false.
 */
module Facade {
  import opened Interfaces
  import opened Meta
  import opened Blocks

  class Server {
    const blockStore: BlockStore
    const metaStore: MetaStore

    /** A server over an empty block store and an empty metadata store. */
    constructor NewSurfstoreServer(hash: Hasher)
      ensures fresh(blockStore) && fresh(metaStore)
      ensures blockStore.hash == hash
      ensures blockStore.blockMap == map[] && metaStore.fileMetaMap == map[]
    {
      blockStore := new BlockStore(hash);
      metaStore := new MetaStore();
    }

    /**
     * With `succ` true, the metadata store's copy into the caller's map; with
     * `succ` false, an error, the store unread and the caller's map untouched.
     */
    method GetFileInfoMap(succ: bool, serverFileInfoMap: map<string, FileMetaData>)
      returns (out: map<string, FileMetaData>, err: Status)
      ensures succ ==> out == serverFileInfoMap + metaStore.fileMetaMap && err == Nil
      ensures !succ ==> out == serverFileInfoMap && err == Error("Cannot find file")
    {
      if succ {
        var e: Status;
        out, e := metaStore.GetFileInfoMap(succ, serverFileInfoMap);
        err := Nil;
      } else {
        out, err := serverFileInfoMap, Error("Cannot find file");
      }
    }

    /** The metadata store's update, with its error dropped. */
    method UpdateFile(fileMetaData: FileMetaData, latestVersion: int)
      returns (latestVersionOut: int, err: Status)
      modifies metaStore
      ensures metaStore.fileMetaMap == AfterUpdate(old(metaStore.fileMetaMap), fileMetaData)
      ensures latestVersionOut == ReportedVersion(old(metaStore.fileMetaMap), fileMetaData, latestVersion)
      ensures err == Nil
    {
      var e: Status;
      latestVersionOut, e := metaStore.UpdateFile(fileMetaData, latestVersion);
      err := Nil;
    }

    /** The block store's lookup, with its error dropped: a miss leaves `blockData` untouched. */
    method GetBlock(blockHash: string, blockData: Block) returns (out: Block, err: Status)
      ensures blockHash in blockStore.blockMap ==> out == blockStore.blockMap[blockHash]
      ensures blockHash !in blockStore.blockMap ==> out == blockData
      ensures err == Nil
    {
      var e: Status;
      out, e := blockStore.GetBlock(blockHash, blockData);
      err := Nil;
    }

    /** The block store's put, with its error dropped: a refused empty block still answers nil. */
    method PutBlock(blockData: Block) returns (succ: bool, err: Status)
      modifies blockStore
      ensures blockStore.blockMap == AfterPut(old(blockStore.blockMap), blockData, blockStore.hash)
      ensures succ <==> blockData.size != 0
      ensures err == Nil
    {
      var e: Status;
      succ, e := blockStore.PutBlock(blockData);
      err := Nil;
    }

    /** The block store's membership filter. */
    method HasBlocks(blockHashesIn: seq<string>, blockHashesOut: seq<string>)
      returns (out: seq<string>, err: Status)
      ensures out == blockHashesOut + Present(blockHashesIn, blockStore.blockMap)
      ensures err == Nil
    {
      var e: Status;
      out, e := blockStore.HasBlocks(blockHashesIn, blockHashesOut);
      err := Nil;
    }
  }
}
