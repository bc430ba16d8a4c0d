/**
 * The server's metadata store (src/surfstore/MetaStore.go): a map from file
 * name to the latest metadata record, guarded by "a higher version wins".
 */
module Meta {
  import opened Interfaces

  /**
   * The store's map after `UpdateFile(md)`: a name seen for the first time is
   * recorded as given; a known name is replaced only by a strictly higher version.
   */
  function AfterUpdate(m: map<string, FileMetaData>, md: FileMetaData): (r: map<string, FileMetaData>)
    ensures r.Keys == m.Keys + {md.filename}
    ensures forall k :: k in m && k != md.filename ==> r[k] == m[k]
    ensures forall k :: k in m ==> r[k].version >= m[k].version
    ensures md.filename !in m ==> r[md.filename] == md
    ensures md.filename in m ==>
      r[md.filename] == (if md.version > m[md.filename].version then md else m[md.filename])
  {
    if md.filename in m && md.version <= m[md.filename].version then m
    else m[md.filename := md]
  }

  /** The value `UpdateFile` leaves in `*latestVersion`, which held `prior` before the call. */
  function ReportedVersion(m: map<string, FileMetaData>, md: FileMetaData, prior: int): int {
    if md.filename !in m then 1
    else if md.version > m[md.filename].version then md.version
    else prior
  }

  /** The file names a series of records mentions. */
  function Names(mds: seq<FileMetaData>): set<string>
    decreases |mds|
  {
    if mds == [] then {} else {mds[0].filename} + Names(mds[1..])
  }

  /** The store's map after a series of `UpdateFile` calls, in order. */
  function AfterUpdates(m: map<string, FileMetaData>, mds: seq<FileMetaData>): (r: map<string, FileMetaData>)
    ensures r.Keys == m.Keys + Names(mds)
    decreases |mds|
  {
    if mds == [] then m else AfterUpdates(AfterUpdate(m, mds[0]), mds[1..])
  }

  /** Across any series of updates, no entry disappears and no stored version decreases. */
  lemma {:induction false} VersionsNeverDecrease(m: map<string, FileMetaData>, mds: seq<FileMetaData>, k: string)
    requires k in m
    ensures k in AfterUpdates(m, mds)
    ensures AfterUpdates(m, mds)[k].version >= m[k].version
    decreases |mds|
  {
    if mds != [] {
      VersionsNeverDecrease(AfterUpdate(m, mds[0]), mds[1..], k);
    }
  }

  /** Updates that never name `k` leave its entry (or its absence) as it was. */
  lemma {:induction false} UpdatesOfOtherNamesLeaveEntry(m: map<string, FileMetaData>, mds: seq<FileMetaData>, k: string)
    requires forall i :: 0 <= i < |mds| ==> mds[i].filename != k
    ensures k in AfterUpdates(m, mds) <==> k in m
    ensures k in m ==> AfterUpdates(m, mds)[k] == m[k]
    decreases |mds|
  {
    if mds != [] {
      UpdatesOfOtherNamesLeaveEntry(AfterUpdate(m, mds[0]), mds[1..], k);
    }
  }

  /**
   * Two writers proposing the same version of a file the store has below that
   * version: the first is stored, and the second changes nothing, neither the
   * store nor the version reported back to its writer.
   */
  lemma FirstOfEqualVersionsWins(m: map<string, FileMetaData>, a: FileMetaData, b: FileMetaData, prior: int)
    requires a.filename == b.filename && a.version == b.version
    requires a.filename in m ==> m[a.filename].version < a.version
    ensures AfterUpdates(m, [a, b])[a.filename] == a
    ensures AfterUpdate(AfterUpdate(m, a), b) == AfterUpdate(m, a)
    ensures ReportedVersion(AfterUpdate(m, a), b, prior) == prior
  {
    var m1 := AfterUpdate(m, a);
    assert [a, b][1..] == [b];
    assert [b][1..] == [];
    assert AfterUpdates(m, [a, b]) == AfterUpdates(m1, [b]);
    assert AfterUpdates(m1, [b]) == AfterUpdates(AfterUpdate(m1, b), []);
  }

  /** The store files every record under its own name, so it stays keyed by name. */
  lemma AfterUpdateKeepsKeyed(m: map<string, FileMetaData>, md: FileMetaData)
    requires WellKeyed(m)
    ensures WellKeyed(AfterUpdate(m, md))
  {
  }

  /** The metadata store: one record per file name ever seen. */
  class MetaStore {
    var fileMetaMap: map<string, FileMetaData>

    constructor ()
      ensures fileMetaMap == map[]
    {
      fileMetaMap := map[];
    }

    /**
     * Copies every stored record into the caller's map `serverFileInfoMap`:
     * the store's records win on its own names, other entries of the caller's
     * map stay. The first argument is ignored.
     */
    method GetFileInfoMap(ignore: bool, serverFileInfoMap: map<string, FileMetaData>)
      returns (out: map<string, FileMetaData>, err: Status)
      ensures out == serverFileInfoMap + fileMetaMap
      ensures err == Nil
    {
      out := serverFileInfoMap;
      var pending := fileMetaMap.Keys;
      while pending != {}
        invariant pending <= fileMetaMap.Keys
        invariant out.Keys == serverFileInfoMap.Keys + (fileMetaMap.Keys - pending)
        invariant forall k :: k in fileMetaMap && k !in pending ==> out[k] == fileMetaMap[k]
        invariant forall k :: k in serverFileInfoMap && (k !in fileMetaMap || k in pending) ==>
          out[k] == serverFileInfoMap[k]
        decreases pending
      {
        var key :| key in pending;
        out := out[key := fileMetaMap[key]];
        pending := pending - {key};
      }
      err := Nil;
    }

    /**
     * Records `fileMetaData` under its file name if the name is new or the
     * version is strictly higher than the stored one; a lower version is an
     * error and an equal version a silent no-op. `latestVersion` models the
     * `*latestVersion` out-pointer: its value before and after the call.
     */
    method UpdateFile(fileMetaData: FileMetaData, latestVersion: int)
      returns (latestVersionOut: int, err: Status)
      modifies this
      ensures fileMetaMap == AfterUpdate(old(fileMetaMap), fileMetaData)
      ensures latestVersionOut == ReportedVersion(old(fileMetaMap), fileMetaData, latestVersion)
      ensures fileMetaData.filename !in old(fileMetaMap) ==>
        fileMetaMap[fileMetaData.filename] == fileMetaData && latestVersionOut == 1 && err == Nil
      ensures fileMetaData.filename in old(fileMetaMap) ==>
        var stored := old(fileMetaMap)[fileMetaData.filename];
        (fileMetaData.version > stored.version ==>
           fileMetaMap[fileMetaData.filename] == fileMetaData &&
           latestVersionOut == fileMetaData.version && err == Nil) &&
        (fileMetaData.version < stored.version ==>
           fileMetaMap == old(fileMetaMap) && latestVersionOut == latestVersion &&
           err == Error("trying to update an older version")) &&
        (fileMetaData.version == stored.version ==>
           fileMetaMap == old(fileMetaMap) && latestVersionOut == latestVersion && err == Nil)
    {
      var fn := fileMetaData.filename;
      latestVersionOut := latestVersion;
      if fn in fileMetaMap {
        var fmd := fileMetaMap[fn];
        if fileMetaData.version > fmd.version {
          fileMetaMap := fileMetaMap[fn := fileMetaData];
          latestVersionOut := fileMetaData.version;
        } else if fileMetaData.version < fmd.version {
          return latestVersionOut, Error("trying to update an older version");
        }
      } else {
        fileMetaMap := fileMetaMap[fn := fileMetaData];
        latestVersionOut := 1;
      }
      err := Nil;
    }
  }
}
