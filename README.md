# surfstore in Dafny

This project models the core of surfstore, a Dropbox-style block-sync service, and proves properties of that model. Each client keeps a directory and an `index.txt` file. The index holds one record per file: its name, its version and the hashes of its blocks. Each sync run does the following:

1. It reads the index.
2. It detects local changes: a changed file gets a version bump, a deleted file gets the tombstone hash list `["0"]`, and a new file gets version 1.
3. It compares every record with the server's record. The higher version wins; on a tie the server's record is taken.
4. It uploads missing blocks and records, then writes the index back.

The server has three parts:
- a content-addressed block store keyed by the SHA-256 digest of a block's data;
- a metadata store, in which a strictly higher version replaces a record, a lower one is rejected, and an equal one is silently ignored;
- a facade that forwards calls to the two stores and drops their errors.

A JavaScript test harness checks a client directory against its index with its own index reader and its own chunker. It compares file contents byte by byte.

Modules (one per source unit):

- `Wrappers`: `Option` and `Result`.
- `Interfaces` (`SurfstoreInterfaces.go`): `Block`, `FileMetaData`, the tombstone sentinel, and the digest as a `Hasher` parameter.
- `Meta` (`MetaStore.go`): the `MetaStore` class and the pure `AfterUpdate` rule that specifies it.
- `Blocks` (`BlockStore.go`): the `BlockStore` class and its `AfterPut` and `Present` specifications.
- `Facade` (`SurfstoreServer.go`): the `Server` class over one block store and one metadata store.
- `Chunking`, `GoText`, `IndexFile`, `LocalChanges`, `Transfer`, `Sync` (`SurfstoreClientUtils.go`):
  - `Chunking`: the chunking loop;
  - `GoText`: the Go library string functions the index format relies on;
  - `IndexFile`: the index reader and writer;
  - `LocalChanges`: `updateFileMetaMapWithLocalFiles`;
  - `Transfer`: `uploadFile` and `downloadFile`;
  - `Sync`: `ClientSync`.
- `TestHarness` (`testing/libs/server.js`): the harness's `readIndexFile` pipeline and `isIndexFileHashesMatchLocalFileHashes`.
- `TestUtils` (`tester/testing/libs/utils.js`): `areBuffersEqual`.

The client's directory is a `map<string, seq<byte>>` from file name to content, and it includes `index.txt`. The index file's text is a `string` parameter. A file write becomes a returned value.

Go out-pointers are modelled as parameter pairs:
- the value before the call is an in-parameter;
- the value after the call is an out-parameter;
- the Go `error` becomes `Interfaces.Status`.

Go map iteration order is unspecified. Where it shows in the output (the line order of the written index), the method returns the order it used as a ghost `order`. Its contract holds for that order, whatever it is.

## Model

| member | source | states |
|---|---|---|
| Interfaces.Block.Hash | src/surfstore/SurfstoreInterfaces.go:17-29 | The hash depends on the data only. It is a 64-digit lower-case hex digest whenever the hasher yields such digests. |
| Interfaces.EqualDataEqualHash | src/surfstore/SurfstoreInterfaces.go:17-19 | Blocks with equal data have equal hashes, whatever size they declare. |
| Interfaces.NewBlock | src/surfstore/SurfstoreInterfaces.go:12-15 | `NewBlock(n)` has `Size() == n` and all bytes zero. Its declared size is 0, because the literal sets only the data. |
| Interfaces.DigestIsNotTombstone | src/surfstore/SurfstoreInterfaces.go:25-29 | A hex SHA-256 digest is never the tombstone sentinel "0". |
| Interfaces.FileMetaData.IsTombstone | src/surfstore/SurfstoreInterfaces.go:41-43 | True exactly when the hash list is `["0"]`. |
| Interfaces.FileMetaData.MarkTombstone | src/surfstore/SurfstoreInterfaces.go:37-39 | The result is a tombstone with the same name and version. |
| Meta.AfterUpdate | src/surfstore/MetaStore.go:20-41 | The map after `UpdateFile` (names are the old names plus the record's). Other entries are unchanged and no version decreases. A new name stores the record verbatim; a known name is replaced only by a strictly higher version. |
| Meta.VersionsNeverDecrease | src/surfstore/MetaStore.go:20-41 | Over any series of updates, no entry disappears and no stored version decreases. |
| Meta.UpdatesOfOtherNamesLeaveEntry | src/surfstore/MetaStore.go:23-39 | Updates that never name `k` leave `k`'s entry, or its absence, as it was. |
| Meta.FirstOfEqualVersionsWins | src/surfstore/MetaStore.go:28-35 | Two proposals of the same new version: the first is stored; the second leaves the store unchanged and its writer's `*latestVersion` at whatever value it held before. |
| Meta.AfterUpdateKeepsKeyed | src/surfstore/MetaStore.go:28-37 | Each record is stored under its own file name, so the map stays keyed by name. |
| Meta.MetaStore.constructor | src/surfstore/SurfstoreServer.go:70 | A new store is empty. |
| Meta.MetaStore.GetFileInfoMap | src/surfstore/MetaStore.go:12-18 | The caller's map afterwards is `serverFileInfoMap + fileMetaMap`: store records win on store names and other entries stay. The error is nil and the store is unchanged. |
| Meta.MetaStore.UpdateFile | src/surfstore/MetaStore.go:20-41 | The new map is `AfterUpdate`. A new name stores the record and reports version 1. A higher version replaces and reports the new version. A lower version errors with "trying to update an older version" and changes nothing. An equal version changes nothing and returns no error. |
| Blocks.AfterPut | src/surfstore/BlockStore.go:29-46 | Declared size 0 leaves the map unchanged. Otherwise the block is stored under the digest of its data and no other key changes. |
| Blocks.PutIsIdempotent | src/surfstore/BlockStore.go:39-41 | Putting a block twice gives the same map as putting it once. |
| Blocks.PresentCounts | src/surfstore/BlockStore.go:48-57 | Each held hash occurs in the filtered list exactly as often as in the input, and no other hash occurs. |
| Blocks.BlockStore.constructor | src/surfstore/SurfstoreServer.go:69 | A new store is empty. |
| Blocks.BlockStore.GetBlock | src/surfstore/BlockStore.go:14-27 | A present hash gives the stored block and nil. An absent hash gives "block not found" and leaves the out-block untouched. |
| Blocks.BlockStore.PutBlock | src/surfstore/BlockStore.go:29-46 | The new map is `AfterPut`. `succ` holds exactly when the declared size is non-zero, and the error is "empty block" otherwise. After a successful put the block's digest is held. |
| Blocks.BlockStore.HasBlocks | src/surfstore/BlockStore.go:48-57 | The output is the prior output followed by the input hashes the store holds, in input order with repetitions kept. The error is nil. |
| Blocks.BlockStore.HasBlock | src/surfstore/BlockStore.go:59-68 | `succ` holds exactly when the hash is a key. The error is nil. |
| Facade.Server.NewSurfstoreServer | src/surfstore/SurfstoreServer.go:68-76 | Fresh, empty block and metadata stores. |
| Facade.Server.GetFileInfoMap | src/surfstore/SurfstoreServer.go:16-27 | With `succ` true: the meta store's copy and nil. With `succ` false: "Cannot find file", and the caller's map untouched. |
| Facade.Server.UpdateFile | src/surfstore/SurfstoreServer.go:29-36 | Exactly the meta store's effect and reported version, with nil even for a rejected older version. |
| Facade.Server.GetBlock | src/surfstore/SurfstoreServer.go:38-45 | The block store's lookup. A miss leaves the out-block untouched, and the error is always nil. |
| Facade.Server.PutBlock | src/surfstore/SurfstoreServer.go:47-54 | Exactly the block store's effect, including a refused empty block, with nil. |
| Facade.Server.HasBlocks | src/surfstore/SurfstoreServer.go:56-63 | The block store's filter, with nil. |
| Chunking.HashBlockList | src/surfstore/SurfstoreClientUtils.go:290-313 | The chunking loop yields the digests of `Chunks(content, B)`, in order. |
| Chunking.ChunksShape | src/surfstore/SurfstoreClientUtils.go:297-312 | An empty file is one empty chunk. A file of size S > 0 gives ceil(S/B) chunks of at most B bytes. The chunks concatenate back to the file. |
| Chunking.SlicesShape | src/surfstore/SurfstoreClientUtils.go:305-312 | Every slice is non-empty and at most B bytes, and all but the last are exactly B bytes. |
| Chunking.SliceAt | src/surfstore/SurfstoreClientUtils.go:305-311 | Block `i` is bytes `[i*B, min((i+1)*B, S))`. |
| Chunking.CeilDivIsQuotient | src/surfstore/SurfstoreClientUtils.go:293 | The block count is the integer ceiling `(S + B - 1) / B`. |
| Chunking.CurrentBlockSize | src/surfstore/SurfstoreClientUtils.go:306 | The size of block `i` is `min(B, S - i*B)`. |
| GoText.SplitJoin | src/surfstore/SurfstoreClientUtils.go:193-198 | `strings.Split` undoes joining when no piece holds the separator. |
| GoText.ScanTerminated | src/surfstore/SurfstoreClientUtils.go:190-191 | `bufio.ScanLines` gives back newline-terminated lines, empty ones included, that hold no newline and do not end in a carriage return. |
| GoText.TrimSpaceOfBlankEnded | src/surfstore/SurfstoreClientUtils.go:338 | `strings.TrimSpace` removes the trailing blank of a line that otherwise starts and ends without white space. |
| GoText.AtoiItoa | src/surfstore/SurfstoreClientUtils.go:334 | `Atoi(Itoa(v)) == v` for every integer, so the version written at this line is the one read back by `strconv.Atoi` in readIndexFile. |
| IndexFile.ParseLine | src/surfstore/SurfstoreClientUtils.go:193-205 | A line is a record exactly when it has exactly three comma-separated parts. |
| IndexFile.IndexOfLinesShape | src/surfstore/SurfstoreClientUtils.go:191-209 | Reading fails exactly when some line does not have exactly three parts. Otherwise every name read is a key, every key is a name read, and the map is keyed by name. |
| IndexFile.LastLineWins | src/surfstore/SurfstoreClientUtils.go:205 | For lines sharing a name, the last one's record is kept. |
| IndexFile.ReadIndexFile | src/surfstore/SurfstoreClientUtils.go:173-216 | The scanner loop computes `ParseIndex(text)`: an "Invalid index.txt" failure or the map of the records read. |
| IndexFile.FormatLine | src/surfstore/SurfstoreClientUtils.go:328-338 | The line-building loop yields `name,version,h1 h2 ... hn`. |
| IndexFile.WriteIndexFile | src/surfstore/SurfstoreClientUtils.go:319-346 | The text written is one line per record, each newline-terminated, in an order that lists every key exactly once. |
| IndexFile.IndexTextSnoc | src/surfstore/SurfstoreClientUtils.go:339 | Each record appends its line and a newline to the file. |
| IndexFile.ParseLineOf | src/surfstore/SurfstoreClientUtils.go:333-338 | A line written here reads back, through the parsing in readIndexFile, as its record (for records without commas, newlines, edge blanks or empty hashes). |
| IndexFile.LineOfIsOneLine | src/surfstore/SurfstoreClientUtils.go:333-339 | A written line holds no newline and does not end in a carriage return. |
| IndexFile.IndexRoundTrip | src/surfstore/SurfstoreClientUtils.go:327-343 | Reading back, with readIndexFile, the text written here for a map, in any key order, gives the map back. |
| LocalChanges.GetLocalFileHashBlockListMap | src/surfstore/SurfstoreClientUtils.go:270-317 | One hash list per file except `index.txt`: the digests of its chunks. |
| LocalChanges.LocalHashLists | src/surfstore/SurfstoreClientUtils.go:270-317 | Every local hash list is non-empty and made of digests. |
| LocalChanges.RefreshHashList | src/surfstore/SurfstoreClientUtils.go:229-235 | The element-wise loop leaves the local list and reports a change exactly when the lists differ. |
| LocalChanges.RefreshEntry | src/surfstore/SurfstoreClientUtils.go:222-251 | One entry of the first loop: refreshed when the file is present, tombstoned otherwise. |
| LocalChanges.UpdateFileMetaMapWithLocalFiles | src/surfstore/SurfstoreClientUtils.go:218-268 | The new index is `Detect(index, local hash lists)`. |
| LocalChanges.DetectChanges | src/surfstore/SurfstoreClientUtils.go:221-264 | The two loops compute `Detect`. |
| LocalChanges.DetectKeys | src/surfstore/SurfstoreClientUtils.go:254-264 | No entry is removed, every local file gets one, and the index stays keyed by name. |
| LocalChanges.DetectVersions | src/surfstore/SurfstoreClientUtils.go:223-263 | Changed list: the local list and version + 1. Unchanged list: the entry as it was. Missing file: a tombstone at version + 1, unless it is a tombstone already. New file: version 1 with its list. |
| LocalChanges.LiveEntriesAreLocal | src/surfstore/SurfstoreClientUtils.go:241-250 | Every entry that is not a tombstone names a local file. |
| LocalChanges.LiveEntriesAreLocalFiles | src/surfstore/SurfstoreClientUtils.go:223-250 | With digest hash lists, an entry is live exactly when its file is present, and it carries that file's list. |
| LocalChanges.DetectIsIdempotent | src/surfstore/SurfstoreClientUtils.go:218-268 | Detecting again against the same directory changes nothing. |
| Transfer.UploadedKeeps | src/surfstore/SurfstoreClientUtils.go:132-162 | Uploading keeps every stored block and stores every non-empty chunk under its digest. |
| Transfer.UploadedShape | src/surfstore/SurfstoreClientUtils.go:150-157 | A store keyed by content stays keyed by content, and every new block is one of the chunks. |
| Transfer.FileHashesHeld | src/surfstore/SurfstoreClientUtils.go:113-163 | After an upload every hash of the file is held, except the empty block's digest. |
| Transfer.EmptyBlockIsRefused | src/surfstore/SurfstoreClientUtils.go:116-130 | The client's empty block, declared with size 0, leaves every store unchanged. |
| Transfer.EmptyDigestOnlyByCollision | src/surfstore/BlockStore.go:31-41 | A store keyed by content holds the empty block's digest only if a non-empty block collides with it. |
| Transfer.UploadThenFetch | src/surfstore/SurfstoreClientUtils.go:354-363 | Without digest collisions, fetching an uploaded file's hash list gives back blocks that concatenate to the file. |
| Transfer.UploadFile | src/surfstore/SurfstoreClientUtils.go:92-171 | A tombstone only updates the metadata. A missing file is fatal and changes nothing. Otherwise every missing chunk is put before the metadata update. |
| Transfer.PutFileBlocks | src/surfstore/SurfstoreClientUtils.go:109-163 | The block loop leaves `Uploaded(store, Chunks(content, B))`. |
| Transfer.PutSlices | src/surfstore/SurfstoreClientUtils.go:132-162 | The `numBlocks` reads put exactly the missing slices. |
| Transfer.UploadSlice | src/surfstore/SurfstoreClientUtils.go:133-161 | One read at `Offset(i)` of `min(B, S - position)` bytes, put if missing. |
| Transfer.PutMissingBlock | src/surfstore/SurfstoreClientUtils.go:142-160 | Ask `HasBlock`, and put the block only when it is missing. |
| Transfer.DownloadFile | src/surfstore/SurfstoreClientUtils.go:354-370 | The local record becomes the remote record. The fetched blocks are those of its hash list, or none for a tombstone. |
| Sync.SyncedIndexShape | src/surfstore/SurfstoreClientUtils.go:44-64 | The index after sync covers both name sets and is keyed by name. Each shared name keeps the higher version, and it keeps the local record exactly when the local record is strictly newer or equal to the remote one. |
| Sync.SyncIsIdempotent | src/surfstore/SurfstoreClientUtils.go:44-64 | Syncing a synced index with itself changes nothing. |
| Sync.DetectedRecordsAreFiles | src/surfstore/SurfstoreClientUtils.go:218-268 | After detection, every live record names a file and carries the hashes of its chunks. |
| Sync.UnsyncedRecordsAreFiles | src/surfstore/SurfstoreClientUtils.go:59-64 | Every live local-only record names a file with matching hashes, so its upload cannot fail. |
| Sync.UploadRecord | src/surfstore/SurfstoreClientUtils.go:92-171 | The metadata update is `AfterUpdate`. A tombstone leaves the block store unchanged. A live record leaves it as `Uploaded` over exactly its file's chunks, so no stored block is lost and the record's hashes are held afterwards. |
| Sync.SyncRemoteRecord | src/surfstore/SurfstoreClientUtils.go:45-56 | One iteration of the remote loop: upload when the local record is strictly newer, otherwise take the remote record, and the server entry becomes the synced entry. A download, or the upload of a tombstone, leaves the block store unchanged. Uploading a live record stores exactly its file's chunks (`Uploaded`). |
| Sync.SyncRemoteFiles | src/surfstore/SurfstoreClientUtils.go:44-57 | The first loop leaves the synced index locally and the synced remote entries on the server. |
| Sync.BothLoopsSync | src/surfstore/SurfstoreClientUtils.go:44-64 | Adding the local-only records to the synced remote entries gives the whole synced index. |
| Sync.UploadLocalOnlyFiles | src/surfstore/SurfstoreClientUtils.go:59-64 | The second loop adds exactly the local-only records to the server. |
| Sync.SyncDetected | src/surfstore/SurfstoreClientUtils.go:35-64 | The client's map and the server's map both become the synced index. |
| Sync.SyncIndex | src/surfstore/SurfstoreClientUtils.go:28-74 | Detect, sync, write: the written text is the synced index, and the store keeps its blocks. |
| Sync.ClientSync | src/surfstore/SurfstoreClientUtils.go:21-75 | An unreadable index fails with "Invalid index.txt" and changes nothing. Otherwise the server's map and the written index are the synced index of the detected local state and the server's map. No block is lost, the store stays keyed by content, and every live record's blocks stay available. |
| TestHarness.JsTrimOfNewlineEnded | testing/libs/server.js:105 | `trim` removes the trailing newline of the file. |
| TestHarness.JsParseIntItoa | testing/libs/server.js:115 | `parseInt` reads back every version the client writes. |
| TestHarness.JsParseLine | testing/libs/server.js:107-117 | An empty line is skipped. A line with fewer than three parts throws. Otherwise it is a record named by the first part. |
| TestHarness.JsParseLines | testing/libs/server.js:106-118 | The `map` throws exactly when some line throws, and otherwise parses each line in place. |
| TestHarness.JsKeptShape | testing/libs/server.js:119 | The filter keeps exactly the records, in order. |
| TestHarness.JsReduceShape | testing/libs/server.js:120-123 | The reduction holds each record under its own name, and only names of records. |
| TestHarness.JsReduceLastWins | testing/libs/server.js:120-123 | For records sharing a name, the last one wins. |
| TestHarness.JsReadsEmptyIndex | testing/libs/server.js:102-126 | An empty index reads as no records. |
| TestHarness.JsParseLineOf | testing/libs/server.js:107-117 | The harness reads a line the client writes as that record. |
| TestHarness.JsReadsClientIndex | testing/libs/server.js:102-126 | For records both readers carry, the harness reads the client's whole index file as the client's map. |
| TestHarness.LiveRecords | testing/libs/server.js:130-132 | Tombstoned records are excluded, and only they are. |
| TestHarness.ReferenceChunks | testing/libs/server.js:143-149 | The harness chunker yields exactly the client's chunks. |
| TestHarness.HashesAgree | testing/libs/server.js:155-160 | The early-return loop agrees exactly when the hash list is the digests of the blocks. |
| TestHarness.CheckRecord | testing/libs/server.js:139-160 | No message exactly when the file exists and its hash list matches its chunks. Otherwise the first applicable message. |
| TestHarness.IsIndexFileHashesMatchLocalFileHashes | testing/libs/server.js:128-163 | It throws when the index is missing or unreadable. It returns null exactly when the live record count is the file count minus one and every live record matches its file. It gives the count message when the count is off, and otherwise the message of a failing record. |
| TestUtils.SameBuffersIsEquivalence | tester/testing/libs/utils.js:21-30 | Buffer equality is reflexive on buffers, symmetric and transitive. |
| TestUtils.AreBuffersEqual | tester/testing/libs/utils.js:16-31 | True exactly when both values are buffers with the same bytes. |

## Left out

- SHA-256 and hex encoding are not modelled. The digest is a function parameter (`Hasher`); `Digests(h)` states, where it is needed, that its results are 64 lower-case hex digits. Collision freedom is assumed only where a lemma names it (`Transfer.UploadThenFetch`).
- Interfaces.NewBlock: takes a `nat` size, so the panic of Go's `make([]byte, n)` for a negative `n` is not modelled.
- The field names do not agree across files: the `Block` struct declares only `Data`, while the block store and the client use `BlockData` and `BlockSize`. The model follows the uses: a block carries its data and a declared size. `NewBlock` leaves the declared size at zero.
- `HasBlock` is required by the interface but neither the server facade nor the RPC client defines it. The client's call is modelled as a direct call to `BlockStore.HasBlock`.
- Filesystem I/O is not modelled: directory listing, open, read, write, create, truncate, `writeFile` and file removal. Contents and the index text are parameters, and the new index text is a returned value.
  - Downloads do not update the directory in the model.
  - The delete branch of `writeFile` is not modelled. It tests an empty list and indexes its first element, so it can never remove a file.
  - The directory is a flat map. The harness's `readFiles` walk of the test directory is not modelled.
- Text decoding is not modelled: the index text is a sequence of characters, with no UTF-8 decoding.
- `bufio.Scanner`'s maximum token size is not modelled. Lines of any length are read.
- The RPC transport (`SurfstoreRPCClient.go`), `ServeSurfstoreServer`, the server launcher and concurrent handlers on the unlocked maps are not modelled. Each call is one atomic step.
- `log.Fatal` and `panic` are not modelled as process exit. A panic in the index reader becomes a `Failure`, and `uploadFile` on a missing file returns `fatal` with nothing changed. Logging is dropped.
- `ClientSync`'s second, discarded `GetFileInfoMap` call and the ignored outcome of the metadata upload are not modelled beyond their effect on the stores.
- `Chunking.CeilDivIsQuotient`: `math.Ceil` and `math.Min` over `float64` are modelled as exact integer ceiling and minimum, which assumes file sizes that a double represents exactly.
- The 64-bit wrap-around of `int` versions and `uint64` sizes is not modelled: integers are unbounded.
- Every chunking operation requires a block size greater than zero. The source divides by it and never checks it.
- `Sync.ClientSync`'s local directory is not changed by downloads. That is why its contract speaks of the index and the server, not of files on disk.
- The line order of the written index follows Go's unspecified map order. The model exposes it as a ghost `order` that lists every key once.
- The harness's JavaScript details are not modelled:
  - the order of `Object.values` and keys that clash with `Object.prototype`;
  - `parseInt` rounding beyond 2^53 and negative zero.
  - `TestHarness.IsIndexFileHashesMatchLocalFileHashes` therefore says only that the message comes from some failing live record, not from the first in key order.
- The directory map in `TestHarness` includes `index.txt` itself, as the harness's `readFiles` does.
- `Meta.MetaStore.UpdateFile` stores a new name, or replaces a record only when the version is strictly higher. An equal version is ignored without an error, and a lower one returns an error (src/surfstore/MetaStore.go:25-37). The model does the same.
- The sleep and wait helpers of `tester/testing/libs/utils.js`, process spawning, temporary directories and the Jest scenarios are not modelled.
