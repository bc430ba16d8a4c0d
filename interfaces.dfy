/**
 * Shared records of the sync service (src/surfstore/SurfstoreInterfaces.go):
 * blocks, file metadata records, the tombstone sentinel and the block digest.
 */
module Interfaces {
  /** One byte of file content. */
  newtype byte = x: int | 0 <= x < 256

  /** The `error` result of a Go call; `Nil` is the nil error. */
  datatype Status = Nil | Error(message: string)

  /** A lower-case hexadecimal digit, as written by hex encoding. */
  predicate IsHexDigit(c: char) {
    '0' <= c <= '9' || 'a' <= c <= 'f'
  }

  /** The shape of a hex-encoded SHA-256 digest: 64 lower-case hex digits. */
  predicate IsDigest(s: string) {
    |s| == 64 && forall i :: 0 <= i < |s| ==> IsHexDigit(s[i])
  }

  /**
   * The block digest. SHA-256 itself is not modelled: the hash function is a
   * parameter, deterministic by being a function; `Digests` says that it
   * yields hex-encoded 256-bit digests, as SHA-256 does.
   */
  type Hasher = seq<byte> -> string

  ghost predicate Digests(h: Hasher) {
    forall d :: IsDigest(h(d))
  }

  /** The hash-list entry that marks a deleted file. */
  const TombstoneHash: string := "0"

  /** A digest is never the tombstone sentinel. */
  lemma DigestIsNotTombstone(s: string)
    requires IsDigest(s)
    ensures s != TombstoneHash
  {
  }

  /**
   * A block of file content. `size` is the size the sender declares
   * (`BlockSize`); the store's acceptance rule looks at it, not at `|data|`.
   */
  datatype Block = Block(data: seq<byte>, size: int) {
    /** The number of data bytes, whatever `size` declares. */
    function Size(): nat {
      |data|
    }

    /** The digest of the block's data; the declared size plays no part. */
    function Hash(h: Hasher): (r: string)
      ensures Digests(h) ==> IsDigest(r)
    {
      h(data)
    }
  }

  /**
   * A block of `n` zero bytes. The Go literal sets only the data, so the
   * declared size keeps its zero value.
   */
  function NewBlock(n: nat): (b: Block)
    ensures b.Size() == n
    ensures forall i :: 0 <= i < |b.data| ==> b.data[i] == 0
    ensures b.size == 0
  {
    Block(seq(n, _ => 0), 0)
  }

  /** Blocks with equal data have equal hashes, whatever size they declare. */
  lemma EqualDataEqualHash(a: Block, b: Block, h: Hasher)
    requires a.data == b.data
    ensures a.Hash(h) == b.Hash(h)
  {
  }

  /** The metadata record of one file. */
  datatype FileMetaData = FileMetaData(filename: string, version: int, blockHashList: seq<string>) {
    /** A record is a tombstone exactly when its hash list is the single sentinel. */
    predicate IsTombstone()
      ensures IsTombstone() <==> blockHashList == [TombstoneHash]
    {
      |blockHashList| == 1 && blockHashList[0] == TombstoneHash
    }

    /** The record with its hash list replaced by the tombstone sentinel. */
    function MarkTombstone(): (r: FileMetaData)
      ensures r.IsTombstone()
      ensures r.filename == filename && r.version == version
    {
      this.(blockHashList := [TombstoneHash])
    }
  }

  /** Every record is stored under its own file name. */
  ghost predicate WellKeyed(m: map<string, FileMetaData>) {
    forall k :: k in m ==> m[k].filename == k
  }
}
