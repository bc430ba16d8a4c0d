/**
 * The server's block store (src/surfstore/BlockStore.go): content-addressed
 * blocks keyed by the digest of their data.
 */
module Blocks {
  import opened Interfaces

  /**
   * The store's map after `PutBlock(b)`: a block that declares size 0 is
   * refused; any other block is stored under the digest of its data.
   */
  function AfterPut(m: map<string, Block>, b: Block, h: Hasher): (r: map<string, Block>)
    ensures b.size == 0 ==> r == m
    ensures b.size != 0 ==> r.Keys == m.Keys + {h(b.data)} && r[h(b.data)] == b
    ensures forall k :: k in m && k != h(b.data) ==> r[k] == m[k]
  {
    if b.size == 0 then m else m[h(b.data) := b]
  }

  /** Putting the same block twice leaves the same map as putting it once. */
  lemma PutIsIdempotent(m: map<string, Block>, b: Block, h: Hasher)
    ensures AfterPut(AfterPut(m, b, h), b, h) == AfterPut(m, b, h)
  {
  }

  /**
   * The hashes of `hs` that are keys of `m`, in the order of `hs` and with
   * repetitions kept.
   */
  function Present(hs: seq<string>, m: map<string, Block>): (r: seq<string>)
    ensures |r| <= |hs|
    ensures forall i :: 0 <= i < |r| ==> r[i] in m
    decreases |hs|
  {
    if hs == [] then []
    else
      var init, last := hs[..|hs| - 1], hs[|hs| - 1];
      Present(init, m) + (if last in m then [last] else [])
  }

  /**
   * Every held hash occurs in the result exactly as often as in the input,
   * and no other hash occurs.
   */
  lemma {:induction false} PresentCounts(hs: seq<string>, m: map<string, Block>, x: string)
    ensures multiset(Present(hs, m))[x] == if x in m then multiset(hs)[x] else 0
    decreases |hs|
  {
    if hs != [] {
      var init, last := hs[..|hs| - 1], hs[|hs| - 1];
      assert hs == init + [last];
      PresentCounts(init, m, x);
    }
  }

  /** Extending the input by one hash extends the result by that hash when it is held. */
  lemma PresentSnoc(init: seq<string>, last: string, m: map<string, Block>)
    ensures Present(init + [last], m) == Present(init, m) + (if last in m then [last] else [])
  {
    var hs := init + [last];
    assert hs[..|hs| - 1] == init;
  }

  /** The block store. `hash` is the digest the store keys blocks by. */
  class BlockStore {
    const hash: Hasher
    var blockMap: map<string, Block>

    constructor (hash: Hasher)
      ensures this.hash == hash && blockMap == map[]
    {
      this.hash := hash;
      blockMap := map[];
    }

    /**
     * Looks a block up by digest. `blockData` models the `*blockData`
     * out-pointer: on a miss it is returned untouched, with an error.
     */
    method GetBlock(blockHash: string, blockData: Block) returns (out: Block, err: Status)
      ensures blockHash in blockMap ==> out == blockMap[blockHash] && err == Nil
      ensures blockHash !in blockMap ==> out == blockData && err == Error("block not found")
    {
      if blockHash in blockMap {
        out, err := blockMap[blockHash], Nil;
      } else {
        out, err := blockData, Error("block not found");
      }
    }

    /**
     * Stores `block` under the digest of its data unless it declares size 0,
     * and reports in `succ` whether it was stored.
     */
    method PutBlock(block: Block) returns (succ: bool, err: Status)
      modifies this
      ensures blockMap == AfterPut(old(blockMap), block, hash)
      ensures succ <==> block.size != 0
      ensures err == if block.size == 0 then Error("empty block") else Nil
      ensures succ ==> hash(block.data) in blockMap
    {
      if block.size == 0 {
        return false, Error("empty block");
      }
      var str := hash(block.data);
      blockMap := blockMap[str := block];
      succ, err := true, Nil;
    }

    /**
     * Appends to the caller's list `blockHashesOut` the hashes of
     * `blockHashesIn` that the store holds.
     */
    method HasBlocks(blockHashesIn: seq<string>, blockHashesOut: seq<string>)
      returns (out: seq<string>, err: Status)
      ensures out == blockHashesOut + Present(blockHashesIn, blockMap)
      ensures err == Nil
    {
      out := blockHashesOut;
      for i := 0 to |blockHashesIn|
        invariant out == blockHashesOut + Present(blockHashesIn[..i], blockMap)
      {
        var h := blockHashesIn[i];
        assert blockHashesIn[..i + 1] == blockHashesIn[..i] + [h];
        PresentSnoc(blockHashesIn[..i], h, blockMap);
        if h in blockMap {
          out := out + [h];
        }
      }
      assert blockHashesIn[..|blockHashesIn|] == blockHashesIn;
      err := Nil;
    }

    /** Reports in `succ` whether the store holds a block under `blockHash`. */
    method HasBlock(blockHash: string) returns (succ: bool, err: Status)
      ensures succ <==> blockHash in blockMap
      ensures err == Nil
    {
      succ := blockHash in blockMap;
      err := Nil;
    }
  }
}
