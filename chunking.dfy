/**
 * Fixed-size chunking of file content into blocks and hash lists
 * (src/surfstore/SurfstoreClientUtils.go, `getLocalFileHashBlockListMap` and
 * `uploadFile`; the test harness's reference chunker lives in TestHarness).
 */
module Chunking {
  import opened Interfaces

  function Min(a: int, b: int): int {
    if a <= b then a else b
  }

  /**
   * The number of blocks of `b` bytes that `s` bytes fill, the last one
   * possibly partly: the integer ceiling of `s / b` (CeilDivIsQuotient).
   */
  function CeilDiv(s: nat, b: nat): nat
    requires b > 0
    decreases s
  {
    if s == 0 then 0 else 1 + CeilDiv(s - Min(b, s), b)
  }

  /**
   * The read position before block `i`: `i * b` (OffsetIsProduct), built up
   * one block at a time so that the chunking loops need no multiplication.
   */
  function Offset(i: nat, b: nat): nat
    decreases i
  {
    if i == 0 then 0 else Offset(i - 1, b) + b
  }

  /** Consecutive slices of `c` of `blockSize` bytes, the last one possibly shorter. */
  function Slices(c: seq<byte>, blockSize: nat): seq<seq<byte>>
    requires blockSize > 0
    decreases |c|
  {
    if |c| == 0 then []
    else
      var n := Min(blockSize, |c|);
      [c[..n]] + Slices(c[n..], blockSize)
  }

  /**
   * The blocks a file is divided into: its slices, or a single empty block
   * for an empty file.
   */
  function Chunks(c: seq<byte>, blockSize: nat): seq<seq<byte>>
    requires blockSize > 0
  {
    if |c| == 0 then [[]] else Slices(c, blockSize)
  }

  /** The concatenation of a list of blocks. */
  function Flatten(cs: seq<seq<byte>>): seq<byte>
    decreases |cs|
  {
    if cs == [] then [] else cs[0] + Flatten(cs[1..])
  }

  /** The digests of a list of blocks, in order. */
  function HashesOf(cs: seq<seq<byte>>, h: Hasher): (hs: seq<string>)
    ensures |hs| == |cs|
    ensures forall i :: 0 <= i < |cs| ==> hs[i] == h(cs[i])
  {
    seq(|cs|, i requires 0 <= i < |cs| => h(cs[i]))
  }

  lemma HashesOfAppend(a: seq<seq<byte>>, b: seq<seq<byte>>, h: Hasher)
    ensures HashesOf(a + b, h) == HashesOf(a, h) + HashesOf(b, h)
  {
  }

  /** The slices concatenate back to the content. */
  lemma {:induction false} SlicesFlatten(c: seq<byte>, blockSize: nat)
    requires blockSize > 0
    ensures Flatten(Slices(c, blockSize)) == c
    decreases |c|
  {
    if |c| > 0 {
      var n := Min(blockSize, |c|);
      var cs := Slices(c, blockSize);
      assert cs[1..] == Slices(c[n..], blockSize);
      SlicesFlatten(c[n..], blockSize);
      assert c == c[..n] + c[n..];
    }
  }

  /** The chunks of a file concatenate back to the file. */
  lemma ChunksFlatten(c: seq<byte>, blockSize: nat)
    requires blockSize > 0
    ensures Flatten(Chunks(c, blockSize)) == c
  {
    if |c| == 0 {
      assert Flatten([[]]) == [] + Flatten([]);
    } else {
      SlicesFlatten(c, blockSize);
    }
  }

  lemma MulMono(a: int, b: int, c: nat)
    requires a <= b
    ensures a * c <= b * c
  {
    assert b * c - a * c == (b - a) * c;
  }

  /** Division is determined by the bounds of its quotient. */
  lemma DivUnique(x: nat, b: nat, q: nat)
    requires b > 0
    requires q * b <= x < q * b + b
    ensures x / b == q
  {
    var q', r' := x / b, x % b;
    assert x == q' * b + r' && 0 <= r' < b;
    assert (q + 1) * b == q * b + b;
    assert (q' + 1) * b == q' * b + b;
    if q' > q {
      MulMono(q + 1, q', b);
      assert false;
    } else if q' < q {
      MulMono(q' + 1, q, b);
      assert false;
    }
  }

  lemma DivStep(x: nat, b: nat)
    requires b > 0
    ensures (x + b) / b == x / b + 1
  {
    var q, r := x / b, x % b;
    assert x == q * b + r;
    assert (q + 1) * b == q * b + b;
    DivUnique(x + b, b, q + 1);
  }

  /**
   * A non-empty file of size S gives ceil(S / B) slices, each non-empty and at
   * most B bytes, all but the last exactly B bytes.
   */
  lemma {:induction false} SlicesShape(c: seq<byte>, blockSize: nat)
    requires blockSize > 0
    ensures |Slices(c, blockSize)| == CeilDiv(|c|, blockSize)
    ensures forall i :: 0 <= i < |Slices(c, blockSize)| ==>
      0 < |Slices(c, blockSize)[i]| <= blockSize
    ensures forall i :: 0 <= i < |Slices(c, blockSize)| - 1 ==>
      |Slices(c, blockSize)[i]| == blockSize
    decreases |c|
  {
    if |c| > 0 {
      var n := Min(blockSize, |c|);
      var cs := Slices(c, blockSize);
      var rest := Slices(c[n..], blockSize);
      assert cs == [c[..n]] + rest;
      SlicesShape(c[n..], blockSize);
    }
  }

  /** Block `i` of a non-empty file covers bytes [i * B, min((i + 1) * B, S)). */
  lemma SliceAt(c: seq<byte>, blockSize: nat, i: nat)
    requires blockSize > 0
    requires i < |Slices(c, blockSize)|
    ensures i * blockSize < |c|
    ensures Slices(c, blockSize)[i] == c[i * blockSize .. Min((i + 1) * blockSize, |c|)]
  {
    OffsetIsProduct(i, blockSize);
    SliceAtOffset(c, blockSize, i, i * blockSize);
    assert i * blockSize + blockSize == (i + 1) * blockSize;
  }

  /** The properties the sync protocol relies on, for every file and block size. */
  lemma ChunksShape(c: seq<byte>, blockSize: nat)
    requires blockSize > 0
    ensures |c| == 0 ==> Chunks(c, blockSize) == [[]]
    ensures |c| > 0 ==> |Chunks(c, blockSize)| == CeilDiv(|c|, blockSize)
    ensures forall i :: 0 <= i < |Chunks(c, blockSize)| ==> |Chunks(c, blockSize)[i]| <= blockSize
    ensures Flatten(Chunks(c, blockSize)) == c
  {
    SlicesShape(c, blockSize);
    ChunksFlatten(c, blockSize);
  }

  /** `CeilDiv` is the ceiling of the quotient. */
  lemma {:induction false} CeilDivIsQuotient(s: nat, b: nat)
    requires b > 0
    ensures CeilDiv(s, b) == (s + b - 1) / b
    decreases s
  {
    if s == 0 {
      DivUnique(b - 1, b, 0);
    } else if s <= b {
      assert CeilDiv(s, b) == 1 + CeilDiv(0, b);
      DivUnique(s + b - 1, b, 1);
    } else {
      CeilDivIsQuotient(s - b, b);
      DivStep(s - 1, b);
    }
  }

  /** Block `i` starts inside the file exactly when there are more than `i` blocks. */
  lemma {:induction false} CeilDivBounds(s: nat, b: nat, i: nat)
    requires b > 0
    ensures i < CeilDiv(s, b) <==> Offset(i, b) < s
    decreases i
  {
    if i > 0 && s > 0 {
      CeilDivBounds(s - Min(b, s), b, i - 1);
    }
  }

  lemma {:induction false} OffsetIsProduct(i: nat, blockSize: nat)
    ensures Offset(i, blockSize) == i * blockSize
    decreases i
  {
    if i > 0 {
      OffsetIsProduct(i - 1, blockSize);
      assert (i - 1) * blockSize + blockSize == i * blockSize;
    }
  }

  /** The length of block `i`, `min(B, S - i * B)`, as both chunking loops compute it. */
  method CurrentBlockSize(fileSize: nat, blockSize: nat, i: nat) returns (cur: int)
    ensures cur == Min(blockSize, fileSize - Offset(i, blockSize))
  {
    OffsetIsProduct(i, blockSize);
    cur := Min(blockSize, fileSize - i * blockSize);
  }

  /** The read position after block `i` of `numBlocks`. */
  lemma ReadStep(fileSize: nat, blockSize: nat, numBlocks: nat, i: nat, position: nat)
    requires blockSize > 0 && numBlocks == CeilDiv(fileSize, blockSize) && i < numBlocks
    requires position == Offset(i, blockSize)
    ensures position < fileSize
    ensures var cur := Min(blockSize, fileSize - position);
      0 < cur &&
      (i + 1 < numBlocks ==> position + cur == Offset(i + 1, blockSize)) &&
      (i + 1 == numBlocks ==> position + cur == fileSize)
  {
    CeilDivBounds(fileSize, blockSize, i);
    CeilDivBounds(fileSize, blockSize, i + 1);
  }

  /** Slice `i` is the read of block `i`: `Min(B, S - position)` bytes from `Offset(i, B)`. */
  lemma {:induction false} SliceAtOffset(c: seq<byte>, blockSize: nat, i: nat, position: nat)
    requires blockSize > 0 && i < |Slices(c, blockSize)| && position == Offset(i, blockSize)
    ensures position < |c|
    ensures Slices(c, blockSize)[i] == c[position .. position + Min(blockSize, |c| - position)]
    decreases i
  {
    var n := Min(blockSize, |c|);
    assert Slices(c, blockSize) == [c[..n]] + Slices(c[n..], blockSize);
    if i > 0 {
      var p' := Offset(i - 1, blockSize);
      SliceAtOffset(c[n..], blockSize, i - 1, p');
      assert n == blockSize;
      assert c[n..][p' .. p' + Min(blockSize, |c| - n - p')] == c[position .. position + Min(blockSize, |c| - position)];
    }
  }

  /**
   * The hash list of a file's content, as the chunking loop computes it:
   * `numBlocks` reads of `min(B, S - i * B)` bytes from the current position,
   * or the hash of one empty block for an empty file.
   */
  method HashBlockList(content: seq<byte>, blockSize: nat, h: Hasher) returns (blockHashList: seq<string>)
    requires blockSize > 0
    ensures blockHashList == HashesOf(Chunks(content, blockSize), h)
  {
    var fileSize := |content|;
    var numBlocks := CeilDiv(fileSize, blockSize);
    blockHashList := [];
    if numBlocks == 0 {
      blockHashList := blockHashList + [h([])];
      CeilDivBounds(fileSize, blockSize, 0);
      assert Chunks(content, blockSize) == [[]];
      return;
    }
    var position: nat := 0;
    var i: nat := 0;
    ghost var cs := Slices(content, blockSize);
    SlicesShape(content, blockSize);
    while i < numBlocks
      invariant 0 <= i <= numBlocks == |cs|
      invariant i < numBlocks ==> position == Offset(i, blockSize)
      invariant blockHashList == HashesOf(cs[..i], h)
    {
      var currentBlockSize := CurrentBlockSize(fileSize, blockSize, i);
      SliceAtOffset(content, blockSize, i, position);
      ReadStep(fileSize, blockSize, numBlocks, i, position);
      var blockBuffer := content[position .. position + currentBlockSize];
      assert cs[..i + 1] == cs[..i] + [blockBuffer];
      HashesOfAppend(cs[..i], [blockBuffer], h);
      blockHashList := blockHashList + [h(blockBuffer)];
      position := position + currentBlockSize;
      i := i + 1;
    }
    assert cs[..i] == cs;
  }
}
