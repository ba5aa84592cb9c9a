/** The Merkle root of a block's transactions, computed layer by layer in one flat buffer. */
module Merkle {
  import opened Words
  import opened Bits
  import opened Bytes
  import opened Sha256

  type Hash = h: seq<byte> | |h| == 32 witness seq(32, i => 0)

  /** SHA-256 of SHA-256, of two hashes side by side */
  function DoubleHash(f: Compression, a: Hash, b: Hash): Hash {
    DigestLength(f, a + b);
    DigestLength(f, Digest(f, a + b));
    Digest(f, Digest(f, a + b))
  }

  lemma DigestLength(f: Compression, msg: seq<byte>)
    ensures |Digest(f, msg)| == 32
  {
    hide Fold, BigEndian;
    SerializedLength(Fold(f, INITIAL, Padded(msg)));
  }

  lemma {:induction false} SerializedLength(s: seq<Word>)
    ensures |Serialized(s)| == 4 * |s|
  {
    if s != [] {
      SerializedLength(s[1..]);
    }
  }

  /** An odd layer of more than one gets its last hash twice. */
  function Completed(layer: seq<Hash>): (r: seq<Hash>)
    ensures |r| == 1 || |r| % 2 == 0
    ensures |layer| <= |r| <= |layer| + 1
  {
    if |layer| % 2 == 1 && |layer| > 1 then layer + [layer[|layer| - 1]] else layer
  }

  function Pairs(f: Compression, s: seq<Hash>): (r: seq<Hash>)
    ensures |r| == |s| / 2
  {
    if |s| < 2 then [] else [DoubleHash(f, s[0], s[1])] + Pairs(f, s[2..])
  }

  /** The root by its definition: pairs hashed together until one hash is left. */
  function MerkleRoot(f: Compression, layer: seq<Hash>): Hash
    requires |layer| >= 1
    decreases |layer|
  {
    if |layer| == 1 then layer[0] else MerkleRoot(f, Pairs(f, Completed(layer)))
  }

  lemma {:induction false} PairsAppend(f: Compression, s: seq<Hash>, a: Hash, b: Hash)
    requires |s| % 2 == 0
    ensures Pairs(f, s + [a, b]) == Pairs(f, s) + [DoubleHash(f, a, b)]
    decreases |s|
  {
    hide DoubleHash;
    if s != [] {
      PairsAppend(f, s[2..], a, b);
      assert (s + [a, b])[2..] == s[2..] + [a, b];
    } else {
      assert [a, b][2..] == [];
    }
  }

  // ---- what the root is ----

  lemma {:induction false} PairsJoin(f: Compression, s: seq<Hash>, t: seq<Hash>)
    requires |s| % 2 == 0
    ensures Pairs(f, s + t) == Pairs(f, s) + Pairs(f, t)
    decreases |s|
  {
    hide DoubleHash;
    if s == [] {
      assert s + t == t;
    } else {
      PairsJoin(f, s[2..], t);
      assert (s + t)[2..] == s[2..] + t;
      assert [DoubleHash(f, s[0], s[1])] + (Pairs(f, s[2..]) + Pairs(f, t))
          == [DoubleHash(f, s[0], s[1])] + Pairs(f, s[2..]) + Pairs(f, t);
    }
  }

  /** The root over two hashes is the digest of the digest of both, in order. */
  lemma RootOfTwo(f: Compression, a: Hash, b: Hash)
    ensures MerkleRoot(f, [a, b]) == Digest(f, Digest(f, a + b))
  {
    hide Digest;
    assert Pairs(f, [a, b]) == [DoubleHash(f, a, b)] by {
      PairsAppend(f, [], a, b);
      NoPairs(f);
      assert [] + [a, b] == [a, b];
    }
  }

  /** The root over a power of two of hashes is made of the roots over its two halves, in order. */
  lemma {:induction false} RootOfHalves(f: Compression, s: seq<Hash>, t: seq<Hash>, k: nat)
    requires |s| == |t| == Pow2(k)
    ensures MerkleRoot(f, s + t) == Digest(f, Digest(f, MerkleRoot(f, s) + MerkleRoot(f, t)))
    decreases k
  {
    hide Pairs, Digest;
    if k == 0 {
      assert Pow2(0) == 1;
      assert s + t == [s[0], t[0]];
      RootOfTwo(f, s[0], t[0]);
    } else {
      assert Pow2(k) == 2 * Pow2(k - 1);
      PairsJoin(f, s, t);
      RootOfHalves(f, Pairs(f, s), Pairs(f, t), k - 1);
    }
  }

  /** An odd layer counts its last hash twice. */
  lemma RootOfOdd(f: Compression, s: seq<Hash>)
    requires |s| % 2 == 1 && |s| > 1
    ensures MerkleRoot(f, s) == MerkleRoot(f, s + [s[|s| - 1]])
  {
    hide Pairs, Digest;
  }

  /** No layer f is larger than this. */
  function LayerLimit(f: nat): nat {
    if f == 0 then 32 else if f == 1 then 16 else if f == 2 then 8 else if f == 3 then 4 else if f == 4 then 2 else 1
  }

  /** The double hash of 64 adjacent bytes, with the hash context. */
  method HashPair(compress: Compression, a: Hash, b: Hash) returns (h: Hash)
    ensures h == DoubleHash(compress, a, b)
  {
    hide Digest;
    var sha256_ctx := new Sha256Context(compress);
    sha256_ctx.Starts();
    sha256_ctx.Update(a + b);
    assert [] + (a + b) == a + b;
    var hashOut := sha256_ctx.Finish();
    DigestLength(compress, a + b);
    sha256_ctx.Starts();
    sha256_ctx.Update(hashOut);
    assert [] + hashOut == hashOut;
    DigestLength(compress, hashOut);
    h := sha256_ctx.Finish();
  }

  /** The buffer slots [from, to) */
  predicate Slots(hashData: seq<Hash>, from: nat, to: nat, s: seq<Hash>) {
    from <= to <= |hashData| && hashData[from..to] == s
  }

  lemma SlotsAppend(hashData: seq<Hash>, hashData': seq<Hash>, from: nat, to: nat, s: seq<Hash>, h: Hash)
    requires Slots(hashData, from, to, s) && to < |hashData| && hashData' == hashData[to := h]
    ensures Slots(hashData', from, to + 1, s + [h])
  {
  }

  /** Hashes the pairs of one layer behind it. */
  method HashLayer(compress: Compression, hashData: array<Hash>, hashReadIndex: nat, hashCount: nat, size: nat, ghost layer: seq<Hash>)
    returns (hashReadIndex': nat, hashCount': nat, nextSize: nat)
    requires |layer| > 1 && |layer| <= size <= |Completed(layer)|
    requires Slots(hashData[..], hashReadIndex, hashCount, Completed(layer)) && hashCount + |layer| <= hashData.Length
    modifies hashData
    ensures hashReadIndex' == hashCount && nextSize == |Completed(layer)| / 2 && hashCount' == hashCount + nextSize
    ensures Slots(hashData[..], hashReadIndex', hashCount', Pairs(compress, Completed(layer)))
  {
    hide Pairs, DoubleHash;
    ghost var C := Completed(layer);
    hashReadIndex', hashCount', nextSize := hashReadIndex, hashCount, 0;
    NoPairs(compress);
    var i := 0;
    while i < size
      invariant i % 2 == 0 && i <= |C|
      invariant hashReadIndex' == hashReadIndex + i && nextSize == i / 2 && hashCount' == hashCount + nextSize
      invariant Slots(hashData[..], hashReadIndex, hashCount, C)
      invariant Slots(hashData[..], hashCount, hashCount', Pairs(compress, C[..i]))
    {
      PairAt(hashData[..], hashReadIndex, hashCount, C, i);
      var h := HashPair(compress, hashData[hashReadIndex'], hashData[hashReadIndex' + 1]);
      hashReadIndex' := hashReadIndex' + 2;
      PairsAppend(compress, C[..i], C[i], C[i + 1]);
      assert C[..i + 2] == C[..i] + [C[i], C[i + 1]];
      SlotsAppend(hashData[..], hashData[..][hashCount' := h], hashCount, hashCount', Pairs(compress, C[..i]), h);
      SlotsKept(hashData[..], hashReadIndex, hashCount, hashCount', C, h);
      hashData[hashCount'] := h;
      hashCount' := hashCount' + 1;
      nextSize := nextSize + 1;
      i := i + 2;
    }
    assert C[..i] == C;
  }

  lemma NoPairs(f: Compression)
    ensures Pairs(f, []) == []
  {
  }

  lemma PairAt(hashData: seq<Hash>, from: nat, to: nat, C: seq<Hash>, i: nat)
    requires Slots(hashData, from, to, C) && i % 2 == 0 && |C| % 2 == 0 && i < |C|
    ensures i + 1 < |C| && hashData[from + i] == C[i] && hashData[from + i + 1] == C[i + 1]
  {
  }

  lemma SlotsKept(hashData: seq<Hash>, from: nat, to: nat, n: nat, s: seq<Hash>, h: Hash)
    requires Slots(hashData, from, to, s) && to <= n < |hashData|
    ensures Slots(hashData[n := h], from, to, s)
  {
  }

  /** Copies the leaves to the front of the buffer. */
  method CopyLeaves(hashData: array<Hash>, txHashes: seq<Hash>, n: nat) returns (hashCount: nat)
    requires n <= |txHashes| && n <= hashData.Length
    modifies hashData
    ensures hashCount == n && Slots(hashData[..], 0, hashCount, txHashes[..n])
  {
    hashCount := 0;
    while hashCount < n
      invariant hashCount <= n && Slots(hashData[..], 0, hashCount, txHashes[..hashCount])
    {
      SlotsAppend(hashData[..], hashData[..][hashCount := txHashes[hashCount]], 0, hashCount, txHashes[..hashCount],
                  txHashes[hashCount]);
      hashData[hashCount] := txHashes[hashCount];
      assert txHashes[..hashCount + 1] == txHashes[..hashCount] + [txHashes[hashCount]];
      hashCount := hashCount + 1;
    }
  }

  /** Duplicates the last hash of an odd layer of more than one. */
  method Duplicate(hashData: array<Hash>, ghost from: nat, hashCount: nat, size: nat, ghost layer: seq<Hash>)
    returns (duplicated: bool, hashCount': nat)
    requires Slots(hashData[..], from, hashCount, layer) && size == |layer| && hashCount < hashData.Length
    modifies hashData
    ensures duplicated == (|Completed(layer)| == |layer| + 1) && hashCount' == hashCount + |Completed(layer)| - |layer|
    ensures Slots(hashData[..], from, hashCount', Completed(layer))
  {
    duplicated, hashCount' := size % 2 == 1 && size > 1, hashCount;
    if duplicated {
      LastSlot(hashData[..], from, hashCount, layer);
      SlotsAppend(hashData[..], hashData[..][hashCount := layer[|layer| - 1]], from, hashCount, layer, layer[|layer| - 1]);
      hashData[hashCount] := hashData[hashCount - 1];
      hashCount' := hashCount + 1;
    }
  }

  lemma LastSlot(hashData: seq<Hash>, from: nat, to: nat, s: seq<Hash>)
    requires Slots(hashData, from, to, s) && s != []
    ensures to >= 1 && hashData[to - 1] == s[|s| - 1]
  {
  }

  method SetHash(merkleRoot: array<byte>, h: Hash)
    requires merkleRoot.Length == 32
    modifies merkleRoot
    ensures merkleRoot[..] == h
  {
    var i := 0;
    while i < 32
      invariant i <= 32 && merkleRoot[..i] == h[..i]
    {
      merkleRoot[i] := h[i];
      i := i + 1;
    }
  }

  lemma RootOfOne(f: Compression, layer: seq<Hash>)
    requires |layer| >= 1
    ensures |layer| == 1 ==> MerkleRoot(f, layer) == layer[0] && Completed(layer) == layer
  {
  }

  lemma RootOfLayer(f: Compression, layer: seq<Hash>)
    requires |layer| > 1
    ensures MerkleRoot(f, layer) == MerkleRoot(f, Pairs(f, Completed(layer)))
  {
  }

  lemma CompletedSize(layer: seq<Hash>)
    ensures |Completed(layer)| == |layer| + (if |layer| % 2 == 1 && |layer| > 1 then 1 else 0)
  {
  }

  /** Where the bounds of the buffer and of the layer sizes come from. */
  lemma NextLayerFits(layer: seq<Hash>, f: nat)
    requires f <= 5 && 2 <= |layer| <= LayerLimit(f)
    ensures f < 5 && |Completed(layer)| / 2 <= LayerLimit(f + 1)
    ensures var l := |Completed(layer)| / 2; 1 <= l && 4 * l + l % 2 <= 3 * |layer| + (if l == 1 then 1 else 0)
  {
  }

  /** The layers of a tree of at least two leaves, until the root is found. */
  method ReduceLayers(compress: Compression, hashData: array<Hash>, leafCount: nat, layerSize: array<nat>,
                      merkleRoot: array<byte>, ghost leaves: seq<Hash>)
    requires 2 <= |leaves| <= 32 && hashData.Length == 256 && layerSize.Length == 10 && merkleRoot.Length == 32
    requires Slots(hashData[..], 0, leafCount, Completed(leaves)) && layerSize[0] == |Completed(leaves)|
    requires forall g :: 0 < g < 10 ==> layerSize[g] == 0
    modifies hashData, layerSize, merkleRoot
    ensures merkleRoot[..] == MerkleRoot(compress, leaves)
  {
    hide MerkleRoot, Pairs, Completed;
    var hashCount: nat, hashReadIndex: nat := leafCount, 0;
    ghost var layer := leaves;
    var f := 0;
    while f < 10
      invariant f <= 5 && 1 <= |layer| <= LayerLimit(f) && |layer| <= layerSize[f] <= |Completed(layer)|
      invariant layerSize.Length == 10 && forall g :: f < g < 10 ==> layerSize[g] == 0
      invariant hashCount + 3 * |layer| <= 129 && hashData.Length == 256
      invariant Slots(hashData[..], hashReadIndex, hashCount, Completed(layer))
      invariant MerkleRoot(compress, layer) == MerkleRoot(compress, leaves)
      decreases 10 - f
    {
      if layerSize[f] == 0 {
        assert false;  // the error exit
      } else if layerSize[f] == 1 {
        RootOfOne(compress, layer);
        SetHash(merkleRoot, hashData[hashReadIndex]);
        return;
      }
      CompletedSize(layer);
      NextLayerFits(layer, f);
      RootOfLayer(compress, layer);
      var size;
      ghost var pairs := Pairs(compress, Completed(layer));
      hashReadIndex, hashCount, size := HashLayer(compress, hashData, hashReadIndex, hashCount, layerSize[f], layer);
      layerSize[f + 1] := layerSize[f + 1] + size;
      layer := pairs;
      var duplicated;
      duplicated, hashCount := Duplicate(hashData, hashReadIndex, hashCount, layerSize[f + 1], layer);
      f := f + 1;
    }
    assert false;
  }

  /**
   bitclient_calculateMerkleRoot: 32 zero bytes for no hashes, otherwise the root
   of the first 32; the root is always found.
   */
  method CalculateMerkleRoot(compress: Compression, txHashes: seq<Hash>, numberOfTxHashes: nat, merkleRoot: array<byte>)
    requires |txHashes| == numberOfTxHashes && merkleRoot.Length == 32
    modifies merkleRoot
    ensures merkleRoot[..] == if numberOfTxHashes == 0 then ZeroBytes(32)
                              else MerkleRoot(compress, txHashes[..if numberOfTxHashes > 32 then 32 else numberOfTxHashes])
  {
    hide MerkleRoot, Pairs, Completed;
    var n := numberOfTxHashes;
    if n > 32 {
      n := 32;
    }
    if n == 0 {
      SetHash(merkleRoot, ZeroBytes(32));
      return;
    } else if n == 1 {
      RootOfOne(compress, txHashes[..1]);
      SetHash(merkleRoot, txHashes[0]);
      return;
    }
    var hashData := new Hash[256];
    var layerSize := new nat[10](_ => 0);
    layerSize[0] := n;
    var hashCount := CopyLeaves(hashData, txHashes, n);
    var duplicated;
    duplicated, hashCount := Duplicate(hashData, 0, hashCount, n, txHashes[..n]);
    if duplicated {
      layerSize[0] := layerSize[0] + 1;
    }
    ReduceLayers(compress, hashData, hashCount, layerSize, merkleRoot, txHashes[..n]);
  }
}
