/**
 * The Merkle-tree builder of `main.py`: the fold of one layer into its
 * parent layer, the root of a leaf list, and the root recomputation run
 * after a change. SHA-256 is the parameter `H`: every result holds for
 * any hash function.
 */
module MerkleTree {
  import opened Wrappers

  /** A hash from text to its hexadecimal digest text. */
  type Hash = string -> string

  type Digest = string

  /** Length of a SHA-256 hexadecimal digest. */
  const DigestLength := 64

  /** The failures the engine can signal, each standing for a Python exception. */
  datatype Error =
    | EmptyInput       // IndexError raised by `layer[0]` on an empty list
    | IndexOutOfRange  // IndexError raised by a proof or update index
    | MissingSibling   // TypeError raised by concatenating None in proof replay
    | MalformedRecord  // JSONDecodeError raised on a changed line

  /** `H` produces 64-character digests, as `hexdigest()` does. */
  ghost predicate HexWidth(H: Hash)
  {
    forall s :: |H(s)| == DigestLength
  }

  /** The text hashed for parent `j`: a pair concatenated, or a lone last node. */
  function ParentInput(h: seq<Digest>, j: nat): string
    requires 2 * j < |h|
  {
    if 2 * j + 1 < |h| then h[2 * j] + h[2 * j + 1] else h[2 * j]
  }

  /** Parent `j` of layer `h`. */
  function ParentAt(H: Hash, h: seq<Digest>, j: nat): Digest
    requires 2 * j < |h|
  {
    H(ParentInput(h, j))
  }

  /** The parent layer, defined by consuming the layer two nodes at a time. */
  function Fold(H: Hash, h: seq<Digest>): (r: seq<Digest>)
    ensures |r| == (|h| + 1) / 2
    decreases |h|
  {
    if |h| == 0 then []
    else if |h| == 1 then [H(h[0])]
    else [H(h[0] + h[1])] + Fold(H, h[2..])
  }

  /** The root: fold until a single node is left. Undefined on no leaves. */
  function Root(H: Hash, h: seq<Digest>): Digest
    requires |h| > 0
    decreases |h|
  {
    if |h| == 1 then h[0] else Root(H, Fold(H, h))
  }

  /** Number of folds from a layer of `n` nodes down to one node. */
  function Height(n: nat): nat
  {
    if n <= 1 then 0 else 1 + Height((n + 1) / 2)
  }

  function Pow2(k: nat): nat
  {
    if k == 0 then 1 else 2 * Pow2(k - 1)
  }

  /** Entry `j` of the parent layer pairs nodes 2j and 2j+1, or hashes node 2j alone. */
  lemma {:induction false} FoldAt(H: Hash, h: seq<Digest>, j: nat)
    requires j < (|h| + 1) / 2
    ensures 2 * j < |h|
    ensures Fold(H, h)[j] == ParentAt(H, h, j)
    decreases j
  {
    if j > 0 {
      FoldAt(H, h[2..], j - 1);
      assert ParentInput(h[2..], j - 1) == ParentInput(h, j);
    }
  }

  lemma FoldAtAll(H: Hash, h: seq<Digest>)
    ensures forall j :: 0 <= j < |Fold(H, h)| ==> 2 * j < |h| && Fold(H, h)[j] == ParentAt(H, h, j)
  {
    forall j | 0 <= j < |Fold(H, h)|
      ensures 2 * j < |h| && Fold(H, h)[j] == ParentAt(H, h, j)
    {
      FoldAt(H, h, j);
    }
  }

  /** Every node above the leaves is a digest, so it has the digest width. */
  lemma FoldWidth(H: Hash, h: seq<Digest>)
    requires HexWidth(H)
    ensures forall j :: 0 <= j < |Fold(H, h)| ==> |Fold(H, h)[j]| == DigestLength
  {
    FoldAtAll(H, h);
  }

  /** Replacing node i changes only parent i/2 of the next layer. */
  lemma FoldUpdate(H: Hash, h: seq<Digest>, i: nat, x: Digest)
    requires i < |h|
    ensures 2 * (i / 2) < |h|
    ensures Fold(H, h[i := x]) == Fold(H, h)[i / 2 := ParentAt(H, h[i := x], i / 2)]
  {
    var h' := h[i := x];
    var v := ParentAt(H, h', i / 2);
    FoldAtAll(H, h);
    FoldAtAll(H, h');
    forall j | 0 <= j < |Fold(H, h)|
      ensures Fold(H, h')[j] == Fold(H, h)[i / 2 := v][j]
    {
      if j != i / 2 {
        assert ParentInput(h', j) == ParentInput(h, j);
      }
    }
  }

  /** The number of folds is the ceiling of log2 of the leaf count. */
  lemma {:induction false} HeightIsCeilLog2(n: nat)
    requires n >= 1
    ensures n <= Pow2(Height(n))
    ensures n > 1 ==> Pow2(Height(n) - 1) < n
    decreases n
  {
    if n > 1 {
      var m := (n + 1) / 2;
      HeightIsCeilLog2(m);
      assert Height(n) == 1 + Height(m);
      assert Pow2(Height(n)) == 2 * Pow2(Height(m));
    }
  }

  /** A layer of one node is its own root. */
  lemma SingleLeafRoot(H: Hash, a: Digest)
    ensures Root(H, [a]) == a
  {
  }

  /** Three leaves: the lone third leaf is promoted by hashing it alone. */
  lemma {:induction false} ThreeLeafRoot(H: Hash, a: Digest, b: Digest, c: Digest)
    ensures Root(H, [a, b, c]) == H(H(a + b) + H(c))
  {
    var leaves := [a, b, c];
    assert leaves[2..] == [c];
    assert Fold(H, [c]) == [H(c)];
    var l1 := Fold(H, leaves);
    assert l1 == [H(a + b)] + Fold(H, [c]);
    assert l1[0] == H(a + b) && l1[1] == H(c);
    assert l1[2..] == [];
    assert Fold(H, l1) == [H(l1[0] + l1[1])];
    assert Root(H, leaves) == Root(H, l1) == Root(H, Fold(H, l1));
  }

  /**
   * A layer and its parent layer have the same root, so a list of leaves
   * and a shorter list share a root without any hash collision.
   */
  lemma ParentLayerSharesRoot(H: Hash, h: seq<Digest>)
    requires |h| > 1
    ensures |Fold(H, h)| < |h|
    ensures Root(H, Fold(H, h)) == Root(H, h)
  {
  }

  /** Pairs neighbours of a layer, promoting a trailing lone node by hashing it alone. */
  method BuildParentLayer(H: Hash, hashes: seq<Digest>) returns (parent: seq<Digest>)
    ensures parent == Fold(H, hashes)
  {
    parent := [];
    var n := |hashes|;
    var i := 0;
    while i < n
      invariant 0 <= i <= n + 1 && i % 2 == 0
      invariant |parent| == i / 2
      invariant forall j :: 0 <= j < |parent| ==> 2 * j < n && parent[j] == ParentAt(H, hashes, j)
    {
      if i + 1 < n {
        parent := parent + [H(hashes[i] + hashes[i + 1])];
      } else {
        parent := parent + [H(hashes[i])];
      }
      i := i + 2;
    }
    FoldAtAll(H, hashes);
  }

  /** Folds layers until one node is left; an empty list raises. */
  method BuildMerkleRoot(H: Hash, leaves: seq<Digest>) returns (r: Result<Digest, Error>)
    ensures |leaves| == 0 ==> r == Err(EmptyInput)
    ensures |leaves| > 0 ==> r == Ok(Root(H, leaves))
    ensures |leaves| == 1 ==> r == Ok(leaves[0])
  {
    var current := leaves;
    while |current| > 1
      invariant |leaves| == 0 <==> |current| == 0
      invariant |leaves| > 0 ==> Root(H, current) == Root(H, leaves)
      decreases |current|
    {
      current := BuildParentLayer(H, current);
    }
    if |current| == 0 {
      return Err(EmptyInput);
    }
    return Ok(current[0]);
  }

  /**
   * Recomputes the root after leaf `changedIndex` changed. The index is
   * halved level by level but never used, so the result is the full root
   * whatever the index.
   */
  method RecomputePartialRoot(H: Hash, leaves: seq<Digest>, changedIndex: int) returns (r: Result<Digest, Error>)
    ensures |leaves| == 0 ==> r == Err(EmptyInput)
    ensures |leaves| > 0 ==> r == Ok(Root(H, leaves))
  {
    var layer := leaves;
    var idx := changedIndex;
    while |layer| > 1
      invariant |leaves| == 0 <==> |layer| == 0
      invariant |leaves| > 0 ==> Root(H, layer) == Root(H, leaves)
      invariant 0 <= changedIndex < |leaves| ==> 0 <= idx < |layer|
      decreases |layer|
    {
      var parent := BuildParentLayer(H, layer);
      idx := idx / 2;
      layer := parent;
    }
    if |layer| == 0 {
      return Err(EmptyInput);
    }
    return Ok(layer[0]);
  }
}
