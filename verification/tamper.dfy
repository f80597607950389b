/**
 * Tamper sensitivity of the tree, stated without assuming SHA-256 is
 * injective (no function from all texts to 64-character digests is): when
 * two different leaf lists of the same shape have the same root, or a
 * replaced leaf still verifies against the old root, the lemmas below
 * return two different texts with the same hash.
 */
module Tamper {
  import opened MerkleTree
  import opened MerkleProof

  /** Two different texts with the same digest. */
  ghost predicate Collision(H: Hash, s: string, t: string)
  {
    s != t && H(s) == H(t)
  }

  /** Two layers with the same number of nodes, position by position of equal width. */
  ghost predicate SameWidths(a: seq<Digest>, b: seq<Digest>)
  {
    |a| == |b| && forall k :: 0 <= k < |a| ==> |a[k]| == |b[k]|
  }

  /** Texts of equal width concatenated with a suffix are equal only when both parts are. */
  lemma ConcatSplits(x: string, y: string, x': string, y': string)
    requires |x| == |x'| && x + y == x' + y'
    ensures x == x' && y == y'
  {
    assert x == (x + y)[..|x|];
    assert x' == (x' + y')[..|x'|];
    assert y == (x + y)[|x|..];
    assert y' == (x' + y')[|x'|..];
  }

  /** Where two same-width layers differ, the inputs of the affected parent differ. */
  lemma ParentInputsDiffer(a: seq<Digest>, b: seq<Digest>, k: nat)
    requires SameWidths(a, b) && k < |a| && a[k] != b[k]
    ensures 2 * (k / 2) < |a|
    ensures ParentInput(a, k / 2) != ParentInput(b, k / 2)
  {
    var j := k / 2;
    if 2 * j + 1 < |a| && ParentInput(a, j) == ParentInput(b, j) {
      ConcatSplits(a[2 * j], a[2 * j + 1], b[2 * j], b[2 * j + 1]);
    }
  }

  /**
   * Different leaf lists of the same shape whose roots agree yield a
   * collision of H. This covers a modified leaf and a reordering of leaves.
   */
  lemma {:induction false} RootCollision(H: Hash, a: seq<Digest>, b: seq<Digest>) returns (s: string, t: string)
    requires HexWidth(H)
    requires |a| > 0 && SameWidths(a, b) && a != b
    ensures Root(H, a) == Root(H, b) ==> Collision(H, s, t)
    decreases |a|
  {
    s, t := "", "";
    if |a| > 1 {
      assert exists k :: 0 <= k < |a| && a[k] != b[k];
      var k :| 0 <= k < |a| && a[k] != b[k];
      var j := k / 2;
      ParentInputsDiffer(a, b, k);
      FoldAt(H, a, j);
      FoldAt(H, b, j);
      var fa, fb := Fold(H, a), Fold(H, b);
      if fa[j] == fb[j] {
        s, t := ParentInput(a, j), ParentInput(b, j);
      } else {
        FoldWidth(H, a);
        FoldWidth(H, b);
        s, t := RootCollision(H, fa, fb);
      }
    }
  }

  /** Replacing one leaf by a different digest of the same width changes the root, or H collides. */
  lemma TamperChangesRoot(H: Hash, leaves: seq<Digest>, i: nat, x: Digest) returns (s: string, t: string)
    requires HexWidth(H)
    requires i < |leaves| && x != leaves[i] && |x| == |leaves[i]|
    ensures Root(H, leaves[i := x]) == Root(H, leaves) ==> Collision(H, s, t)
  {
    assert leaves[i := x][i] != leaves[i];
    s, t := RootCollision(H, leaves[i := x], leaves);
  }

  /**
   * A replaced leaf, replayed through the proof of its position, no longer
   * reaches the old root unless H collides.
   */
  lemma TamperedLeafRejected(H: Hash, leaves: seq<Digest>, i: nat, x: Digest) returns (s: string, t: string)
    requires HexWidth(H)
    requires i < |leaves| && x != leaves[i] && |x| == |leaves[i]|
    ensures ProofFrom(H, i, leaves).Ok?
    ensures Verifies(H, x, ProofFrom(H, i, leaves).value, Root(H, leaves)) ==> Collision(H, s, t)
  {
    PathRecompute(H, leaves, i, x);
    s, t := TamperChangesRoot(H, leaves, i, x);
  }
}
