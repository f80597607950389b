/**
 * Inclusion proofs of `main.py`: one (sibling, direction) step per level,
 * generated from a leaf index and checked by replaying the steps from a leaf.
 */
module MerkleProof {
  import opened Wrappers
  import opened MerkleTree

  const LEFT := "left"
  const RIGHT := "right"
  const SINGLE := "single"

  /** One level of a proof: the sibling digest (None when promoted) and its side. */
  datatype Step = Step(sibling: Option<Digest>, direction: string)

  /** Python list indexing, where -1 names the last element; None stands for IndexError. */
  function PyIndex(s: seq<Digest>, k: int): Option<Digest>
  {
    if 0 <= k < |s| then Some(s[k])
    else if -|s| <= k < 0 then Some(s[|s| + k])
    else None
  }

  /** The step recorded for node `idx` of a layer of two or more nodes. */
  function StepAt(idx: int, layer: seq<Digest>): Result<Step, Error>
  {
    if idx % 2 == 0 then
      if idx + 1 < |layer| then
        match PyIndex(layer, idx + 1)
        case Some(s) => Ok(Step(Some(s), RIGHT))
        case None => Err(IndexOutOfRange)
      else Ok(Step(None, SINGLE))
    else
      match PyIndex(layer, idx - 1)
      case Some(s) => Ok(Step(Some(s), LEFT))
      case None => Err(IndexOutOfRange)
  }

  /** Puts `done` in front of the steps still to come, keeping an error. */
  function Prefixed(done: seq<Step>, rest: Result<seq<Step>, Error>): Result<seq<Step>, Error>
  {
    match rest
    case Ok(q) => Ok(done + q)
    case Err(e) => Err(e)
  }

  lemma PrefixedAppend(done: seq<Step>, st: Step, rest: Result<seq<Step>, Error>)
    ensures Prefixed(done, Prefixed([st], rest)) == Prefixed(done + [st], rest)
  {
    if rest.Ok? {
      assert done + ([st] + rest.value) == (done + [st]) + rest.value;
    }
  }

  /**
   * The proof for node `idx` of `layer`: its step, then the proof of its
   * parent `idx // 2` in the parent layer. A successful proof has one step
   * per fold.
   */
  function ProofFrom(H: Hash, idx: int, layer: seq<Digest>): (r: Result<seq<Step>, Error>)
    ensures r.Ok? ==> |r.value| == Height(|layer|)
    decreases |layer|
  {
    if |layer| <= 1 then Ok([])
    else
      match StepAt(idx, layer)
      case Err(e) => Err(e)
      case Ok(st) => Prefixed([st], ProofFrom(H, idx / 2, Fold(H, layer)))
  }

  /** One replay step: "left" puts the sibling first, "right" second, anything else hashes alone. */
  function ApplyStep(H: Hash, computed: Digest, st: Step): Result<Digest, Error>
  {
    if st.direction == LEFT then
      if st.sibling.None? then Err(MissingSibling) else Ok(H(st.sibling.value + computed))
    else if st.direction == RIGHT then
      if st.sibling.None? then Err(MissingSibling) else Ok(H(computed + st.sibling.value))
    else Ok(H(computed))
  }

  /** Replays the steps in order from `computed`. */
  function Replay(H: Hash, computed: Digest, proof: seq<Step>): Result<Digest, Error>
    decreases |proof|
  {
    if proof == [] then Ok(computed)
    else
      match ApplyStep(H, computed, proof[0])
      case Err(e) => Err(e)
      case Ok(c) => Replay(H, c, proof[1..])
  }

  /** The leaf replayed through the proof reaches the root. */
  ghost predicate Verifies(H: Hash, leaf: Digest, proof: seq<Step>, root: Digest)
  {
    Replay(H, leaf, proof) == Ok(root)
  }

  /** For an index inside the layer, the step lifts the node to its parent. */
  lemma StepLiftsToParent(H: Hash, layer: seq<Digest>, i: nat)
    requires 1 < |layer| && i < |layer|
    ensures 2 * (i / 2) < |layer|
    ensures StepAt(i, layer).Ok?
    ensures ApplyStep(H, layer[i], StepAt(i, layer).value) == Ok(ParentAt(H, layer, i / 2))
  {
  }

  /** Steps are taken as the source describes: right sibling, promotion, or left sibling. */
  lemma StepShape(layer: seq<Digest>, i: nat)
    requires 1 < |layer| && i < |layer|
    ensures i % 2 == 0 && i + 1 < |layer| ==> StepAt(i, layer) == Ok(Step(Some(layer[i + 1]), RIGHT))
    ensures i % 2 == 0 && i + 1 == |layer| ==> StepAt(i, layer) == Ok(Step(None, SINGLE))
    ensures i % 2 == 1 ==> StepAt(i, layer) == Ok(Step(Some(layer[i - 1]), LEFT))
  {
  }

  /** Every index inside the leaf list yields a proof of tree-height length. */
  lemma {:induction false} ProofExists(H: Hash, leaves: seq<Digest>, i: nat)
    requires i < |leaves|
    ensures ProofFrom(H, i, leaves).Ok?
    ensures |ProofFrom(H, i, leaves).value| == Height(|leaves|)
    decreases |leaves|
  {
    if |leaves| > 1 {
      StepLiftsToParent(H, leaves, i);
      ProofExists(H, Fold(H, leaves), i / 2);
    }
  }

  /** A proof generated for leaf i replays that leaf to the root of the same list. */
  lemma {:induction false} ProofRoundTrip(H: Hash, leaves: seq<Digest>, i: nat)
    requires i < |leaves|
    ensures ProofFrom(H, i, leaves).Ok?
    ensures Verifies(H, leaves[i], ProofFrom(H, i, leaves).value, Root(H, leaves))
    decreases |leaves|
  {
    ProofExists(H, leaves, i);
    if |leaves| > 1 {
      var up := Fold(H, leaves);
      StepLiftsToParent(H, leaves, i);
      FoldAt(H, leaves, i / 2);
      ProofRoundTrip(H, up, i / 2);
      var st := StepAt(i, leaves).value;
      var rest := ProofFrom(H, i / 2, up).value;
      assert ProofFrom(H, i, leaves).value == [st] + rest;
      assert ([st] + rest)[1..] == rest;
    }
  }

  /** The proof of leaf i never looks at leaf i itself. */
  lemma {:induction false} ProofIgnoresLeaf(H: Hash, leaves: seq<Digest>, i: nat, x: Digest)
    requires i < |leaves|
    ensures ProofFrom(H, i, leaves[i := x]) == ProofFrom(H, i, leaves)
    decreases |leaves|
  {
    if |leaves| > 1 {
      var v := ParentAt(H, leaves[i := x], i / 2);
      FoldUpdate(H, leaves, i, x);
      ProofIgnoresLeaf(H, Fold(H, leaves), i / 2, v);
      assert StepAt(i, leaves[i := x]) == StepAt(i, leaves);
    }
  }

  /**
   * The old proof of position i, replayed from a new leaf x, gives the root
   * of the list with leaf i replaced: only the path to the root changes.
   */
  lemma PathRecompute(H: Hash, leaves: seq<Digest>, i: nat, x: Digest)
    requires i < |leaves|
    ensures ProofFrom(H, i, leaves).Ok?
    ensures Verifies(H, x, ProofFrom(H, i, leaves).value, Root(H, leaves[i := x]))
  {
    ProofIgnoresLeaf(H, leaves, i, x);
    ProofRoundTrip(H, leaves[i := x], i);
  }

  /** Two leaves: each proof is the other leaf on the opposite side. */
  lemma TwoLeafProofs(H: Hash, a: Digest, b: Digest)
    ensures ProofFrom(H, 0, [a, b]) == Ok([Step(Some(b), RIGHT)])
    ensures ProofFrom(H, 1, [a, b]) == Ok([Step(Some(a), LEFT)])
    ensures Verifies(H, a, [Step(Some(b), RIGHT)], Root(H, [a, b]))
  {
    assert |Fold(H, [a, b])| == 1;
    assert [Step(Some(b), RIGHT)] + [] == [Step(Some(b), RIGHT)];
    assert [Step(Some(a), LEFT)] + [] == [Step(Some(a), LEFT)];
    ProofRoundTrip(H, [a, b], 0);
  }

  /** Three leaves: the last leaf is promoted alone, then paired from the left. */
  lemma ThreeLeafProof(H: Hash, a: Digest, b: Digest, c: Digest)
    ensures ProofFrom(H, 2, [a, b, c]) == Ok([Step(None, SINGLE), Step(Some(H(a + b)), LEFT)])
  {
    var leaves := [a, b, c];
    assert leaves[2..] == [c];
    assert Fold(H, [c]) == [H(c)];
    var l1 := Fold(H, leaves);
    assert l1 == [H(a + b)] + Fold(H, [c]);
    assert l1 == [H(a + b), H(c)];
    var top := Step(Some(H(a + b)), LEFT);
    assert |Fold(H, l1)| == 1;
    assert [top] + [] == [top];
    assert ProofFrom(H, 1, l1) == Ok([top]);
    assert ProofFrom(H, 2, leaves) == Prefixed([Step(None, SINGLE)], Ok([top]));
    assert [Step(None, SINGLE)] + [top] == [Step(None, SINGLE), top];
  }

  /**
   * Builds the proof for `index` level by level; an index outside the list
   * can still produce steps or raise, exactly as Python indexing does.
   */
  method GenerateProof(H: Hash, index: int, leaves: seq<Digest>) returns (r: Result<seq<Step>, Error>)
    ensures r == ProofFrom(H, index, leaves)
    ensures r.Ok? ==> |r.value| == Height(|leaves|)
    ensures 0 <= index < |leaves| ==> r.Ok? && Verifies(H, leaves[index], r.value, Root(H, leaves))
  {
    if 0 <= index < |leaves| {
      ProofRoundTrip(H, leaves, index);
    }
    var proof: seq<Step> := [];
    var current := index;
    var layer := leaves;
    match ProofFrom(H, index, leaves) {
      case Ok(q) => assert proof + q == q;
      case Err(_) =>
    }
    while |layer| > 1
      invariant ProofFrom(H, index, leaves) == Prefixed(proof, ProofFrom(H, current, layer))
      decreases |layer|
    {
      var n := |layer|;
      var st: Step;
      if current % 2 == 0 {
        var siblingIndex := current + 1;
        if siblingIndex < n {
          var s := PyIndex(layer, siblingIndex);
          if s.None? {
            return Err(IndexOutOfRange);
          }
          st := Step(s, RIGHT);
        } else {
          st := Step(None, SINGLE);
        }
      } else {
        var s := PyIndex(layer, current - 1);
        if s.None? {
          return Err(IndexOutOfRange);
        }
        st := Step(s, LEFT);
      }
      PrefixedAppend(proof, st, ProofFrom(H, current / 2, Fold(H, layer)));
      proof := proof + [st];
      layer := BuildParentLayer(H, layer);
      current := current / 2;
    }
    assert proof + [] == proof;
    return Ok(proof);
  }

  /** Replays the proof from `target`; true exactly when the result is `root`. */
  method VerifyProof(H: Hash, target: Digest, proof: seq<Step>, root: Digest) returns (r: Result<bool, Error>)
    ensures Replay(H, target, proof).Err? <==> r.Err?
    ensures r.Ok? ==> (r.value <==> Verifies(H, target, proof, root))
  {
    var computed := target;
    for k := 0 to |proof|
      invariant Replay(H, target, proof) == Replay(H, computed, proof[k..])
    {
      var st := proof[k];
      assert proof[k..][1..] == proof[k + 1..];
      if st.direction == LEFT {
        if st.sibling.None? {
          return Err(MissingSibling);
        }
        computed := H(st.sibling.value + computed);
      } else if st.direction == RIGHT {
        if st.sibling.None? {
          return Err(MissingSibling);
        }
        computed := H(computed + st.sibling.value);
      } else {
        computed := H(computed);
      }
    }
    assert proof[|proof|..] == [];
    return Ok(computed == root);
  }
}
