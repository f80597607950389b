/**
 * Menu option 7 of `main.py` ("Generate + Verify Proof"): the user's index
 * selects the target leaf with Python indexing, a proof is generated for the
 * same index and replayed against the root built from the leaves.
 */
module ProofQuery {
  import opened Wrappers
  import opened MerkleTree
  import opened MerkleProof
  import opened Tamper

  /** Replays `proof` from `target` and compares with the root of `leaves`. */
  function Check(H: Hash, leaves: seq<Digest>, target: Digest, proof: Result<seq<Step>, Error>): Result<bool, Error>
    requires |leaves| > 0
  {
    match proof
    case Err(e) => Err(e)
    case Ok(q) =>
      match Replay(H, target, q)
      case Err(e) => Err(e)
      case Ok(c) => Ok(c == Root(H, leaves))
  }

  /**
   * Option 7 as written: the target is `leaf_hashes[idx]`, which accepts a
   * negative index, but the proof is generated for `idx` unchanged.
   */
  function QueryAsWritten(H: Hash, leaves: seq<Digest>, idx: int): Result<bool, Error>
    requires |leaves| > 0
  {
    match PyIndex(leaves, idx)
    case None => Err(IndexOutOfRange)
    case Some(target) => Check(H, leaves, target, ProofFrom(H, idx, leaves))
  }

  /** As written, every non-negative index inside the list is reported valid. */
  lemma QueryAsWrittenAcceptsInRange(H: Hash, leaves: seq<Digest>, idx: int)
    requires 0 <= idx < |leaves|
    ensures QueryAsWritten(H, leaves, idx) == Ok(true)
  {
    ProofRoundTrip(H, leaves, idx);
  }

  /**
   * As written, index -1 of three leaves a, b, c selects c but builds the
   * proof of a left child at every level; replaying it from c reaches the
   * root only through a collision of `H`.
   */
  lemma NegativeIndexRejected(H: Hash, a: Digest, b: Digest, c: Digest) returns (s: string, t: string)
    requires |b| > 0
    ensures ProofFrom(H, -1, [a, b, c]) == Ok([Step(Some(b), LEFT), Step(Some(H(a + b)), LEFT)])
    ensures QueryAsWritten(H, [a, b, c], -1) == Ok(H(H(a + b) + H(b + c)) == H(H(a + b) + H(c)))
    ensures QueryAsWritten(H, [a, b, c], -1) == Ok(true) ==> Collision(H, s, t)
  {
    var leaves := [a, b, c];
    assert leaves[2..] == [c];
    assert Fold(H, [c]) == [H(c)];
    var l1 := Fold(H, leaves);
    assert l1 == [H(a + b)] + Fold(H, [c]);
    assert l1 == [H(a + b), H(c)];
    var top := Step(Some(H(a + b)), LEFT);
    assert |Fold(H, l1)| == 1;
    assert [top] + [] == [top];
    assert ProofFrom(H, -1, l1) == Ok([top]);
    var first := Step(Some(b), LEFT);
    assert ProofFrom(H, -1, leaves) == Prefixed([first], Ok([top]));
    var proof := [first, top];
    assert [first] + [top] == proof;
    assert proof[1..] == [top] && [top][1..] == [];
    assert ApplyStep(H, c, first) == Ok(H(b + c));
    assert Replay(H, H(b + c), [top]) == Replay(H, H(H(a + b) + H(b + c)), []);
    assert Replay(H, c, proof) == Ok(H(H(a + b) + H(b + c)));
    ThreeLeafRoot(H, a, b, c);
    s, t := H(a + b) + H(b + c), H(a + b) + H(c);
    assert |b + c| > |c|;
    assert H(b + c) != H(c) ==> s != t by {
      if s == t {
        assert s[|H(a + b)|..] == H(b + c) && t[|H(a + b)|..] == H(c);
      }
    }
    if H(b + c) == H(c) {
      s, t := b + c, c;
    }
  }

  /** The leaf position a Python index names: a negative index counts from the end. */
  function Position(n: nat, idx: int): (p: int)
    ensures 0 <= idx + n && idx < n ==> 0 <= p < n
    ensures 0 <= idx ==> p == idx
  {
    if idx < 0 then idx + n else idx
  }

  /** Option 7 with the proof generated for the position the target was read from. */
  function Query(H: Hash, leaves: seq<Digest>, idx: int): Result<bool, Error>
    requires |leaves| > 0
  {
    match PyIndex(leaves, idx)
    case None => Err(IndexOutOfRange)
    case Some(target) => Check(H, leaves, target, ProofFrom(H, Position(|leaves|, idx), leaves))
  }

  /** Every index Python accepts, negative ones included, is reported valid; any other is an error. */
  lemma QueryAcceptsEveryIndex(H: Hash, leaves: seq<Digest>, idx: int)
    requires |leaves| > 0
    ensures -|leaves| <= idx < |leaves| ==> Query(H, leaves, idx) == Ok(true)
    ensures !(-|leaves| <= idx < |leaves|) ==> Query(H, leaves, idx) == Err(IndexOutOfRange)
  {
    if -|leaves| <= idx < |leaves| {
      var p := Position(|leaves|, idx);
      assert PyIndex(leaves, idx) == Some(leaves[p]);
      ProofRoundTrip(H, leaves, p);
    }
  }
}
