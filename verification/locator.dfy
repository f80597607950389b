/**
 * The change locator and the integrity check of `main.py`: find the first
 * line where the original and the tampered dataset differ, re-derive that
 * one leaf in a copy of the leaf list, and compare the recomputed root with
 * the committed one. Lines are given as sequences of text; JSON decoding of
 * a line is the opaque parameter `parse` (None stands for a decode error).
 */
module ChangeLocator {
  import opened Wrappers
  import opened MerkleTree
  import opened Canonical
  import opened Tamper

  /** What `check_integrity_partial` reports. */
  datatype Verdict = NoDetectableChange | Intact | TamperingDetected

  /**
   * The least position below both lengths where the lines differ, or None
   * when every zipped pair is equal (also when the lengths differ).
   */
  function FirstDifference(a: seq<string>, b: seq<string>): (r: Option<nat>)
    ensures r.Some? ==> r.value < |a| && r.value < |b| && a[r.value] != b[r.value]
    ensures r.Some? ==> forall k :: 0 <= k < r.value ==> a[k] == b[k]
    ensures r.None? <==> forall k :: 0 <= k < |a| && k < |b| ==> a[k] == b[k]
    decreases |a|
  {
    if a == [] || b == [] then None
    else if a[0] != b[0] then Some(0)
    else
      match FirstDifference(a[1..], b[1..])
      case None => None
      case Some(k) => Some(k + 1)
  }

  /** The least differing position is the first difference. */
  lemma {:induction false} FirstDifferenceAt(a: seq<string>, b: seq<string>, i: nat)
    requires i < |a| && i < |b| && a[i] != b[i]
    requires forall k :: 0 <= k < i ==> a[k] == b[k]
    ensures FirstDifference(a, b) == Some(i)
    decreases i
  {
    if i > 0 {
      FirstDifferenceAt(a[1..], b[1..], i - 1);
    }
  }

  /**
   * The result of `update_leaf_hashes_partial`: a copy of the leaves with
   * the first differing position re-derived from the tampered line.
   */
  function LocateAndReplace(H: Hash, lib: TextLib, parse: string -> Option<Record>,
                            original: seq<string>, tampered: seq<string>, leaves: seq<Digest>)
    : (r: Result<(seq<Digest>, Option<nat>), Error>)
    ensures FirstDifference(original, tampered).None? ==> r == Ok((leaves, None))
    ensures r.Ok? ==> |r.value.0| == |leaves|
    ensures r.Ok? && r.value.1.Some? ==>
      var k := r.value.1.value;
      Some(k) == FirstDifference(original, tampered) && k < |leaves|
      && forall j :: 0 <= j < |leaves| && j != k ==> r.value.0[j] == leaves[j]
    ensures r.Ok? && r.value.1.Some? ==>
      var k := r.value.1.value;
      parse(tampered[k]).Some? && r.value.0 == leaves[k := LeafDigest(H, lib, parse(tampered[k]).value)]
    ensures FirstDifference(original, tampered).Some? ==>
      var k := FirstDifference(original, tampered).value;
      (parse(tampered[k]).None? ==> r == Err(MalformedRecord))
      && (parse(tampered[k]).Some? ==> (r == Err(IndexOutOfRange) <==> k >= |leaves|))
      && (parse(tampered[k]).Some? && k < |leaves| ==> r.Ok? && r.value.1 == Some(k))
  {
    match FirstDifference(original, tampered)
    case None => Ok((leaves, None))
    case Some(k) =>
      match parse(tampered[k])
      case None => Err(MalformedRecord)
      case Some(rec) =>
        if k < |leaves| then Ok((leaves[k := LeafDigest(H, lib, rec)], Some(k)))
        else Err(IndexOutOfRange)
  }

  /** The verdict of `check_integrity_partial` against `savedRoot`. */
  function IntegrityVerdict(H: Hash, lib: TextLib, parse: string -> Option<Record>,
                            original: seq<string>, tampered: seq<string>,
                            savedRoot: Digest, leaves: seq<Digest>): Result<Verdict, Error>
  {
    match LocateAndReplace(H, lib, parse, original, tampered, leaves)
    case Err(e) => Err(e)
    case Ok((updated, changed)) =>
      if changed.None? then Ok(NoDetectableChange)
      else if Root(H, updated) == savedRoot then Ok(Intact)
      else Ok(TamperingDetected)
  }

  /**
   * With the committed root of `leaves` as the saved root, an "intact"
   * verdict after a located change means the changed line re-derived the
   * same leaf, or SHA-256 collides.
   */
  lemma IntactMeansSameLeafOrCollision(H: Hash, lib: TextLib, parse: string -> Option<Record>,
                                       original: seq<string>, tampered: seq<string>, leaves: seq<Digest>)
    returns (s: string, t: string)
    requires HexWidth(H)
    requires |leaves| > 0 && forall j :: 0 <= j < |leaves| ==> |leaves[j]| == DigestLength
    requires IntegrityVerdict(H, lib, parse, original, tampered, Root(H, leaves), leaves) == Ok(Intact)
    ensures LocateAndReplace(H, lib, parse, original, tampered, leaves).Ok?
    ensures LocateAndReplace(H, lib, parse, original, tampered, leaves).value.0 == leaves || Collision(H, s, t)
  {
    var located := LocateAndReplace(H, lib, parse, original, tampered, leaves);
    assert located.Ok? && located.value.1.Some?;
    var k := FirstDifference(original, tampered).value;
    var rec := parse(tampered[k]).value;
    var x := LeafDigest(H, lib, rec);
    assert located.value.0 == leaves[k := x];
    assert Root(H, leaves[k := x]) == Root(H, leaves);
    s, t := "", "";
    if x != leaves[k] {
      s, t := TamperChangesRoot(H, leaves, k, x);
    }
  }

  /** Walks the zipped lines; the first differing line replaces one leaf of a copy. */
  method UpdateLeafHashesPartial(H: Hash, lib: TextLib, parse: string -> Option<Record>,
                                 original: seq<string>, tampered: seq<string>, leaves: seq<Digest>)
    returns (r: Result<(seq<Digest>, Option<nat>), Error>)
    ensures r == LocateAndReplace(H, lib, parse, original, tampered, leaves)
  {
    var updated := leaves;
    var n := if |original| < |tampered| then |original| else |tampered|;
    for idx := 0 to n
      invariant forall k :: 0 <= k < idx ==> original[k] == tampered[k]
    {
      if original[idx] != tampered[idx] {
        FirstDifferenceAt(original, tampered, idx);
        var data := parse(tampered[idx]);
        if data.None? {
          return Err(MalformedRecord);
        }
        if idx >= |updated| {
          return Err(IndexOutOfRange);
        }
        updated := updated[idx := LeafDigest(H, lib, data.value)];
        return Ok((updated, Some(idx)));
      }
    }
    return Ok((updated, None));
  }

  /** Locates the change, recomputes the root, and compares it with the saved root. */
  method CheckIntegrityPartial(H: Hash, lib: TextLib, parse: string -> Option<Record>,
                               original: seq<string>, tampered: seq<string>,
                               savedRoot: Digest, leaves: seq<Digest>)
    returns (r: Result<Verdict, Error>)
    ensures r == IntegrityVerdict(H, lib, parse, original, tampered, savedRoot, leaves)
  {
    var located := UpdateLeafHashesPartial(H, lib, parse, original, tampered, leaves);
    if located.Err? {
      return Err(located.error);
    }
    var (updated, changed) := located.value;
    if changed.None? {
      return Ok(NoDetectableChange);
    }
    var newRoot := RecomputePartialRoot(H, updated, changed.value);
    if newRoot == Ok(savedRoot) {
      return Ok(Intact);
    }
    return Ok(TamperingDetected);
  }
}
