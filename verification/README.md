# Merkle-tree dataset integrity, modelled in Dafny

This project models the Merkle-tree engine of `main.py` in the
merkle-tree-dataset-integrity repository. The engine turns each review record
into a leaf digest: the SHA-256 of `id|asin|rating|cleaned_text`. It folds the
ordered leaf list into one root. Neighbours are paired as `H(left + right)`,
and a trailing lone node is promoted as `H(lone)`, not duplicated. After a
dataset changes, it recomputes the root and compares it with a saved root. It
also builds and checks sibling-path inclusion proofs.

SHA-256 is the parameter `H: string -> string`. Digests are hex text, and a
parent hashes the textual concatenation of two digests. Every result therefore
holds for any hash function. The model assumes nothing about collisions.
Instead, the tamper-sensitivity lemmas return two different texts with the same
hash whenever tampering would go unnoticed. They require that `H` yields
64-character digests (`HexWidth`). They also require that the leaves compared
have equal widths. `RootCollision` asks the two lists to agree in width
position by position (`SameWidths`). `TamperChangesRoot` and
`TamperedLeafRejected` ask the new leaf to be as wide as the one it replaces.
`IntactMeansSameLeafOrCollision` asks every committed leaf to be a
64-character digest.

Modules, one per component:

- `wrappers.dfy` (`Wrappers`): `Option` and `Result`.
- `merkle.dfy` (`MerkleTree`): the layer fold, the root, tree height, and the
  methods `build_parent_layer`, `build_merkle_root` and
  `recompute_partial_root`.
- `proof.dfy` (`MerkleProof`): proof generation and replay, the round trip, and
  the fact that a proof ignores its own leaf.
- `tamper.dfy` (`Tamper`): equal roots, or a tampered leaf that still
  verifies, yield a hash collision.
- `canonical.dfy` (`Canonical`): `clean_text` and the leaf key.
- `locator.dfy` (`ChangeLocator`): `update_leaf_hashes_partial` and
  `check_integrity_partial`.
- `query.dfy` (`ProofQuery`): menu option 7, which reads a target leaf by
  index and then generates and verifies its proof.

Each loop of the source is a method proved against a pure specification
function: `Fold`, `Root`, `ProofFrom`, `Replay`, `FirstDifference` and
`LocateAndReplace`. The lemmas state the promised properties of those
functions. `recompute_partial_root` and `generate_proof` repeat the pairing
loop of `build_parent_layer` inline (main.py:145-149, main.py:196-200). The
model calls the one `BuildParentLayer` method from both.

`generate_proof` does not check its index. The model follows the code. An
index outside the list reads siblings with Python list indexing. There a
negative index counts from the end. The parity test and `//` still treat a
negative index as itself, so `generate_proof(-1, ...)` emits a "left" step at
every level. That is the last leaf's proof only when every layer has an even
number of nodes, that is when the leaf count is a power of two. An index past the end can
still emit steps. An `IndexError` becomes the `IndexOutOfRange` error. Python exceptions become `Result.Err`:

- `EmptyInput`: `IndexError` on an empty list.
- `IndexOutOfRange`: `IndexError` on a bad index.
- `MissingSibling`: `TypeError` when `None` is concatenated during replay.
- `MalformedRecord`: `JSONDecodeError`.

## Model

| member | source | states |
|---|---|---|
| MerkleTree.Fold | main.py:88-98 | a layer of n nodes folds into a parent layer of ⌈n/2⌉ nodes |
| MerkleTree.FoldAt | main.py:91-97 | parent j is `H(h[2j]+h[2j+1])` when node 2j+1 exists, otherwise `H(h[2j])` |
| MerkleTree.FoldUpdate | main.py:91-97 | replacing node i of a layer changes only parent i/2 of the next layer |
| MerkleTree.BuildParentLayer | main.py:88-98 | the loop returns exactly the parent layer |
| MerkleTree.BuildMerkleRoot | main.py:100-111 | an empty list raises; a single leaf is its own root; otherwise the result is the root of the leaves |
| MerkleTree.HeightIsCeilLog2 | main.py:105-108 | the number of folds down to one node is ⌈log2 n⌉ |
| MerkleTree.SingleLeafRoot | main.py:105-111 | a one-leaf list is its own root, with no hashing |
| MerkleTree.ThreeLeafRoot | main.py:88-111 | the root of three leaves is `H(H(h0+h1)+H(h2))` |
| MerkleTree.ParentLayerSharesRoot | main.py:105-106 | a layer and its shorter parent layer have the same root |
| MerkleTree.RecomputePartialRoot | main.py:139-152 | for every changed index, the result equals the full root of the leaves; an empty list raises |
| MerkleProof.ProofFrom | main.py:177-205 | a successful proof has exactly one step per fold, so none for one leaf |
| MerkleProof.StepShape | main.py:185-193 | even index with a sibling gives (right node, "right"); even last index gives (None, "single"); odd index gives (left node, "left") |
| MerkleProof.StepLiftsToParent | main.py:185-203 | replaying a step from node i gives parent i/2 of the next layer |
| MerkleProof.ProofExists | main.py:177-205 | every index inside the list yields a proof whose length is the tree height |
| MerkleProof.ProofRoundTrip | main.py:177-224 | for every index i, replaying leaf i through its proof reaches the root |
| MerkleProof.ProofIgnoresLeaf | main.py:185-203 | the proof of position i is the same whatever leaf i holds |
| MerkleProof.PathRecompute | main.py:177-224 | the old proof of i, replayed from a new leaf, gives the root of the list with leaf i replaced |
| MerkleProof.TwoLeafProofs | main.py:384-396 | with two leaves, each proof is the other leaf on the opposite side, and leaf 0 verifies |
| MerkleProof.ThreeLeafProof | main.py:185-203 | with three leaves, the proof of leaf 2 is (None, "single") then (`H(h0+h1)`, "left") |
| MerkleProof.GenerateProof | main.py:177-205 | the loop computes the proof; its length is the tree height; for an in-range index the leaf verifies against the root |
| MerkleProof.VerifyProof | main.py:207-224 | "left" hashes sibling+computed, "right" computed+sibling, any other direction computed alone; the result is whether the root is reached; a missing sibling raises |
| Tamper.RootCollision | main.py:88-111 | two different same-shape leaf lists (a changed leaf or a reordering) with equal roots yield a collision of H |
| Tamper.TamperChangesRoot | main.py:167-173 | replacing a leaf by a different digest changes the root, unless H collides |
| Tamper.TamperedLeafRejected | main.py:207-224 | a replaced leaf replayed through its position's proof misses the old root, unless H collides |
| Canonical.FirstClose | main.py:50 | the lazy `.*?>` after `<` ends at the first `>` met before any newline |
| Canonical.StripTagsRemovesTags | main.py:50 | after the tag substitution, no `<...>` on one line is left |
| Canonical.FirstCloseAfter | main.py:50 | a `<` followed by text without `>` or newline and then `>` is matched up to that `>` |
| Canonical.StripTagsNoOpen | main.py:50 | text without `<` is left unchanged |
| Canonical.StripTagsOneTag | main.py:50 | the first tag is replaced by one blank, the text before it is kept, and the substitution continues after its `>` |
| Canonical.CollapseSpaces | main.py:51 | no two whitespace characters are adjacent, every whitespace is a blank, the text starts with whitespace exactly when the input does, and no other character is lost |
| Canonical.CollapseKeepsWords | main.py:51 | the words (maximal non-whitespace runs) are the same after collapsing, so each run between two words becomes exactly one blank |
| Canonical.CollapseKeepsLastSpace | main.py:51 | the collapsed text ends with whitespace exactly when the input does |
| Canonical.TrimStartKeepsWords | main.py:52 | trimming whitespace from the front keeps the words |
| Canonical.TrimEndKeepsWords | main.py:52 | trimming whitespace from the back keeps the words |
| Canonical.StripKeepsWords | main.py:52 | `strip()` keeps the words |
| Canonical.StripKeepsBlanks | main.py:52 | `strip()` of a text with single blanks leaves a text with single blanks |
| Canonical.StripTrimsBothEnds | main.py:52 | `strip()` leaves no whitespace at either end and removes nothing else |
| Canonical.TrimKeepsNonSpace | main.py:52 | trimming either end removes only whitespace |
| Canonical.Normalize | main.py:50-52 | the cleaned text before lower-casing is the words of the tag-stripped text, separated by single blanks, with no whitespace at the ends |
| Canonical.CleanText | main.py:46-52 | empty input gives ""; otherwise the result is the lower-casing of a whitespace-canonical text whose words are those of the NFKC-normalised, tag-stripped input |
| Canonical.Join4Injective | main.py:79 | when the first three fields contain no bar separator, the joined key determines all four fields, and the converse holds |
| Canonical.LeafKeyInjective | main.py:73-79 | provided the id, the canonical asin and the canonical rating contain no bar separator, two records share a leaf key exactly when their canonical id, asin, rating and text agree |
| Canonical.BarInFieldIsAmbiguous | main.py:79 | a bar separator inside a field lets two different field tuples share a key |
| ChangeLocator.FirstDifference | main.py:118-119 | the least zipped position where the lines differ; None exactly when all zipped pairs agree, whatever the lengths |
| ChangeLocator.FirstDifferenceAt | main.py:118-119 | the first differing position found by the scan is the first difference |
| ChangeLocator.LocateAndReplace | main.py:113-135 | the located index is the first difference; the copy is the leaves with the leaf digest of the re-parsed changed line written there; with no difference it is the leaves unchanged; an undecodable changed line raises MalformedRecord; a located index past the leaves raises IndexOutOfRange, and one inside does not |
| ChangeLocator.UpdateLeafHashesPartial | main.py:113-135 | the loop returns the copy and index of `LocateAndReplace`, including the decode and index errors |
| ChangeLocator.CheckIntegrityPartial | main.py:156-173 | no difference gives "no detectable change"; otherwise the result is intact exactly when the recomputed root equals the saved root |
| ChangeLocator.IntactMeansSameLeafOrCollision | main.py:156-173 | against the committed root, an intact verdict means the changed line derived the same leaf, or H collides |
| ProofQuery.QueryAsWrittenAcceptsInRange | main.py:464-478 | every non-negative index inside the list is reported valid |
| ProofQuery.NegativeIndexRejected | main.py:464-478 | index -1 of three leaves reads the last leaf but proves a left-child path, so it is reported valid only if H collides |
| ProofQuery.Position | main.py:470 | a Python index in range names a position in range, and a non-negative index names itself |
| ProofQuery.QueryAcceptsEveryIndex | main.py:464-478 | with the proof built for the position the target was read from, every index Python accepts is reported valid and every other index raises |

## Left out

- File reading and writing, line iteration and `json.loads` are left out. A line is text; decoding a line into a record is the opaque parameter `parse`, and its failure is `MalformedRecord`.
- `build_leaf_hashes` (the file loop, its 1,500,000 limit and the skipping of undecodable lines) is left out. Only the per-record derivation `LeafDigest` is modelled.
- The `reviewID`/`reviewerID`/`id` fallback chain and the random `uuid4` identifier are left out: the record id is an input.
- JSON `null` and non-string field values are left out: `parse` delivers the `asin`, the `str()` of the rating, and the text as strings.
- SHA-256 internals, NFKC normalisation, `str.lower` and `str.upper` are foreign library calls. They are opaque function parameters.
- Canonical.CleanText: its whitespace and word properties are stated on the text before lower-casing, because `str.lower` is opaque. The result is the lower-casing of that text. Its own characters are not constrained any further.
- Timing, `tracemalloc`, printing, `view_dataset`, `save_root`/`load_root`, the menu loop apart from the proof logic of option 7, the tamper drivers and the performance helpers are left out. So is the print-only layer counter of `build_merkle_root`.
- `streamlit_merkle.py` is not part of this model. It is visualisation only.
- Tamper.RootCollision: tamper detection is proved only for leaf lists of the same length. Lists of different lengths can share a root without any collision (`ParentLayerSharesRoot`), so insertions and deletions are not covered.
- Tamper sensitivity is stated as "or H collides", not as injectivity of H. No function from all texts to 64-character digests is injective.

## Findings

| source | as written | input that shows it | evidently intended | confidence | as-written member | corrected member |
|---|---|---|---|---|---|---|
| main.py:470-471 | the target is `leaf_hashes[idx]`, which counts a negative index from the end, but `generate_proof(idx, ...)` uses the negative index unchanged | leaves a, b, c and index -1: the target is c, the proof is (b, "left") then (`H(a+b)`, "left"), and replaying it gives `H(H(a+b)+H(b+c))` instead of the root `H(H(a+b)+H(c))`, so the result is INVALID | a negative index proves the leaf it reads, so every index Python accepts is reported VALID | not executed | ProofQuery.NegativeIndexRejected | ProofQuery.QueryAcceptsEveryIndex |
