/** Inclusion proofs: their wire form, the walk from a leaf towards the root that they drive,
    and the reconstruction of the root. */
module Proofs {
  import opened Outcomes
  import opened Words
  import opened InOrder
  import opened Navigation
  import opened Rfc6962

  type NonZeroUsize = x: Usize | x > 0 witness 1

  datatype Proof = Proof(auditPath: Bytes, leafIndex: Usize, treeSize: NonZeroUsize)

  datatype UncheckedProof = UncheckedProof(auditPath: Bytes, leafIndex: Usize, treeSize: Usize)

  datatype InvalidProof =
    | AuditPathNotMultipleOf32(len: nat)
    | LeafIndexOutsideTree(leafIndex: Usize, treeSize: NonZeroUsize)
    | ZeroTreeSize

  function IsLeafIndexInTree(i: Usize, n: Usize): Outcome<bool> {
    match LeafIndexToTreeIndex(i)
    case Panic => Panic
    case Return(j) => Return(j < n)
  }

  function TryIntoProof(u: UncheckedProof): Outcome<Result<Proof, InvalidProof>> {
    if u.treeSize == 0 then Return(Err(ZeroTreeSize))
    else
      match IsLeafIndexInTree(u.leafIndex, u.treeSize)
      case Panic => Panic
      case Return(false) => Return(Err(LeafIndexOutsideTree(u.leafIndex, u.treeSize)))
      case Return(true) =>
        if |u.auditPath| % 32 != 0 then Return(Err(AuditPathNotMultipleOf32(|u.auditPath|)))
        else Return(Ok(Proof(u.auditPath, u.leafIndex, u.treeSize)))
  }

  function IntoUnchecked(p: Proof): UncheckedProof {
    UncheckedProof(p.auditPath, p.leafIndex, p.treeSize)
  }

  /** A proof whose leaf lies in its tree and whose path is made of whole digests. */
  predicate IsChecked(p: Proof) {
    2 * p.leafIndex < p.treeSize && |p.auditPath| % 32 == 0
  }

  /** Checking accepts exactly the unchecked forms of checked proofs, and returns that proof. */
  lemma CheckingInvertsUnchecking(u: UncheckedProof, p: Proof)
    ensures TryIntoProof(u) == Return(Ok(p)) <==> u == IntoUnchecked(p) && IsChecked(p)
  {
  }

  /** Every outcome of the check and exactly when it occurs. A leaf index that has no tree index
      in a word panics, unless the tree size is zero; the errors are reported in this order. */
  lemma CheckingOutcomes(u: UncheckedProof)
    ensures TryIntoProof(u).Panic? <==> u.treeSize > 0 && 2 * u.leafIndex > MAX
    ensures TryIntoProof(u) == Return(Err(ZeroTreeSize)) <==> u.treeSize == 0
    ensures (exists i, n :: TryIntoProof(u) == Return(Err(LeafIndexOutsideTree(i, n))))
       <==> 0 < u.treeSize <= 2 * u.leafIndex <= MAX
    ensures (exists len :: TryIntoProof(u) == Return(Err(AuditPathNotMultipleOf32(len))))
       <==> 2 * u.leafIndex < u.treeSize && |u.auditPath| % 32 != 0
    ensures (exists p :: TryIntoProof(u) == Return(Ok(p)))
       <==> 2 * u.leafIndex < u.treeSize && |u.auditPath| % 32 == 0
    ensures forall i, n :: TryIntoProof(u) == Return(Err(LeafIndexOutsideTree(i, n))) ==>
              i == u.leafIndex && n == u.treeSize
    ensures forall len :: TryIntoProof(u) == Return(Err(AuditPathNotMultipleOf32(len))) ==> len == |u.auditPath|
  {
    if u.treeSize > 0 && 2 * u.leafIndex <= MAX {
      if u.treeSize <= 2 * u.leafIndex {
        assert TryIntoProof(u) == Return(Err(LeafIndexOutsideTree(u.leafIndex, u.treeSize)));
      } else if |u.auditPath| % 32 != 0 {
        assert TryIntoProof(u) == Return(Err(AuditPathNotMultipleOf32(|u.auditPath|)));
      } else {
        assert TryIntoProof(u) == Return(Ok(Proof(u.auditPath, u.leafIndex, u.treeSize)));
      }
    }
  }

  /** The documented error for a leaf index outside the tree is a panic for this one. */
  lemma LargeLeafIndexPanics()
    ensures var u := UncheckedProof([], MAX / 2 + 1, 1);
            2 * u.leafIndex >= u.treeSize && TryIntoProof(u).Panic?
  {
    CheckingOutcomes(UncheckedProof([], MAX / 2 + 1, 1));
  }

  // ----- the segments of an audit path

  /** The chunks of 32 bytes of a path; the last one may be shorter. */
  function Segments(path: Bytes): (segments: seq<Bytes>)
    ensures |segments| == (|path| + 31) / 32
    ensures |path| % 32 == 0 ==> forall t :: 0 <= t < |segments| ==> |segments[t]| == 32
  {
    if |path| <= 32 then if path == [] then [] else [path]
    else [path[..32]] + Segments(path[32..])
  }

  function Flatten(segments: seq<Bytes>): Bytes {
    if segments == [] then [] else segments[0] + Flatten(segments[1..])
  }

  lemma {:induction false} FlattenSnoc(segments: seq<Bytes>, last: Bytes)
    ensures Flatten(segments + [last]) == Flatten(segments) + last
  {
    if segments != [] {
      assert (segments + [last])[1..] == segments[1..] + [last];
      FlattenSnoc(segments[1..], last);
    } else {
      assert segments + [last] == [last];
    }
  }

  lemma {:induction false} FlattenSegments(path: Bytes)
    ensures Flatten(Segments(path)) == path
  {
    if |path| > 32 {
      FlattenSegments(path[32..]);
    } else if path != [] {
      assert Segments(path)[1..] == [];
    }
  }

  lemma {:induction false} SegmentsOfHashes(hashes: seq<Hash>)
    ensures |Flatten(hashes)| == 32 * |hashes|
    ensures Segments(Flatten(hashes)) == hashes
  {
    if hashes != [] {
      var head: Bytes, rest: Bytes := hashes[0], Flatten(hashes[1..]);
      SegmentsOfHashes(hashes[1..]);
      assert (head + rest)[..32] == head && (head + rest)[32..] == rest;
      if rest == [] { assert head + rest == head; }
    }
  }

  // ----- the walk

  datatype Walked = Walked(index: Usize, sides: seq<bool>)

  /** Where `steps` steps up from node `i` lead, and on which side each one starts. */
  function Walk(i: Usize, n: Usize, steps: nat): (w: Outcome<Walked>)
    ensures w.Return? ==> |w.value.sides| == steps
  {
    if steps == 0 then Return(Walked(i, []))
    else
      match Walk(i, n, steps - 1)
      case Panic => Panic
      case Return(w) =>
        match CompleteParentOf(w.index, n)
        case Panic => Panic
        case Return(p) => Return(Walked(p, w.sides + [p > w.index]))
  }

  lemma {:induction false} WalkStaysPanicked(i: Usize, n: Usize, t: nat, u: nat)
    requires t <= u && Walk(i, n, t).Panic?
    ensures Walk(i, n, u).Panic?
  {
    if t < u { WalkStaysPanicked(i, n, t, u - 1); }
  }

  lemma WalkStep(i: Usize, n: Usize, t: nat, j: Usize, sides: seq<bool>, p: Usize)
    requires Walk(i, n, t) == Return(Walked(j, sides)) && CompleteParentOf(j, n) == Return(p)
    ensures Walk(i, n, t + 1) == Return(Walked(p, sides + [p > j]))
  {
    hide CompleteParentOf;
  }

  /** From a leaf, the walk visits the nodes of the subtrees around it and turns as the audit
      path of RFC 6962 prescribes. */
  lemma {:induction false} WalkUp(m: nat, a: nat, c: nat, leaves: nat)
    requires leaves <= WORD / 2 && IsSubtree(a, c, leaves) && a <= m < a + c
    ensures NodeAt(a, c) < 2 * leaves - 1
    ensures Walk(2 * m, 2 * leaves - 1, Depth(m - a, c)) == Return(Walked(NodeAt(a, c), Sides(m - a, c)))
    decreases c
  {
    hide And, Or, IsPow2, Aligned, NextPow2, Split, CompleteParentOf, NodeAt, Span, First, Count, Walk;
    SubtreeHasNode(a, c, leaves);
    var n := 2 * leaves - 1;
    if c == 1 {
      LeafIsSubtree(m, leaves);
      NoWalk(2 * m, n);
    } else {
      var k := Split(c);
      SubtreeSplits(a, c, leaves);
      SubtreeParent(a, c, leaves);
      if m - a < k {
        WalkUp(m, a, k, leaves);
        WalkStep(2 * m, n, Depth(m - a, k), NodeAt(a, k), Sides(m - a, k), NodeAt(a, c));
      } else {
        WalkUp(m, a + k, c - k, leaves);
        WalkStep(2 * m, n, Depth(m - a - k, c - k), NodeAt(a + k, c - k), Sides(m - a - k, c - k), NodeAt(a, c));
      }
    }
  }

  lemma WalkPanics(i: Usize, n: Usize, t: nat, j: Usize, sides: seq<bool>)
    requires Walk(i, n, t) == Return(Walked(j, sides)) && CompleteParentOf(j, n).Panic?
    ensures Walk(i, n, t + 1).Panic?
  {
    hide CompleteParentOf;
  }

  lemma NoWalk(i: Usize, n: Usize)
    ensures Walk(i, n, 0) == Return(Walked(i, []))
  {
  }

  /** The walk from leaf `m` makes as many steps as the leaf is deep and ends at the root. */
  lemma WalkReachesRoot(m: nat, leaves: nat)
    requires m < leaves <= WORD / 2
    ensures NodeAt(0, leaves) < 2 * leaves - 1
    ensures Walk(2 * m, 2 * leaves - 1, Depth(m, leaves)) == Return(Walked(NodeAt(0, leaves), Sides(m, leaves)))
    ensures leaves <= WORD / 4 ==> NodeAt(0, leaves) == CompleteRoot(2 * leaves - 1)
  {
    hide Walk, CompleteRoot, Sides, Depth, IsPow2, NextPow2, Aligned, NodeAt, IsSubtree;
    WholeTreeIsSubtree(leaves);
    WalkUp(m, 0, leaves, leaves);
    if leaves <= WORD / 4 { CompleteRootHeadsAll(leaves); }
  }

  /** A shorter walk starts on the same sides. */
  lemma {:induction false} WalkStartsAlike(i: Usize, n: Usize, t: nat, u: nat)
    requires t <= u && Walk(i, n, u).Return?
    ensures Walk(i, n, t).Return? && Walk(i, n, t).value.sides == Walk(i, n, u).value.sides[..t]
  {
    hide CompleteParentOf;
    if t < u { WalkStartsAlike(i, n, t, u - 1); }
  }

  /** The walk from leaf `m` can make exactly as many steps as the leaf is deep. */
  lemma WalkEndsAtRoot(m: nat, leaves: nat, steps: nat)
    requires m < leaves <= WORD / 2
    ensures Walk(2 * m, 2 * leaves - 1, steps).Return? <==> steps <= Depth(m, leaves)
    ensures steps <= Depth(m, leaves) ==>
              Walk(2 * m, 2 * leaves - 1, steps).value.sides == Sides(m, leaves)[..steps]
  {
    hide And, Or, IsPow2, Aligned, NextPow2, Split, CompleteParentOf, NodeAt, Span, First, Count, Depth, Sides, Walk;
    var n, depth := 2 * leaves - 1, Depth(m, leaves);
    WalkReachesRoot(m, leaves);
    TopHasNoParent(leaves);
    WalkPanics(2 * m, n, depth, NodeAt(0, leaves), Sides(m, leaves));
    if steps <= depth {
      WalkStartsAlike(2 * m, n, steps, depth);
    } else {
      WalkStaysPanicked(2 * m, n, depth + 1, steps);
    }
  }

  lemma {:induction false} WalkIgnoresParity(i: Usize, n: Usize, steps: nat)
    requires n % 2 == 0 && n < MAX
    ensures Walk(i, n, steps) == Walk(i, n + 1, steps)
  {
    hide CompleteParentOf;
    if steps > 0 {
      WalkIgnoresParity(i, n, steps - 1);
      var w := Walk(i, n, steps - 1);
      if w.Return? { ClimbIgnoresParity(w.value.index, n); }
    }
  }

  /** Every size that a checked proof may carry, odd or even, walks like the tree of
      `treeSize / 2 + 1` leaves. */
  lemma CheckedWalk(m: nat, treeSize: Usize, steps: nat)
    requires 2 * m < treeSize
    ensures var leaves := treeSize / 2 + 1;
            && m < leaves
            && (Walk(2 * m, treeSize, steps).Return? <==> steps <= Depth(m, leaves))
            && (steps <= Depth(m, leaves) ==>
                  Walk(2 * m, treeSize, steps).value.sides == Sides(m, leaves)[..steps])
  {
    hide Walk, Depth, Sides;
    WalkEndsAtRoot(m, treeSize / 2 + 1, steps);
    if treeSize % 2 == 0 { WalkIgnoresParity(2 * m, treeSize, steps); }
  }

  // ----- reconstructing the root

  /** The root that a proof leads to: the fold of its segments along the walk. */
  function Reconstruct(sha: Digest, proof: Proof, leafHash: Hash): Outcome<Hash> {
    match LeafIndexToTreeIndex(proof.leafIndex)
    case Panic => Panic
    case Return(i) =>
      var segments := Segments(proof.auditPath);
      match Walk(i, proof.treeSize, |segments|)
      case Panic => Panic
      case Return(w) => Return(Fold(sha, leafHash, w.sides, segments))
  }

  lemma ReconstructAlong(sha: Digest, proof: Proof, leafHash: Hash, w: Walked)
    requires 2 * proof.leafIndex < WORD
    requires Walk(2 * proof.leafIndex, proof.treeSize, |Segments(proof.auditPath)|) == Return(w)
    ensures Reconstruct(sha, proof, leafHash) == Return(Fold(sha, leafHash, w.sides, Segments(proof.auditPath)))
  {
    hide Walk, Fold, Segments;
  }

  method ReconstructRootWithLeafHash(sha: Digest, proof: Proof, leafHash: Hash) returns (r: Outcome<Hash>)
    ensures r == Reconstruct(sha, proof, leafHash)
  {
    hide CompleteParentOf, Combine, Walk, Fold, Segments;
    var start := LeafIndexToTreeIndex(proof.leafIndex);
    if start == Panic { return Panic; }
    var i: Usize := start.value;
    var acc: Hash := leafHash;
    var segments := Segments(proof.auditPath);
    ghost var sides: seq<bool> := [];
    NoWalk(i, proof.treeSize);
    FoldNone(sha, acc, [], segments[..0]);
    for t := 0 to |segments|
      invariant Walk(start.value, proof.treeSize, t) == Return(Walked(i, sides))
      invariant acc == Fold(sha, leafHash, sides, segments[..t])
    {
      var sibling := segments[t];
      var parent := CompleteParent(i, proof.treeSize);
      if parent == Panic {
        WalkPanics(start.value, proof.treeSize, t, i, sides);
        WalkStaysPanicked(start.value, proof.treeSize, t + 1, |segments|);
        return Panic;
      }
      WalkStep(start.value, proof.treeSize, t, i, sides, parent.value);
      assert segments[..t + 1] == segments[..t] + [sibling];
      FoldSnoc(sha, leafHash, sides, segments[..t], parent.value > i, sibling);
      sides := sides + [parent.value > i];
      if parent.value > i {
        acc := Combine(sha, acc, sibling);
      } else {
        acc := Combine(sha, sibling, acc);
      }
      i := parent.value;
    }
    assert segments[..|segments|] == segments;
    return Return(acc);
  }

  // ----- audits

  function Perform(sha: Digest, proof: Proof, leafHash: Hash, root: Hash): Outcome<bool> {
    match Reconstruct(sha, proof, leafHash)
    case Panic => Panic
    case Return(h) => Return(root == h)
  }

  /** `Proof::verify`: audit a leaf's data. */
  function Verify(sha: Digest, proof: Proof, leaf: Bytes, root: Hash): Outcome<bool> {
    Perform(sha, proof, HashLeaf(sha, leaf), root)
  }

  /** The proof that RFC 6962 prescribes for leaf `m` of `d`. */
  function ProofOf(sha: Digest, m: nat, d: seq<Bytes>): Proof
    requires m < |d| <= WORD / 2
  {
    Proof(Flatten(Path(sha, m, d)), m, 2 * |d| - 1)
  }

  lemma WholeSegments(path: Bytes, n: nat)
    requires |path| == 32 * n
    ensures |path| % 32 == 0
  {
  }

  lemma ReconstructPath(sha: Digest, m: nat, leaves: nat, h: Hash, path: seq<Hash>)
    requires m < leaves <= WORD / 2 && |path| == Depth(m, leaves)
    ensures |Flatten(path)| % 32 == 0
    ensures Reconstruct(sha, Proof(Flatten(path), m, 2 * leaves - 1), h)
         == Return(Fold(sha, h, Sides(m, leaves), path))
  {
    hide Walk, Fold, Flatten, Segments, Sides, Depth, Reconstruct, CompleteRoot, NodeAt;
    SegmentsOfHashes(path);
    WholeSegments(Flatten(path), |path|);
    WalkReachesRoot(m, leaves);
    var proof := Proof(Flatten(path), m, 2 * leaves - 1);
    ReconstructAlong(sha, proof, h, Walked(NodeAt(0, leaves), Sides(m, leaves)));
  }

  lemma AuditReconstructs(sha: Digest, m: nat, d: seq<Bytes>)
    requires m < |d| <= WORD / 2
    ensures IsChecked(ProofOf(sha, m, d))
    ensures Reconstruct(sha, ProofOf(sha, m, d), HashLeaf(sha, d[m])) == Return(Mth(sha, d))
  {
    hide Fold, Mth, HashLeaf, Flatten, Path, Sides, Depth, Reconstruct;
    var path := Path(sha, m, d);
    PathFoldsToRoot(sha, m, d);
    ReconstructPath(sha, m, |d|, HashLeaf(sha, d[m]), path);
    assert ProofOf(sha, m, d) == Proof(Flatten(path), m, 2 * |d| - 1);
  }

  /** Completeness: the audit of a leaf along its audit path succeeds against the root. */
  lemma AuditCompletes(sha: Digest, m: nat, d: seq<Bytes>)
    requires m < |d| <= WORD / 2
    ensures IsChecked(ProofOf(sha, m, d))
    ensures Reconstruct(sha, ProofOf(sha, m, d), HashLeaf(sha, d[m])) == Return(Mth(sha, d))
    ensures Verify(sha, ProofOf(sha, m, d), d[m], Mth(sha, d)) == Return(true)
  {
    hide Mth, HashLeaf, ProofOf, Reconstruct, IsChecked;
    AuditReconstructs(sha, m, d);
  }

  /** For a leaf inside the size, odd or even, that a proof carries, reconstruction panics
      exactly when the audit path has more segments than the leaf is deep. */
  lemma ReconstructPanicsExactly(sha: Digest, proof: Proof, leafHash: Hash)
    requires 2 * proof.leafIndex < proof.treeSize
    ensures Reconstruct(sha, proof, leafHash).Panic?
       <==> |Segments(proof.auditPath)| > Depth(proof.leafIndex, proof.treeSize / 2 + 1)
  {
    hide Walk, Fold, Segments, Depth;
    CheckedWalk(proof.leafIndex, proof.treeSize, |Segments(proof.auditPath)|);
  }

  /** The same for the size of a tree. */
  lemma TreeProofPanicsExactly(sha: Digest, proof: Proof, leafHash: Hash, leaves: nat)
    requires proof.leafIndex < leaves && proof.treeSize == 2 * leaves - 1
    ensures Reconstruct(sha, proof, leafHash).Panic?
       <==> |Segments(proof.auditPath)| > Depth(proof.leafIndex, leaves)
  {
    hide Reconstruct, Segments, Depth;
    assert proof.treeSize / 2 + 1 == leaves;
    ReconstructPanicsExactly(sha, proof, leafHash);
  }

  /** A checked proof of even size with one segment too many. */
  lemma LongPathPanics(sha: Digest, leafHash: Hash)
    ensures var proof := Proof(seq(64, _ => 0), 0, 2);
            IsChecked(proof) && Reconstruct(sha, proof, leafHash).Panic?
  {
    hide Reconstruct;
    var proof := Proof(seq(64, _ => 0), 0, 2);
    assert |Segments(proof.auditPath)| == 2 && Depth(0, 2) == 1;
    ReconstructPanicsExactly(sha, proof, leafHash);
  }

  function AsHashes(path: Bytes): (hashes: seq<Hash>)
    requires |path| % 32 == 0
    ensures hashes == Segments(path)
  {
    seq(|Segments(path)|, t requires 0 <= t < |Segments(path)| => Segments(path)[t])
  }

  /** Binding: a proof for the size of a tree, with as many segments as its leaf is deep, that
      leads to the root is the proof of RFC 6962 for the hash of that leaf, or a collision of
      `combine` is exhibited. */
  lemma AuditBinds(sha: Digest, proof: Proof, h: Hash, d: seq<Bytes>)
    requires proof.leafIndex < |d| <= WORD / 2 && proof.treeSize == 2 * |d| - 1
    requires IsChecked(proof) && |Segments(proof.auditPath)| == Depth(proof.leafIndex, |d|)
    requires Reconstruct(sha, proof, h) == Return(Mth(sha, d))
    ensures (h == HashLeaf(sha, d[proof.leafIndex]) && proof == ProofOf(sha, proof.leafIndex, d))
         || var (x, y) := Departure(sha, h, proof.leafIndex, d, AsHashes(proof.auditPath)); IsCollision(sha, x, y)
  {
    hide Walk, Fold, Mth, HashLeaf, Flatten, Segments, Path, Sides, Depth, IsPow2, NextPow2, Aligned, Departure, IsCollision,
      CompleteRoot, NodeAt, Reconstruct;
    var m, path := proof.leafIndex, AsHashes(proof.auditPath);
    FlattenSegments(proof.auditPath);
    ReconstructPath(sha, m, |d|, h, path);
    FoldBinds(sha, h, m, d, path);
  }

  /** What a checked proof must be to verify data against the root of `d` without a collision:
      its segments are the audit path of an entry `j` that the data is, and its walk, the
      first steps from its own leaf in its own size, turns as the path from leaf `j` does. */
  predicate ProvesEntry(sha: Digest, proof: Proof, leaf: Bytes, d: seq<Bytes>, j: nat)
    requires IsChecked(proof)
  {
    var m, leaves, path := proof.leafIndex, proof.treeSize / 2 + 1, AsHashes(proof.auditPath);
    && |path| <= Depth(m, leaves)
    && LeadsToEntry(sha, leaf, Sides(m, leaves)[..|path|], path, d, j)
  }

  /** The inputs at which a proof that verifies without proving an entry departs from the tree. */
  function ProofIntrusion(sha: Digest, proof: Proof, leaf: Bytes, d: seq<Bytes>): (Bytes, Bytes)
    requires IsChecked(proof)
  {
    var m, leaves, path := proof.leafIndex, proof.treeSize / 2 + 1, AsHashes(proof.auditPath);
    if |path| > Depth(m, leaves) then ([], [])
    else Intrusion(sha, leaf, Sides(m, leaves)[..|path|], path, d)
  }

  /** Membership: for any tree size, leaf index and number of segments that a checked proof may
      carry, data verifies exactly when the proof is one of an entry that it is, or a
      collision is exhibited. */
  lemma VerifiesExactly(sha: Digest, proof: Proof, leaf: Bytes, d: seq<Bytes>)
    requires IsChecked(proof)
    ensures (exists j :: ProvesEntry(sha, proof, leaf, d, j)) ==>
              Verify(sha, proof, leaf, Mth(sha, d)) == Return(true)
    ensures Verify(sha, proof, leaf, Mth(sha, d)) == Return(true) ==>
              ((exists j :: ProvesEntry(sha, proof, leaf, d, j))
               || var (x, y) := ProofIntrusion(sha, proof, leaf, d); IsCollision(sha, x, y))
  {
    hide Walk, Fold, Mth, HashLeaf, Segments, Sides, Depth, Intrusion, IsCollision, LeadsToEntry, Reconstruct;
    var m, leaves, path := proof.leafIndex, proof.treeSize / 2 + 1, AsHashes(proof.auditPath);
    var h := HashLeaf(sha, leaf);
    CheckedWalk(m, proof.treeSize, |path|);
    ReconstructPanicsExactly(sha, proof, h);
    if |path| <= Depth(m, leaves) {
      var sides := Sides(m, leaves)[..|path|];
      ReconstructAlong(sha, proof, h, Walk(2 * m, proof.treeSize, |path|).value);
      DataFoldsToRootExactly(sha, leaf, sides, path, d);
      if j :| LeadsToEntry(sha, leaf, sides, path, d, j) {
        assert ProvesEntry(sha, proof, leaf, d, j);
      }
    }
  }

  /** The same for any starting hash: reconstruction gives the root exactly when the segments lead
      to a subtree with that hash on the sides of the proof's walk, or a collision is exhibited. */
  lemma ReconstructsRootExactly(sha: Digest, proof: Proof, h: Hash, d: seq<Bytes>)
    requires IsChecked(proof)
    ensures var m, leaves, path := proof.leafIndex, proof.treeSize / 2 + 1, AsHashes(proof.auditPath);
            if |path| > Depth(m, leaves) then Reconstruct(sha, proof, h).Panic?
            else
              var sides := Sides(m, leaves)[..|path|];
              && (LeadsToSubtree(sha, h, sides, path, d) ==> Reconstruct(sha, proof, h) == Return(Mth(sha, d)))
              && (Reconstruct(sha, proof, h) == Return(Mth(sha, d)) ==>
                    (LeadsToSubtree(sha, h, sides, path, d)
                     || var (x, y) := HashIntrusion(sha, h, sides, path, d); IsCollision(sha, x, y)))
  {
    hide Walk, Fold, Mth, Segments, Sides, Depth, HashIntrusion, IsCollision, LeadsToSubtree, Reconstruct;
    var m, leaves, path := proof.leafIndex, proof.treeSize / 2 + 1, AsHashes(proof.auditPath);
    CheckedWalk(m, proof.treeSize, |path|);
    ReconstructPanicsExactly(sha, proof, h);
    if |path| <= Depth(m, leaves) {
      ReconstructAlong(sha, proof, h, Walk(2 * m, proof.treeSize, |path|).value);
      HashFoldsToRootExactly(sha, h, Sides(m, leaves)[..|path|], path, d);
    }
  }

  /** A proof proves at most one entry; for the size of the tree, that entry is the one with the
      proof's leaf index exactly when the path has as many segments as that leaf is deep. */
  lemma IndexIsBoundExactly(sha: Digest, proof: Proof, leaf: Bytes, d: seq<Bytes>, j: nat)
    requires IsChecked(proof) && ProvesEntry(sha, proof, leaf, d, j)
    ensures forall i: nat :: ProvesEntry(sha, proof, leaf, d, i) ==> i == j
    ensures proof.treeSize == 2 * |d| - 1 ==>
              (j == proof.leafIndex <==> |Segments(proof.auditPath)| == Depth(proof.leafIndex, |d|))
  {
    hide Segments, Depth, Sides, Path, Mth, AsHashes, Split, IsPow2;
    forall i: nat | ProvesEntry(sha, proof, leaf, d, i)
      ensures i == j
    {
      SidesDiffer(i, j, |d|);
    }
    if proof.treeSize == 2 * |d| - 1 {
      var m, t := proof.leafIndex, |AsHashes(proof.auditPath)|;
      if t == Depth(m, |d|) {
        assert Sides(m, |d|)[..t] == Sides(m, |d|);
        SidesDiffer(j, m, |d|);
      }
    }
  }

  /** A path that is too short can verify another entry: the one segment above entry 2 of three
      verifies it under leaf index 1, which is two segments deep. */
  lemma ShortPathProvesOtherEntry(sha: Digest, a: Bytes, b: Bytes, c: Bytes)
    ensures var d, proof := [a, b, c], Proof(Mth(sha, [a, b]), 1, 5);
            && IsChecked(proof) && Depth(1, 3) == 2 && |Segments(proof.auditPath)| == 1
            && ProvesEntry(sha, proof, c, d, 2)
            && Verify(sha, proof, c, Mth(sha, d)) == Return(true)
  {
    hide Mth, Verify;
    var d, proof := [a, b, c], Proof(Mth(sha, [a, b]), 1, 5);
    var path := AsHashes(proof.auditPath);
    assert Split(3) == 2 && Depth(1, 3) == 2 && Depth(2, 3) == 1;
    assert Sides(1, 2) == [false] && Sides(0, 1) == [];
    assert Sides(1, 3) == [false, true] && Sides(2, 3) == [false];
    assert d[..2] == [a, b] && d[2..] == [c];
    assert Path(sha, 2, d) == [Mth(sha, [a, b])] == path;
    assert ProvesEntry(sha, proof, c, d, 2);
    VerifiesExactly(sha, proof, c, d);
  }
}
