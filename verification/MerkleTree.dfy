/** The append-only Merkle tree in one byte buffer: every node holds the Merkle tree hash of
    the entries it covers, and pushing an entry recomputes one path. */
module MerkleTree {
  import opened Outcomes
  import opened Words
  import opened InOrder
  import opened Navigation
  import opened Rfc6962
  import opened Proofs

  /** The largest size of an allocation. */
  const ISIZE_MAX: nat := 0x7fff_ffff_ffff_ffff

  // ----- the byte buffer

  function NodeHash(nodes: Bytes, i: nat): Hash
    requires 32 * (i + 1) <= |nodes|
  {
    nodes[32 * i..32 * (i + 1)]
  }

  function WithNode(nodes: Bytes, i: nat, val: Hash): Bytes
    requires 32 * (i + 1) <= |nodes|
  {
    nodes[..32 * i] + val + nodes[32 * (i + 1)..]
  }

  lemma WithNodeMeaning(nodes: Bytes, i: nat, val: Hash, j: nat)
    requires 32 * (i + 1) <= |nodes| && 32 * (j + 1) <= |nodes|
    ensures |WithNode(nodes, i, val)| == |nodes|
    ensures NodeHash(WithNode(nodes, i, val), j) == if j == i then val else NodeHash(nodes, j)
  {
    var r := WithNode(nodes, i, val);
    if j < i {
      assert r[32 * j..32 * (j + 1)] == nodes[32 * j..32 * (j + 1)];
    } else if i < j {
      assert r[32 * j..32 * (j + 1)] == nodes[32 * j..32 * (j + 1)];
    } else {
      assert r[32 * j..32 * (j + 1)] == val;
    }
  }

  // ----- what the buffer represents

  function Size(leaves: nat): nat { if leaves == 0 then 0 else 2 * leaves - 1 }

  /** The entries below node `i`. */
  function Covered(d: seq<Bytes>, i: nat): seq<Bytes>
    requires i < Size(|d|)
  {
    CountIsInside(i, |d|);
    d[First(i)..First(i) + Count(i, |d|)]
  }

  ghost predicate Correct(sha: Digest, nodes: Bytes, d: seq<Bytes>, i: nat)
    requires i < Size(|d|) && 32 * (i + 1) <= |nodes|
  {
    NodeHash(nodes, i) == Mth(sha, Covered(d, i))
  }

  /** The buffer is the tree of `d`: each node, leaf or branch, holds the Merkle tree hash of
      exactly the entries it covers. */
  ghost predicate Represents(sha: Digest, nodes: Bytes, d: seq<Bytes>) {
    && |nodes| == 32 * Size(|d|)
    && forall i: nat :: i < Size(|d|) ==> Correct(sha, nodes, d, i)
  }

  /** The contents of the buffer depend on the entries only. */
  lemma RepresentationIsUnique(sha: Digest, nodes: Bytes, nodes': Bytes, d: seq<Bytes>)
    requires Represents(sha, nodes, d) && Represents(sha, nodes', d)
    ensures nodes == nodes'
  {
    forall b | 0 <= b < |nodes|
      ensures nodes[b] == nodes'[b]
    {
      var i := b / 32;
      assert Correct(sha, nodes, d, i) && Correct(sha, nodes', d, i);
      assert nodes[b] == NodeHash(nodes, i)[b - 32 * i];
      assert nodes'[b] == NodeHash(nodes', i)[b - 32 * i];
    }
  }

  /** The node at the root holds the Merkle tree hash of all entries. */
  lemma RootHoldsMth(sha: Digest, nodes: Bytes, d: seq<Bytes>)
    requires Represents(sha, nodes, d) && 1 <= |d| <= WORD / 4
    ensures var root := CompleteRoot(2 * |d| - 1);
            root < Size(|d|) && NodeHash(nodes, root) == Mth(sha, d)
  {
    hide CompleteRoot, Count, First, Span, IsPow2, Aligned, NextPow2, Mth;
    var root := CompleteRoot(2 * |d| - 1);
    CompleteRootHeadsAll(|d|);
    WholeTreeIsSubtree(|d|);
    SubtreeHasNode(0, |d|, |d|);
    assert Correct(sha, nodes, d, root);
    assert Covered(d, root) == d;
  }

  lemma LeafHoldsHash(sha: Digest, nodes: Bytes, d: seq<Bytes>, j: nat)
    requires Represents(sha, nodes, d) && j < |d|
    ensures NodeHash(nodes, 2 * j) == HashLeaf(sha, d[j])
  {
    assert Correct(sha, nodes, d, 2 * j);
    assert Covered(d, 2 * j) == [d[j]];
  }

  /** Append-only: entries appended later leave alone every node whose perfect subtree
      already lay inside the tree. */
  lemma AppendFrame(sha: Digest, nodes: Bytes, d: seq<Bytes>, nodes': Bytes, more: seq<Bytes>, i: nat)
    requires Represents(sha, nodes, d) && Represents(sha, nodes', d + more)
    requires i < Size(|d|) && First(i) + Span(i) <= |d|
    ensures NodeHash(nodes', i) == NodeHash(nodes, i)
  {
    hide First, Span, Mth;
    assert Correct(sha, nodes, d, i) && Correct(sha, nodes', d + more, i);
    assert Covered(d + more, i) == Covered(d, i);
  }

  lemma MthSplits(sha: Digest, d: seq<Bytes>, a: nat, c: nat)
    requires 1 < c && a + c <= |d|
    ensures var k := Split(c);
            Mth(sha, d[a..a + c]) == Combine(sha, Mth(sha, d[a..a + k]), Mth(sha, d[a + k..a + c]))
  {
    hide *;
    var s, k := d[a..a + c], Split(c);
    MthUnfolds(sha, s);
    assert s[..k] == d[a..a + k];
    assert s[k..] == d[a + k..a + c];
  }

  /** A branch hash combines the hashes of its children. */
  lemma NodeSplits(sha: Digest, d: seq<Bytes>, p: Usize)
    requires 1 <= |d| <= WORD / 4 && p < 2 * |d| - 1 && p % 2 == 1
    ensures IsBranch(p)
    ensures var left, right := CompleteLeftChild(p), CompleteRightChild(p, 2 * |d| - 1);
            && left < p < right < 2 * |d| - 1
            && Mth(sha, Covered(d, p)) == Combine(sha, Mth(sha, Covered(d, left)), Mth(sha, Covered(d, right)))
            && First(left) == First(p) && First(left) + Count(left, |d|) == First(right)
            && First(right) + Count(right, |d|) == First(p) + Count(p, |d|)
  {
    hide And, Or, IsPow2, Aligned, NextPow2, Split, NodeAt, CompleteParentOf, PerfectParent, CompleteRoot,
      CompleteLeftChild, CompleteRightChild, IsBranch, Span, First, Count, Combine, Mth;
    var n := |d|;
    NodeIsSubtree(p, n);
    CountIsInside(p, n);
    var a, c := First(p), Count(p, n);
    var k := Split(c);
    SubtreeSplits(a, c, n);
    SubtreeParent(a, c, n);
    SubtreeChildren(a, c, n);
    SubtreeHasNode(a, k, n);
    SubtreeHasNode(a + k, c - k, n);
    MthSplits(sha, d, a, c);
  }

  // ----- the path that a proof collects

  /** The leaf `m` lies below node `i`. */
  predicate Below(m: nat, i: nat, leaves: nat)
    requires i < Size(leaves)
  {
    First(i) <= m < First(i) + Count(i, leaves)
  }

  lemma PathUnfolds(sha: Digest, d: seq<Bytes>, a: nat, c: nat, m: nat)
    requires 1 < c && a + c <= |d| && a <= m < a + c
    ensures var k := Split(c);
            Path(sha, m - a, d[a..a + c]) ==
            if m < a + k then Path(sha, m - a, d[a..a + k]) + [Mth(sha, d[a + k..a + c])]
            else Path(sha, m - a - k, d[a + k..a + c]) + [Mth(sha, d[a..a + k])]
  {
    hide IsPow2, Split, Mth;
    var s, k := d[a..a + c], Split(c);
    assert s[..k] == d[a..a + k];
    assert s[k..] == d[a + k..a + c];
  }

  /** The audit path within the subtree of node `i`. */
  function PathBelow(sha: Digest, d: seq<Bytes>, m: nat, i: nat): seq<Hash>
    requires i < Size(|d|) && Below(m, i, |d|)
  {
    CountIsInside(i, |d|);
    Path(sha, m - First(i), Covered(d, i))
  }

  /** The node and its sibling cover the two halves of what their parent covers. */
  lemma ParentCovers(i: Usize, leaves: nat)
    requires 1 <= leaves <= WORD / 4 && i < 2 * leaves - 1 && i != CompleteRoot(2 * leaves - 1)
    ensures CompleteParentAndSibling(i, 2 * leaves - 1).Return?
    ensures var (p, s) := CompleteParentAndSibling(i, 2 * leaves - 1).value;
            && p < 2 * leaves - 1 && s < 2 * leaves - 1 && i != p
            && var (left, right) := if i < p then (i, s) else (s, i);
               var a, c := First(p), Count(p, leaves);
               && c > 1 && a + c <= leaves
               && First(left) == a && Count(left, leaves) == Split(c)
               && First(right) == a + Split(c) && Count(right, leaves) == c - Split(c)
  {
    hide And, Or, IsPow2, Aligned, NextPow2, Split, NodeAt, CompleteParentOf, PerfectParent, CompleteRoot,
      CompleteLeftChild, CompleteRightChild, IsBranch, Span, First, Count;
    ParentAndSibling(i, leaves);
    var (p, s) := CompleteParentAndSibling(i, 2 * leaves - 1).value;
    BranchesAreOdd(p);
    NodeIsSubtree(p, leaves);
    CountIsInside(p, leaves);
    var a, c := First(p), Count(p, leaves);
    SubtreeSplits(a, c, leaves);
    SubtreeChildren(a, c, leaves);
    SubtreeHasNode(a, Split(c), leaves);
    SubtreeHasNode(a + Split(c), c - Split(c), leaves);
  }

  /** One step up: the sibling's hash extends the audit path to the parent's subtree. */
  lemma ProofStep(sha: Digest, d: seq<Bytes>, m: nat, i: Usize)
    requires 1 <= |d| <= WORD / 4 && i < 2 * |d| - 1 && i != CompleteRoot(2 * |d| - 1)
    requires Below(m, i, |d|)
    ensures CompleteParentAndSibling(i, 2 * |d| - 1).Return?
    ensures var (p, s) := CompleteParentAndSibling(i, 2 * |d| - 1).value;
            && p < 2 * |d| - 1 && s < 2 * |d| - 1 && Below(m, p, |d|)
            && Count(i, |d|) < Count(p, |d|)
            && PathBelow(sha, d, m, p) == PathBelow(sha, d, m, i) + [Mth(sha, Covered(d, s))]
  {
    hide IsPow2, Split, CompleteParentAndSibling, CompleteRoot, Span, First, Count, Mth, Path, Depth;
    ParentCovers(i, |d|);
    var p := CompleteParentAndSibling(i, 2 * |d| - 1).value.0;
    PathUnfolds(sha, d, First(p), Count(p, |d|), m);
  }

  lemma LeafPathIsEmpty(sha: Digest, d: seq<Bytes>, m: nat)
    requires m < |d|
    ensures Below(m, 2 * m, |d|) && Flatten(PathBelow(sha, d, m, 2 * m)) == []
  {
    assert First(2 * m) == m && Span(2 * m) == 1;
  }

  lemma RootPathIsPath(sha: Digest, d: seq<Bytes>, m: nat)
    requires m < |d| <= WORD / 4
    ensures var root := CompleteRoot(2 * |d| - 1);
            root < Size(|d|) && Below(m, root, |d|) && PathBelow(sha, d, m, root) == Path(sha, m, d)
  {
    hide CompleteRoot, Count, First, Span, IsPow2, Aligned, NextPow2, Path, Depth;
    CompleteRootHeadsAll(|d|);
    WholeTreeIsSubtree(|d|);
    SubtreeHasNode(0, |d|, |d|);
    assert Covered(d, CompleteRoot(2 * |d| - 1)) == d;
  }

  // ----- the path that a push recomputes

  /** Node `i` covers the last leaf. */
  predicate OnEdge(i: nat, leaves: nat)
    requires i < Size(leaves)
  {
    First(i) + Count(i, leaves) == leaves
  }

  /** Only a node that covers the new leaf changes what it covers. */
  lemma OffEdgeKeepsCover(d: seq<Bytes>, leaf: Bytes, i: nat)
    requires |d| >= 1 && i < Size(|d| + 1) && !OnEdge(i, |d| + 1)
    ensures i < Size(|d|) && Covered(d + [leaf], i) == Covered(d, i)
  {
    hide Span, First;
    CountIsInside(i, |d| + 1);
  }

  lemma OddSpan(i: nat)
    requires i % 2 == 1
    ensures Span(i) >= 2
  {
  }

  lemma LastTwoNodesAreOnEdge(i: nat, leaves: nat)
    requires leaves >= 2 && (i == 2 * leaves - 3 || i == 2 * leaves - 2)
    ensures OnEdge(i, leaves)
    ensures i == 2 * leaves - 2 ==> First(i) == leaves - 1
  {
    hide Span, IsPow2;
    if i == 2 * leaves - 3 {
      hide First;
      OddSpan(i);
    } else {
      assert First(i) == i / 2;
    }
  }

  /** Two nodes on the edge that start at the same leaf are the same. */
  lemma EdgeNodesDifferInFirst(i: nat, j: nat, leaves: nat)
    requires i < Size(leaves) && j < Size(leaves) && OnEdge(i, leaves) && OnEdge(j, leaves)
    requires First(i) == First(j)
    ensures i == j
  {
    hide NodeAt, Span, First;
    NodeIsSubtree(i, leaves);
    NodeIsSubtree(j, leaves);
  }

  /** No edge node starts strictly inside the left half of an edge node. */
  lemma EdgeNodesSkipLeftHalf(a: nat, c: nat, x: nat, d: nat, leaves: nat)
    requires IsSubtree(a, c, leaves) && c > 1 && a + c == leaves
    requires IsSubtree(x, d, leaves) && x + d == leaves
    ensures x <= a || a + Split(c) <= x
  {
    hide IsPow2, Aligned, NextPow2, Split, NodeAt;
    if a < x { SubtreesDoNotCross(x, d, a, c, leaves); }
  }

  /** One step up the edge: the parent of an edge node is the next edge node, its right child
      is the node, and its left child is not on the edge. */
  lemma EdgeStep(sha: Digest, d: seq<Bytes>, idx: Usize)
    requires 1 <= |d| <= WORD / 4 && idx < 2 * |d| - 1 && idx != CompleteRoot(2 * |d| - 1)
    requires OnEdge(idx, |d|)
    ensures CompleteParentOf(idx, 2 * |d| - 1).Return?
    ensures var p := CompleteParentOf(idx, 2 * |d| - 1).value;
            && p < 2 * |d| - 1 && p % 2 == 1 && IsBranch(p)
            && OnEdge(p, |d|) && First(p) < First(idx)
            && CompleteRightChild(p, 2 * |d| - 1) == idx
            && CompleteLeftChild(p) < p && !OnEdge(CompleteLeftChild(p), |d|)
            && Mth(sha, Covered(d, p)) == Combine(sha, Mth(sha, Covered(d, CompleteLeftChild(p))), Mth(sha, Covered(d, idx)))
            && forall j: nat :: j < 2 * |d| - 1 && OnEdge(j, |d|) && First(j) < First(idx) && j != p ==> First(j) < First(p)
  {
    hide And, Or, IsPow2, Aligned, NextPow2, Split, NodeAt, CompleteParentOf, PerfectParent, CompleteRoot,
      CompleteLeftChild, CompleteRightChild, IsBranch, Span, First, Count, Combine, Mth, Covered;
    var n := |d|;
    ParentAndSibling(idx, n);
    var (p, s) := CompleteParentAndSibling(idx, 2 * n - 1).value;
    BranchesAreOdd(p);
    NodeSplits(sha, d, p);
    CountIsInside(p, n);
    CountIsInside(s, n);
    CountIsInside(CompleteLeftChild(p), n);
    NodeIsSubtree(idx, n);
    NodeIsSubtree(s, n);
    NodeIsSubtree(p, n);
    SubtreeChildren(First(p), Count(p, n), n);
    SubtreeSplits(First(p), Count(p, n), n);
    SubtreeHasNode(First(p), Split(Count(p, n)), n);
    forall j: nat | j < 2 * n - 1 && OnEdge(j, n) && First(j) < First(idx) && j != p
      ensures First(j) < First(p)
    {
      NodeIsSubtree(j, n);
      EdgeNodesSkipLeftHalf(First(p), Count(p, n), First(j), Count(j, n), n);
      if First(j) == First(p) { EdgeNodesDifferInFirst(j, p, n); }
    }
  }

  /** During a push: all nodes are correct but the edge nodes above `idx`. */
  ghost predicate CorrectUpTo(sha: Digest, nodes: Bytes, d: seq<Bytes>, idx: nat) {
    && |nodes| == 32 * Size(|d|)
    && idx < Size(|d|)
    && OnEdge(idx, |d|)
    && forall j: nat :: j < Size(|d|) && !(OnEdge(j, |d|) && First(j) < First(idx)) ==> Correct(sha, nodes, d, j)
  }

  /** After the new leaf is written, only its ancestors are not correct. */
  lemma PushStarts(sha: Digest, nodes: Bytes, d: seq<Bytes>, leaf: Bytes, nodes': Bytes)
    requires |d| >= 1 && Represents(sha, nodes, d)
    requires |nodes'| == |nodes| + 64 && NodeHash(nodes', 2 * |d|) == HashLeaf(sha, leaf)
    requires forall j: nat :: j < Size(|d|) ==> NodeHash(nodes', j) == NodeHash(nodes, j)
    ensures CorrectUpTo(sha, nodes', d + [leaf], 2 * |d|)
  {
    hide First, Span, Mth, Count;
    var d', last := d + [leaf], 2 * |d|;
    LastTwoNodesAreOnEdge(last, |d'|);
    LastTwoNodesAreOnEdge(last - 1, |d'|);
    forall j: nat | j < Size(|d'|) && !(OnEdge(j, |d'|) && First(j) < First(last))
      ensures Correct(sha, nodes', d', j)
    {
      if OnEdge(j, |d'|) {
        NodeIsSubtree(j, |d'|);
        LastLeafIsAlone(sha, d, leaf);
        EdgeNodesDifferInFirst(j, last, |d'|);
      } else {
        OffEdgeKeepsCover(d, leaf, j);
        assert Correct(sha, nodes, d, j);
      }
    }
  }

  lemma LastLeafIsAlone(sha: Digest, d: seq<Bytes>, leaf: Bytes)
    ensures Mth(sha, Covered(d + [leaf], 2 * |d|)) == HashLeaf(sha, leaf)
  {
    assert Covered(d + [leaf], 2 * |d|) == [leaf];
  }

  /** Rewriting the parent from its children moves the correct part up one edge node. */
  lemma PushClimbs(sha: Digest, nodes: Bytes, d: seq<Bytes>, idx: Usize, p: Usize, nodes': Bytes)
    requires 1 <= |d| <= WORD / 4 && CorrectUpTo(sha, nodes, d, idx)
    requires idx != CompleteRoot(2 * |d| - 1) && CompleteParentOf(idx, 2 * |d| - 1) == Return(p)
    requires IsBranch(p) && CompleteLeftChild(p) < p && |nodes'| == |nodes|
    requires NodeHash(nodes', p) == Combine(sha, NodeHash(nodes, CompleteLeftChild(p)), NodeHash(nodes, idx))
    requires forall j: nat :: j < Size(|d|) && j != p ==> NodeHash(nodes', j) == NodeHash(nodes, j)
    ensures CorrectUpTo(sha, nodes', d, p)
  {
    hide And, Or, CompleteParentOf, PerfectParent, CompleteRoot, CompleteLeftChild, CompleteRightChild, IsBranch,
      Span, First, Count, Combine, Mth, Covered, OnEdge;
    EdgeStep(sha, d, idx);
    assert Correct(sha, nodes, d, CompleteLeftChild(p)) && Correct(sha, nodes, d, idx);
    forall j: nat | j < Size(|d|) && !(OnEdge(j, |d|) && First(j) < First(p))
      ensures Correct(sha, nodes', d, j)
    {
      if j != p { assert Correct(sha, nodes, d, j); }
    }
  }

  lemma PushEnds(sha: Digest, nodes: Bytes, d: seq<Bytes>)
    requires 1 <= |d| <= WORD / 4 && CorrectUpTo(sha, nodes, d, CompleteRoot(2 * |d| - 1))
    ensures Represents(sha, nodes, d)
  {
    hide CompleteRoot, Span, First, Count, Mth, Covered, OnEdge, Aligned, IsPow2, NextPow2;
    CompleteRootHeadsAll(|d|);
    WholeTreeIsSubtree(|d|);
    SubtreeHasNode(0, |d|, |d|);
  }

  lemma FirstPush(sha: Digest, nodes: Bytes, d: seq<Bytes>, leaf: Bytes)
    requires Represents(sha, nodes, d) && nodes == []
    ensures d == [] && Represents(sha, nodes + HashLeaf(sha, leaf), [leaf])
  {
    hide First, Span, Count, Mth;
    LastLeafIsAlone(sha, [], leaf);
    assert [] + [leaf] == [leaf];
    assert NodeHash(nodes + HashLeaf(sha, leaf), 0) == HashLeaf(sha, leaf);
  }

  /** Extending the buffer keeps what is in it. */
  lemma PushExtends(sha: Digest, nodes: Bytes, d: seq<Bytes>, zeros: Bytes)
    requires Represents(sha, nodes, d) && nodes != [] && |zeros| == 64
    ensures |d| >= 1 && |nodes| == 32 * Size(|d|)
    ensures forall j: nat :: j < Size(|d|) ==> NodeHash(nodes + zeros, j) == NodeHash(nodes, j)
  {
    hide Correct;
    forall j: nat | j < Size(|d|)
      ensures NodeHash(nodes + zeros, j) == NodeHash(nodes, j)
    {
      assert (nodes + zeros)[32 * j..32 * (j + 1)] == nodes[32 * j..32 * (j + 1)];
    }
  }

  lemma LeafIsNotRoot(leaves: nat)
    requires 2 <= leaves <= WORD / 4
    ensures CompleteRoot(2 * leaves - 1) != 2 * leaves - 2
  {
    hide CompleteRoot, NextPow2, IsPow2;
    CompleteRootHeadsAll(leaves);
  }

  // ----- the tree

  class Tree {
    const sha: Digest
    var nodes: Bytes
    ghost var entries: seq<Bytes>

    /** The buffer is the tree of the entries pushed so far and fits in memory. */
    ghost predicate Valid()
      reads this
    {
      Represents(sha, nodes, entries) && |nodes| <= ISIZE_MAX
    }

    constructor (sha: Digest)
      ensures Valid() && entries == [] && this.sha == sha
    {
      this.sha := sha;
      nodes := [];
      entries := [];
    }

    function Len(): nat
      reads this
    {
      |nodes| / 32
    }

    predicate IsEmpty()
      reads this
    {
      nodes == []
    }

    predicate IsInTree(i: nat)
      reads this
    {
      i < Len()
    }

    method GetNode(i: nat) returns (hash: Hash)
      requires IsInTree(i)
      ensures hash == NodeHash(nodes, i)
    {
      hash := nodes[32 * i..32 * (i + 1)];
    }

    method SetNode(i: nat, val: Hash)
      requires IsInTree(i)
      modifies this`nodes
      ensures |nodes| == |old(nodes)|
      ensures NodeHash(nodes, i) == val
      ensures forall j: nat :: j != i && 32 * (j + 1) <= |nodes| ==> NodeHash(nodes, j) == NodeHash(old(nodes), j)
    {
      nodes := WithNode(nodes, i, val);
      forall j: nat | 32 * (j + 1) <= |nodes|
        ensures NodeHash(nodes, j) == if j == i then val else NodeHash(old(nodes), j)
      {
        WithNodeMeaning(old(nodes), i, val, j);
      }
    }

    method CombineNodes(i: nat, j: nat) returns (hash: Hash)
      requires IsInTree(i) && IsInTree(j)
      ensures hash == Combine(sha, NodeHash(nodes, i), NodeHash(nodes, j))
    {
      var left := GetNode(i);
      var right := GetNode(j);
      hash := Combine(sha, left, right);
    }

    /** The root is the Merkle tree hash of all entries, also of none. */
    method Root() returns (root: Hash)
      requires Valid()
      ensures root == Mth(sha, entries)
    {
      if IsEmpty() {
        root := sha([]);
      } else {
        RootHoldsMth(sha, nodes, entries);
        root := GetNode(CompleteRoot(Len()));
      }
    }

    /** The hash of a leaf; panics where the leaf index has no tree index in a word. */
    method Leaf(i: Usize) returns (r: Outcome<Option<Hash>>)
      requires Valid()
      ensures r == if 2 * i > MAX then Panic
                   else if i < |entries| then Return(Some(HashLeaf(sha, entries[i])))
                   else Return(None)
    {
      match LeafIndexToTreeIndex(i)
      case Panic => return Panic;
      case Return(idx) =>
        if IsInTree(idx) {
          LeafHoldsHash(sha, nodes, entries, i);
          var hash := GetNode(idx);
          return Return(Some(hash));
        }
        return Return(None);
    }

    /** The inclusion proof of a leaf carries exactly the audit path of RFC 6962. */
    method ConstructProof(leafIndex: Usize) returns (r: Outcome<Option<Proof>>)
      requires Valid()
      ensures entries == [] ==> r == Return(None)
      ensures entries != [] && 2 * leafIndex > MAX ==> r == Panic
      ensures entries != [] && 2 * leafIndex <= MAX && |entries| <= leafIndex ==> r == Return(None)
      ensures leafIndex < |entries| ==>
                |entries| <= WORD / 4 && r == Return(Some(ProofOf(sha, leafIndex, entries)))
    {
      hide And, Or, CompleteParentOf, PerfectParent, CompleteRoot, CompleteLeftChild, CompleteRightChild, IsBranch,
        Span, First, Count, Mth, Covered, Path, Flatten, IsPow2, Depth, Below, PathBelow, CompleteParentAndSibling;
      var treeSize := Len();
      if treeSize == 0 { return Return(None); }
      var inside := IsLeafIndexInTree(leafIndex, treeSize);
      match inside {
        case Panic => return Panic;
        case Return(false) => return Return(None);
        case Return(true) =>
      }
      var auditPath: Bytes := [];
      var treeIndex: Usize := LeafIndexToTreeIndex(leafIndex).value;
      var root := CompleteRoot(treeSize);
      LeafPathIsEmpty(sha, entries, leafIndex);
      while treeIndex != root
        invariant treeIndex < treeSize && Below(leafIndex, treeIndex, |entries|)
        invariant auditPath == Flatten(PathBelow(sha, entries, leafIndex, treeIndex))
        decreases |entries| - Count(treeIndex, |entries|)
      {
        ProofStep(sha, entries, leafIndex, treeIndex);
        CountIsInside(treeIndex, |entries|);
        ghost var below := PathBelow(sha, entries, leafIndex, treeIndex);
        var (parent, sibling) := CompleteParentAndSibling(treeIndex, treeSize).value;
        CountIsInside(parent, |entries|);
        var hash := GetNode(sibling);
        assert Correct(sha, nodes, entries, sibling);
        FlattenSnoc(below, hash);
        auditPath := auditPath + hash;
        treeIndex := parent;
      }
      RootPathIsPath(sha, entries, leafIndex);
      return Return(Some(Proof(auditPath, leafIndex, treeSize)));
    }

    method BuildLeaf() returns (builder: LeafBuilder)
      ensures fresh(builder) && builder.tree == this && builder.IsOpen() && builder.Written() == []
    {
      builder := new LeafBuilder(this);
    }

    /** Pushing appends one entry. */
    method Push(leaf: Bytes)
      requires Valid() && |nodes| + 64 <= ISIZE_MAX
      modifies this
      ensures Valid() && entries == old(entries) + [leaf]
    {
      var builder := BuildLeaf();
      builder.Write(leaf);
      assert builder.Written() == leaf;
      builder.Drop();
    }

    static method FromLeaves(sha: Digest, leaves: seq<Bytes>) returns (tree: Tree)
      requires 64 * |leaves| <= ISIZE_MAX
      ensures fresh(tree) && tree.Valid() && tree.sha == sha && tree.entries == leaves
    {
      tree := new Tree(sha);
      for i := 0 to |leaves|
        invariant fresh(tree) && tree.Valid() && tree.sha == sha && tree.entries == leaves[..i]
      {
        tree.Push(leaves[i]);
      }
    }
  }

  /** Builds one leaf from several writes; dropping it updates the tree. */
  class LeafBuilder {
    const tree: Tree
    /** The bytes the hasher has absorbed, until it is taken. */
    var hasher: Option<Bytes>

    constructor (tree: Tree)
      ensures this.tree == tree && IsOpen() && Written() == []
    {
      this.tree := tree;
      hasher := Some([0]);
    }

    ghost predicate IsOpen()
      reads this
    {
      hasher.Some? && |hasher.value| >= 1 && hasher.value[0] == 0
    }

    ghost function Written(): Bytes
      requires IsOpen()
      reads this
    {
      hasher.value[1..]
    }

    method Write(bytes: Bytes)
      requires IsOpen()
      modifies this
      ensures IsOpen() && Written() == old(Written()) + bytes
    {
      hasher := Some(hasher.value + bytes);
    }

    /** Dropping the builder pushes what was written as one entry. It rewrites only the new
        leaf and its ancestors. */
    method Drop()
      requires IsOpen() && tree.Valid() && |tree.nodes| + 64 <= ISIZE_MAX
      modifies this, tree
      ensures tree.Valid() && tree.entries == old(tree.entries) + [old(Written())]
      ensures hasher.None?
    {
      hide And, Or, CompleteParentOf, PerfectParent, CompleteRoot, CompleteLeftChild, CompleteRightChild, IsBranch,
        Span, First, Count, Combine, Mth, Covered, OnEdge, Correct, NodeHash, Represents;
      ghost var leaf := Written();
      var leafHash := tree.sha(hasher.value);
      assert hasher.value == [0] + leaf;
      hasher := None;
      ghost var before := tree.entries;
      ghost var d := before + [leaf];
      ghost var n := |d|;
      if tree.IsEmpty() {
        FirstPush(tree.sha, tree.nodes, before, leaf);
        tree.nodes := tree.nodes + leafHash;
        tree.entries := d;
        assert d == [leaf];
        return;
      }
      PushExtends(tree.sha, tree.nodes, before, seq(64, _ => 0));
      tree.nodes := tree.nodes + seq(64, _ => 0);
      var size := tree.Len();
      var idx: Usize := size - 1;
      tree.SetNode(idx, leafHash);
      var root := CompleteRoot(tree.Len());
      tree.entries := d;
      PushStarts(tree.sha, old(tree.nodes), before, leaf, tree.nodes);
      LeafIsNotRoot(n);
      while true
        invariant hasher.None? && |tree.nodes| == 32 * size && tree.entries == d
        invariant CorrectUpTo(tree.sha, tree.nodes, d, idx) && idx != root
        decreases First(idx)
      {
        EdgeStep(tree.sha, d, idx);
        ghost var child, nodes := idx, tree.nodes;
        var parent := CompleteParent(idx, size);
        idx := parent.value;
        var left := CompleteLeftChild(idx);
        var right := CompleteRightChild(idx, size);
        var newValue := tree.CombineNodes(left, right);
        tree.SetNode(idx, newValue);
        PushClimbs(tree.sha, nodes, d, child, idx, tree.nodes);
        if idx == root { break; }
      }
      PushEnds(tree.sha, tree.nodes, d);
    }
  }
}
