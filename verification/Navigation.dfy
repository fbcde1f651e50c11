/** The index functions of the flat Merkle tree: how a node finds its parent, children and
    sibling by bit manipulation, and what these functions mean for the subtrees. */
module Navigation {
  import opened Outcomes
  import opened Words
  import opened InOrder

  // ----- the index functions

  function LeafIndexToTreeIndex(j: Usize): Outcome<Usize> {
    if 2 * j < WORD then Return(2 * j) else Panic
  }

  function LastSetBit(x: Usize): Usize
    requires x > 0
  {
    x - And(x - 1, x)
  }

  function LastZeroBit(x: Usize): Usize
    requires x < MAX
  {
    LastSetBit(x + 1)
  }

  predicate IsBranch(i: nat) { And(i, 1) == 1 }

  function PerfectParent(i: Usize): Usize
    requires i < MAX
  {
    var zero := LastZeroBit(i);
    And(Or(zero, i), Not(ShiftLeft(zero)))
  }

  function PerfectLeftChild(p: Usize): Usize
    requires IsBranch(p) && p < MAX
  {
    And(p, Not(ShiftRight(LastZeroBit(p))))
  }

  function PerfectRightChild(p: Usize): Usize
    requires IsBranch(p) && p < MAX
  {
    And(Or(p, LastZeroBit(p)), Not(ShiftRight(LastZeroBit(p))))
  }

  predicate IsPerfect(n: Usize) {
    n == 1 || NextPow2(n) == WrappingAdd(n, 1)
  }

  function PerfectRoot(n: Usize): Usize
    requires IsPerfect(n)
  {
    ShiftRight(n)
  }

  // ----- the bit tricks refine arithmetic

  lemma {:induction false} LowestBit(i: nat)
    ensures i + 1 - And(i, i + 1) == Span(i)
  {
    if i % 2 == 0 {
      AndSelf(i / 2);
      assert (i + 1) / 2 == i / 2;
    } else {
      LowestBit(i / 2);
      assert (i + 1) / 2 == i / 2 + 1;
    }
  }

  /** The last zero bit of a node with `k` trailing ones is `2^k`. */
  lemma LastZeroBitIsSpan(i: Usize)
    requires i < MAX
    ensures LastZeroBit(i) == Span(i)
  {
    LowestBit(i);
  }

  lemma {:induction false} SpanBitIsClear(i: nat)
    ensures !BitSet(i, Span(i))
  {
    if i % 2 == 1 { SpanBitIsClear(i / 2); }
  }

  lemma {:induction false} HalfSpanBitIsSet(p: nat)
    requires p % 2 == 1
    ensures Span(p) % 2 == 0 && IsPow2(Span(p) / 2) && BitSet(p, Span(p) / 2) && BitSet(p + Span(p), Span(p) / 2)
  {
    var j := p / 2;
    if j % 2 == 1 {
      HalfSpanBitIsSet(j);
      assert (p + Span(p)) / 2 == j + Span(j);
    }
  }

  lemma {:induction false} SideBit(a: nat, w: nat)
    requires IsPow2(w) && Aligned(a, w)
    ensures BitSet(2 * a + 2 * w - 1, 2 * w) <==> !Aligned(a, 2 * w)
  {
    var x := 2 * a + 2 * w - 1;
    assert x / 2 == a + w - 1;
    assert BitSet(x, 2 * w) == BitSet(x / 2, w);
    if w > 1 {
      SideBit(a / 2, w / 2);
      assert a + w - 1 == 2 * (a / 2) + 2 * (w / 2) - 1;
    } else {
      assert Aligned(a, 2) <==> a % 2 == 0;
    }
  }

  /** Adding the span cannot leave a word of `w` values. */
  lemma {:induction false} SpanFits(i: nat, w: nat)
    requires IsPow2(w) && i + 1 < w
    ensures i + Span(i) < w
  {
    if i % 2 == 1 { SpanFits(i / 2, w / 2); }
  }

  /** Clearing the bit above the last zero bit of a left or right child; a bit shifted out of
      a word of `w` values is not cleared and was not set. */
  lemma MaskParent(x: nat, y: nat, z: nat, w: nat)
    requires IsPow2(y) && IsPow2(w) && y < w && x < w
    requires z == if 2 * y < w then 2 * y else 0
    ensures And(x, w - 1 - z) == if BitSet(x, 2 * y) then x - 2 * y else x
  {
    hide *;
    Pow2Double(y);
    if 2 * y < w {
      AndClearsBit(x, 2 * y, w);
    } else {
      AndAllOnes(x, w);
      if BitSet(x, 2 * y) { BitSetBound(x, 2 * y); }
    }
  }

  lemma PerfectParentByBit(i: Usize, a: nat, w: nat)
    requires i < MAX && a == First(i) && w == Span(i)
    ensures PerfectParent(i) == if BitSet(2 * a + 2 * w - 1, 2 * w) then 2 * a - 1 else 2 * a + 2 * w - 1
  {
    hide IsPow2, And, Or, BitSet, Span, First, LastZeroBit;
    LastZeroBitIsSpan(i);
    SpanBitIsClear(i);
    OrSetsBit(w, i);
    WordIsPow2();
    SpanFits(i, WORD);
    Pow2Gap(w, WORD);
    var z := ShiftLeft(w);
    assert z == if 2 * w < WORD then 2 * w else 0;
    MaskParent(i + w, w, z, WORD);
  }

  lemma ParentBlock(i: nat, a: nat, w: nat, p: nat)
    requires a == First(i) && w == Span(i)
    requires p == if BitSet(2 * a + 2 * w - 1, 2 * w) then 2 * a - 1 else 2 * a + 2 * w - 1
    ensures p == if Aligned(a, 2 * w) then i + w else i - w
    ensures Span(p) == 2 * w
    ensures First(p) == if Aligned(a, 2 * w) then a else a - w
  {
    hide *;
    Pow2Double(w);
    FirstIsAligned(i);
    SideBit(a, w);
    if Aligned(a, 2 * w) { LeftParent(i, a, w); } else { RightParent(i, a, w); }
  }

  lemma PerfectParentAsBlock(i: Usize, a: nat, w: nat, p: Usize)
    requires i < MAX && a == First(i) && w == Span(i) && p == PerfectParent(i)
    ensures p == if Aligned(a, 2 * w) then i + w else i - w
    ensures Span(p) == 2 * w
    ensures First(p) == if Aligned(a, 2 * w) then a else a - w
  {
    hide *;
    PerfectParentByBit(i, a, w);
    ParentBlock(i, a, w, p);
  }

  /** The parent is one span to the right of a left child and one to the left of a right
      child, and its block is the enclosing block of twice the size. */
  lemma PerfectParentMeaning(i: Usize)
    requires i < MAX
    ensures PerfectParent(i) == if IsLeft(i) then i + Span(i) else i - Span(i)
    ensures Span(PerfectParent(i)) == 2 * Span(i)
    ensures First(PerfectParent(i)) == if IsLeft(i) then First(i) else First(i) - Span(i)
  {
    PerfectParentAsBlock(i, First(i), Span(i), PerfectParent(i));
  }

  lemma BranchesAreOdd(i: nat)
    ensures IsBranch(i) <==> i % 2 == 1
  {
  }

  lemma MaskChildren(p: Usize, w: nat, h: nat)
    requires p % 2 == 1 && p < MAX && w == Span(p) && h == w / 2
    ensures LastZeroBit(p) == w && ShiftRight(w) == h
    ensures And(p, MAX - h) == p - h
    ensures And(Or(p, w), MAX - h) == p + h
  {
    hide And, Or, BitSet, Span, LastZeroBit, IsPow2;
    LastZeroBitIsSpan(p);
    HalfSpanBitIsSet(p);
    WordIsPow2();
    SpanFits(p, WORD);
    AndClearsBit(p, h, WORD);
    SpanBitIsClear(p);
    OrSetsBit(w, p);
    OrSymmetric(p, w);
    AndClearsBit(p + w, h, WORD);
  }

  /** The children lie half a span to either side of their parent. */
  lemma PerfectChildrenMeaning(p: Usize)
    requires p % 2 == 1 && p < MAX
    ensures IsBranch(p)
    ensures PerfectLeftChild(p) == p - Span(p) / 2
    ensures PerfectRightChild(p) == p + Span(p) / 2
  {
    hide And, Or, Span, IsPow2, LastZeroBit;
    BranchesAreOdd(p);
    MaskChildren(p, Span(p), Span(p) / 2);
  }

  // ----- roots

  lemma {:induction false} NextPow2Fits(x: nat)
    requires x <= WORD / 2
    ensures NextPow2(x) <= WORD / 2
  {
    WordIsPow2();
    NextPow2Least(x, WORD / 2);
  }

  lemma NextPow2OneLess(p: nat)
    requires IsPow2(p) && p > 2
    ensures NextPow2(p - 1) == p
  {
    NextPow2Unique(p - 1, p);
  }

  lemma PerfectByNextPow2(n: Usize, p: nat)
    requires p == n + 1 < WORD && NextPow2(n) == p
    ensures IsPerfect(n)
  {
    assert WrappingAdd(n, 1) == p;
  }

  lemma SmallSizesArePerfect(p: nat)
    requires IsPow2(p) && p <= 2
    ensures IsPerfect(p - 1)
  {
  }

  lemma OneLessThanPow2IsPerfect(p: nat)
    requires IsPow2(p) && p <= WORD / 2
    ensures IsPerfect(p - 1)
  {
    hide NextPow2, IsPow2, IsPerfect;
    if p > 2 {
      NextPow2OneLess(p);
      PerfectByNextPow2(p - 1, p);
    } else {
      SmallSizesArePerfect(p);
    }
  }

  lemma CompleteRootInside(n: Usize)
    requires n <= MAX / 2 || n == MAX
    ensures NextPow2(WrappingAdd(n, 1)) <= WORD / 2
    ensures IsPerfect(NextPow2(WrappingAdd(n, 1)) - 1)
    ensures (NextPow2(WrappingAdd(n, 1)) - 1) / 2 <= n
  {
    hide NextPow2, IsPow2, IsPerfect;
    var next := WrappingAdd(n, 1);
    assert next == if n == MAX then 0 else n + 1;
    NextPow2Fits(next);
    OneLessThanPow2IsPerfect(NextPow2(next));
    if n == MAX { NextPow2OfZero(); }
  }

  /** `usize::MAX` wraps to zero and has root zero; of the other sizes, those above
      `usize::MAX / 2` have no next power of two in a word. */
  function CompleteRoot(n: Usize): (r: Usize)
    requires n <= MAX / 2 || n == MAX
    ensures r <= n
  {
    CompleteRootInside(n);
    PerfectRoot(SaturatingSub(NextPow2(WrappingAdd(n, 1)), 1))
  }

  /** A size is perfect exactly when it is one less than a power of two. */
  lemma PerfectExactly(n: Usize)
    requires n < MAX
    ensures IsPerfect(n) <==> IsPow2(n + 1)
  {
    hide NextPow2, IsPow2;
    assert WrappingAdd(n, 1) == n + 1;
    if n == 1 {
      TwoIsPow2();
    } else if IsPow2(n + 1) {
      WordIsPow2();
      Pow2Gap(n + 1, WORD);
      OneLessThanPow2IsPerfect(n + 1);
    }
  }

  lemma LargestSizeWraps()
    ensures CompleteRoot(MAX) == 0
  {
    hide IsPow2, IsPerfect, NextPow2;
    NextPow2OfZero();
  }

  /** The root of a tree heads all its leaves. */
  lemma CompleteRootHeadsAll(leaves: nat)
    requires 1 <= leaves <= WORD / 4
    ensures CompleteRoot(2 * leaves - 1) == NodeAt(0, leaves)
  {
    var n: Usize := 2 * leaves - 1;
    assert WrappingAdd(n, 1) == 2 * leaves;
    NextPow2Double(leaves);
  }

  /** The root separates the two halves of the split of section 2.1 of RFC 6962: it is the
      node before leaf `k`, with `k` the largest power of two below the number of leaves. */
  lemma CompleteRootIsSplit(leaves: nat, k: nat)
    requires 2 <= leaves <= WORD / 4
    requires IsPow2(k) && k < leaves && forall p: nat :: IsPow2(p) && p < leaves ==> p <= k
    ensures CompleteRoot(2 * leaves - 1) == 2 * k - 1
  {
    hide IsPow2, NextPow2, Split, CompleteRoot;
    CompleteRootHeadsAll(leaves);
    SplitIsHalf(leaves);
    SplitIsPow2(leaves);
    SplitIsLargest(leaves, k);
  }

  // ----- parents, children and siblings

  /** The first ancestor of `i` in the unbounded perfect tree that lies inside a buffer of
      `n` nodes. The climb ends in a panic once it reaches `usize::MAX`. */
  function CompleteParentOf(i: Usize, n: Usize): (r: Outcome<Usize>)
    ensures r.Return? ==> r.value < n && r.value % 2 == 1
    decreases WORD - Span(i)
  {
    if i == MAX then Panic
    else
      PerfectParentMeaning(i);
      var p := PerfectParent(i);
      if p < n then Return(p) else CompleteParentOf(p, n)
  }

  method CompleteParent(i: Usize, n: Usize) returns (r: Outcome<Usize>)
    ensures r == CompleteParentOf(i, n)
  {
    var j: Usize := i;
    while true
      invariant CompleteParentOf(j, n) == CompleteParentOf(i, n)
      decreases WORD - Span(j)
    {
      if j == MAX { return Panic; }
      PerfectParentMeaning(j);
      j := PerfectParent(j);
      if j < n { return Return(j); }
    }
  }

  function CompleteLeftChild(p: Usize): Usize
    requires IsBranch(p) && p < MAX
  {
    PerfectLeftChild(p)
  }

  function CompleteRightChild(i: Usize, n: Usize): Usize
    requires IsBranch(i) && i < n <= MAX / 2
  {
    var rightChild := PerfectRightChild(i);
    if rightChild < n then rightChild
    else
      i + 1 + CompleteRoot(n - (i + 1))
  }

  function CompleteParentAndSibling(i: Usize, n: Usize): Outcome<(Usize, Usize)>
    requires i < n <= MAX / 2
  {
    match CompleteParentOf(i, n)
    case Panic => Panic
    case Return(p) =>
      Return((p, if i < p then CompleteRightChild(p, n) else CompleteLeftChild(p)))
  }

  // ----- the parent in a truncated tree

  /** One round of the climb, from a left child. */
  lemma ClimbFromLeft(q: Usize, a: nat, w: nat, n: Usize)
    requires q < MAX && a == First(q) && w == Span(q) && Aligned(a, 2 * w)
    ensures q + w < WORD
    ensures CompleteParentOf(q, n) == if q + w < n then Return(q + w) else CompleteParentOf(q + w, n)
  {
    hide And, Or, IsPow2, PerfectParent;
    PerfectParentAsBlock(q, a, w, PerfectParent(q));
  }

  /** One round of the climb, from a right child. */
  lemma ClimbFromRight(q: Usize, a: nat, w: nat, n: Usize)
    requires q < MAX && a == First(q) && w == Span(q) && !Aligned(a, 2 * w)
    ensures 0 <= q - w
    ensures CompleteParentOf(q, n) == if q - w < n then Return(q - w) else CompleteParentOf(q - w, n)
  {
    hide And, Or, IsPow2, PerfectParent;
    PerfectParentAsBlock(q, a, w, PerfectParent(q));
  }

  lemma ParentOfLeft(a: nat, h: nat, n: Usize)
    requires IsPow2(h) && Aligned(a, 2 * h) && 2 * a + 2 * h - 1 < n
    ensures CompleteParentOf(2 * a + h - 1, n) == Return(2 * a + 2 * h - 1)
  {
    hide IsPow2, Aligned, CompleteParentOf, PerfectParent, And, Or;
    Pow2Double(h);
    AlignedSmaller(a, 2 * h, h);
    NodeOfBlock(a, h);
    ClimbFromLeft(2 * a + h - 1, a, h, n);
  }

  /** From a cut-off right subtree at leaf `b` the climb passes only nodes outside the buffer
      until it meets the parent. */
  lemma {:induction false} ParentOfRight(b: nat, h: nat, v: nat, n: Usize)
    requires IsPow2(h) && IsPow2(v) && v <= h && Aligned(b, h) && !Aligned(b, 2 * h)
    requires 2 * b - 1 < n && 2 * b + h <= MAX
    requires v == h || n <= 2 * b + 2 * v - 1
    ensures b > 0 && CompleteParentOf(2 * b + v - 1, n) == Return(2 * b - 1)
    decreases h - v
  {
    hide IsPow2, Aligned, CompleteParentOf, PerfectParent, And, Or;
    AlignedBack(b, h);
    AlignedSmaller(b, h, v);
    NodeOfBlock(b, v);
    if v == h {
      ClimbFromRight(2 * b + v - 1, b, v, n);
    } else {
      Pow2Gap(v, h);
      Pow2Double(v);
      AlignedSmaller(b, h, 2 * v);
      ClimbFromLeft(2 * b + v - 1, b, v, n);
      ParentOfRight(b, h, 2 * v, n);
    }
  }

  /** The two halves of a subtree in terms of their blocks. */
  lemma SubtreeHalves(a: nat, c: nat, k: nat, v: nat, leaves: nat)
    requires IsSubtree(a, c, leaves) && c > 1 && k == Split(c) && v == NextPow2(c - k)
    ensures IsPow2(k) && IsPow2(v) && v <= k
    ensures Aligned(a, k) && Aligned(a, 2 * k) && Aligned(a + k, k) && !Aligned(a + k, 2 * k)
    ensures NodeAt(a, k) == 2 * a + k - 1
    ensures NodeAt(a, c) == 2 * a + 2 * k - 1
    ensures NodeAt(a + k, c - k) == 2 * (a + k) + v - 1 < 2 * leaves - 1
    ensures v == k || a + c == leaves
  {
    hide IsPow2, Aligned, NextPow2, Split;
    SplitIsPow2(c);
    SplitIsHalf(c);
    SubtreeSplits(a, c, leaves);
    SubtreeHasNode(a + k, c - k, leaves);
    NextPow2OfPow2(k);
    AlignedStep(a, k);
    if IsPow2(c) { NextPow2OfPow2(c); }
  }

  /** The block to the right of a leaf inside a buffer ends inside a word. */
  lemma BlockFits(a: nat, k: nat)
    requires IsPow2(k) && Aligned(a, 2 * k) && a + k < WORD / 2
    ensures 2 * (a + k) + k <= MAX
  {
    hide IsPow2, Aligned;
    HalfWordIsPow2();
    Pow2Gap(k, WORD / 2);
    Pow2Double(k);
    AlignedZero(WORD / 2);
    AlignedStep(0, WORD / 2);
    AlignedSmaller(WORD / 2, WORD / 2, 2 * k);
    AlignedGap(a, WORD / 2, 2 * k);
  }

  /** Both halves of a subtree have its node as their parent and lie on either side of it. */
  lemma SubtreeParent(a: nat, c: nat, leaves: nat)
    requires IsSubtree(a, c, leaves) && c > 1 && leaves <= WORD / 2
    ensures NodeAt(a, Split(c)) < NodeAt(a, c) < NodeAt(a + Split(c), c - Split(c)) < 2 * leaves - 1
    ensures CompleteParentOf(NodeAt(a, Split(c)), 2 * leaves - 1) == Return(NodeAt(a, c))
    ensures CompleteParentOf(NodeAt(a + Split(c), c - Split(c)), 2 * leaves - 1) == Return(NodeAt(a, c))
  {
    hide IsPow2, Aligned, CompleteParentOf, PerfectParent, And, Or, Split, NextPow2;
    var k := Split(c);
    var v := NextPow2(c - k);
    SubtreeHalves(a, c, k, v, leaves);
    BlockFits(a, k);
    ParentOfLeft(a, k, 2 * leaves - 1);
    ParentOfRight(a + k, k, v, 2 * leaves - 1);
  }

  /** The children of node `p = 2b - 1`: the perfect ones, or, where the right one is cut off,
      the shifted root of the rest of the tree. */
  lemma ChildrenOfNode(p: Usize, b: nat, h: nat, leaves: nat)
    requires p == 2 * b - 1 && Span(p) == 2 * h && b < leaves <= WORD / 4
    ensures IsBranch(p)
    ensures CompleteLeftChild(p) == p - h
    ensures p + h < 2 * leaves - 1 ==> CompleteRightChild(p, 2 * leaves - 1) == p + h
    ensures p + h >= 2 * leaves - 1 ==> CompleteRightChild(p, 2 * leaves - 1) == p + NextPow2(leaves - b)
  {
    hide And, Or, IsPow2, CompleteRoot, PerfectLeftChild, PerfectRightChild, IsBranch;
    PerfectChildrenMeaning(p);
    CompleteRootHeadsAll(leaves - b);
  }

  /** The child functions compute the two halves of the split of RFC 6962; the fallback of the
      right child is the root of the cut-off rest. */
  lemma SubtreeChildren(a: nat, c: nat, leaves: nat)
    requires IsSubtree(a, c, leaves) && c > 1 && leaves <= WORD / 4
    ensures NodeAt(a, c) < 2 * leaves - 1 && IsBranch(NodeAt(a, c))
    ensures CompleteLeftChild(NodeAt(a, c)) == NodeAt(a, Split(c))
    ensures CompleteRightChild(NodeAt(a, c), 2 * leaves - 1) == NodeAt(a + Split(c), c - Split(c))
  {
    hide *;
    var k := Split(c);
    var v := NextPow2(c - k);
    SubtreeHalves(a, c, k, v, leaves);
    SubtreeHasNode(a, c, leaves);
    ChildrenOfNode(NodeAt(a, c), a + k, k, leaves);
    if v < k { RightHalfIsCut(c - k, k); }
  }

  lemma RightHalfIsCut(c: nat, k: nat)
    requires IsPow2(k) && 1 <= c && NextPow2(c) < k
    ensures 2 * c <= k
  {
    hide IsPow2, NextPow2;
    if k < 2 * c && c <= k { NextPow2Unique(c, k); }
    if k < c { Pow2Gap(NextPow2(c), k); }
  }

  // ----- every node below the root is a child of exactly one branch

  /** No subtree crosses the split of a subtree that encloses it. */
  lemma SubtreesDoNotCross(x: nat, d: nat, a: nat, c: nat, leaves: nat)
    requires IsSubtree(a, c, leaves) && c > 1 && IsSubtree(x, d, leaves)
    requires a <= x && x + d <= a + c && (x, d) != (a, c)
    ensures x + d <= a + Split(c) || a + Split(c) <= x
  {
    hide IsPow2, Aligned, NextPow2, Split, NodeAt;
    var k, w := Split(c), NextPow2(d);
    SubtreeHalves(a, c, k, NextPow2(c - k), leaves);
    if x < a + k {
      if w <= k {
        AlignedSmaller(a + k, k, w);
        AlignedGap(x, a + k, w);
      } else {
        Pow2Gap(k, w);
        Pow2Double(k);
        AlignedSmaller(x, w, 2 * k);
        if a < x { AlignedGap(a, x, 2 * k); }
        if IsPow2(d) { NextPow2OfPow2(d); }
        assert false;
      }
    }
  }

  /** Descending from an enclosing subtree finds the branch whose half a subtree is. */
  lemma {:induction false} FindBranch(x: nat, d: nat, a: nat, c: nat, leaves: nat) returns (b: nat, e: nat)
    requires IsSubtree(a, c, leaves) && IsSubtree(x, d, leaves)
    requires a <= x && x + d <= a + c && (x, d) != (a, c)
    ensures e > 1 && IsSubtree(b, e, leaves)
    ensures (x, d) == (b, Split(e)) || (x, d) == (b + Split(e), e - Split(e))
    decreases c
  {
    hide IsPow2, Aligned, NextPow2, Split;
    var k := Split(c);
    SubtreesDoNotCross(x, d, a, c, leaves);
    SubtreeSplits(a, c, leaves);
    if (x, d) == (a, k) || (x, d) == (a + k, c - k) {
      b, e := a, c;
    } else if x + d <= a + k {
      b, e := FindBranch(x, d, a, k, leaves);
    } else {
      b, e := FindBranch(x, d, a + k, c - k, leaves);
    }
  }

  /** Tree navigation is consistent: the parent of a node below the root is inside the tree,
      has the node as exactly one of its children, and the sibling is the other one. */
  lemma ParentAndSibling(i: Usize, leaves: nat)
    requires 1 <= leaves <= WORD / 4 && i < 2 * leaves - 1 && i != CompleteRoot(2 * leaves - 1)
    ensures CompleteParentAndSibling(i, 2 * leaves - 1).Return?
    ensures var (p, s) := CompleteParentAndSibling(i, 2 * leaves - 1).value;
            && IsBranch(p) && p < 2 * leaves - 1 && s < 2 * leaves - 1
            && CompleteParentOf(i, 2 * leaves - 1) == CompleteParentOf(s, 2 * leaves - 1) == Return(p)
            && CompleteLeftChild(p) == (if i < p then i else s)
            && CompleteRightChild(p, 2 * leaves - 1) == (if i < p then s else i)
            && (i < p < s || s < p < i)
  {
    hide And, Or, IsPow2, Aligned, NextPow2, Split, IsSubtree, NodeAt, CompleteParentOf, PerfectParent, CompleteRoot,
      CompleteLeftChild, CompleteRightChild, IsBranch, Span, First, Count;
    NodeIsSubtree(i, leaves);
    CompleteRootHeadsAll(leaves);
    WholeTreeIsSubtree(leaves);
    CountIsInside(i, leaves);
    var a, c := FindBranch(First(i), Count(i, leaves), 0, leaves, leaves);
    SubtreeParent(a, c, leaves);
    SubtreeChildren(a, c, leaves);
  }

  lemma CountIsInside(i: nat, leaves: nat)
    requires i + 1 < 2 * leaves
    ensures First(i) + Count(i, leaves) <= leaves
  {
  }

  /** Both children of a branch lie inside the tree, on either side of it, and have it as
      their parent. */
  lemma ChildrenHaveParent(p: Usize, leaves: nat)
    requires 1 <= leaves <= WORD / 4 && p < 2 * leaves - 1 && p % 2 == 1
    ensures IsBranch(p)
    ensures CompleteLeftChild(p) < p < CompleteRightChild(p, 2 * leaves - 1) < 2 * leaves - 1
    ensures CompleteParentOf(CompleteLeftChild(p), 2 * leaves - 1) == Return(p)
    ensures CompleteParentOf(CompleteRightChild(p, 2 * leaves - 1), 2 * leaves - 1) == Return(p)
  {
    hide And, Or, IsPow2, Aligned, NextPow2, Split, NodeAt, CompleteParentOf, PerfectParent, CompleteRoot,
      CompleteLeftChild, CompleteRightChild, IsBranch, Span, First, Count;
    BranchesAreOdd(p);
    NodeIsSubtree(p, leaves);
    SubtreeParent(First(p), Count(p, leaves), leaves);
    SubtreeChildren(First(p), Count(p, leaves), leaves);
  }

  // ----- where the climb panics

  lemma {:induction false} ClimbPanics(i: Usize, n: Usize)
    requires First(i) == 0 && n <= i + Span(i)
    ensures CompleteParentOf(i, n).Panic?
    decreases WORD - Span(i)
  {
    hide And, Or, IsPow2, Aligned, PerfectParent, Span, First;
    if i < MAX {
      Pow2Double(Span(i));
      AlignedZero(2 * Span(i));
      ClimbFromLeft(i, 0, Span(i), n);
      LeftParent(i, 0, Span(i));
      ClimbPanics(i + Span(i), n);
    }
  }

  lemma NotMax(i: Usize)
    requires First(i) > 0
    ensures i < MAX
  {
    hide IsPow2, Aligned, Span, First;
    WordIsPow2();
    AlignedZero(WORD);
    NodeOfBlock(0, WORD);
  }

  lemma LeftStaysInWindow(a: nat, w: nat, p: nat)
    requires IsPow2(w) && IsPow2(p) && a > 0 && Aligned(a, 2 * w) && p <= 2 * a + w < 2 * p
    ensures a + w < p
  {
    hide IsPow2, Aligned;
    Pow2Double(w);
    if 2 * w <= p {
      Pow2IsAligned(p, 2 * w);
      AlignedGap(a, p, 2 * w);
    } else {
      Pow2Gap(p, 2 * w);
      AlignedZero(2 * w);
      AlignedGap(0, a, 2 * w);
    }
  }

  lemma RightStaysInWindow(a: nat, w: nat, p: nat)
    requires IsPow2(w) && IsPow2(p) && Aligned(a, w) && w <= a && p <= 2 * a + w < 2 * p
    ensures p <= 2 * a
  {
    hide IsPow2, Aligned;
    Pow2Double(w);
    if 2 * w <= p {
      Pow2IsAligned(p, 2 * w);
      AlignedDouble(a, w);
      if 2 * a < p { AlignedGap(2 * a, p, 2 * w); }
    } else {
      Pow2Gap(p, 2 * w);
    }
  }

  /** Away from the left edge, the smallest node that the climb passes precedes the largest
      power of two that is at most `i + 1`. */
  lemma {:induction false} ClimbFromInside(i: Usize, n: Usize, p: nat)
    requires First(i) > 0 && IsPow2(p) && p <= i + 1 < 2 * p
    ensures CompleteParentOf(i, n).Panic? <==> n < p
    decreases WORD - Span(i)
  {
    hide And, Or, IsPow2, Aligned, PerfectParent, CompleteParentOf, Span, First;
    NotMax(i);
    FirstIsAligned(i);
    var a, w := First(i), Span(i);
    Pow2Double(w);
    if Aligned(a, 2 * w) {
      ClimbFromLeft(i, a, w, n);
      LeftParent(i, a, w);
      LeftStaysInWindow(a, w, p);
      if n <= i + w { ClimbFromInside(i + w, n, p); }
    } else {
      ClimbFromRight(i, a, w, n);
      RightParent(i, a, w);
      RightStaysInWindow(a, w, p);
      if i - w < n {
      } else if a == w {
        if w < p { Pow2Gap(w, p); }
        ClimbPanics(i - w, n);
      } else {
        ClimbFromInside(i - w, n, p);
      }
    }
  }

  /** For any index and any buffer size, odd or even, the climb panics exactly when no ancestor
      is inside: on the left edge, when the perfect parent is outside; elsewhere, when the
      node before the largest power of two up to `i + 1` is. */
  lemma ClimbPanicsExactly(i: Usize, n: Usize)
    ensures CompleteParentOf(i, n).Panic? <==> if First(i) == 0 then n <= 2 * i + 1 else n < Split(i + 2)
    ensures i < n ==> (CompleteParentOf(i, n).Panic? <==> First(i) == 0 && n <= 2 * i + 1)
  {
    hide And, Or, IsPow2, Aligned, PerfectParent, CompleteParentOf, Span, First, Split;
    if First(i) > 0 {
      SplitIsPow2(i + 2);
      ClimbFromInside(i, n, Split(i + 2));
    } else if n <= i + Span(i) {
      ClimbPanics(i, n);
    } else {
      Pow2Double(Span(i));
      AlignedZero(2 * Span(i));
      ClimbFromLeft(i, 0, Span(i), n);
    }
  }

  /** The node that heads all leaves has no parent, whatever the size of the tree. */
  lemma TopHasNoParent(leaves: nat)
    requires 1 <= leaves <= WORD / 2
    ensures NodeAt(0, leaves) < 2 * leaves - 1
    ensures CompleteParentOf(NodeAt(0, leaves), 2 * leaves - 1).Panic?
  {
    hide And, Or, IsPow2, Aligned, PerfectParent, CompleteParentOf, Span, First, NextPow2;
    WholeTreeIsSubtree(leaves);
    SubtreeHasNode(0, leaves, leaves);
    ClimbPanics(NodeAt(0, leaves), 2 * leaves - 1);
  }

  /** Parents are odd, so a buffer of even size has the parents of the next odd size. */
  lemma {:induction false} ClimbIgnoresParity(i: Usize, n: Usize)
    requires n % 2 == 0 && n < MAX
    ensures CompleteParentOf(i, n) == CompleteParentOf(i, n + 1)
    decreases WORD - Span(i)
  {
    hide And, Or, IsPow2, Aligned, PerfectParent, Span, First;
    if i < MAX {
      PerfectParentMeaning(i);
      var p := PerfectParent(i);
      assert p % 2 == 1;
      ClimbIgnoresParity(p, n);
    }
  }

  /** In a tree, the root is the only node without a parent. */
  lemma OnlyRootHasNoParent(i: Usize, leaves: nat)
    requires 1 <= leaves <= WORD / 4 && i < 2 * leaves - 1
    ensures CompleteParentOf(i, 2 * leaves - 1).Panic? <==> i == CompleteRoot(2 * leaves - 1)
  {
    hide And, Or, IsPow2, Aligned, PerfectParent, CompleteParentOf, Span, First, CompleteRoot, NextPow2;
    ClimbPanicsExactly(i, 2 * leaves - 1);
    CompleteRootHeadsAll(leaves);
    WholeTreeIsSubtree(leaves);
    SubtreeHasNode(0, leaves, leaves);
    if First(i) == 0 && leaves <= Span(i) { NextPow2Unique(leaves, Span(i)); }
  }
}
