/** The arithmetic of a flat in-order tree. Node `i` heads an aligned block of
    `Span(i)` leaves that starts at leaf `First(i)`; leaves are the even nodes.
    A tree of `leaves` leaves cuts the blocks that reach past its last leaf. */
module InOrder {
  import opened Words

  /** `2^k` for a node with `k` trailing one-bits. */
  function Span(i: nat): (w: nat)
    ensures IsPow2(w) && w <= i + 1
  {
    if i % 2 == 0 then 1 else 2 * Span(i / 2)
  }

  /** The leftmost leaf below node `i`. */
  function First(i: nat): (a: nat)
    ensures i + 1 == 2 * a + Span(i)
  {
    if i % 2 == 0 then i / 2 else 2 * First(i / 2)
  }

  /** The power of two `w` divides `x`. */
  predicate Aligned(x: nat, w: nat)
    requires IsPow2(w)
  {
    w == 1 || (x % 2 == 0 && Aligned(x / 2, w / 2))
  }

  lemma {:induction false} FirstIsAligned(i: nat)
    ensures Aligned(First(i), Span(i))
  {
    if i % 2 == 1 {
      var j := i / 2;
      FirstIsAligned(j);
      assert Span(i) == 2 * Span(j) && First(i) == 2 * First(j);
    }
  }

  /** Nodes and aligned blocks correspond one to one. */
  lemma {:induction false} NodeOfBlock(a: nat, w: nat)
    requires IsPow2(w) && Aligned(a, w)
    ensures Span(2 * a + w - 1) == w && First(2 * a + w - 1) == a
  {
    if w > 1 {
      NodeOfBlock(a / 2, w / 2);
      assert (2 * a + w - 1) / 2 == 2 * (a / 2) + w / 2 - 1;
    }
  }

  // ----- alignment

  lemma {:induction false} AlignedZero(w: nat)
    requires IsPow2(w)
    ensures Aligned(0, w)
  {
    if w > 1 { AlignedZero(w / 2); }
  }

  lemma {:induction false} AlignedSmaller(x: nat, w: nat, v: nat)
    requires IsPow2(w) && IsPow2(v) && v <= w && Aligned(x, w)
    ensures Aligned(x, v)
  {
    if v > 1 { AlignedSmaller(x / 2, w / 2, v / 2); }
  }

  lemma {:induction false} AlignedGap(x: nat, y: nat, w: nat)
    requires IsPow2(w) && Aligned(x, w) && Aligned(y, w) && x < y
    ensures x + w <= y
  {
    if w > 1 { AlignedGap(x / 2, y / 2, w / 2); }
  }

  lemma AlignedDouble(x: nat, w: nat)
    requires IsPow2(w) && Aligned(x, w)
    ensures IsPow2(2 * w) && Aligned(2 * x, 2 * w)
  {
    hide IsPow2;
    Pow2Double(w);
    assert 2 * x % 2 == 0 && 2 * x / 2 == x;
  }

  lemma {:induction false} Pow2IsAligned(p: nat, w: nat)
    requires IsPow2(p) && IsPow2(w) && w <= p
    ensures Aligned(p, w)
  {
    if w > 1 { Pow2IsAligned(p / 2, w / 2); }
  }

  /** Moving by one block keeps alignment and swaps left and right. */
  lemma {:induction false} AlignedStep(x: nat, w: nat)
    requires IsPow2(w) && Aligned(x, w)
    ensures Aligned(x + w, w)
    ensures Aligned(x + w, 2 * w) <==> !Aligned(x, 2 * w)
  {
    if w > 1 {
      AlignedStep(x / 2, w / 2);
      assert (x + w) / 2 == x / 2 + w / 2;
    } else {
      assert Aligned(x, 2) <==> x % 2 == 0;
      assert Aligned(x + 1, 2) <==> (x + 1) % 2 == 0;
    }
  }

  lemma {:induction false} AlignedBack(x: nat, w: nat)
    requires IsPow2(w) && Aligned(x, w) && !Aligned(x, 2 * w)
    ensures w <= x && Aligned(x - w, 2 * w)
  {
    if w > 1 {
      AlignedBack(x / 2, w / 2);
      assert (x - w) / 2 == x / 2 - w / 2;
    } else {
      assert Aligned(x, 2) <==> x % 2 == 0;
      assert Aligned(x - 1, 2) <==> (x - 1) % 2 == 0;
    }
  }

  // ----- the untruncated tree

  /** Node `i` is the left child of its parent in the unbounded perfect tree. */
  predicate IsLeft(i: nat) { Aligned(First(i), 2 * Span(i)) }

  lemma LeftParent(i: nat, a: nat, w: nat)
    requires a == First(i) && w == Span(i) && Aligned(a, 2 * w)
    ensures i + w == 2 * a + 2 * w - 1
    ensures Span(i + w) == 2 * w && First(i + w) == a
  {
    hide *;
    Pow2Double(w);
    NodeOfBlock(a, 2 * w);
    assert i + w == 2 * a + 2 * w - 1;
  }

  lemma RightParent(i: nat, a: nat, w: nat)
    requires a == First(i) && w == Span(i) && !Aligned(a, 2 * w)
    ensures w <= a && w <= i && i - w == 2 * (a - w) + 2 * w - 1
    ensures Span(i - w) == 2 * w && First(i - w) == a - w
    ensures Aligned(a - w, 2 * w)
  {
    hide *;
    Pow2Double(w);
    FirstIsAligned(i);
    AlignedBack(a, w);
    NodeOfBlock(a - w, 2 * w);
    assert i - w == 2 * (a - w) + 2 * w - 1;
  }

  // ----- truncated trees

  /** The number of leaves below node `i` in a tree of `leaves` leaves. */
  function Count(i: nat, leaves: nat): nat
    requires i + 1 < 2 * leaves
  {
    if First(i) + Span(i) <= leaves then Span(i) else leaves - First(i)
  }

  /** The node that heads the leaves `[a, a + c)`. */
  function NodeAt(a: nat, c: nat): nat
  {
    2 * a + NextPow2(c) - 1
  }

  /** The leaves `[a, a + c)` are exactly those below one node of the tree. */
  predicate IsSubtree(a: nat, c: nat, leaves: nat) {
    c >= 1 && a + c <= leaves && Aligned(a, NextPow2(c)) && (IsPow2(c) || a + c == leaves)
  }

  /** Every node of the tree heads a subtree and is determined by it. */
  lemma NodeIsSubtree(i: nat, leaves: nat)
    requires i + 1 < 2 * leaves
    ensures IsSubtree(First(i), Count(i, leaves), leaves)
    ensures NodeAt(First(i), Count(i, leaves)) == i
    ensures NextPow2(Count(i, leaves)) == Span(i)
    ensures i % 2 == 0 <==> Count(i, leaves) == 1
  {
    FirstIsAligned(i);
    var c := Count(i, leaves);
    if i % 2 == 1 {
      assert Span(i) == 2 * Span(i / 2);
      assert Span(i) < 2 * c;
      NextPow2Unique(c, Span(i));
    }
  }

  /** Every subtree has its node inside the tree. */
  lemma SubtreeHasNode(a: nat, c: nat, leaves: nat)
    requires IsSubtree(a, c, leaves)
    ensures NodeAt(a, c) + 1 < 2 * leaves
    ensures First(NodeAt(a, c)) == a && Span(NodeAt(a, c)) == NextPow2(c)
    ensures Count(NodeAt(a, c), leaves) == c
  {
    hide IsPow2, Aligned, NextPow2;
    NodeOfBlock(a, NextPow2(c));
    if IsPow2(c) { NextPow2OfPow2(c); }
  }

  lemma WholeTreeIsSubtree(leaves: nat)
    requires leaves >= 1
    ensures IsSubtree(0, leaves, leaves)
  {
    AlignedZero(NextPow2(leaves));
  }

  lemma LeafIsSubtree(m: nat, leaves: nat)
    requires m < leaves
    ensures IsSubtree(m, 1, leaves) && NodeAt(m, 1) == 2 * m
  {
  }

  /** The largest power of two smaller than `n`: the split of section 2.1 of RFC 6962. */
  function Split(n: nat): (k: nat)
    requires n > 1
    ensures 0 < k < n <= 2 * k
  {
    if n == 2 then 1 else 2 * Split((n + 1) / 2)
  }

  lemma {:induction false} SplitIsPow2(n: nat)
    requires n > 1
    ensures IsPow2(Split(n))
  {
    if n > 2 {
      SplitIsPow2((n + 1) / 2);
      Pow2Double(Split((n + 1) / 2));
    }
  }

  lemma {:induction false} SplitIsLargest(n: nat, p: nat)
    requires n > 1 && IsPow2(p) && p < n
    ensures p <= Split(n)
  {
    hide *;
    SplitIsPow2(n);
    if p > Split(n) { Pow2Gap(Split(n), p); }
  }

  lemma SplitIsHalf(n: nat)
    requires n > 1
    ensures NextPow2(n) == 2 * Split(n)
  {
    SplitIsPow2(n);
    Pow2Double(Split(n));
    NextPow2Unique(n, 2 * Split(n));
  }

  /** A subtree splits into a perfect left subtree and a right one of at most its size. */
  lemma SubtreeSplits(a: nat, c: nat, leaves: nat)
    requires IsSubtree(a, c, leaves) && c > 1
    ensures IsSubtree(a, Split(c), leaves)
    ensures IsSubtree(a + Split(c), c - Split(c), leaves)
    ensures NextPow2(c - Split(c)) <= Split(c)
  {
    hide IsPow2, Aligned, NextPow2, Split;
    var k := Split(c);
    SplitIsPow2(c);
    SplitIsHalf(c);
    NextPow2OfPow2(k);
    AlignedSmaller(a, 2 * k, k);
    AlignedStep(a, k);
    NextPow2Least(c - k, k);
    AlignedSmaller(a + k, k, NextPow2(c - k));
    if IsPow2(c) {
      NextPow2OfPow2(c);
      assert c - k == k;
    }
  }
}
