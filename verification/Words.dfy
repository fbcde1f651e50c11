/** 64-bit machine words: the operators that the index functions of the Merkle tree
    apply to `usize`, written as arithmetic on natural numbers, and their meaning. */
module Words {

  const WORD: nat := 0x1_0000_0000_0000_0000
  const MAX: nat := WORD - 1

  type Usize = x: nat | x < WORD

  // ----- bitwise operators

  function And(x: nat, y: nat): (r: nat)
    ensures r <= x && r <= y
  {
    if x == 0 || y == 0 then 0
    else 2 * And(x / 2, y / 2) + (if x % 2 == 1 && y % 2 == 1 then 1 else 0)
  }

  function Or(x: nat, y: nat): nat
    decreases x + y
  {
    if x == 0 && y == 0 then 0
    else 2 * Or(x / 2, y / 2) + (if x % 2 == 1 || y % 2 == 1 then 1 else 0)
  }

  function Not(x: Usize): Usize { MAX - x }

  /** `x << 1`, which loses the topmost bit. */
  function ShiftLeft(x: Usize): Usize { 2 * x % WORD }

  /** `x >> 1` */
  function ShiftRight(x: Usize): Usize { x / 2 }

  function WrappingAdd(x: Usize, y: Usize): Usize { (x + y) % WORD }

  function SaturatingSub(x: Usize, y: Usize): Usize { if x < y then 0 else x - y }

  // ----- powers of two

  predicate IsPow2(x: nat): (b: bool)
    ensures b ==> x >= 1
  {
    x == 1 || (x > 1 && x % 2 == 0 && IsPow2(x / 2))
  }

  /** The smallest power of two that is at least `x`; 1 for `x == 0`. */
  function NextPow2(x: nat): (r: nat)
    ensures IsPow2(r) && x <= r
    ensures x >= 1 ==> r < 2 * x
    ensures x > 1 ==> r % 2 == 0
  {
    if x <= 1 then 1 else 2 * NextPow2((x + 1) / 2)
  }

  lemma {:induction false} NextPow2Least(x: nat, p: nat)
    requires IsPow2(p) && x <= p
    ensures NextPow2(x) <= p
  {
    if x > 1 { NextPow2Least((x + 1) / 2, p / 2); }
  }

  /** A power of two in the window `[x, 2x)` is the next power of two. */
  lemma {:induction false} NextPow2Unique(x: nat, p: nat)
    requires IsPow2(p) && x <= p < 2 * x
    ensures NextPow2(x) == p
  {
    if x > 1 { NextPow2Unique((x + 1) / 2, p / 2); }
  }

  lemma NextPow2OfZero()
    ensures NextPow2(0) == 1
  {
  }

  lemma NextPow2Double(x: nat)
    requires x >= 1
    ensures NextPow2(2 * x) == 2 * NextPow2(x)
  {
    assert (2 * x + 1) / 2 == x;
  }

  lemma NextPow2OfPow2(p: nat)
    requires IsPow2(p)
    ensures NextPow2(p) == p
  {
    NextPow2Unique(p, p);
  }

  lemma Pow2Double(x: nat)
    requires IsPow2(x)
    ensures IsPow2(2 * x)
  {
  }

  lemma TwoIsPow2()
    ensures IsPow2(2)
  {
  }

  lemma Pow2Times16(x: nat)
    requires IsPow2(x)
    ensures IsPow2(16 * x)
  {
    hide *;
    Pow2Double(x);
    Pow2Double(2 * x);
    Pow2Double(4 * x);
    Pow2Double(8 * x);
  }

  lemma WordIsPow2()
    ensures IsPow2(WORD)
  {
    var x: nat := 1;
    for k := 0 to 16
      invariant IsPow2(x) && x == [0x1, 0x10, 0x100, 0x1000, 0x1_0000, 0x10_0000, 0x100_0000, 0x1000_0000,
                                   0x1_0000_0000, 0x10_0000_0000, 0x100_0000_0000, 0x1000_0000_0000,
                                   0x1_0000_0000_0000, 0x10_0000_0000_0000, 0x100_0000_0000_0000,
                                   0x1000_0000_0000_0000, 0x1_0000_0000_0000_0000][k]
    {
      Pow2Times16(x);
      x := 16 * x;
    }
  }

  lemma HalfWordIsPow2()
    ensures IsPow2(WORD / 2)
  {
    WordIsPow2();
  }

  /** Of two powers of two, the larger is at least twice the smaller. */
  lemma {:induction false} Pow2Gap(v: nat, w: nat)
    requires IsPow2(v) && IsPow2(w) && v < w
    ensures 2 * v <= w
  {
    if v > 1 { Pow2Gap(v / 2, w / 2); }
  }

  // ----- single bits

  /** Whether the bit with weight `y` is set in `x`. */
  predicate BitSet(x: nat, y: nat)
    requires IsPow2(y)
  {
    if y == 1 then x % 2 == 1 else BitSet(x / 2, y / 2)
  }

  lemma {:induction false} BitSetBound(x: nat, y: nat)
    requires IsPow2(y) && BitSet(x, y)
    ensures y <= x
  {
    if y > 1 { BitSetBound(x / 2, y / 2); }
  }

  lemma {:induction false} AndAllOnes(x: nat, w: nat)
    requires IsPow2(w) && x < w
    ensures And(x, w - 1) == x
  {
    if w > 1 && x > 0 {
      AndAllOnes(x / 2, w / 2);
      assert (w - 1) / 2 == w / 2 - 1 && (w - 1) % 2 == 1;
    }
  }

  /** Masking with the complement of one bit removes exactly that bit. */
  lemma {:induction false} AndClearsBit(x: nat, y: nat, w: nat)
    requires IsPow2(y) && IsPow2(w) && x < w && y < w
    ensures And(x, w - 1 - y) == if BitSet(x, y) then x - y else x
    decreases w
  {
    if x == 0 {
      if BitSet(x, y) { BitSetBound(x, y); }
    } else if y == 1 {
      AndAllOnes(x / 2, w / 2);
      assert (w - 2) / 2 == w / 2 - 1 && (w - 2) % 2 == 0;
    } else {
      AndClearsBit(x / 2, y / 2, w / 2);
      assert (w - 1 - y) / 2 == w / 2 - 1 - y / 2 && (w - 1 - y) % 2 == 1;
      if BitSet(x, y) { BitSetBound(x / 2, y / 2); }
    }
  }

  lemma {:induction false} OrSymmetric(x: nat, y: nat)
    ensures Or(x, y) == Or(y, x)
    decreases x + y
  {
    if x > 0 || y > 0 { OrSymmetric(x / 2, y / 2); }
  }

  lemma {:induction false} OrZero(x: nat)
    ensures Or(0, x) == x
  {
    if x > 0 { OrZero(x / 2); }
  }

  /** Or-ing an unset bit into a number adds its weight. */
  lemma {:induction false} OrSetsBit(y: nat, x: nat)
    requires IsPow2(y) && !BitSet(x, y)
    ensures Or(y, x) == x + y
  {
    if y == 1 { OrZero(x / 2); } else { OrSetsBit(y / 2, x / 2); }
  }

  lemma {:induction false} AndSelf(x: nat)
    ensures And(x, x) == x
  {
    if x > 0 { AndSelf(x / 2); }
  }
}
