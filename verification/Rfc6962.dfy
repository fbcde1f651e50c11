/** Sections 2.1 and 2.1.1 of RFC 6962: the Merkle tree hash and the audit path of a list of
    entries, and what checking a path step by step computes. */
module Rfc6962 {
  import opened Words
  import opened InOrder

  newtype Byte = x: int | 0 <= x < 256

  type Bytes = seq<Byte>

  /** A 32-byte digest. */
  type Hash = s: Bytes | |s| == 32 witness seq(32, _ => 0)

  /** SHA-256 enters only as some function from byte strings to digests. */
  type Digest = Bytes -> Hash

  function HashLeaf(sha: Digest, leaf: Bytes): Hash { sha([0 as Byte] + leaf) }

  function Combine(sha: Digest, left: Bytes, right: Bytes): Hash { sha(CombineInput(left, right)) }

  function CombineInput(left: Bytes, right: Bytes): Bytes { [1 as Byte] + left + right }

  /** The Merkle tree hash MTH(D) of section 2.1. */
  function Mth(sha: Digest, d: seq<Bytes>): Hash
    decreases |d|
  {
    if |d| == 0 then sha([])
    else if |d| == 1 then HashLeaf(sha, d[0])
    else
      var k := Split(|d|);
      Combine(sha, Mth(sha, d[..k]), Mth(sha, d[k..]))
  }

  lemma MthUnfolds(sha: Digest, s: seq<Bytes>)
    requires |s| > 1
    ensures Mth(sha, s) == Combine(sha, Mth(sha, s[..Split(|s|)]), Mth(sha, s[Split(|s|)..]))
  {
    hide IsPow2, Split, Combine;
  }

  /** The three equations of section 2.1, down to the bytes that are hashed. */
  lemma MthEquations(sha: Digest, d: seq<Bytes>, k: nat)
    requires |d| > 1 ==> IsPow2(k) && k < |d| && forall p: nat :: IsPow2(p) && p < |d| ==> p <= k
    ensures |d| == 0 ==> Mth(sha, d) == sha([])
    ensures |d| == 1 ==> Mth(sha, d) == sha([0] + d[0])
    ensures |d| > 1 ==> Mth(sha, d) == sha([1] + Mth(sha, d[..k]) + Mth(sha, d[k..]))
  {
    hide IsPow2, Split, Mth;
    if |d| > 1 {
      MthUnfolds(sha, d);
      SplitIsPow2(|d|);
      SplitIsLargest(|d|, k);
    } else {
      MthStarts(sha, d);
    }
  }

  lemma MthStarts(sha: Digest, d: seq<Bytes>)
    requires |d| <= 1
    ensures Mth(sha, d) == if |d| == 0 then sha([]) else sha([0] + d[0])
  {
  }

  /** The audit path PATH(m, D) of section 2.1.1. */
  function Path(sha: Digest, m: nat, d: seq<Bytes>): (path: seq<Hash>)
    requires m < |d|
    ensures |path| == Depth(m, |d|)
    decreases |d|
  {
    if |d| == 1 then []
    else
      var k := Split(|d|);
      if m < k then Path(sha, m, d[..k]) + [Mth(sha, d[k..])]
      else Path(sha, m - k, d[k..]) + [Mth(sha, d[..k])]
  }

  /** The number of splits above leaf `m` in a tree of `n` leaves. */
  function Depth(m: nat, n: nat): nat
    requires m < n
  {
    if n == 1 then 0
    else if m < Split(n) then 1 + Depth(m, Split(n))
    else 1 + Depth(m - Split(n), n - Split(n))
  }

  /** The two cases of section 2.1.1. */
  lemma PathEquations(sha: Digest, m: nat, d: seq<Bytes>, k: nat)
    requires m < |d|
    requires |d| > 1 ==> IsPow2(k) && k < |d| && forall p: nat :: IsPow2(p) && p < |d| ==> p <= k
    ensures |d| == 1 ==> Path(sha, m, d) == []
    ensures |d| > 1 && m < k ==> Path(sha, m, d) == Path(sha, m, d[..k]) + [Mth(sha, d[k..])]
    ensures |d| > 1 && k <= m ==> Path(sha, m, d) == Path(sha, m - k, d[k..]) + [Mth(sha, d[..k])]
  {
    hide IsPow2, Split, Mth;
    if |d| > 1 {
      SplitIsPow2(|d|);
      SplitIsLargest(|d|, k);
    }
  }

  /** At each step from leaf `m` to the root: whether the walk comes from the left. */
  function Sides(m: nat, n: nat): (sides: seq<bool>)
    requires m < n
    ensures |sides| == Depth(m, n)
    decreases n
  {
    if n == 1 then []
    else if m < Split(n) then Sides(m, Split(n)) + [true]
    else Sides(m - Split(n), n - Split(n)) + [false]
  }

  function CombineOn(sha: Digest, fromLeft: bool, acc: Bytes, sibling: Bytes): Hash {
    if fromLeft then Combine(sha, acc, sibling) else Combine(sha, sibling, acc)
  }

  /** Combining a hash with one sibling after the other, each on the given side. */
  function Fold(sha: Digest, acc: Hash, sides: seq<bool>, path: seq<Bytes>): Hash
    requires |sides| == |path|
  {
    if |sides| == 0 then acc
    else
      var t := |sides| - 1;
      CombineOn(sha, sides[t], Fold(sha, acc, sides[..t], path[..t]), path[t])
  }

  lemma FoldNone(sha: Digest, acc: Hash, sides: seq<bool>, path: seq<Bytes>)
    requires |sides| == |path| == 0
    ensures Fold(sha, acc, sides, path) == acc
  {
  }

  lemma FoldSnoc(sha: Digest, acc: Hash, sides: seq<bool>, path: seq<Bytes>, side: bool, sibling: Bytes)
    requires |sides| == |path|
    ensures Fold(sha, acc, sides + [side], path + [sibling])
         == CombineOn(sha, side, Fold(sha, acc, sides, path), sibling)
  {
    assert (sides + [side])[..|sides|] == sides;
    assert (path + [sibling])[..|path|] == path;
  }

  /** Completeness: folding a leaf hash along its audit path gives the Merkle tree hash. */
  lemma {:induction false} PathFoldsToRoot(sha: Digest, m: nat, d: seq<Bytes>)
    requires m < |d|
    ensures Fold(sha, HashLeaf(sha, d[m]), Sides(m, |d|), Path(sha, m, d)) == Mth(sha, d)
    decreases |d|
  {
    hide IsPow2, Split, Fold, Combine;
    if |d| == 1 {
      FoldNone(sha, HashLeaf(sha, d[m]), Sides(m, 1), Path(sha, m, d));
    } else {
      var k := Split(|d|);
      var h := HashLeaf(sha, d[m]);
      if m < k {
        PathFoldsToRoot(sha, m, d[..k]);
        FoldSnoc(sha, h, Sides(m, k), Path(sha, m, d[..k]), true, Mth(sha, d[k..]));
      } else {
        PathFoldsToRoot(sha, m - k, d[k..]);
        FoldSnoc(sha, h, Sides(m - k, |d| - k), Path(sha, m - k, d[k..]), false, Mth(sha, d[..k]));
      }
    }
  }

  /** Two different inputs with the same digest. */
  predicate IsCollision(sha: Digest, x: Bytes, y: Bytes) {
    x != y && sha(x) == sha(y)
  }

  // ----- binding

  /** The inputs to `combine` at which a path that leads to the root of `d` first departs, seen
      from the root, from the audit path of leaf `m`. */
  function Departure(sha: Digest, h: Hash, m: nat, d: seq<Bytes>, path: seq<Hash>): (Bytes, Bytes)
    requires m < |d| && |path| == Depth(m, |d|)
    decreases |d|
  {
    if |d| == 1 then ([], [])
    else
      var t, k := |path| - 1, Split(|d|);
      var l, r := Mth(sha, d[..k]), Mth(sha, d[k..]);
      if m < k then
        var acc := Fold(sha, h, Sides(m, k), path[..t]);
        if (acc, path[t]) != (l, r) then (CombineInput(acc, path[t]), CombineInput(l, r))
        else Departure(sha, h, m, d[..k], path[..t])
      else
        var acc := Fold(sha, h, Sides(m - k, |d| - k), path[..t]);
        if (path[t], acc) != (l, r) then (CombineInput(path[t], acc), CombineInput(l, r))
        else Departure(sha, h, m - k, d[k..], path[..t])
  }

  lemma CombineInputInjective(l: Hash, r: Hash, l': Hash, r': Hash)
    requires CombineInput(l, r) == CombineInput(l', r')
    ensures l == l' && r == r'
  {
    var x, y := CombineInput(l, r), CombineInput(l', r');
    assert l == x[1..33] && l' == y[1..33];
    assert r == x[33..] && r' == y[33..];
  }

  /** Equal combinations have equal parts or collide. */
  lemma CombineBinds(sha: Digest, l: Hash, r: Hash, l': Hash, r': Hash)
    requires Combine(sha, l, r) == Combine(sha, l', r')
    ensures (l, r) == (l', r') || IsCollision(sha, CombineInput(l, r), CombineInput(l', r'))
  {
    if CombineInput(l, r) == CombineInput(l', r') { CombineInputInjective(l, r, l', r'); }
  }

  /** Binding: a leaf hash and a path of the right length that fold to the root are the hash of
      that leaf and its audit path, or `Departure` exhibits a collision of `combine`. */
  lemma {:induction false} FoldBinds(sha: Digest, h: Hash, m: nat, d: seq<Bytes>, path: seq<Hash>)
    requires m < |d| && |path| == Depth(m, |d|)
    requires Fold(sha, h, Sides(m, |d|), path) == Mth(sha, d)
    ensures (h == HashLeaf(sha, d[m]) && path == Path(sha, m, d))
         || var (x, y) := Departure(sha, h, m, d, path); IsCollision(sha, x, y)
    decreases |d|
  {
    hide IsPow2, Split, Fold, Combine, CombineInput, IsCollision;
    if |d| == 1 {
      FoldNone(sha, h, Sides(m, 1), path);
    } else {
      var t, k := |path| - 1, Split(|d|);
      var l, r := Mth(sha, d[..k]), Mth(sha, d[k..]);
      assert path == path[..t] + [path[t]];
      if m < k {
        var acc := Fold(sha, h, Sides(m, k), path[..t]);
        FoldSnoc(sha, h, Sides(m, k), path[..t], true, path[t]);
        CombineBinds(sha, acc, path[t], l, r);
        if (acc, path[t]) == (l, r) { FoldBinds(sha, h, m, d[..k], path[..t]); }
      } else {
        var acc := Fold(sha, h, Sides(m - k, |d| - k), path[..t]);
        FoldSnoc(sha, h, Sides(m - k, |d| - k), path[..t], false, path[t]);
        CombineBinds(sha, path[t], acc, l, r);
        if (path[t], acc) == (l, r) { FoldBinds(sha, h, m - k, d[k..], path[..t]); }
      }
    }
  }

  // ----- membership

  /** What the last step of a fold hashes. */
  function LastInput(sha: Digest, leaf: Bytes, sides: seq<bool>, path: seq<Hash>): (x: Bytes)
    requires |sides| == |path|
    ensures sha(x) == Fold(sha, HashLeaf(sha, leaf), sides, path)
    ensures x != [] && (x[0] == 0 <==> |sides| == 0)
  {
    if |sides| == 0 then [0] + leaf
    else
      var t := |sides| - 1;
      var acc := Fold(sha, HashLeaf(sha, leaf), sides[..t], path[..t]);
      if sides[t] then CombineInput(acc, path[t]) else CombineInput(path[t], acc)
  }

  /** The inputs at which a walk with any sides and any number of segments that leads from the
      data of a leaf to the root of `d` departs from the tree of `d`. */
  function Intrusion(sha: Digest, leaf: Bytes, sides: seq<bool>, path: seq<Hash>, d: seq<Bytes>): (Bytes, Bytes)
    requires |sides| == |path|
    decreases |d|
  {
    var input := LastInput(sha, leaf, sides, path);
    if |d| == 0 then (input, [])
    else if |d| == 1 then (input, [0] + d[0])
    else
      var k := Split(|d|);
      var l, r := Mth(sha, d[..k]), Mth(sha, d[k..]);
      if input != CombineInput(l, r) then (input, CombineInput(l, r))
      else if |sides| == 0 then ([], [])
      else
        var t := |sides| - 1;
        Intrusion(sha, leaf, sides[..t], path[..t], if sides[t] then d[..k] else d[k..])
  }

  /** The data is entry `j`, and the sides and segments are those of its audit path. */
  predicate LeadsToEntry(sha: Digest, leaf: Bytes, sides: seq<bool>, path: seq<Hash>, d: seq<Bytes>, j: nat) {
    j < |d| && leaf == d[j] && sides == Sides(j, |d|) && path == Path(sha, j, d)
  }

  /** Membership: data that folds to the root of `d`, along segments of any number and on any
      sides, is an entry of `d` on its own audit path, or `Intrusion` exhibits a collision. */
  lemma {:induction false} FoldedDataIsEntry(sha: Digest, leaf: Bytes, sides: seq<bool>, path: seq<Hash>, d: seq<Bytes>)
    returns (j: nat)
    requires |sides| == |path|
    requires Fold(sha, HashLeaf(sha, leaf), sides, path) == Mth(sha, d)
    ensures LeadsToEntry(sha, leaf, sides, path, d, j)
         || var (x, y) := Intrusion(sha, leaf, sides, path, d); IsCollision(sha, x, y)
    decreases |d|
  {
    hide IsPow2, Split, LeadsToEntry, Sides, Path, Depth, Mth, Fold, HashLeaf, Combine, CombineInput, LastInput, Intrusion;
    j := 0;
    if |d| <= 1 {
      FoldedDataInSmallest(sha, leaf, sides, path, d);
    } else {
      var input, k := LastInput(sha, leaf, sides, path), Split(|d|);
      var l, r := Mth(sha, d[..k]), Mth(sha, d[k..]);
      MthUnfolds(sha, d);
      IntrusionUnfolds(sha, leaf, sides, path, d);
      if input == CombineInput(l, r) {
        LastInputUnfolds(sha, leaf, sides, path, l, r);
        var t := |sides| - 1;
        var acc := Fold(sha, HashLeaf(sha, leaf), sides[..t], path[..t]);
        assert sides == sides[..t] + [sides[t]] && path == path[..t] + [path[t]];
        if sides[t] {
          CombineInputInjective(acc, path[t], l, r);
          j := FoldedDataIsEntry(sha, leaf, sides[..t], path[..t], d[..k]);
          EntryOfLeft(sha, leaf, sides[..t], path[..t], d, j);
        } else {
          CombineInputInjective(path[t], acc, l, r);
          var inRight := FoldedDataIsEntry(sha, leaf, sides[..t], path[..t], d[k..]);
          EntryOfRight(sha, leaf, sides[..t], path[..t], d, inRight);
          j := k + inRight;
        }
      } else {
        CombineMeaning(sha, l, r);
      }
    }
  }

  lemma FoldedDataInSmallest(sha: Digest, leaf: Bytes, sides: seq<bool>, path: seq<Hash>, d: seq<Bytes>)
    requires |sides| == |path| && |d| <= 1
    requires Fold(sha, HashLeaf(sha, leaf), sides, path) == Mth(sha, d)
    ensures LeadsToEntry(sha, leaf, sides, path, d, 0)
         || var (x, y) := Intrusion(sha, leaf, sides, path, d); IsCollision(sha, x, y)
  {
    hide LeadsToEntry;
    if |d| == 1 && LastInput(sha, leaf, sides, path) == [0] + d[0] {
      OnlyEntry(sha, leaf, sides, path, d);
    }
  }

  lemma CombineMeaning(sha: Digest, l: Bytes, r: Bytes)
    ensures Combine(sha, l, r) == sha(CombineInput(l, r))
  {
  }

  lemma IntrusionUnfolds(sha: Digest, leaf: Bytes, sides: seq<bool>, path: seq<Hash>, d: seq<Bytes>)
    requires |sides| == |path| && |d| > 1
    ensures var input, k := LastInput(sha, leaf, sides, path), Split(|d|);
            var c := CombineInput(Mth(sha, d[..k]), Mth(sha, d[k..]));
            if input != c then Intrusion(sha, leaf, sides, path, d) == (input, c)
            else
              |sides| > 0 ==>
                var t := |sides| - 1;
                Intrusion(sha, leaf, sides, path, d)
                == Intrusion(sha, leaf, sides[..t], path[..t], if sides[t] then d[..k] else d[k..])
  {
    hide IsPow2, Split, Mth, LastInput, CombineInput;
  }

  /** A combination is hashed only where there is a segment to combine with. */
  lemma LastInputUnfolds(sha: Digest, leaf: Bytes, sides: seq<bool>, path: seq<Hash>, l: Hash, r: Hash)
    requires |sides| == |path| && LastInput(sha, leaf, sides, path) == CombineInput(l, r)
    ensures |sides| > 0
    ensures var t := |sides| - 1;
            var acc := Fold(sha, HashLeaf(sha, leaf), sides[..t], path[..t]);
            CombineInput(l, r) == if sides[t] then CombineInput(acc, path[t]) else CombineInput(path[t], acc)
  {
    hide Fold, HashLeaf;
  }

  lemma OnlyEntry(sha: Digest, leaf: Bytes, sides: seq<bool>, path: seq<Hash>, d: seq<Bytes>)
    requires |sides| == |path| && |d| == 1 && LastInput(sha, leaf, sides, path) == [0] + d[0]
    ensures LeadsToEntry(sha, leaf, sides, path, d, 0)
  {
    assert leaf == LastInput(sha, leaf, sides, path)[1..];
    assert d[0] == ([0 as Byte] + d[0])[1..];
  }

  lemma EntryOfLeft(sha: Digest, leaf: Bytes, sides: seq<bool>, path: seq<Hash>, d: seq<Bytes>, j: nat)
    requires |d| > 1
    ensures var k := Split(|d|);
            LeadsToEntry(sha, leaf, sides, path, d[..k], j) ==>
              LeadsToEntry(sha, leaf, sides + [true], path + [Mth(sha, d[k..])], d, j)
  {
    hide IsPow2, Split, Mth;
  }

  lemma EntryOfRight(sha: Digest, leaf: Bytes, sides: seq<bool>, path: seq<Hash>, d: seq<Bytes>, j: nat)
    requires |d| > 1
    ensures var k := Split(|d|);
            LeadsToEntry(sha, leaf, sides, path, d[k..], j) ==>
              LeadsToEntry(sha, leaf, sides + [false], path + [Mth(sha, d[..k])], d, k + j)
  {
    hide IsPow2, Split, Mth;
  }

  /** Data folds to the root along the audit path of an entry that it is, and, but for a
      collision, in no other way. */
  lemma DataFoldsToRootExactly(sha: Digest, leaf: Bytes, sides: seq<bool>, path: seq<Hash>, d: seq<Bytes>)
    requires |sides| == |path|
    ensures (exists j :: LeadsToEntry(sha, leaf, sides, path, d, j)) ==>
              Fold(sha, HashLeaf(sha, leaf), sides, path) == Mth(sha, d)
    ensures Fold(sha, HashLeaf(sha, leaf), sides, path) == Mth(sha, d) ==>
              ((exists j :: LeadsToEntry(sha, leaf, sides, path, d, j))
               || var (x, y) := Intrusion(sha, leaf, sides, path, d); IsCollision(sha, x, y))
  {
    hide Fold, Mth, Intrusion, IsCollision, HashLeaf, Sides, Path;
    if Fold(sha, HashLeaf(sha, leaf), sides, path) == Mth(sha, d) {
      var j := FoldedDataIsEntry(sha, leaf, sides, path, d);
    } else if j :| LeadsToEntry(sha, leaf, sides, path, d, j) {
      PathFoldsToRoot(sha, j, d);
    }
  }

  /** The sides of a path tell the leaf. */
  lemma {:induction false} SidesDiffer(i: nat, j: nat, n: nat)
    requires i < n && j < n && Sides(i, n) == Sides(j, n)
    ensures i == j
    decreases n
  {
    hide IsPow2, Split;
    if n > 1 {
      var k := Split(n);
      var si, sj := Sides(i, n), Sides(j, n);
      assert si[|si| - 1] == (i < k) && sj[|sj| - 1] == (j < k);
      if i < k {
        assert si[..|si| - 1] == Sides(i, k) && sj[..|sj| - 1] == Sides(j, k);
        SidesDiffer(i, j, k);
      } else {
        assert si[..|si| - 1] == Sides(i - k, n - k) && sj[..|sj| - 1] == Sides(j - k, n - k);
        SidesDiffer(i - k, j - k, n - k);
      }
    }
  }

  // ----- any starting hash

  /** The sides and segments lead down from the root of `d` to a subtree whose hash is `h`. */
  predicate LeadsToSubtree(sha: Digest, h: Hash, sides: seq<bool>, path: seq<Hash>, d: seq<Bytes>)
    requires |sides| == |path|
    decreases |d|
  {
    if |sides| == 0 then h == Mth(sha, d)
    else
      var t := |sides| - 1;
      && |d| > 1
      && var k := Split(|d|);
         var (taken, other) := if sides[t] then (d[..k], d[k..]) else (d[k..], d[..k]);
         path[t] == Mth(sha, other) && LeadsToSubtree(sha, h, sides[..t], path[..t], taken)
  }

  /** What computing the Merkle tree hash of `d` hashes last. */
  function MthInput(sha: Digest, d: seq<Bytes>): (x: Bytes)
    ensures sha(x) == Mth(sha, d)
    ensures |d| <= 1 ==> x == [] || x[0] == 0
  {
    if |d| == 0 then []
    else if |d| == 1 then [0] + d[0]
    else CombineInput(Mth(sha, d[..Split(|d|)]), Mth(sha, d[Split(|d|)..]))
  }

  /** The inputs at which a walk from the hash `h` to the root of `d` departs from the tree. */
  function HashIntrusion(sha: Digest, h: Hash, sides: seq<bool>, path: seq<Hash>, d: seq<Bytes>): (Bytes, Bytes)
    requires |sides| == |path|
    decreases |d|
  {
    if |sides| == 0 then ([], [])
    else
      var t := |sides| - 1;
      var acc := Fold(sha, h, sides[..t], path[..t]);
      var input := if sides[t] then CombineInput(acc, path[t]) else CombineInput(path[t], acc);
      if |d| <= 1 || input != MthInput(sha, d) then (input, MthInput(sha, d))
      else HashIntrusion(sha, h, sides[..t], path[..t], if sides[t] then d[..Split(|d|)] else d[Split(|d|)..])
  }

  /** A hash folds to the root along the path from a subtree whose hash it is, and, but for a
      collision, in no other way. */
  lemma {:induction false} HashFoldsToRootExactly(sha: Digest, h: Hash, sides: seq<bool>, path: seq<Hash>, d: seq<Bytes>)
    requires |sides| == |path|
    ensures LeadsToSubtree(sha, h, sides, path, d) ==> Fold(sha, h, sides, path) == Mth(sha, d)
    ensures Fold(sha, h, sides, path) == Mth(sha, d) ==>
              (LeadsToSubtree(sha, h, sides, path, d)
               || var (x, y) := HashIntrusion(sha, h, sides, path, d); IsCollision(sha, x, y))
    decreases |d|
  {
    hide IsPow2, Split;
    if |sides| > 0 && |d| > 1 {
      var t, k := |sides| - 1, Split(|d|);
      var l, r := Mth(sha, d[..k]), Mth(sha, d[k..]);
      var acc := Fold(sha, h, sides[..t], path[..t]);
      if sides[t] {
        HashFoldsToRootExactly(sha, h, sides[..t], path[..t], d[..k]);
        if CombineInput(acc, path[t]) == CombineInput(l, r) { CombineInputInjective(acc, path[t], l, r); }
      } else {
        HashFoldsToRootExactly(sha, h, sides[..t], path[..t], d[k..]);
        if CombineInput(path[t], acc) == CombineInput(l, r) { CombineInputInjective(path[t], acc, l, r); }
      }
    }
  }

  // ----- the length of audit paths

  /** The exponent of the smallest power of two that is at least `n`. */
  function CeilLog2(n: nat): nat {
    if n <= 1 then 0 else 1 + CeilLog2((n + 1) / 2)
  }

  function Pow2(e: nat): nat {
    if e == 0 then 1 else 2 * Pow2(e - 1)
  }

  lemma {:induction false} CeilLog2Meaning(n: nat)
    requires n >= 1
    ensures n <= Pow2(CeilLog2(n)) < 2 * n
    ensures Pow2(CeilLog2(n)) == NextPow2(n)
  {
    if n > 1 { CeilLog2Meaning((n + 1) / 2); }
  }

  lemma {:induction false} CeilLog2Monotone(m: nat, n: nat)
    requires m <= n
    ensures CeilLog2(m) <= CeilLog2(n)
  {
    if m > 1 { CeilLog2Monotone((m + 1) / 2, (n + 1) / 2); }
  }

  lemma CeilLog2Double(n: nat)
    requires n >= 1
    ensures CeilLog2(2 * n) == 1 + CeilLog2(n)
  {
    assert (2 * n + 1) / 2 == n;
  }

  lemma {:induction false} CeilLog2OfSplit(n: nat)
    requires n > 1
    ensures CeilLog2(n) == 1 + CeilLog2(Split(n))
  {
    hide IsPow2;
    if n > 2 {
      var half := (n + 1) / 2;
      CeilLog2OfSplit(half);
      CeilLog2Double(Split(half));
    }
  }

  /** No audit path is longer than the logarithm of the tree size, and all are exactly that
      long in a perfect tree. */
  lemma {:induction false} DepthBound(m: nat, n: nat)
    requires m < n
    ensures Depth(m, n) <= CeilLog2(n)
    ensures IsPow2(n) ==> Depth(m, n) == CeilLog2(n)
    decreases n
  {
    hide IsPow2, Split, NextPow2;
    if n > 1 {
      var k := Split(n);
      CeilLog2OfSplit(n);
      SplitIsPow2(n);
      if IsPow2(n) {
        NextPow2OfPow2(n);
        SplitIsHalf(n);
      }
      if m < k {
        DepthBound(m, k);
      } else {
        DepthBound(m - k, n - k);
        CeilLog2Monotone(n - k, k);
      }
    }
  }
}
