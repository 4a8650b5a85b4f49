/** `compute_subtree_root` and `largest_power_of_two_less_than` of `consistency.rs`. */
module Subtree {
  import opened Bits
  import opened TreeMath
  import opened TreeOps
  import opened Rfc6962

  /** `[lo, hi)` is the range of a node on the right edge of the tree of `hi` leaves. */
  predicate Aligned(lo: nat, hi: nat)
    decreases hi
  {
    lo < hi && (hi - lo == 1 || (lo % 2 == 0 && Aligned(lo / 2, (hi + 1) / 2)))
  }

  /** The node that covers the aligned range `[lo, hi)`. */
  function SubtreeNode(lo: nat, hi: nat): nat
    requires lo < hi
    decreases hi
  {
    if hi - lo == 1 then 2 * lo else 2 * SubtreeNode(lo / 2, (hi + 1) / 2) + 1
  }

  /** One level down: both are decided by the range of half the size. */
  lemma AlignedHalves(lo: nat, hi: nat)
    requires lo < hi && lo % 2 == 0 && hi - lo >= 2
    ensures lo / 2 < (hi + 1) / 2 && Aligned(lo, hi) == Aligned(lo / 2, (hi + 1) / 2)
    ensures SubtreeNode(lo, hi) == 2 * SubtreeNode(lo / 2, (hi + 1) / 2) + 1
  {}

  lemma AlignedLeaf(lo: nat)
    ensures Aligned(lo, lo + 1) && SubtreeNode(lo, lo + 1) == 2 * lo
  {}

  /** The node of an aligned range covers exactly that range of the tree ending there. */
  lemma {:induction false} SubtreeNodeCovers(lo: nat, hi: nat)
    requires Aligned(lo, hi)
    ensures var x := SubtreeNode(lo, hi); InTree(x, hi) && Lo(x) == lo && Hi(x, hi) == hi
    decreases hi
  {
    hide Lo, Top, LeftHand;
    if hi - lo == 1 {
      LeafNode(lo);
    } else {
      var half := (hi + 1) / 2;
      var y := SubtreeNode(lo / 2, half);
      SubtreeNodeCovers(lo / 2, half);
      OddNode(y);
      if IsInner(y) { MidInTree(y, half); } else { var q := ViewNode(y); }
    }
  }

  /** Every node of every tree is the node of the aligned range it covers. */
  lemma {:induction false} NodeIsAligned(x: nat, n: nat)
    requires InTree(x, n)
    ensures Lo(x) < Hi(x, n)
    ensures Aligned(Lo(x), Hi(x, n)) && SubtreeNode(Lo(x), Hi(x, n)) == x
    decreases x
  {
    hide Lo, Top, LeftHand, Aligned, SubtreeNode;
    LoInTree(x, n);
    var y := ViewNode(x);
    if IsInner(x) {
      MidInTree(x, n);
      HalfTree(x, y, n);
      NodeIsAligned(y, (n + 1) / 2);
      AlignedHalves(Lo(x), Hi(x, n));
    } else {
      AlignedLeaf(y);
    }
  }

  /** `largest_power_of_two_less_than`. */
  method LargestPowerOfTwoLessThan(n: u64) returns (power: u64)
    requires 2 <= n <= MAX_LEAVES
    ensures power == SplitPoint(n)
  {
    power := 1;
    while power * 2 < n
      invariant IsPow2(power) && power < n
    {
      assert IsPow2(2 * power) by { assert 2 * power / 2 == power; }
      power := power * 2;
    }
    Pow2Unique(power, SplitPoint(n), n);
  }

  /** The two halves of an aligned range are aligned, and their nodes are siblings below its node. */
  lemma SubtreeHalves(lo: nat, hi: nat)
    requires Aligned(lo, hi) && hi - lo >= 2
    ensures var mid := lo + SplitPoint(hi - lo);
            Aligned(lo, mid) && Aligned(mid, hi)
            && var l := SubtreeNode(lo, mid);
               InTree(l, hi) && l != Root(hi) && IsLeftIn(l, hi)
               && SiblingOf(l, hi) == SubtreeNode(mid, hi) && Parent(l, hi) == SubtreeNode(lo, hi)
  {
    hide Lo, Top, LeftHand, LeftOf, RightOf, Parent, Root, SiblingOf, Aligned, SubtreeNode, SplitPoint;
    SubtreeNodeCovers(lo, hi);
    var x := SubtreeNode(lo, hi);
    if !IsInner(x) { var q := ViewNode(x); }
    NodeSplits(x, hi);
    ChildrenOf(x, hi);
    NodeIsAligned(LeftOf(x), hi);
    NodeIsAligned(RightOf(x, hi), hi);
  }

  /** `compute_subtree_root`: the node covering `[start, end)`; the asserted sibling relation
      of its two halves always holds. */
  method ComputeSubtreeRoot(start: u64, end: u64) returns (r: u64)
    requires Aligned(start, end) && end <= MAX_LEAVES
    ensures r == SubtreeNode(start, end)
    ensures InTree(r, end) && Lo(r) == start && Hi(r, end) == end
    decreases end - start
  {
    hide Lo, Top, LeftHand, Parent, Root, SiblingOf, Aligned, SubtreeNode, SplitPoint, IsPow2;
    SubtreeNodeCovers(start, end);
    var size := end - start;
    if size == 1 {
      AlignedLeaf(start);
      return 2 * start;
    }
    SubtreeHalves(start, end);
    var k := LargestPowerOfTwoLessThan(size);
    var left := ComputeSubtreeRoot(start, start + k);
    var right := ComputeSubtreeRoot(start + k, end);
    var sibling := SiblingIdx(left, end);
    assert sibling == right;
    r := ParentIdx(left, end);
  }
}
