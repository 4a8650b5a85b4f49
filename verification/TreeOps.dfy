/** The loops of `InternalIdx` (`parent`, `right_child`, `sibling`, `is_left`) on 64-bit words, proved
    against the block arithmetic of `TreeMath`. */
module TreeOps {
  import opened Bits
  import opened TreeMath

  /** An aligned block that starts inside `[1, 2^k)` ends at or before `2^k`. */
  lemma {:induction false} BlockBound(x: nat, k: nat)
    requires 0 < Lo(x) < Pow2(k)
    ensures Top(x) <= Pow2(k)
  {
    hide Lo, Top, LeftHand;
    var y := ViewNode(x);
    if IsInner(x) { BlockBound(y, k - 1); }
  }

  /** A block that does not start at leaf 0 is no longer than its start. */
  lemma {:induction false} BlockLength(x: nat)
    requires Lo(x) > 0
    ensures Top(x) - Lo(x) <= Lo(x)
  {
    hide Lo, Top, LeftHand;
    var y := ViewNode(x);
    if IsInner(x) { BlockLength(y); }
  }

  lemma Pow2Next(k: nat)
    ensures Pow2(k + 1) == 2 * Pow2(k)
  {}

  lemma Pow2Byte(k: nat)
    ensures Pow2(k + 8) == 256 * Pow2(k)
  {
    hide Pow2;
    Pow2Next(k); Pow2Next(k + 1); Pow2Next(k + 2); Pow2Next(k + 3);
    Pow2Next(k + 4); Pow2Next(k + 5); Pow2Next(k + 6); Pow2Next(k + 7);
  }

  lemma MaxLeaves()
    ensures Pow2(63) == MAX_LEAVES
  {
    hide Pow2;
    assert Pow2(0) == 1 by { PowZero(); }
    Pow2Byte(0); Pow2Byte(8); Pow2Byte(16); Pow2Byte(24); Pow2Byte(32); Pow2Byte(40); Pow2Byte(48);
    Pow2Next(56); Pow2Next(57); Pow2Next(58); Pow2Next(59); Pow2Next(60); Pow2Next(61); Pow2Next(62);
  }

  lemma PowZero()
    ensures Pow2(0) == 1
  {}

  /** No intermediate node of the climb leaves the 64-bit range. */
  lemma ClimbFits(y: nat, n: nat)
    requires Lo(y) < n <= MAX_LEAVES
    requires Lo(y) > 0 || Top(y) < n
    ensures ParentStep(y) < 0x1_0000_0000_0000_0000
  {
    hide Lo, Top, LeftHand, ParentStep, Pow2;
    ParentStepBlock(y);
    if LeftHand(y) && Lo(y) > 0 {
      SplitAtTop(y);
      MaxLeaves();
      BlockBound(2 * Top(y) - 1, 63);
    }
  }

  /** `parent`: climb by `parent_step` until the node lies in the tree. */
  method ParentIdx(x: u64, n: u64) returns (p: u64)
    requires n <= MAX_LEAVES && InTree(x, n) && x != Root(n)
    ensures p == Parent(x, n)
  {
    hide Lo, Top, LeftHand, ParentStep, Pow2, Root;
    LoInTree(x, n);
    if Lo(x) == 0 { ZeroIsLeftHand(x); if Top(x) >= n { RootIsOnly(x, n); } }
    ClimbFits(x, n);
    ParentStepBlock(x);
    ghost var y: nat := x;
    p := ParentStep(x);
    while p >= NumInternalNodes(n)
      invariant Lo(y) == Lo(x) && p == ParentStep(y)
      invariant y == x || (Top(y) >= n && Top(x) >= n && Lo(x) > 0)
      invariant p == if LeftHand(y) then 2 * Top(y) - 1 else 2 * Lo(y) - 1
      invariant Lo(y) > 0 || Top(y) < n
      decreases Lo(x) - (Top(y) - Lo(y))
    {
      assert LeftHand(y) && Top(y) >= n;
      SplitAtTop(y);
      BlockLength(p);
      ClimbFits(p, n);
      ParentStepBlock(p);
      y := p;
      p := ParentStep(p);
    }
  }

  /** `is_left`. */
  method IsLeft(x: u64, n: u64) returns (left: bool)
    requires n <= MAX_LEAVES && InTree(x, n) && x != Root(n)
    ensures left == IsLeftIn(x, n)
  {
    var p := ParentIdx(x, n);
    ParentOf(x, n);
    left := x < p;
  }

  /** `right_child`: the right half, then left halves until the node lies in the tree. */
  method RightChildIdx(x: u64, n: u64) returns (r: u64)
    requires n <= MAX_LEAVES && InTree(x, n) && IsInner(x)
    ensures r == RightOf(x, n)
  {
    hide Lo, Top, LeftHand, Pow2;
    MidInTree(x, n);
    RightStepBlock(x);
    MaxLeaves();
    BlockBound(RightBlock(x), 63);
    r := RightStep(x);
    while r >= NumInternalNodes(n)
      invariant Lo(r) == Mid(x) < n
      invariant Descend(r, n) == RightOf(x, n)
      decreases r
    {
      OutsideIsInner(r, n);
      LeftChildBlock(r);
      r := LeftChild(r);
    }
  }

  /** `sibling`. */
  method SiblingIdx(x: u64, n: u64) returns (s: u64)
    requires n <= MAX_LEAVES && InTree(x, n) && x != Root(n)
    ensures s == SiblingOf(x, n)
  {
    hide Lo, Top, LeftHand, Root, LeftOf, RightOf, Parent, Descend;
    var p := ParentIdx(x, n);
    ParentOf(x, n);
    if x < p {
      s := RightChildIdx(p, n);
    } else {
      LeftChildBlock(p);
      s := LeftChild(p);
    }
  }
}
