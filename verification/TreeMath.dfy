/** Array-based tree arithmetic of `ct_merkle_vendored.rs` (Appendix C of RFC 9420).

    Node `x` stands for the aligned block of leaves `[Lo(x), Top(x))`; in a tree of `n` leaves
    it covers `[Lo(x), Hi(x, n))`. The functions named after the source (`ParentStep`,
    `LeftChild`, ...) are the bit tricks as written; the lemmas say what they mean for blocks. */
module TreeMath {
  import opened Bits

  const MAX_LEAVES: nat := 0x8000_0000_0000_0000

  // ---------------------------------------------------------------- the source's functions

  function Level(x: nat): nat { TrailingOnes(x) }

  function NumInternalNodes(n: nat): nat {
    if n == 0 then 0 else 2 * (n - 1) + 1
  }

  function RootIdx(n: nat): nat {
    ShlOne(Log2(NumInternalNodes(n)));
    Shl(1, Log2(NumInternalNodes(n))) - 1
  }

  function ParentStep(x: nat): nat {
    var k := Level(x);
    var b := And(Shr(x, k + 1), 1);
    Xor(Or(x, Shl(1, k)), Shl(b, k + 1))
  }

  function LeftChild(x: nat): nat
    requires Level(x) != 0
  {
    Xor(x, Shl(1, Level(x) - 1))
  }

  /** First guess of `right_child`, before the descent along the truncated edge. */
  function RightStep(x: nat): nat
    requires Level(x) != 0
  {
    Xor(x, Shl(3, Level(x) - 1))
  }

  // ---------------------------------------------------------------- blocks

  /** First leaf below node `x`. */
  function Lo(x: nat): nat {
    if x % 2 == 0 then x / 2 else 2 * Lo(x / 2)
  }

  /** One past the last leaf below node `x` in an unbounded tree. */
  function Top(x: nat): (t: nat)
    ensures Lo(x) < t
    ensures x == Lo(x) + t - 1
  {
    if x % 2 == 0 then x / 2 + 1 else 2 * Top(x / 2)
  }

  /** One past the last leaf below node `x` in a tree of `n` leaves. */
  function Hi(x: nat, n: nat): nat { Min(Top(x), n) }

  /** Where the block of an inner node splits into its two halves. */
  function Mid(x: nat): nat { (x + 1) / 2 }

  /** The node above all `n` leaves. */
  function Root(n: nat): nat {
    if n <= 1 then 0 else 2 * Root((n + 1) / 2) + 1
  }

  predicate InTree(x: nat, n: nat) { x < NumInternalNodes(n) }

  /** A node with children. */
  predicate IsInner(x: nat) { x % 2 == 1 }

  /** Whether `x` is the left half of the next larger aligned block. */
  predicate LeftHand(x: nat) {
    if x % 2 == 0 then x / 2 % 2 == 0 else LeftHand(x / 2)
  }

  /** Whether `x` is a left child in the tree of `n` leaves. */
  predicate IsLeftIn(x: nat, n: nat) { LeftHand(x) && Top(x) < n }

  // ---------------------------------------------------------------- halving

  /** Doubling a node: the node above the pairs of leaves below node `y`. */
  lemma OddNode(y: nat)
    ensures IsInner(2 * y + 1)
    ensures Lo(2 * y + 1) == 2 * Lo(y) && Top(2 * y + 1) == 2 * Top(y)
    ensures LeftHand(2 * y + 1) == LeftHand(y)
    ensures Mid(2 * y + 1) == y + 1
  {
    assert (2 * y + 1) / 2 == y;
  }

  lemma LeafNode(q: nat)
    ensures !IsInner(2 * q)
    ensures Lo(2 * q) == q && Top(2 * q) == q + 1
    ensures LeftHand(2 * q) <==> q % 2 == 0
  {}

  /** A node is a leaf `2*q`, a node `2*(2*q)+1` above two leaves, or a higher node. */
  lemma ViewNode(x: nat) returns (y: nat)
    ensures x == 2 * y || x == 2 * y + 1
    ensures IsInner(x) <==> x == 2 * y + 1
    ensures x == 2 * y ==> Lo(x) == y && Top(x) == y + 1 && (LeftHand(x) <==> y % 2 == 0)
    ensures x == 2 * y + 1 ==>
              y < x && Lo(x) == 2 * Lo(y) && Top(x) == 2 * Top(y) && LeftHand(x) == LeftHand(y)
              && Mid(x) == y + 1
  {
    y := x / 2;
    if x % 2 == 0 { LeafNode(y); } else { OddNode(y); }
  }

  lemma HalfTree(x: nat, y: nat, n: nat)
    requires x == 2 * y + 1
    ensures InTree(x, n) ==> InTree(y, (n + 1) / 2)
    ensures Hi(y, (n + 1) / 2) == (Hi(x, n) + 1) / 2
  {
    hide Lo, Top;
    OddNode(y);
  }

  // ---------------------------------------------------------------- elementary facts

  lemma ShlOne(k: nat)
    ensures Shl(1, k) >= 1
    ensures Shl(1, k) == Pow2(k)
  {}

  lemma LoInTree(x: nat, n: nat)
    requires InTree(x, n)
    ensures Lo(x) < n
    ensures Lo(x) < Hi(x, n) <= n
  {
    hide Lo, Top;
    assert 2 * Lo(x) <= Lo(x) + Top(x) - 1 == x;
  }

  /** An inner node is in the tree exactly when its right half is not empty. */
  lemma MidInTree(x: nat, n: nat)
    requires IsInner(x)
    ensures InTree(x, n) <==> Mid(x) < n
    ensures x == 2 * Mid(x) - 1
    ensures Lo(x) < Mid(x) < Top(x)
    ensures Mid(x) - Lo(x) == Top(x) - Mid(x)
  {
    hide Lo, Top;
    var y := ViewNode(x);
  }

  /** The root covers the whole tree. */
  lemma {:induction false} RootCovers(n: nat)
    requires n > 0
    ensures InTree(Root(n), n)
    ensures Lo(Root(n)) == 0 && Top(Root(n)) >= n
  {
    hide Lo, Top;
    if n >= 2 {
      RootCovers((n + 1) / 2);
      OddNode(Root((n + 1) / 2));
    } else {
      LeafNode(0);
    }
  }

  lemma Log2Steps(n: nat)
    requires n >= 2
    ensures Log2(2 * n - 1) == 1 + Log2(n - 1)
    ensures n % 2 == 1 ==> Log2(n) == Log2(n - 1)
  {
    assert (2 * n - 1) / 2 == n - 1;
    if n % 2 == 1 { assert n / 2 == (n - 1) / 2; }
  }

  /** `root_idx` computes the node that covers the whole tree. */
  lemma {:induction false} RootIdxIsRoot(n: nat)
    ensures RootIdx(n) == Root(n)
  {
    hide Log2;
    if n >= 2 {
      var m := (n + 1) / 2;
      RootIdxIsRoot(m);
      assert RootIdx(m) == Shl(1, Log2(2 * m - 1)) - 1;
      Log2Steps(n);
      assert Log2(2 * m - 1) == Log2(n - 1) by {
        if n % 2 == 0 { assert 2 * m - 1 == n - 1; } else { assert 2 * m - 1 == n; }
      }
      ShlOne(Log2(n - 1));
    } else {
      assert Log2(0) == 0 && Log2(1) == 0 by { Log2Small(); }
    }
  }

  lemma Log2Small()
    ensures Log2(0) == 0 && Log2(1) == 0
  {
  }

  /** Two nodes of one tree that cover the same leaves are the same node. */
  lemma {:induction false} NodeUnique(x: nat, y: nat, n: nat)
    requires InTree(x, n) && InTree(y, n)
    requires Lo(x) == Lo(y) && Hi(x, n) == Hi(y, n)
    ensures x == y
  {
    hide Lo, Top;
    var u := ViewNode(x);
    var v := ViewNode(y);
    if IsInner(x) { MidInTree(x, n); }
    if IsInner(y) { MidInTree(y, n); }
    if IsInner(x) && IsInner(y) {
      HalfTree(x, u, n);
      HalfTree(y, v, n);
      NodeUnique(u, v, (n + 1) / 2);
    }
  }

  lemma RootIsOnly(x: nat, n: nat)
    requires InTree(x, n) && Lo(x) == 0 && Top(x) >= n
    ensures x == Root(n)
  {
    hide Lo, Top, Root;
    RootCovers(n);
    NodeUnique(x, Root(n), n);
  }

  lemma {:induction false} ZeroIsLeftHand(x: nat)
    requires Lo(x) == 0
    ensures LeftHand(x)
  {
    hide Lo, Top, LeftHand;
    var y := ViewNode(x);
    if IsInner(x) { ZeroIsLeftHand(y); }
  }

  // ---------------------------------------------------------------- the two halves

  lemma {:induction false} LeftHalf(x: nat)
    requires IsInner(x)
    ensures var l := Lo(x) + Mid(x) - 1;
            l < x && Lo(l) == Lo(x) && Top(l) == Mid(x) && LeftHand(l)
  {
    hide Lo, Top, LeftHand, Mid;
    var y := ViewNode(x);
    var z := ViewNode(y);
    if IsInner(y) {
      LeftHalf(y);
      OddNode(Lo(y) + Mid(y) - 1);
    } else {
      LeafNode(y);
    }
  }

  lemma {:induction false} RightHalf(x: nat)
    requires IsInner(x)
    ensures var r := Mid(x) + Top(x) - 1;
            Lo(r) == Mid(x) && Top(r) == Top(x) && !LeftHand(r)
  {
    hide Lo, Top, LeftHand, Mid;
    var y := ViewNode(x);
    var z := ViewNode(y);
    if IsInner(y) {
      RightHalf(y);
      OddNode(Mid(y) + Top(y) - 1);
    } else {
      LeafNode(y + 1);
    }
  }

  /** The node of the left half of the block of `x`. */
  function LeftOf(x: nat): (l: nat)
    requires IsInner(x)
    ensures Lo(l) == Lo(x) && Top(l) == Mid(x) && LeftHand(l)
    ensures l < x
  {
    hide Lo, Top, LeftHand;
    LeftHalf(x);
    Lo(x) + Mid(x) - 1
  }

  /** The node of the right half of the block of `x`. */
  function RightBlock(x: nat): (r: nat)
    requires IsInner(x)
    ensures Lo(r) == Mid(x) && Top(r) == Top(x) && !LeftHand(r)
  {
    hide Lo, Top, LeftHand;
    RightHalf(x);
    Mid(x) + Top(x) - 1
  }

  // ---------------------------------------------------------------- the bit tricks

  /** `parent_step` moves to the block twice the size, which splits where `x` ends or starts. */
  lemma {:induction false} ParentStepBlock(x: nat)
    ensures LeftHand(x) ==> ParentStep(x) == 2 * Top(x) - 1
    ensures !LeftHand(x) ==> ParentStep(x) == 2 * Lo(x) - 1
  {
    hide Lo, Top, LeftHand;
    var y := ViewNode(x);
    if IsInner(x) {
      ParentStepBlock(y);
      ParentStepHalves(y);
    } else {
      ParentStepLeaf(y);
    }
  }

  lemma ParentStepHalves(y: nat)
    ensures ParentStep(2 * y + 1) == 2 * ParentStep(y) + 1
  {
    var k := Level(y);
    assert (2 * y + 1) / 2 == y;
    assert Shr(2 * y + 1, k + 2) == Shr(y, k + 1);
    var b := And(Shr(y, k + 1), 1);
    ShlOne(k);
    OrHalves(y, Shl(1, k));
    XorHalves(Or(y, Shl(1, k)), Shl(b, k + 1));
  }

  lemma ParentStepLeaf(q: nat)
    ensures ParentStep(2 * q) == 4 * (q / 2) + 1
  {
    assert Shr(2 * q, 1) == q;
    assert And(q, 1) == q % 2 by { if q > 0 { assert And(q / 2, 0) == 0; } }
    assert Or(2 * q, 1) == 2 * q + 1 by { if q > 0 { assert Or(q, 0) == q; } }
    assert Shl(q % 2, 1) == 2 * (q % 2);
    XorHalves(q, q % 2);
    if q % 2 == 1 { assert Xor(q, 1) == 2 * Xor(q / 2, 0); }
  }

  lemma OrHalves(y: nat, s: nat)
    ensures Or(2 * y + 1, 2 * s) == 2 * Or(y, s) + 1
  {
    assert (2 * y + 1) / 2 == y && 2 * s / 2 == s;
  }

  lemma XorHalves(y: nat, s: nat)
    ensures Xor(2 * y + 1, 2 * s) == 2 * Xor(y, s) + 1
  {
    assert (2 * y + 1) / 2 == y && 2 * s / 2 == s;
  }

  lemma LevelOne(y: nat)
    requires y % 2 == 0
    ensures Level(2 * y + 1) == 1 && Shl(1, 0) == 1 && Shl(3, 0) == 3
  {
    assert (2 * y + 1) / 2 == y;
    assert TrailingOnes(y) == 0;
  }

  lemma XorThree(y: nat)
    requires y % 2 == 0
    ensures Xor(2 * y + 1, 1) == 2 * y
    ensures Xor(2 * y + 1, 3) == 2 * y + 2
  {
    assert (2 * y + 1) / 2 == y;
    assert Xor(y, 1) == y + 1 by {
      if y > 0 { assert Xor(y, 1) == 2 * Xor(y / 2, 0) + 1; }
    }
    assert Xor(2 * y + 1, 3) == 2 * Xor(y, 1);
    assert Xor(2 * y + 1, 1) == 2 * Xor(y, 0);
  }

  /** `left_child` is the left half. */
  lemma {:induction false} LeftChildBlock(x: nat)
    requires IsInner(x)
    ensures Level(x) != 0 && LeftChild(x) == LeftOf(x)
  {
    hide Lo, Top, LeftHand, Mid, Xor;
    var y := ViewNode(x);
    var z := ViewNode(y);
    if IsInner(y) {
      LeftChildBlock(y);
      XorHalves(y, Shl(1, Level(y) - 1));
    } else {
      LevelOne(y);
      XorThree(y);
    }
  }

  /** The first guess of `right_child` is the right half. */
  lemma {:induction false} RightStepBlock(x: nat)
    requires IsInner(x)
    ensures Level(x) != 0 && RightStep(x) == RightBlock(x)
  {
    hide Lo, Top, LeftHand, Mid, Xor;
    var y := ViewNode(x);
    var z := ViewNode(y);
    if IsInner(y) {
      RightStepBlock(y);
      XorHalves(y, Shl(3, Level(y) - 1));
    } else {
      LevelOne(y);
      XorThree(y);
    }
  }

  // ---------------------------------------------------------------- parents and children

  /** The block that splits where the left half `x` ends starts where `x` starts. */
  lemma {:induction false} SplitAtTop(x: nat)
    requires LeftHand(x)
    ensures Lo(2 * Top(x) - 1) == Lo(x)
  {
    hide Lo, Top, LeftHand, Mid;
    var y := ViewNode(x);
    if IsInner(x) {
      SplitAtTop(y);
      OddNode(2 * Top(y) - 1);
    } else {
      OddNode(y);
      LeafNode(y / 2);
    }
  }

  /** The block that splits where `x` starts reaches at least as far as `x`. */
  lemma {:induction false} SplitAtLo(x: nat)
    requires Lo(x) > 0
    ensures Top(x) <= Top(2 * Lo(x) - 1)
    ensures !LeftHand(x) ==> Top(x) == Top(2 * Lo(x) - 1)
  {
    hide Lo, Top, LeftHand, Mid;
    var y := ViewNode(x);
    if IsInner(x) {
      SplitAtLo(y);
      OddNode(2 * Lo(y) - 1);
    } else {
      OddNode(y - 1);
      if y % 2 == 1 { LeafNode(y / 2); }
    }
  }

  lemma RightStartsLater(x: nat, n: nat)
    requires InTree(x, n) && x != Root(n) && !IsLeftIn(x, n)
    ensures Lo(x) > 0
  {
    hide Lo, Top, LeftHand, Root;
    if Lo(x) == 0 { ZeroIsLeftHand(x); RootIsOnly(x, n); }
  }

  /** The parent of `x` in a tree of `n` leaves: the node that splits where `x` ends or starts. */
  function Parent(x: nat, n: nat): (p: nat)
    requires InTree(x, n) && x != Root(n)
    ensures InTree(p, n) && IsInner(p)
    ensures Mid(p) == if IsLeftIn(x, n) then Top(x) else Lo(x)
  {
    hide Lo, Top, LeftHand, Root;
    LoInTree(x, n);
    if IsLeftIn(x, n) then 2 * Top(x) - 1 else
      RightStartsLater(x, n);
      2 * Lo(x) - 1
  }

  /** Follow left halves until the node lies in the tree of `n` leaves. */
  function Descend(r: nat, n: nat): (d: nat)
    requires Lo(r) < n
    ensures InTree(d, n) && Lo(d) == Lo(r) && Hi(d, n) == Hi(r, n)
    ensures d == r || Top(d) >= n
    decreases r
  {
    hide Lo, Top, LeftHand;
    if InTree(r, n) then r else
      OutsideIsInner(r, n);
      MidInTree(r, n);
      Descend(LeftOf(r), n)
  }

  lemma OutsideIsInner(r: nat, n: nat)
    requires Lo(r) < n && !InTree(r, n)
    ensures IsInner(r)
  {
    hide Lo, Top, LeftHand;
    var y := ViewNode(r);
  }

  /** The right child of `x` in a tree of `n` leaves. */
  function RightOf(x: nat, n: nat): (r: nat)
    requires IsInner(x) && InTree(x, n)
    ensures InTree(r, n) && Lo(r) == Mid(x) && Hi(r, n) == Hi(x, n)
    ensures !IsLeftIn(r, n)
  {
    hide Lo, Top, LeftHand, Descend;
    MidInTree(x, n);
    Descend(RightBlock(x), n)
  }

  function SiblingOf(x: nat, n: nat): nat
    requires InTree(x, n) && x != Root(n)
  {
    var p := Parent(x, n);
    if IsLeftIn(x, n) then RightOf(p, n) else LeftOf(p)
  }

  /** Both children of an inner node have it as their parent. */
  lemma ChildrenOf(x: nat, n: nat)
    requires IsInner(x) && InTree(x, n)
    ensures InTree(LeftOf(x), n) && LeftOf(x) != Root(n) && IsLeftIn(LeftOf(x), n)
    ensures Parent(LeftOf(x), n) == x && SiblingOf(LeftOf(x), n) == RightOf(x, n)
    ensures RightOf(x, n) != Root(n)
    ensures Parent(RightOf(x, n), n) == x && SiblingOf(RightOf(x, n), n) == LeftOf(x)
    ensures Hi(LeftOf(x), n) == Mid(x)
  {
    hide Lo, Top, LeftHand, Root, LeftOf, RightOf;
    MidInTree(x, n);
    RootCovers(n);
  }

  lemma ParentOnLeft(x: nat, n: nat)
    requires InTree(x, n) && x != Root(n) && IsLeftIn(x, n)
    ensures var p := Parent(x, n);
            x == LeftOf(p) && x < p && Lo(p) == Lo(x) && Hi(x, n) == Mid(p) < Hi(p, n)
  {
    hide Lo, Top, LeftHand, Root;
    SplitAtTop(x);
    MidInTree(Parent(x, n), n);
  }

  lemma ParentOnRight(x: nat, n: nat)
    requires InTree(x, n) && x != Root(n) && !IsLeftIn(x, n)
    ensures var p := Parent(x, n);
            x == RightOf(p, n) && p < x && Lo(p) < Lo(x) == Mid(p) && Hi(p, n) == Hi(x, n)
  {
    hide Lo, Top, LeftHand, Root, RightOf;
    var p := Parent(x, n);
    RightStartsLater(x, n);
    SplitAtLo(x);
    MidInTree(p, n);
    assert Hi(p, n) == Hi(x, n);
    NodeUnique(x, RightOf(p, n), n);
  }

  /** Every node but the root is a child of its parent, on the side its position says. */
  lemma ParentOf(x: nat, n: nat)
    requires InTree(x, n) && x != Root(n)
    ensures var p := Parent(x, n);
            if IsLeftIn(x, n) then x == LeftOf(p) && x < p && Lo(p) == Lo(x) && Hi(x, n) == Mid(p)
            else x == RightOf(p, n) && p < x && Lo(p) < Lo(x) && Hi(p, n) == Hi(x, n)
    ensures Hi(x, n) - Lo(x) < Hi(Parent(x, n), n) - Lo(Parent(x, n))
  {
    hide Lo, Top, LeftHand, Root, LeftOf, RightOf, Parent;
    if IsLeftIn(x, n) { ParentOnLeft(x, n); } else { ParentOnRight(x, n); }
  }

  /** `sibling` is an involution, and siblings share their parent. */
  lemma SiblingInvolution(x: nat, n: nat)
    requires InTree(x, n) && x != Root(n)
    ensures var s := SiblingOf(x, n);
            InTree(s, n) && s != Root(n) && s != x
            && Parent(s, n) == Parent(x, n) && SiblingOf(s, n) == x
            && IsLeftIn(s, n) != IsLeftIn(x, n)
  {
    hide Lo, Top, LeftHand, Root, LeftOf, RightOf, Parent;
    ParentOf(x, n);
    ChildrenOf(Parent(x, n), n);
  }
}
