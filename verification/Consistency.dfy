/** Consistency proofs: generated by the recursive SUBPROOF of `consistency.rs`, verified by the
    two-tree walk of `ConsistencyProof::verify`. */
module Consistency {
  import opened Bits
  import opened TreeMath
  import opened TreeOps
  import opened Rfc6962
  import opened Subtree
  import opened Inclusion

  // ---------------------------------------------------------------- generation

  /** The nodes SUBPROOF names below node `x`, for the first `m` leaves of the tree. */
  function SubproofNodes(m: nat, x: nat, n: nat, b: bool): (nodes: seq<nat>)
    requires InTree(x, n) && Lo(x) < m <= Hi(x, n)
    ensures forall s <- nodes :: InTree(s, n)
    decreases Hi(x, n) - Lo(x)
  {
    hide Lo, Top, LeftHand, LeftOf, RightOf;
    if m == Hi(x, n) then (if b then [] else [x])
    else
      SplitsBelow(m, x, n);
      MidInTree(x, n);
      ChildrenOf(x, n);
      if m <= Mid(x) then SubproofNodes(m, LeftOf(x), n, b) + [RightOf(x, n)]
      else SubproofNodes(m, RightOf(x, n), n, false) + [LeftOf(x)]
  }

  lemma SubproofStep(m: nat, x: nat, n: nat, b: bool)
    requires InTree(x, n) && Lo(x) < m <= Hi(x, n)
    ensures m == Hi(x, n) ==> SubproofNodes(m, x, n, b) == if b then [] else [x]
    ensures m < Hi(x, n) ==>
              IsInner(x) && InTree(LeftOf(x), n) && Hi(LeftOf(x), n) == Mid(x)
              && SubproofNodes(m, x, n, b)
                 == if m <= Mid(x) then SubproofNodes(m, LeftOf(x), n, b) + [RightOf(x, n)]
                    else SubproofNodes(m, RightOf(x, n), n, false) + [LeftOf(x)]
  {
    hide Lo, Top, LeftHand, LeftOf, RightOf;
    if m < Hi(x, n) {
      SplitsBelow(m, x, n);
      MidInTree(x, n);
      ChildrenOf(x, n);
    }
  }

  lemma SplitsBelow(m: nat, x: nat, n: nat)
    requires Lo(x) < m < Hi(x, n)
    ensures IsInner(x)
  {
    hide Lo, Top, LeftHand;
    var y := ViewNode(x);
  }

  /** The nodes of the consistency proof from `m` to `n` leaves. */
  function ConsistencyNodes(m: nat, n: nat): (nodes: seq<nat>)
    requires 0 < m <= n
    ensures forall s <- nodes :: InTree(s, n)
  {
    hide Lo, Top, Root, SubproofNodes;
    RootCovers(n);
    SubproofNodes(m, Root(n), n, true)
  }

  /** The two halves of a node as the aligned ranges `compute_subtree_root` works on. */
  lemma HalvesOf(x: nat, n: nat)
    requires IsInner(x) && InTree(x, n)
    ensures Lo(x) < Mid(x) < Hi(x, n) && Mid(x) == Lo(x) + SplitPoint(Hi(x, n) - Lo(x))
    ensures InTree(LeftOf(x), n) && Hi(LeftOf(x), n) == Mid(x)
    ensures Aligned(Lo(x), Mid(x)) && SubtreeNode(Lo(x), Mid(x)) == LeftOf(x)
    ensures Aligned(Mid(x), Hi(x, n)) && SubtreeNode(Mid(x), Hi(x, n)) == RightOf(x, n)
  {
    hide Lo, Top, LeftHand, LeftOf, RightOf, Aligned, SubtreeNode, SplitPoint;
    MidInTree(x, n);
    NodeSplits(x, n);
    ChildrenOf(x, n);
    NodeIsAligned(LeftOf(x), n);
    NodeIsAligned(RightOf(x, n), n);
  }

  /** `subproof_with_offset`; node `x` of the tree of `N` leaves is the slice it works on. */
  method SubproofWithOffset(m: u64, n: u64, b: bool, offset: u64, ghost x: nat, ghost N: nat)
    returns (out: seq<nat>)
    requires 0 < m <= n && offset + n <= MAX_LEAVES
    requires InTree(x, N) && Lo(x) == offset && Hi(x, N) == offset + n
    ensures out == SubproofNodes(offset + m, x, N, b)
    decreases n
  {
    hide Lo, Top, LeftHand, LeftOf, RightOf, Aligned, SubtreeNode, SplitPoint, IsPow2, SubproofNodes;
    NodeIsAligned(x, N);
    SubproofStep(offset + m, x, N, b);
    if m == n {
      if b {
        return [];
      } else {
        var r := ComputeSubtreeRoot(offset, offset + m);
        return [r];
      }
    }
    SplitsBelow(offset + m, x, N);
    HalvesOf(x, N);
    var k := LargestPowerOfTwoLessThan(n);
    if m <= k {
      out := SubproofWithOffset(m, k, b, offset, LeftOf(x), N);
      var r := ComputeSubtreeRoot(offset + k, offset + n);
      out := out + [r];
    } else {
      out := SubproofWithOffset(m - k, n - k, false, offset + k, RightOf(x, N), N);
      var r := ComputeSubtreeRoot(offset, offset + k);
      out := out + [r];
    }
  }

  /** `indices_for_consistency_proof`. */
  method IndicesForConsistencyProof(m: u64, additions: u64) returns (out: seq<nat>)
    requires 0 < m && m + additions <= MAX_LEAVES
    ensures out == ConsistencyNodes(m, m + additions)
  {
    hide Lo, Top, Root;
    var n := m + additions;
    RootCovers(n);
    if m == n {
      return [];
    }
    out := SubproofWithOffset(m, n, true, 0, Root(n), n);
  }

  lemma SubproofUnfold(h: HashFn, m: nat, S: seq<Bytes>, b: bool)
    requires 0 < m < |S|
    ensures var k := SplitPoint(|S|);
            SUBPROOF(h, m, S, b) == if m <= k then SUBPROOF(h, m, S[..k], b) + [MTH(h, S[k..])]
                                    else SUBPROOF(h, m - k, S[k..], false) + [MTH(h, S[..k])]
  {
    hide MTH;
  }

  /** SUBPROOF on a range of leaves, split at `mid`. */
  lemma SubproofSplits(h: HashFn, D: seq<Bytes>, m: nat, lo: nat, mid: nat, hi: nat, b: bool)
    requires lo < mid < hi <= |D| && lo < m < hi && mid - lo == SplitPoint(hi - lo)
    ensures SUBPROOF(h, m - lo, D[lo..hi], b) ==
            if m <= mid then SUBPROOF(h, m - lo, D[lo..mid], b) + [MTH(h, D[mid..hi])]
            else SUBPROOF(h, m - mid, D[mid..hi], false) + [MTH(h, D[lo..mid])]
  {
    hide MTH, SUBPROOF, SplitPoint, IsPow2;
    var S := D[lo..hi];
    SubproofUnfold(h, m - lo, S, b);
    assert S[..mid - lo] == D[lo..mid] && S[mid - lo..] == D[mid..hi];
  }

  lemma SubproofOfAll(h: HashFn, S: seq<Bytes>, b: bool)
    requires |S| > 0
    ensures SUBPROOF(h, |S|, S, b) == if b then [] else [MTH(h, S)]
  {}

  /** The nodes SUBPROOF names carry the digests of section 2.1.2 of RFC 6962. */
  lemma {:induction false} SubproofHashes(h: HashFn, D: seq<Bytes>, m: nat, x: nat, n: nat, b: bool)
    requires n <= |D| && InTree(x, n) && Lo(x) < m <= Hi(x, n)
    ensures NodeHashes(h, D, SubproofNodes(m, x, n, b), n)
         == SUBPROOF(h, m - Lo(x), D[Lo(x)..Hi(x, n)], b)
    decreases Hi(x, n) - Lo(x)
  {
    hide Lo, Top, LeftHand, LeftOf, RightOf, MTH, NodeHashes, SUBPROOF, SplitPoint, IsPow2;
    if m == Hi(x, n) {
      SubproofOfAll(h, D[Lo(x)..Hi(x, n)], b);
    } else {
      SplitsBelow(m, x, n);
      MidInTree(x, n);
      ChildrenOf(x, n);
      NodeSplits(x, n);
      SubproofSplits(h, D, m, Lo(x), Mid(x), Hi(x, n), b);
      if m <= Mid(x) {
        SubproofHashes(h, D, m, LeftOf(x), n, b);
        NodeHashesSnoc(h, D, SubproofNodes(m, LeftOf(x), n, b), RightOf(x, n), n);
      } else {
        SubproofHashes(h, D, m, RightOf(x, n), n, false);
        NodeHashesSnoc(h, D, SubproofNodes(m, RightOf(x, n), n, false), LeftOf(x), n);
      }
    }
  }

  /** The generated proof is PROOF(m, D[n]). */
  lemma ConsistencyPath(h: HashFn, D: seq<Bytes>, m: nat, n: nat)
    requires 0 < m <= n <= |D|
    ensures NodeHashes(h, D, ConsistencyNodes(m, n), n) == PROOF(h, m, D[..n])
  {
    hide Lo, Top, Root, NodeHashes, SUBPROOF, SubproofNodes;
    RootCovers(n);
    SubproofHashes(h, D, m, Root(n), n, true);
    assert D[0..n] == D[..n];
  }

  // ---------------------------------------------------------------- where the walk starts

  /** The largest aligned block that ends at `m`. */
  function StartNode(m: nat): nat
    requires m > 0
  {
    if m % 2 == 1 then 2 * (m - 1) else 2 * StartNode(m / 2) + 1
  }

  lemma {:induction false} StartNodeBlock(m: nat)
    requires m > 0
    ensures Top(StartNode(m)) == m && LeftHand(StartNode(m))
    ensures Lo(StartNode(m)) == 0 <==> IsPow2(m)
  {
    hide Lo, Top, LeftHand;
    if m % 2 == 1 {
      LeafNode(m - 1);
    } else {
      StartNodeBlock(m / 2);
      OddNode(StartNode(m / 2));
    }
  }

  lemma {:induction false} StartNodeUnique(x: nat)
    requires LeftHand(x)
    ensures x == StartNode(Top(x))
  {
    hide Lo, Top, LeftHand;
    var y := ViewNode(x);
    if IsInner(x) {
      StartNodeUnique(y);
      assert 2 * Top(y) / 2 == Top(y);
    }
  }

  /** A block that ends inside the tree is a node of it. */
  lemma BlockInTree(x: nat, n: nat)
    requires Top(x) <= n
    ensures InTree(x, n) && Hi(x, n) == Top(x)
  {
    hide Lo, Top;
  }

  /** SUBPROOF names exactly what the verifier walks: the start node, left out when `m` is a
      power of two, and then the siblings from it to the root. */
  lemma {:induction false} SubproofIsWalk(m: nat, x: nat, n: nat)
    requires m < n && InTree(x, n) && Lo(x) < m <= Hi(x, n)
    requires m < Hi(x, n) || LeftHand(x)
    ensures InTree(StartNode(m), n)
    ensures SubproofNodes(m, x, n, Lo(x) == 0) + PathUp(x, n)
         == (if IsPow2(m) then [] else [StartNode(m)]) + PathUp(StartNode(m), n)
    decreases Hi(x, n) - Lo(x)
  {
    hide Lo, Top, LeftHand, LeftOf, RightOf, StartNode, IsPow2, PathUp;
    StartNodeBlock(m);
    BlockInTree(StartNode(m), n);
    if m == Hi(x, n) {
      StartNodeUnique(x);
    } else {
      SplitsBelow(m, x, n);
      MidInTree(x, n);
      ChildrenOf(x, n);
      PathOfChildren(x, n);
      if m <= Mid(x) { SubproofIsWalk(m, LeftOf(x), n); } else { SubproofIsWalk(m, RightOf(x, n), n); }
    }
  }

  lemma ConsistencyIsWalk(m: nat, n: nat)
    requires 0 < m < n
    ensures InTree(StartNode(m), n)
    ensures ConsistencyNodes(m, n)
         == (if IsPow2(m) then [] else [StartNode(m)]) + PathUp(StartNode(m), n)
  {
    hide Lo, Top, LeftHand, Root, StartNode, IsPow2, SubproofNodes;
    RootCovers(n);
    SubproofIsWalk(m, Root(n), n);
    assert PathUp(Root(n), n) == [];
  }

  /** `first_node_with_diverging_parents`. */
  method FirstNodeWithDivergingParents(n: u64, m: u64) returns (idx: u64)
    requires 0 < m < n <= MAX_LEAVES && !IsPow2(m)
    ensures idx == StartNode(m)
  {
    hide Lo, Top, LeftHand, Root, StartNode, IsPow2, Parent;
    idx := 2 * (m - 1);
    LeafNode(m - 1);
    BlockInTree(idx, n);
    BlockInTree(idx, m);
    Diverges(idx, m, n);
    var inNew := ParentIdx(idx, n);
    var inOld := ParentIdx(idx, m);
    while inNew == inOld
      invariant Top(idx) == m && InTree(idx, n) && InTree(idx, m) && idx != Root(n) && idx != Root(m)
      invariant inNew == Parent(idx, n) && inOld == Parent(idx, m)
      invariant inNew == inOld <==> !LeftHand(idx)
      invariant !LeftHand(idx) ==> Top(inNew) == m && Lo(inNew) < Lo(idx)
      decreases Lo(idx)
    {
      idx := inNew;
      BlockInTree(idx, m);
      Diverges(idx, m, n);
      inNew := ParentIdx(idx, n);
      inOld := ParentIdx(idx, m);
    }
    StartNodeUnique(idx);
  }

  /** Climbing along the right edge of the `m`-tree: the two parents differ exactly at a left half. */
  lemma Diverges(x: nat, m: nat, n: nat)
    requires 0 < m < n && !IsPow2(m) && Top(x) == m && InTree(x, m) && InTree(x, n)
    ensures x != Root(m) && x != Root(n)
    ensures Parent(x, n) == Parent(x, m) <==> !LeftHand(x)
    ensures !LeftHand(x) ==> Top(Parent(x, n)) == m && Lo(Parent(x, n)) < Lo(x)
  {
    hide Lo, Top, LeftHand, Root, StartNode, IsPow2, Parent;
    RootCovers(m);
    RootCovers(n);
    if x == Root(m) { ZeroIsLeftHand(x); StartNodeUnique(x); StartNodeBlock(m); }
    ParentOf(x, n);
    ParentOf(x, m);
    MidInTree(Parent(x, n), n);
    MidInTree(Parent(x, m), m);
  }

  // ---------------------------------------------------------------- verification

  /** The old and the new root hash the verifier recomputes, from old node `xo` and new node `xn`. */
  function WalkBoth(h: HashFn, m: nat, xo: nat, ho: Digest, n: nat, xn: nat, hn: Digest,
                    proof: seq<Digest>): (Digest, Digest)
    requires InTree(xo, m) && InTree(xn, n) && |proof| == |PathUp(xn, n)|
    decreases |proof|
  {
    if proof == [] then (ho, hn)
    else
      var hn' := Combine(h, xn, n, hn, proof[0]);
      if xo != Root(m) && SiblingOf(xn, n) == SiblingOf(xo, m) then
        WalkBoth(h, m, Parent(xo, m), Combine(h, xo, m, ho, proof[0]),
                 n, Parent(xn, n), hn', proof[1..])
      else
        WalkBoth(h, m, xo, ho, n, Parent(xn, n), hn', proof[1..])
  }

  /** Where the walk starts: a node both trees share. */
  function WalkStart(m: nat, n: nat): (x: nat)
    requires 0 < m <= n
    ensures InTree(x, m) && InTree(x, n)
    ensures Hi(x, m) == Hi(x, n) == m
  {
    hide Lo, Top, Root, StartNode;
    if m == n then RootCovers(n); Root(n) else
      StartNodeBlock(m);
      BlockInTree(StartNode(m), n);
      BlockInTree(StartNode(m), m);
      StartNode(m)
  }

  /** Whether the old root itself is the start hash, so that the proof does not carry it. */
  predicate StartsAtOldRoot(m: nat, n: nat) { IsPow2(m) || m == n }

  /** The number of digests of a proof, and what is left of it for the walk. */
  lemma WalkLength(m: nat, n: nat)
    requires 0 < m <= n
    ensures ConsistencyNodes(m, n)
         == (if StartsAtOldRoot(m, n) then [] else [WalkStart(m, n)]) + PathUp(WalkStart(m, n), n)
    ensures StartsAtOldRoot(m, n) ==> WalkStart(m, n) == Root(m)
  {
    hide Lo, Top, LeftHand, StartNode, IsPow2;
    if m < n {
      ConsistencyIsWalk(m, n);
      StartNodeBlock(m);
      if IsPow2(m) { RootIsOnly(StartNode(m), m); }
    } else {
      RootCovers(n);
    }
  }

  /** What `ConsistencyProof::verify` accepts. */
  predicate Accepts(h: HashFn, oldRoot: Digest, m: nat, newRoot: Digest, n: nat, proof: seq<Digest>)
    requires 0 < m <= n
  {
    |proof| == |ConsistencyNodes(m, n)|
    && (WalkLength(m, n);
        var x := WalkStart(m, n);
        var (start, rest) := if StartsAtOldRoot(m, n) then (oldRoot, proof) else (proof[0], proof[1..]);
        WalkBoth(h, m, x, start, n, x, start, rest) == (oldRoot, newRoot))
  }

  /** `ConsistencyProof::verify`, on the bytes of a proof. */
  method VerifyConsistency(h: HashFn, oldRoot: Digest, m: u64, newRoot: Digest, n: u64,
                           proof: Bytes) returns (r: Verdict)
    ensures r.Accepted? <==>
              0 < m <= n <= MAX_LEAVES && |proof| % 32 == 0
              && Accepts(h, oldRoot, m, newRoot, n, Chunks(proof))
  {
    hide Lo, Top, LeftHand, Root, Parent, SiblingOf, StartNode, IsPow2, ConsistencyNodes, PathUp, Chunks;
    if m == 0 {
      return Rejected("cannot verify consistency from empty tree");
    }
    if m > n {
      return Rejected("old tree size cannot be larger than new tree size");
    }
    if n > MAX_LEAVES {
      return Rejected("new tree too big");
    }
    var expected := IndicesForConsistencyProof(m, n - m);
    if |proof| != 32 * |expected| {
      return Rejected("malformed proof");
    }
    var chunks := Chunks(proof);
    WalkLength(m, n);
    RootIdxIsRoot(m);
    RootCovers(m);
    var oldRootIdx := RootIdx(m);
    var idx: u64, first: Digest, digests := oldRootIdx, oldRoot, chunks;
    if !(IsPow2(m) || m == n) {
      first, digests := chunks[0], chunks[1..];
      idx := FirstNodeWithDivergingParents(n, m);
    }
    var oldHash, newHash := WalkLoop(h, m, n, oldRootIdx, idx, first, digests);
    if oldHash == oldRoot && newHash == newRoot {
      r := Accepted;
    } else {
      r := Rejected("verification failure");
    }
  }

  /** The loop of `ConsistencyProof::verify`. */
  method WalkLoop(h: HashFn, m: u64, n: u64, oldRootIdx: u64, idx: u64, start: Digest,
                  digests: seq<Digest>) returns (oldHash: Digest, newHash: Digest)
    requires 0 < m <= n <= MAX_LEAVES && oldRootIdx == Root(m)
    requires InTree(idx, m) && InTree(idx, n) && |digests| == |PathUp(idx, n)|
    ensures (oldHash, newHash) == WalkBoth(h, m, idx, start, n, idx, start, digests)
  {
    hide Lo, Top, LeftHand, Root, Parent, SiblingOf;
    var xo, xn := idx, idx;
    oldHash, newHash := start, start;
    for j := 0 to |digests|
      invariant InTree(xo, m) && InTree(xn, n) && |digests[j..]| == |PathUp(xn, n)|
      invariant WalkBoth(h, m, idx, start, n, idx, start, digests)
             == WalkBoth(h, m, xo, oldHash, n, xn, newHash, digests[j..])
    {
      var sibling := digests[j];
      assert digests[j..][0] == sibling && digests[j..][1..] == digests[j + 1..];
      var siblingIdx := SiblingIdx(xn, n);
      var left := IsLeft(xn, n);
      newHash := if left then ParentHash(h, newHash, sibling) else ParentHash(h, sibling, newHash);
      xn := ParentIdx(xn, n);
      if xo != oldRootIdx {
        var oldSibling := SiblingIdx(xo, m);
        if siblingIdx == oldSibling {
          var oldLeft := IsLeft(xo, m);
          oldHash := if oldLeft then ParentHash(h, oldHash, sibling) else ParentHash(h, sibling, oldHash);
          xo := ParentIdx(xo, m);
        }
      }
    }
  }
}
