/** Inclusion proofs: `indices_for_inclusion_proof` and `InclusionProof::verify`. */
module Inclusion {
  import opened Bits
  import opened TreeMath
  import opened TreeOps
  import opened Rfc6962

  datatype Verdict = Accepted | Rejected(reason: string)

  // ---------------------------------------------------------------- the walk to the root

  /** The siblings met on the way from node `x` to the root, lowest first. */
  function PathUp(x: nat, n: nat): (path: seq<nat>)
    requires InTree(x, n)
    ensures forall s <- path :: InTree(s, n)
    decreases n - (Hi(x, n) - Lo(x))
  {
    hide Lo, Top, LeftHand, Root, Parent, SiblingOf;
    LoInTree(x, n);
    if x == Root(n) then [] else
      ParentOf(x, n);
      SiblingInvolution(x, n);
      LoInTree(Parent(x, n), n);
      [SiblingOf(x, n)] + PathUp(Parent(x, n), n)
  }

  /** The siblings between leaf `i` and its ancestor `x`, lowest first. */
  function PathDown(i: nat, x: nat, n: nat): (path: seq<nat>)
    requires InTree(x, n) && Lo(x) <= i < Hi(x, n)
    ensures forall s <- path :: InTree(s, n)
    decreases Hi(x, n) - Lo(x)
  {
    hide Lo, Top, LeftHand, LeftOf, RightOf;
    if !IsInner(x) then [] else
      MidInTree(x, n);
      ChildrenOf(x, n);
      if i < Mid(x) then PathDown(i, LeftOf(x), n) + [RightOf(x, n)]
      else PathDown(i, RightOf(x, n), n) + [LeftOf(x)]
  }

  /** The walk up from either child meets the other one first. */
  lemma PathOfChildren(x: nat, n: nat)
    requires IsInner(x) && InTree(x, n)
    ensures InTree(LeftOf(x), n)
    ensures PathUp(LeftOf(x), n) == [RightOf(x, n)] + PathUp(x, n)
    ensures PathUp(RightOf(x, n), n) == [LeftOf(x)] + PathUp(x, n)
  {
    hide Lo, Top, LeftHand, Root, Parent, LeftOf, RightOf, SiblingOf;
    ChildrenOf(x, n);
  }

  /** The walk up passes through every ancestor of the leaf. */
  lemma {:induction false} PathThrough(i: nat, x: nat, n: nat)
    requires InTree(x, n) && Lo(x) <= i < Hi(x, n)
    ensures InTree(2 * i, n)
    ensures PathUp(2 * i, n) == PathDown(i, x, n) + PathUp(x, n)
    decreases Hi(x, n) - Lo(x)
  {
    hide Lo, Top, LeftHand, LeftOf, RightOf, PathUp;
    if IsInner(x) {
      MidInTree(x, n);
      ChildrenOf(x, n);
      PathOfChildren(x, n);
      if i < Mid(x) { PathThrough(i, LeftOf(x), n); } else { PathThrough(i, RightOf(x, n), n); }
    } else {
      var q := ViewNode(x);
    }
  }

  // ---------------------------------------------------------------- hashes of a list of nodes

  function NodeHashes(h: HashFn, D: seq<Bytes>, xs: seq<nat>, n: nat): (r: seq<Digest>)
    requires n <= |D| && forall x <- xs :: InTree(x, n)
    ensures |r| == |xs| && forall j | 0 <= j < |r| :: r[j] == NodeHash(h, D, xs[j], n)
  {
    if xs == [] then [] else [NodeHash(h, D, xs[0], n)] + NodeHashes(h, D, xs[1..], n)
  }

  lemma NodeHashesSnoc(h: HashFn, D: seq<Bytes>, xs: seq<nat>, y: nat, n: nat)
    requires n <= |D| && InTree(y, n) && forall x <- xs :: InTree(x, n)
    ensures NodeHashes(h, D, xs + [y], n) == NodeHashes(h, D, xs, n) + [NodeHash(h, D, y, n)]
  {
    hide NodeHash, NodeHashes;
  }

  lemma NodeHashesCons(h: HashFn, D: seq<Bytes>, y: nat, xs: seq<nat>, n: nat)
    requires n <= |D| && InTree(y, n) && forall x <- xs :: InTree(x, n)
    ensures NodeHashes(h, D, [y] + xs, n) == [NodeHash(h, D, y, n)] + NodeHashes(h, D, xs, n)
  {
    hide NodeHash, InTree;
    assert ([y] + xs)[1..] == xs;
  }

  lemma PathOfOne(h: HashFn, S: seq<Bytes>)
    requires |S| == 1
    ensures PATH(h, 0, S) == []
  {}

  lemma PathUnfold(h: HashFn, i: nat, S: seq<Bytes>)
    requires i < |S| && |S| >= 2
    ensures var k := SplitPoint(|S|);
            PATH(h, i, S) == if i < k then PATH(h, i, S[..k]) + [MTH(h, S[k..])]
                             else PATH(h, i - k, S[k..]) + [MTH(h, S[..k])]
  {
    hide MTH;
  }

  /** PATH on a range of leaves, split at `mid`. */
  lemma PathSplits(h: HashFn, D: seq<Bytes>, i: nat, lo: nat, mid: nat, hi: nat)
    requires lo < mid < hi <= |D| && lo <= i < hi && mid - lo == SplitPoint(hi - lo)
    ensures PATH(h, i - lo, D[lo..hi]) ==
            if i < mid then PATH(h, i - lo, D[lo..mid]) + [MTH(h, D[mid..hi])]
            else PATH(h, i - mid, D[mid..hi]) + [MTH(h, D[lo..mid])]
  {
    hide MTH, PATH, SplitPoint, IsPow2;
    var S := D[lo..hi];
    PathUnfold(h, i - lo, S);
    assert S[..mid - lo] == D[lo..mid] && S[mid - lo..] == D[mid..hi];
  }

  /** The nodes of the walk are the audit path of RFC 6962. */
  lemma {:induction false} PathDownIsAuditPath(h: HashFn, D: seq<Bytes>, i: nat, x: nat, n: nat)
    requires n <= |D| && InTree(x, n) && Lo(x) <= i < Hi(x, n)
    ensures NodeHashes(h, D, PathDown(i, x, n), n) == PATH(h, i - Lo(x), D[Lo(x)..Hi(x, n)])
    decreases Hi(x, n) - Lo(x)
  {
    hide Lo, Top, LeftHand, LeftOf, RightOf, MTH, NodeHashes, PATH, SplitPoint, IsPow2;
    if IsInner(x) {
      MidInTree(x, n);
      ChildrenOf(x, n);
      NodeSplits(x, n);
      PathSplits(h, D, i, Lo(x), Mid(x), Hi(x, n));
      if i < Mid(x) {
        PathDownIsAuditPath(h, D, i, LeftOf(x), n);
        NodeHashesSnoc(h, D, PathDown(i, LeftOf(x), n), RightOf(x, n), n);
      } else {
        PathDownIsAuditPath(h, D, i, RightOf(x, n), n);
        NodeHashesSnoc(h, D, PathDown(i, RightOf(x, n), n), LeftOf(x), n);
      }
    } else {
      var q := ViewNode(x);
      assert |D[q..q + 1]| == 1;
      PathOfOne(h, D[q..q + 1]);
    }
  }

  /** Walking up from leaf `i` collects exactly PATH(i, D[n]) of section 2.1.1. */
  lemma AuditPath(h: HashFn, D: seq<Bytes>, i: nat, n: nat)
    requires i < n <= |D|
    ensures InTree(2 * i, n)
    ensures NodeHashes(h, D, PathUp(2 * i, n), n) == PATH(h, i, D[..n])
  {
    hide Lo, Top, LeftHand, Root, NodeHash, NodeHashes, PATH, PathDown;
    RootCovers(n);
    PathThrough(i, Root(n), n);
    PathDownIsAuditPath(h, D, i, Root(n), n);
    assert D[0..n] == D[..n];
    assert PathUp(Root(n), n) == [];
    assert PathUp(2 * i, n) == PathDown(i, Root(n), n);
  }

  /** `indices_for_inclusion_proof`. */
  method IndicesForInclusionProof(n: u64, i: u64) returns (out: seq<nat>)
    requires i < n <= MAX_LEAVES
    ensures InTree(2 * i, n) && out == PathUp(2 * i, n)
  {
    hide Lo, Top, LeftHand, Root, RootIdx, Parent, SiblingOf, PathUp;
    RootIdxIsRoot(n);
    RootCovers(n);
    out := [];
    var root := RootIdx(n);
    if n == 1 {
      PathOfRoot();
      return;
    }
    ghost var start := 2 * i;
    NotRoot(i, n);
    var first := SiblingIdx(2 * i, n);
    out := out + [first];
    var cur := ParentIdx(2 * i, n);
    PathNext(2 * i, n);
    while cur != root
      invariant InTree(cur, n)
      invariant PathUp(start, n) == out + PathUp(cur, n)
      decreases n - (Hi(cur, n) - Lo(cur))
    {
      PathNext(cur, n);
      var sibling := SiblingIdx(cur, n);
      out := out + [sibling];
      cur := ParentIdx(cur, n);
    }
    PathEnds(n);
  }

  /** One step of the walk: the sibling, then the rest from the parent, which is closer to the root. */
  lemma PathNext(x: nat, n: nat)
    requires InTree(x, n) && x != Root(n)
    ensures InTree(SiblingOf(x, n), n) && InTree(Parent(x, n), n)
    ensures PathUp(x, n) == [SiblingOf(x, n)] + PathUp(Parent(x, n), n)
    ensures Lo(x) < Hi(x, n) <= n && Hi(x, n) - Lo(x) < Hi(Parent(x, n), n) - Lo(Parent(x, n)) <= n
  {
    hide Lo, Top, LeftHand, Root, Parent, SiblingOf;
    SiblingInvolution(x, n);
    ParentOf(x, n);
    LoInTree(x, n);
    LoInTree(Parent(x, n), n);
  }

  lemma PathEnds(n: nat)
    requires n > 0
    ensures InTree(Root(n), n) && PathUp(Root(n), n) == []
  {
    hide Lo, Top, LeftHand, Root, Parent, SiblingOf;
    RootCovers(n);
  }

  lemma PathOfRoot()
    ensures Root(1) == 0 && PathUp(0, 1) == []
  {
    hide Lo, Top, LeftHand;
  }

  lemma NotRoot(i: nat, n: nat)
    requires i < n && n >= 2
    ensures 2 * i != Root(n)
  {
    hide Lo, Top;
    RootCovers(n);
    LeafNode(i);
  }

  // ---------------------------------------------------------------- verification

  function Combine(h: HashFn, x: nat, n: nat, cur: Digest, sibling: Digest): Digest {
    if IsLeftIn(x, n) then ParentHash(h, cur, sibling) else ParentHash(h, sibling, cur)
  }

  /** The root hash the verifier recomputes from node `x` with hash `cur`. */
  function FoldUp(h: HashFn, x: nat, n: nat, cur: Digest, proof: seq<Digest>): Digest
    requires InTree(x, n) && |proof| == |PathUp(x, n)|
    decreases |proof|
  {
    if proof == [] then cur
    else FoldUp(h, Parent(x, n), n, Combine(h, x, n, cur, proof[0]), proof[1..])
  }

  /** What `InclusionProof::verify` accepts. */
  predicate AcceptsLeaf(h: HashFn, leaf: Bytes, i: nat, root: Digest, n: nat, proof: seq<Digest>) {
    i < n && InTree(2 * i, n) && |proof| == |PathUp(2 * i, n)|
    && FoldUp(h, 2 * i, n, LeafHash(h, leaf), proof) == root
  }

  /** `InclusionProof::verify`, on the bytes of a proof. */
  method VerifyInclusion(h: HashFn, leaf: Bytes, i: u64, root: Digest, n: u64, proof: Bytes)
    returns (r: Verdict)
    requires n <= MAX_LEAVES
    ensures r.Accepted? <==> |proof| % 32 == 0 && AcceptsLeaf(h, leaf, i, root, n, Chunks(proof))
    ensures forall D: seq<Bytes> | |D| == n && MTH(h, D) == root && NoClash(h, D, leaf, i, proof) ::
              r.Accepted? <==> i < n && D[i] == leaf && proof == Flat(PATH(h, i, D))
  {
    hide Lo, Top, LeftHand, Root, Parent, SiblingOf, PathUp, Chunks, NoClash, MTH, Flat, PATH;
    forall D: seq<Bytes> | |D| == n && MTH(h, D) == root && NoClash(h, D, leaf, i, proof)
      ensures |proof| % 32 == 0 && AcceptsLeaf(h, leaf, i, root, n, Chunks(proof)) <==>
                i < n && D[i] == leaf && proof == Flat(PATH(h, i, D))
    {
      VerifierExact(h, D, leaf, i, proof);
    }
    if i >= n {
      return Rejected("leaf index out of bounds");
    }
    var expected := IndicesForInclusionProof(n, i);
    if |proof| != 32 * |expected| {
      return Rejected("invalid proof length");
    }
    var leafHash := LeafHash(h, leaf);
    if proof == [] {
      if leafHash == root {
        return Accepted;
      } else {
        return Rejected("root hash mismatch for single leaf");
      }
    }
    var hash := FoldLoop(h, 2 * i, n, leafHash, Chunks(proof));
    if hash == root {
      r := Accepted;
    } else {
      r := Rejected("computed root does not match");
    }
  }

  /** The loop of `InclusionProof::verify`. */
  method FoldLoop(h: HashFn, start: u64, n: u64, leafHash: Digest, proof: seq<Digest>) returns (hash: Digest)
    requires n <= MAX_LEAVES && InTree(start, n) && |proof| == |PathUp(start, n)|
    ensures hash == FoldUp(h, start, n, leafHash, proof)
  {
    hide Lo, Top, LeftHand, Root, Parent, SiblingOf;
    var cur := start;
    hash := leafHash;
    for j := 0 to |proof|
      invariant InTree(cur, n) && |proof[j..]| == |PathUp(cur, n)|
      invariant FoldUp(h, cur, n, hash, proof[j..]) == FoldUp(h, start, n, leafHash, proof)
    {
      assert proof[j..][0] == proof[j] && proof[j..][1..] == proof[j + 1..];
      var left := IsLeft(cur, n);
      hash := if left then ParentHash(h, hash, proof[j]) else ParentHash(h, proof[j], hash);
      cur := ParentIdx(cur, n);
    }
  }

  /** Folding the true sibling hashes over a true node hash gives the true root. */
  lemma {:induction false} FoldUpComplete(h: HashFn, D: seq<Bytes>, x: nat, n: nat)
    requires n <= |D| && InTree(x, n)
    ensures FoldUp(h, x, n, NodeHash(h, D, x, n), NodeHashes(h, D, PathUp(x, n), n))
         == MTH(h, D[..n])
    decreases n - (Hi(x, n) - Lo(x))
  {
    hide Lo, Top, LeftHand, Root, Parent, LeftOf, RightOf, NodeHash, MTH;
    LoInTree(x, n);
    if x == Root(n) {
      NodeHashRoot(h, D, n);
    } else {
      var p := Parent(x, n);
      ParentOf(x, n);
      NodeHashInner(h, D, p, n);
      LoInTree(p, n);
      FoldUpComplete(h, D, p, n);
    }
  }

  /** Completeness: the verifier accepts PATH(i, D[n]) for leaf `i` of every tree. */
  lemma InclusionComplete(h: HashFn, D: seq<Bytes>, i: nat, n: nat)
    requires i < n <= |D|
    ensures InTree(2 * i, n) && |PATH(h, i, D[..n])| == |PathUp(2 * i, n)|
    ensures FoldUp(h, 2 * i, n, LeafHash(h, D[i]), PATH(h, i, D[..n])) == MTH(h, D[..n])
  {
    AuditPath(h, D, i, n);
    NodeHashLeaf(h, D, i, n);
    FoldUpComplete(h, D, 2 * i, n);
  }

  // ---------------------------------------------------------------- soundness

  /** The string hashed at node `x`. */
  function NodeInput(h: HashFn, D: seq<Bytes>, x: nat, n: nat): (s: Bytes)
    requires InTree(x, n) && n <= |D|
    ensures h(s) == NodeHash(h, D, x, n)
  {
    hide Lo, Top, LeftHand, LeftOf, RightOf;
    LoInTree(x, n);
    if IsInner(x) then
      NodeHashInner(h, D, x, n);
      ParentInput(NodeHash(h, D, LeftOf(x), n), NodeHash(h, D, RightOf(x, n), n))
    else
      var i := x / 2;
      NodeHashLeaf(h, D, i, n);
      LeafInput(D[i])
  }

  /** Every string hashed while computing the root of the first `n` leaves. */
  ghost function TreeInputs(h: HashFn, D: seq<Bytes>, n: nat): set<Bytes>
    requires n <= |D|
  {
    set x: nat | x < NumInternalNodes(n) :: NodeInput(h, D, x, n)
  }

  function StepInput(x: nat, n: nat, cur: Digest, sibling: Digest): Bytes {
    if IsLeftIn(x, n) then ParentInput(cur, sibling) else ParentInput(sibling, cur)
  }

  /** Every string the verifier hashes on its way up from node `x`. */
  ghost function FoldInputs(h: HashFn, x: nat, n: nat, cur: Digest, proof: seq<Digest>): set<Bytes>
    requires InTree(x, n) && |proof| == |PathUp(x, n)|
    decreases |proof|
  {
    if proof == [] then {}
    else
      {StepInput(x, n, cur, proof[0])}
      + FoldInputs(h, Parent(x, n), n, Combine(h, x, n, cur, proof[0]), proof[1..])
  }

  /** No two of the strings actually hashed collide. */
  ghost predicate CollisionFree(h: HashFn, S: set<Bytes>) {
    forall a, b | a in S && b in S && h(a) == h(b) :: a == b
  }

  lemma ParentInputInjective(l: Digest, r: Digest, l': Digest, r': Digest)
    requires ParentInput(l, r) == ParentInput(l', r')
    ensures l == l' && r == r'
  {
    assert ParentInput(l, r)[1..33] == l.bytes && ParentInput(l, r)[33..] == r.bytes;
    assert ParentInput(l', r')[1..33] == l'.bytes && ParentInput(l', r')[33..] == r'.bytes;
  }

  /** A step that reaches the true hash of the parent used the true hashes of both children. */
  lemma StepSound(h: HashFn, D: seq<Bytes>, x: nat, n: nat, cur: Digest, sibling: Digest, S: set<Bytes>)
    requires n <= |D| && InTree(x, n) && x != Root(n)
    requires TreeInputs(h, D, n) <= S && StepInput(x, n, cur, sibling) in S && CollisionFree(h, S)
    requires Combine(h, x, n, cur, sibling) == NodeHash(h, D, Parent(x, n), n)
    ensures InTree(SiblingOf(x, n), n)
    ensures cur == NodeHash(h, D, x, n) && sibling == NodeHash(h, D, SiblingOf(x, n), n)
  {
    hide Lo, Top, LeftHand, Root, Parent, LeftOf, RightOf, NodeHash, SiblingOf;
    var p := Parent(x, n);
    ParentOf(x, n);
    ChildrenOf(p, n);
    assert NodeInput(h, D, p, n) in TreeInputs(h, D, n);
    assert StepInput(x, n, cur, sibling) == NodeInput(h, D, p, n);
    var l, r := NodeHash(h, D, LeftOf(p), n), NodeHash(h, D, RightOf(p, n), n);
    if IsLeftIn(x, n) { ParentInputInjective(cur, sibling, l, r); }
    else { ParentInputInjective(sibling, cur, l, r); }
  }

  /** A walk that ends in the true root started from the true node hash and met the true siblings. */
  lemma {:induction false} FoldUpSound(
    h: HashFn, D: seq<Bytes>, x: nat, n: nat, cur: Digest, proof: seq<Digest>, S: set<Bytes>)
    requires n <= |D| && InTree(x, n) && |proof| == |PathUp(x, n)|
    requires FoldUp(h, x, n, cur, proof) == MTH(h, D[..n])
    requires TreeInputs(h, D, n) <= S && FoldInputs(h, x, n, cur, proof) <= S && CollisionFree(h, S)
    ensures cur == NodeHash(h, D, x, n) && proof == NodeHashes(h, D, PathUp(x, n), n)
    decreases |proof|
  {
    hide Lo, Top, LeftHand, Root, Parent, LeftOf, RightOf, NodeHash, MTH, SiblingOf, TreeInputs, CollisionFree;
    if x == Root(n) {
      NodeHashRoot(h, D, n);
    } else {
      PathNext(x, n);
      FoldUpSound(h, D, Parent(x, n), n, Combine(h, x, n, cur, proof[0]), proof[1..], S);
      StepSound(h, D, x, n, cur, proof[0], S);
      assert proof == [proof[0]] + proof[1..];
    }
  }

  /** Soundness: whatever digests the proof holds, an accepted leaf is leaf `i` of the tree and the
      proof is its audit path, unless two of the strings hashed by the tree and the verifier collide. */
  lemma InclusionSound(h: HashFn, D: seq<Bytes>, leaf: Bytes, i: nat, proof: seq<Digest>)
    requires i < |D| && InTree(2 * i, |D|) && |proof| == |PathUp(2 * i, |D|)|
    requires FoldUp(h, 2 * i, |D|, LeafHash(h, leaf), proof) == MTH(h, D)
    requires CollisionFree(h, InclusionInputs(h, D, leaf, i, proof))
    ensures D[i] == leaf && proof == PATH(h, i, D)
  {
    hide InTree, NodeHash, MTH, FoldInputs, FoldUp, PathUp, TreeInputs, CollisionFree, LeafHash, LeafInput;
    var n := |D|;
    var S := InclusionInputs(h, D, leaf, i, proof);
    assert D[..n] == D;
    FoldUpSound(h, D, 2 * i, n, LeafHash(h, leaf), proof, S);
    LeafFromHash(h, D, leaf, i, S);
    AuditPath(h, D, i, n);
  }

  /** Every string hashed by the tree or by the verifier. */
  ghost function InclusionInputs(h: HashFn, D: seq<Bytes>, leaf: Bytes, i: nat, proof: seq<Digest>): set<Bytes>
    requires i < |D| && InTree(2 * i, |D|) && |proof| == |PathUp(2 * i, |D|)|
  {
    TreeInputs(h, D, |D|) + {LeafInput(leaf)} + FoldInputs(h, 2 * i, |D|, LeafHash(h, leaf), proof)
  }

  /** The verifier accepts exactly the audit path of exactly the leaf. */
  lemma InclusionExact(h: HashFn, D: seq<Bytes>, leaf: Bytes, i: nat, proof: seq<Digest>)
    requires i < |D| && InTree(2 * i, |D|) && |proof| == |PathUp(2 * i, |D|)|
    requires CollisionFree(h, InclusionInputs(h, D, leaf, i, proof))
    ensures FoldUp(h, 2 * i, |D|, LeafHash(h, leaf), proof) == MTH(h, D) <==>
              D[i] == leaf && proof == PATH(h, i, D)
  {
    hide InTree, MTH, FoldUp, PathUp, InclusionInputs, CollisionFree, LeafHash, PATH;
    if FoldUp(h, 2 * i, |D|, LeafHash(h, leaf), proof) == MTH(h, D) { InclusionSound(h, D, leaf, i, proof); }
    InclusionComplete(h, D, i, |D|);
    assert D[..|D|] == D;
  }

  /** Where a proof has the expected length, no two of the strings hashed by the tree or by the verifier
      collide. */
  ghost predicate NoClash(h: HashFn, D: seq<Bytes>, leaf: Bytes, i: nat, proof: Bytes) {
    i < |D| && InTree(2 * i, |D|) && |proof| == 32 * |PathUp(2 * i, |D|)| ==>
      CollisionFree(h, InclusionInputs(h, D, leaf, i, Chunks(proof)))
  }

  /** For the root of a tree, whatever index and bytes are given: accepted is exactly the leaf at that
      index with the bytes of its audit path. */
  lemma VerifierExact(h: HashFn, D: seq<Bytes>, leaf: Bytes, i: nat, proof: Bytes)
    requires NoClash(h, D, leaf, i, proof)
    ensures |proof| % 32 == 0 && AcceptsLeaf(h, leaf, i, MTH(h, D), |D|, Chunks(proof)) <==>
              i < |D| && D[i] == leaf && proof == Flat(PATH(h, i, D))
  {
    hide InTree, MTH, FoldUp, PathUp, InclusionInputs, CollisionFree, LeafHash, PATH, Flat, Chunks;
    if i < |D| {
      InclusionComplete(h, D, i, |D|);
      assert D[..|D|] == D;
      ChunksOfFlat(PATH(h, i, D));
      if |proof| % 32 == 0 && |Chunks(proof)| == |PathUp(2 * i, |D|)| {
        FlatOfChunks(proof);
        InclusionExact(h, D, leaf, i, Chunks(proof));
      }
    }
  }

  /** Whatever the hash, one leaf, index, size and proof are accepted for at most one root. */
  lemma OneRoot(h: HashFn, leaf: Bytes, i: nat, n: nat, proof: seq<Digest>, a: Digest, b: Digest)
    requires AcceptsLeaf(h, leaf, i, a, n, proof) && AcceptsLeaf(h, leaf, i, b, n, proof)
    ensures a == b
  {}

  /** Without collisions, a leaf with the hash of leaf node `i` is leaf `i`. */
  lemma LeafFromHash(h: HashFn, D: seq<Bytes>, leaf: Bytes, i: nat, S: set<Bytes>)
    requires i < |D| && InTree(2 * i, |D|) && LeafHash(h, leaf) == NodeHash(h, D, 2 * i, |D|)
    requires TreeInputs(h, D, |D|) <= S && LeafInput(leaf) in S && CollisionFree(h, S)
    ensures D[i] == leaf
  {
    hide Lo, Top, LeftHand, NodeHash, LeafInput;
    NodeHashLeaf(h, D, i, |D|);
    assert NodeInput(h, D, 2 * i, |D|) in TreeInputs(h, D, |D|);
    assert LeafInput(leaf) == LeafInput(D[i]);
    LeafInputInjective(leaf, D[i]);
  }

  lemma LeafInputInjective(a: Bytes, b: Bytes)
    requires LeafInput(a) == LeafInput(b)
    ensures a == b
  {
    assert LeafInput(a)[1..] == a && LeafInput(b)[1..] == b;
  }
}
