/** The two-tree walk of `ConsistencyProof::verify` accepts exactly the honest proofs, unless hashed
    strings collide. */
module ConsistencyProofs {
  import opened Bits
  import opened TreeMath
  import opened Rfc6962
  import opened Inclusion
  import opened Consistency

  /** The old cursor is the new cursor's node cut off at `m` leaves. */
  predicate Paired(m: nat, xo: nat, n: nat, xn: nat) {
    InTree(xo, m) && InTree(xn, n) && Lo(xo) == Lo(xn) && Hi(xo, m) == m <= Hi(xn, n)
  }

  /** Going up from a left child of the new tree leaves the old cursor where it is. */
  lemma StepFromLeft(m: nat, xo: nat, n: nat, xn: nat)
    requires Paired(m, xo, n, xn) && xn != Root(n) && IsLeftIn(xn, n)
    ensures xo == Root(m) || SiblingOf(xn, n) != SiblingOf(xo, m)
    ensures Paired(m, xo, n, Parent(xn, n))
  {
    hide Lo, Top, LeftHand, Root, Parent, LeftOf, RightOf;
    ParentOnLeft(xn, n);
    var s := SiblingOf(xn, n);
    assert s == Lo(s) + Top(s) - 1 && Lo(s) >= m;
    if xo != Root(m) { SiblingInvolution(xo, m); }
  }

  /** Going up from a right child of the new tree, both cursors meet in the same node, past the
      same complete sibling. */
  lemma StepFromRight(m: nat, xo: nat, n: nat, xn: nat)
    requires Paired(m, xo, n, xn) && xn != Root(n) && !IsLeftIn(xn, n)
    ensures xo != Root(m) && SiblingOf(xn, n) == SiblingOf(xo, m) && !IsLeftIn(xo, m)
    ensures Parent(xo, m) == Parent(xn, n) && Paired(m, Parent(xo, m), n, Parent(xn, n))
    ensures var p := Parent(xn, n); var s := SiblingOf(xn, n);
            s == LeftOf(p) && Lo(s) == Lo(p) && Top(s) == Lo(xn) < m && RightOf(p, m) == xo
            && RightOf(p, n) == xn
  {
    hide Lo, Top, LeftHand, Root, Parent, LeftOf, RightOf;
    ParentOnRight(xn, n);
    LoInTree(xo, m);
    if xo == Root(m) { RootCovers(m); }
    ParentOnRight(xo, m);
    MidInTree(Parent(xn, n), n);
    MidInTree(Parent(xo, m), m);
  }

  lemma PairedAtRoot(m: nat, xo: nat, n: nat)
    requires 0 < m <= n && Paired(m, xo, n, Root(n))
    ensures xo == Root(m)
  {
    hide Lo, Top, LeftHand, Root;
    RootCovers(n);
    RootIsOnly(xo, m);
  }

  /** A complete sibling has the same hash in both trees. */
  lemma SharedSibling(h: HashFn, D: seq<Bytes>, s: nat, m: nat, n: nat)
    requires Top(s) <= m <= n <= |D|
    ensures InTree(s, m) && InTree(s, n) && NodeHash(h, D, s, m) == NodeHash(h, D, s, n)
  {
    hide Lo, Top, LeftHand, MTH;
    BlockInTree(s, m);
    BlockInTree(s, n);
  }

  /** With true hashes everywhere the walk ends in the two true roots. */
  lemma {:induction false} WalkComplete(h: HashFn, D: seq<Bytes>, m: nat, xo: nat, n: nat, xn: nat)
    requires 0 < m <= n <= |D| && Paired(m, xo, n, xn)
    ensures WalkBoth(h, m, xo, NodeHash(h, D, xo, m), n, xn, NodeHash(h, D, xn, n),
                     NodeHashes(h, D, PathUp(xn, n), n))
         == (MTH(h, D[..m]), MTH(h, D[..n]))
    decreases n - (Hi(xn, n) - Lo(xn))
  {
    hide Lo, Top, LeftHand, Root, Parent, LeftOf, RightOf, NodeHash, MTH, SiblingOf;
    LoInTree(xn, n);
    if xn == Root(n) {
      PairedAtRoot(m, xo, n);
      NodeHashRoot(h, D, n);
      NodeHashRoot(h, D, m);
    } else {
      var p := Parent(xn, n);
      ParentOf(xn, n);
      LoInTree(p, n);
      NodeHashInner(h, D, p, n);
      SiblingInvolution(xn, n);
      ChildrenOf(p, n);
      if IsLeftIn(xn, n) {
        StepFromLeft(m, xo, n, xn);
        WalkComplete(h, D, m, xo, n, p);
      } else {
        StepFromRight(m, xo, n, xn);
        SharedSibling(h, D, LeftOf(p), m, n);
        NodeHashInner(h, D, p, m);
        WalkComplete(h, D, m, p, n, p);
      }
    }
  }

  /** Completeness: for all 0 < m <= n the verifier accepts PROOF(m, D[n]) against both roots. */
  lemma ConsistencyComplete(h: HashFn, D: seq<Bytes>, m: nat, n: nat)
    requires 0 < m <= n <= |D|
    ensures Accepts(h, MTH(h, D[..m]), m, MTH(h, D[..n]), n, PROOF(h, m, D[..n]))
  {
    hide Lo, Top, LeftHand, Root, MTH, StartNode, IsPow2, PathUp, PROOF, WalkBoth;
    var x := WalkStart(m, n);
    WalkLength(m, n);
    ConsistencyPath(h, D, m, n);
    WalkComplete(h, D, m, x, n, x);
    assert NodeHash(h, D, x, m) == NodeHash(h, D, x, n);
    if StartsAtOldRoot(m, n) {
      NodeHashRoot(h, D, m);
      assert ConsistencyNodes(m, n) == PathUp(x, n);
    } else {
      var nodes := ConsistencyNodes(m, n);
      assert nodes[0] == x && nodes[1..] == PathUp(x, n);
      assert NodeHashes(h, D, nodes, n)[1..] == NodeHashes(h, D, nodes[1..], n);
    }
  }

  // ---------------------------------------------------------------- soundness

  /** Every string the verifier hashes during the walk. */
  ghost function WalkInputs(h: HashFn, m: nat, xo: nat, ho: Digest, n: nat, xn: nat, hn: Digest,
                            proof: seq<Digest>): set<Bytes>
    requires InTree(xo, m) && InTree(xn, n) && |proof| == |PathUp(xn, n)|
    decreases |proof|
  {
    if proof == [] then {}
    else
      var hn' := Combine(h, xn, n, hn, proof[0]);
      {StepInput(xn, n, hn, proof[0])} +
      if xo != Root(m) && SiblingOf(xn, n) == SiblingOf(xo, m) then
        {StepInput(xo, m, ho, proof[0])}
        + WalkInputs(h, m, Parent(xo, m), Combine(h, xo, m, ho, proof[0]),
                     n, Parent(xn, n), hn', proof[1..])
      else
        WalkInputs(h, m, xo, ho, n, Parent(xn, n), hn', proof[1..])
  }

  lemma Glue(A: seq<Bytes>, B: seq<Bytes>, lo: nat, mid: nat, hi: nat)
    requires lo <= mid <= hi <= |A| && hi <= |B|
    requires A[lo..mid] == B[lo..mid] && A[mid..hi] == B[mid..hi]
    ensures A[lo..hi] == B[lo..hi]
  {
    assert A[lo..hi] == A[lo..mid] + A[mid..hi];
    assert B[lo..hi] == B[lo..mid] + B[mid..hi];
  }

  /** Nodes of any two trees with equal hashes cover equal leaves. The prefixes 0x00 and 0x01 keep leaves
      and inner nodes apart. */
  lemma {:induction false} SameHashSameLeaves(
    h: HashFn, A: seq<Bytes>, m: nat, x: nat, B: seq<Bytes>, n: nat, y: nat, S: set<Bytes>)
    requires m <= |A| && n <= |B| && InTree(x, m) && InTree(y, n)
    requires TreeInputs(h, A, m) <= S && TreeInputs(h, B, n) <= S && CollisionFree(h, S)
    requires NodeHash(h, A, x, m) == NodeHash(h, B, y, n)
    ensures Lo(x) < Hi(x, m) <= m && Lo(y) < Hi(y, n) <= n && A[Lo(x)..Hi(x, m)] == B[Lo(y)..Hi(y, n)]
    decreases Hi(x, m) - Lo(x)
  {
    hide Lo, Top, LeftHand, LeftOf, RightOf, NodeHash, TreeInputs, CollisionFree, NodeInput;
    LoInTree(x, m);
    LoInTree(y, n);
    SameInput(h, A, m, x, B, n, y, S);
    InputOf(h, A, x, m);
    InputOf(h, B, y, n);
    if IsInner(x) && IsInner(y) {
      ChildrenOf(x, m);
      ChildrenOf(y, n);
      MidInTree(x, m);
      MidInTree(y, n);
      ParentInputInjective(NodeHash(h, A, LeftOf(x), m), NodeHash(h, A, RightOf(x, m), m),
                           NodeHash(h, B, LeftOf(y), n), NodeHash(h, B, RightOf(y, n), n));
      SameHashSameLeaves(h, A, m, LeftOf(x), B, n, LeftOf(y), S);
      SameHashSameLeaves(h, A, m, RightOf(x, m), B, n, RightOf(y, n), S);
      assert A[Lo(x)..Hi(x, m)] == A[Lo(x)..Mid(x)] + A[Mid(x)..Hi(x, m)];
      assert B[Lo(y)..Hi(y, n)] == B[Lo(y)..Mid(y)] + B[Mid(y)..Hi(y, n)];
    } else if !IsInner(x) && !IsInner(y) {
      LeafInputInjective(A[x / 2], B[y / 2]);
      assert A[Lo(x)..Hi(x, m)] == [A[x / 2]] && B[Lo(y)..Hi(y, n)] == [B[y / 2]] by { LeafRange(x, m); LeafRange(y, n); }
    } else {
      assert false;
    }
  }

  lemma LeafRange(x: nat, n: nat)
    requires InTree(x, n) && !IsInner(x)
    ensures Lo(x) == x / 2 && Hi(x, n) == x / 2 + 1
  {
    hide Lo, Top;
    var q := ViewNode(x);
  }

  /** What is hashed at a node starts with 0x01 exactly for an inner node. */
  lemma InputOf(h: HashFn, D: seq<Bytes>, x: nat, n: nat)
    requires InTree(x, n) && n <= |D|
    ensures NodeInput(h, D, x, n) != []
    ensures !IsInner(x) ==> x / 2 < n && NodeInput(h, D, x, n) == LeafInput(D[x / 2]) && NodeInput(h, D, x, n)[0] == 0
    ensures IsInner(x) ==>
              InTree(LeftOf(x), n) && NodeInput(h, D, x, n)[0] == 1
              && NodeInput(h, D, x, n) == ParentInput(NodeHash(h, D, LeftOf(x), n), NodeHash(h, D, RightOf(x, n), n))
  {
    hide Lo, Top, LeftHand, LeftOf, RightOf, NodeHash;
    if IsInner(x) { ChildrenOf(x, n); }
  }

  /** Without collisions, equal hashes of two nodes come from equal strings. */
  lemma SameInput(h: HashFn, A: seq<Bytes>, m: nat, x: nat, B: seq<Bytes>, n: nat, y: nat, S: set<Bytes>)
    requires m <= |A| && n <= |B| && InTree(x, m) && InTree(y, n)
    requires TreeInputs(h, A, m) <= S && TreeInputs(h, B, n) <= S && CollisionFree(h, S)
    requires NodeHash(h, A, x, m) == NodeHash(h, B, y, n)
    ensures NodeInput(h, A, x, m) == NodeInput(h, B, y, n)
  {
    hide NodeHash, NodeInput;
    assert NodeInput(h, A, x, m) in TreeInputs(h, A, m);
    assert NodeInput(h, B, y, n) in TreeInputs(h, B, n);
  }

  /** A root binds its tree across all sizes: equal roots, equal leaves, unless hashed strings collide. */
  lemma RootBinds(h: HashFn, A: seq<Bytes>, B: seq<Bytes>)
    requires A != [] && B != [] && MTH(h, A) == MTH(h, B)
    requires CollisionFree(h, TreeInputs(h, A, |A|) + TreeInputs(h, B, |B|))
    ensures A == B
  {
    hide Lo, Top, Hi, Root, InTree, NodeHash, MTH, TreeInputs, CollisionFree;
    RootNode(h, A);
    RootNode(h, B);
    SameHashSameLeaves(h, A, |A|, Root(|A|), B, |B|, Root(|B|), TreeInputs(h, A, |A|) + TreeInputs(h, B, |B|));
  }

  lemma RootNode(h: HashFn, D: seq<Bytes>)
    requires D != []
    ensures InTree(Root(|D|), |D|) && NodeHash(h, D, Root(|D|), |D|) == MTH(h, D)
    ensures Lo(Root(|D|)) == 0 && Hi(Root(|D|), |D|) == |D| && D[0..|D|] == D
  {
    hide Lo, Top, Root, NodeHash, MTH;
    RootCovers(|D|);
    NodeHashRoot(h, D, |D|);
    assert D[..|D|] == D;
  }

  /** Any digests that lead both cursors to the true roots started from true hashes, and every
      leaf to the left of the cursors is the same in both trees. */
  lemma {:induction false} WalkSound(
    h: HashFn, A: seq<Bytes>, xo: nat, ho: Digest, B: seq<Bytes>, xn: nat, hn: Digest,
    proof: seq<Digest>, S: set<Bytes>)
    requires 0 < |A| <= |B| && Paired(|A|, xo, |B|, xn) && |proof| == |PathUp(xn, |B|)|
    requires WalkBoth(h, |A|, xo, ho, |B|, xn, hn, proof) == (MTH(h, A), MTH(h, B))
    requires TreeInputs(h, A, |A|) <= S && TreeInputs(h, B, |B|) <= S && CollisionFree(h, S)
    requires WalkInputs(h, |A|, xo, ho, |B|, xn, hn, proof) <= S
    ensures ho == NodeHash(h, A, xo, |A|) && hn == NodeHash(h, B, xn, |B|)
    ensures proof == NodeHashes(h, B, PathUp(xn, |B|), |B|)
    ensures Lo(xn) <= |A| && A[..Lo(xn)] == B[..Lo(xn)]
    decreases |proof|
  {
    hide Lo, Top, LeftHand, Root, Parent, LeftOf, RightOf, NodeHash, MTH, SiblingOf;
    var m, n := |A|, |B|;
    LoInTree(xo, m);
    if xn == Root(n) {
      PairedAtRoot(m, xo, n);
      RootCovers(n);
      NodeHashRoot(h, A, m);
      NodeHashRoot(h, B, n);
      assert A[..m] == A && B[..n] == B;
    } else if IsLeftIn(xn, n) {
      StepFromLeft(m, xo, n, xn);
      ParentOf(xn, n);
      WalkSound(h, A, xo, ho, B, Parent(xn, n), Combine(h, xn, n, hn, proof[0]), proof[1..], S);
      StepSound(h, B, xn, n, hn, proof[0], S);
    } else {
      var p := Parent(xn, n);
      StepFromRight(m, xo, n, xn);
      WalkSound(h, A, p, Combine(h, xo, m, ho, proof[0]),
                B, p, Combine(h, xn, n, hn, proof[0]), proof[1..], S);
      StepSound(h, B, xn, n, hn, proof[0], S);
      StepSound(h, A, xo, m, ho, proof[0], S);
      var s := LeftOf(p);
      SameHashSameLeaves(h, A, m, s, B, n, s, S);
      Glue(A, B, 0, Lo(p), Lo(xn));
    }
  }

  /** Every string hashed by either tree or by the verifier. */
  ghost function VerifierInputs(h: HashFn, A: seq<Bytes>, B: seq<Bytes>, proof: seq<Digest>): set<Bytes>
    requires 0 < |A| <= |B| && |proof| == |ConsistencyNodes(|A|, |B|)|
  {
    WalkLength(|A|, |B|);
    var m, n := |A|, |B|;
    var x := WalkStart(m, n);
    var (start, rest) := if StartsAtOldRoot(m, n) then (MTH(h, A), proof) else (proof[0], proof[1..]);
    TreeInputs(h, A, m) + TreeInputs(h, B, n) + WalkInputs(h, m, x, start, n, x, start, rest)
  }

  /** Soundness: whatever digests the proof holds, if it is accepted for the roots of `A` and `B`
      then `A` is a prefix of `B` and the proof is PROOF(|A|, B), unless two of the strings hashed
      collide. */
  lemma ConsistencySound(h: HashFn, A: seq<Bytes>, B: seq<Bytes>, proof: seq<Digest>)
    requires 0 < |A| <= |B| && Accepts(h, MTH(h, A), |A|, MTH(h, B), |B|, proof)
    requires CollisionFree(h, VerifierInputs(h, A, B, proof))
    ensures A <= B && proof == PROOF(h, |A|, B)
  {
    hide MTH, WalkStart, StartsAtOldRoot, PathUp, WalkBoth, WalkInputs, ConsistencyNodes, TreeInputs;
    hide CollisionFree, NodeHash, NodeHashes, PROOF, Root, Lo, Top, InTree, Hi;
    var m, n := |A|, |B|;
    WalkLength(m, n);
    if StartsAtOldRoot(m, n) {
      WalkFromStart(h, A, B, MTH(h, A), proof, VerifierInputs(h, A, B, proof));
      HonestProof(h, B, m, MTH(h, A), proof);
    } else {
      WalkFromStart(h, A, B, proof[0], proof[1..], VerifierInputs(h, A, B, proof));
      HonestProof(h, B, m, proof[0], proof[1..]);
      assert proof == [proof[0]] + proof[1..];
    }
  }

  /** The whole walk: both trees share the start node, and all leaves up to its end agree. */
  lemma WalkFromStart(h: HashFn, A: seq<Bytes>, B: seq<Bytes>, start: Digest, rest: seq<Digest>, S: set<Bytes>)
    requires 0 < |A| <= |B| && |rest| == |PathUp(WalkStart(|A|, |B|), |B|)|
    requires var x := WalkStart(|A|, |B|);
             WalkBoth(h, |A|, x, start, |B|, x, start, rest) == (MTH(h, A), MTH(h, B))
             && WalkInputs(h, |A|, x, start, |B|, x, start, rest) <= S
    requires TreeInputs(h, A, |A|) <= S && TreeInputs(h, B, |B|) <= S && CollisionFree(h, S)
    ensures A <= B && start == NodeHash(h, B, WalkStart(|A|, |B|), |B|)
    ensures rest == NodeHashes(h, B, PathUp(WalkStart(|A|, |B|), |B|), |B|)
  {
    hide Lo, Top, LeftHand, Root, MTH, StartNode, IsPow2, PathUp, WalkBoth, WalkInputs, NodeHash;
    hide TreeInputs, CollisionFree, NodeHashes;
    var m, n := |A|, |B|;
    var x := WalkStart(m, n);
    WalkSound(h, A, x, start, B, x, start, rest, S);
    assert m == n || Top(x) <= m by { if m < n { StartNodeBlock(m); } }
    SameHashSameLeaves(h, A, m, x, B, n, x, S);
    Glue(A, B, 0, Lo(x), m);
  }

  /** The start node and the siblings above it, with their true hashes, are PROOF(m, B). */
  lemma HonestProof(h: HashFn, B: seq<Bytes>, m: nat, start: Digest, rest: seq<Digest>)
    requires 0 < m <= |B| && start == NodeHash(h, B, WalkStart(m, |B|), |B|)
    requires rest == NodeHashes(h, B, PathUp(WalkStart(m, |B|), |B|), |B|)
    ensures (if StartsAtOldRoot(m, |B|) then rest else [start] + rest) == PROOF(h, m, B)
  {
    hide WalkStart, StartsAtOldRoot, ConsistencyNodes, PathUp, NodeHash, PROOF, Root, Lo, Top, InTree, Hi, NodeHashes;
    var n := |B|;
    WalkLength(m, n);
    ConsistencyPath(h, B, m, n);
    assert B[..n] == B;
    if StartsAtOldRoot(m, n) {
      assert ConsistencyNodes(m, n) == PathUp(WalkStart(m, n), n);
    } else {
      NodeHashesCons(h, B, WalkStart(m, n), PathUp(WalkStart(m, n), n), n);
    }
  }

  /** The verifier accepts exactly the honest proofs of exactly the prefixes. */
  lemma ConsistencyExact(h: HashFn, A: seq<Bytes>, B: seq<Bytes>, proof: seq<Digest>)
    requires 0 < |A| <= |B| && |proof| == |ConsistencyNodes(|A|, |B|)|
    requires CollisionFree(h, VerifierInputs(h, A, B, proof))
    ensures Accepts(h, MTH(h, A), |A|, MTH(h, B), |B|, proof) <==> A <= B && proof == PROOF(h, |A|, B)
  {
    hide Accepts, MTH, PROOF, ConsistencyNodes, VerifierInputs, CollisionFree;
    if Accepts(h, MTH(h, A), |A|, MTH(h, B), |B|, proof) { ConsistencySound(h, A, B, proof); }
    if A <= B {
      ConsistencyComplete(h, B, |A|, |B|);
      assert B[..|A|] == A && B[..|B|] == B;
    }
  }

  /** The same on the bytes of a proof: for the roots of two trees, whatever sizes and bytes are given,
      accepted are exactly the bytes of PROOF for a prefix. */
  lemma ConsistencyBytesExact(h: HashFn, A: seq<Bytes>, B: seq<Bytes>, proof: Bytes)
    requires 0 < |A| <= |B|
    requires |proof| == 32 * |ConsistencyNodes(|A|, |B|)| ==>
               CollisionFree(h, VerifierInputs(h, A, B, Chunks(proof)))
    ensures |proof| % 32 == 0 && Accepts(h, MTH(h, A), |A|, MTH(h, B), |B|, Chunks(proof)) <==>
              A <= B && proof == Flat(PROOF(h, |A|, B))
  {
    hide Accepts, MTH, PROOF, ConsistencyNodes, VerifierInputs, CollisionFree, Flat, Chunks;
    ChunksOfFlat(PROOF(h, |A|, B));
    ConsistencyPath(h, B, |A|, |B|);
    assert B[..|B|] == B;
    AcceptsLength(h, MTH(h, A), |A|, MTH(h, B), |B|, proof);
    if |proof| == 32 * |ConsistencyNodes(|A|, |B|)| {
      FlatOfChunks(proof);
      ConsistencyExact(h, A, B, Chunks(proof));
    }
  }

  lemma AcceptsLength(h: HashFn, oldRoot: Digest, m: nat, newRoot: Digest, n: nat, proof: Bytes)
    requires 0 < m <= n
    ensures |proof| % 32 == 0 && Accepts(h, oldRoot, m, newRoot, n, Chunks(proof)) ==>
              |proof| == 32 * |ConsistencyNodes(m, n)|
  {
    hide Chunks, ConsistencyNodes, WalkStart, WalkBoth, PathUp, StartsAtOldRoot;
  }

  /** Whatever the hash, one old root and proof are accepted for at most one new root; where the proof
      carries the start hash, also for at most one old root. */
  lemma OneNewRoot(h: HashFn, m: nat, n: nat, proof: seq<Digest>, oldA: Digest, newA: Digest, oldB: Digest, newB: Digest)
    requires 0 < m <= n && Accepts(h, oldA, m, newA, n, proof) && Accepts(h, oldB, m, newB, n, proof)
    requires oldA == oldB || !StartsAtOldRoot(m, n)
    ensures oldA == oldB && newA == newB
  {
    hide ConsistencyNodes, WalkStart, WalkBoth, PathUp, StartsAtOldRoot;
    WalkLength(m, n);
  }
}
