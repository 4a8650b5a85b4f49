/** The hash computation inside `batch_push_with_data`: which old nodes are prefetched, and how each
    new leaf rehashes the right edge of the tree. */
module BatchCompute {
  import opened Bits
  import opened TreeMath
  import opened TreeOps
  import opened Rfc6962
  import opened Inclusion
  import opened Consistency
  import opened LogTypes
  import opened TreeStore
  import opened TreeReads

  type Hashes = map<nat, Digest>

  /** A node that ends at the last of `n` leaves. */
  predicate RightEdge(x: nat, n: nat) { InTree(x, n) && Top(x) >= n }

  /** Aligned blocks are nested or disjoint. */
  lemma {:induction false} Laminar(x: nat, y: nat)
    requires Lo(x) < Lo(y) < Top(x)
    ensures Top(y) <= Top(x)
  {
    hide Lo, Top, LeftHand;
    var u := ViewNode(x);
    var v := ViewNode(y);
    if IsInner(y) { Laminar(u, v); }
  }

  /** Going up along the right edge: always from a right child, past a complete sibling, to the next
      larger node of the edge. */
  lemma EdgeStep(x: nat, n: nat)
    requires RightEdge(x, n) && x != Root(n)
    ensures !IsLeftIn(x, n) && RightEdge(Parent(x, n), n) && Lo(Parent(x, n)) < Lo(x)
    ensures var s := SiblingOf(x, n); s == LeftOf(Parent(x, n)) && Top(s) == Lo(x) < n && Lo(s) < Lo(x)
    ensures forall y | RightEdge(y, n) && Lo(Parent(x, n)) <= Lo(y) < Lo(x) :: y == Parent(x, n)
  {
    hide Lo, Top, LeftHand, Root, Parent, LeftOf, RightOf;
    ParentOnRight(x, n);
    LoInTree(x, n);
    var p := Parent(x, n);
    assert Hi(p, n) == n;
    forall y | RightEdge(y, n) && Lo(p) <= Lo(y) < Lo(x) ensures y == p {
      if Lo(y) == Lo(p) { NodeUnique(y, p, n); } else { Laminar(LeftOf(p), y); }
    }
  }

  lemma NewLeafOnEdge(c: nat)
    ensures RightEdge(2 * c, c + 1) && Lo(2 * c) == c
    ensures forall y | RightEdge(y, c + 1) && Lo(y) >= c :: y == 2 * c
    ensures RightEdge(Root(c + 1), c + 1) && Lo(Root(c + 1)) == 0
  {
    hide Lo, Top, LeftHand, Root;
    LeafNode(c);
    RootCovers(c + 1);
    forall y | RightEdge(y, c + 1) && Lo(y) >= c ensures y == 2 * c {
      LoInTree(y, c + 1);
      NodeUnique(y, 2 * c, c + 1);
    }
  }

  // ---------------------------------------------------------------- prefetching

  /** The siblings met when leaf `t` is appended to a tree of `t` leaves. */
  function LeafPath(t: nat): seq<nat> { PathUp(2 * t, t + 1) }

  /** All old-tree siblings met while appending leaves `from` up to `to` are in `nodes`. */
  predicate CoversSiblings(nodes: set<nat>, from: nat, to: nat) {
    forall t: nat, y: nat | from <= t < to && y in LeafPath(t) && y < 2 * from :: y in nodes
  }

  /** The prefetch loop: the siblings on the path of every new leaf that lie below `2 * start`. */
  method NodesToPrefetch(start: u64, count: u64) returns (nodes: set<nat>)
    requires start + count <= MAX_LEAVES
    ensures CoversSiblings(nodes, start, start + count)
    ensures forall x <- nodes :: x < 2 * start
  {
    hide Lo, Top, LeftHand, Root, Parent, SiblingOf, PathUp;
    nodes := {};
    for i := 0 to count
      invariant CoversSiblings(nodes, start, start + i)
      invariant forall x <- nodes :: x < 2 * start
    {
      var more := SiblingsOnPath(start + i, start);
      nodes := nodes + more;
    }
  }

  /** The inner prefetch loop, for one new leaf. */
  method SiblingsOnPath(t: u64, start: u64) returns (nodes: set<nat>)
    requires start <= t < MAX_LEAVES
    ensures forall y | y in LeafPath(t) && y < 2 * start :: y in nodes
    ensures forall x <- nodes :: x < 2 * start
  {
    hide Lo, Top, LeftHand, Root, Parent, SiblingOf;
    var size := t + 1;
    NewLeafOnEdge(t);
    RootIdxIsRoot(size);
    nodes := {};
    var cur: u64 := 2 * t;
    var root := RootIdx(size);
    while cur != root
      invariant RightEdge(cur, size)
      invariant forall y | y in PathUp(2 * t, size) && y < 2 * start :: y in nodes || y in PathUp(cur, size)
      invariant forall x <- nodes :: x < 2 * start
      decreases Lo(cur)
    {
      EdgeStep(cur, size);
      var sibling := SiblingIdx(cur, size);
      if sibling < start * 2 {
        nodes := nodes + {sibling};
      }
      cur := ParentIdx(cur, size);
    }
  }

  // ---------------------------------------------------------------- rehashing

  /** What `computed_hashes` holds after appending up to `c` leaves of `E`, starting from `from`. */
  ghost predicate Computed(h: HashFn, E: seq<Bytes>, hashes: Hashes, from: nat, c: nat) {
    c <= |E| && hashes.Keys == TouchedNodes(c, from)
    && forall x | x in hashes :: InTree(x, c) && hashes[x] == NodeHash(h, E, x, c)
  }

  /** What `prefetched_nodes` must hold: the hashes of complete nodes of the old tree. */
  ghost predicate Prefetched(h: HashFn, E: seq<Bytes>, nodes: Hashes, from: nat) {
    from <= |E|
    && forall x | x in nodes && InTree(x, from) :: nodes[x] == NodeHash(h, E, x, from)
  }

  /** The state of the inner loop at node `cur`: the edge is rehashed up to and including `cur`. */
  ghost predicate EdgeDone(h: HashFn, E: seq<Bytes>, before: Hashes, hashes: Hashes, cur: nat, n: nat)
    requires n <= |E|
  {
    && (forall x :: x in hashes <==> x in before || (RightEdge(x, n) && Lo(x) >= Lo(cur)))
    && (forall x | RightEdge(x, n) && Lo(x) >= Lo(cur) :: x in hashes && hashes[x] == NodeHash(h, E, x, n))
    && (forall x | x in before && !(RightEdge(x, n) && Lo(x) >= Lo(cur)) :: hashes[x] == before[x])
  }

  lemma EdgeStart(h: HashFn, E: seq<Bytes>, before: Hashes, c: nat)
    requires c < |E|
    ensures EdgeDone(h, E, before, before[2 * c := LeafHash(h, E[c])], 2 * c, c + 1)
  {
    hide Lo, Top, LeftHand, NodeHash;
    NewLeafOnEdge(c);
    NodeHashLeaf(h, E, c, c + 1);
  }

  lemma EdgeNext(h: HashFn, E: seq<Bytes>, before: Hashes, hashes: Hashes, cur: nat, n: nat, d: Digest)
    requires n <= |E| && RightEdge(cur, n) && cur != Root(n) && EdgeDone(h, E, before, hashes, cur, n)
    requires d == NodeHash(h, E, Parent(cur, n), n)
    ensures EdgeDone(h, E, before, hashes[Parent(cur, n) := d], Parent(cur, n), n)
  {
    hide Lo, Top, LeftHand, Root, NodeHash, Parent;
    EdgeStep(cur, n);
  }

  /** The sibling met on the edge is either in `computed_hashes`, with its final hash, or it lies
      wholly in the old tree. */
  lemma SiblingSource(h: HashFn, E: seq<Bytes>, before: Hashes, hashes: Hashes, from: nat, cur: nat, c: nat)
    requires Computed(h, E, before, from, c) && from <= c < |E|
    requires RightEdge(cur, c + 1) && cur != Root(c + 1) && EdgeDone(h, E, before, hashes, cur, c + 1)
    ensures var s := SiblingOf(cur, c + 1);
      InTree(s, c + 1)
      && (s in hashes ==> hashes[s] == NodeHash(h, E, s, c + 1))
      && (s !in hashes ==>
            s < 2 * from && Top(s) <= from && InTree(s, from)
            && NodeHash(h, E, s, from) == NodeHash(h, E, s, c + 1))
  {
    hide Lo, Top, LeftHand, Root, NodeHash, Parent, LeftOf, SiblingOf;
    EdgeStep(cur, c + 1);
    var s := SiblingOf(cur, c + 1);
    BlockInTree(s, c);
    SameRange(h, E, s, c, c + 1);
    if s !in hashes { SameRange(h, E, s, from, c + 1); }
  }

  /** Rehashing the whole edge gives every touched node of the grown tree its hash. */
  lemma EdgeFinish(h: HashFn, E: seq<Bytes>, before: Hashes, hashes: Hashes, from: nat, c: nat)
    requires Computed(h, E, before, from, c) && from <= c < |E|
    requires EdgeDone(h, E, before, hashes, Root(c + 1), c + 1)
    ensures Computed(h, E, hashes, from, c + 1)
  {
    hide Lo, Top, LeftHand, Root, NodeHash;
    NewLeafOnEdge(c);
    forall x: nat
      ensures x in hashes <==> x in TouchedNodes(c + 1, from)
      ensures x in hashes ==> InTree(x, c + 1) && hashes[x] == NodeHash(h, E, x, c + 1)
    {
      if Top(x) <= c {
        BlockInTree(x, c);
        SameRange(h, E, x, c, c + 1);
      } else if InTree(x, c + 1) {
        assert RightEdge(x, c + 1);
      }
    }
    assert hashes.Keys == TouchedNodes(c + 1, from);
  }

  /** One iteration of the item loop: leaf `c` is hashed and the edge above it rehashed. The
      default-hash and re-read branches of the source are dead. */
  method PushLeaf(h: HashFn, before: Hashes, prefetched: Hashes, item: Bytes, c: u64,
                  ghost E: seq<Bytes>, ghost from: nat) returns (hashes: Hashes)
    requires from <= c < |E| <= MAX_LEAVES && item == E[c]
    requires Computed(h, E, before, from, c) && Prefetched(h, E, prefetched, from)
    requires forall y | y in LeafPath(c) && y < 2 * from :: y in prefetched
    ensures Computed(h, E, hashes, from, c + 1)
  {
    hide Lo, Top, LeftHand, Root, NodeHash, Parent, SiblingOf, TouchedNodes, EdgeDone, Computed;
    var n := c + 1;
    NewLeafOnEdge(c);
    RootIdxIsRoot(n);
    NodeHashLeaf(h, E, c, n);
    EdgeStart(h, E, before, c);
    var cur: u64 := 2 * c;
    var root := RootIdx(n);
    var hash: Digest := LeafHash(h, item);
    hashes := before[cur := hash];
    while cur != root
      invariant RightEdge(cur, n) && hash == NodeHash(h, E, cur, n)
      invariant EdgeDone(h, E, before, hashes, cur, n)
      invariant forall y | y in PathUp(cur, n) && y < 2 * from :: y in prefetched
      decreases Lo(cur)
    {
      EdgeStep(cur, n);
      SiblingSource(h, E, before, hashes, from, cur, c);
      var parent: nat := ParentIdx(cur, n);
      var sibling: nat := SiblingIdx(cur, n);
      assert sibling in PathUp(cur, n) && PathUp(parent, n) == PathUp(cur, n)[1..];
      var siblingHash: Digest;
      if sibling in hashes {
        siblingHash := hashes[sibling];
      } else if sibling >= c * 2 {
        assert false;
        siblingHash := ZERO_DIGEST;
      } else if sibling in prefetched {
        siblingHash := prefetched[sibling];
      } else {
        assert false;
        siblingHash := ZERO_DIGEST;
      }
      NodeHashInner(h, E, parent, n);
      ParentOnRight(cur, n);
      var left := IsLeft(cur, n);
      hash := if left then ParentHash(h, hash, siblingHash) else ParentHash(h, siblingHash, hash);
      EdgeNext(h, E, before, hashes, cur, n, hash);
      hashes := hashes[parent := hash];
      cur := parent;
    }
    EdgeFinish(h, E, before, hashes, from, c);
  }

  /** The item loop of `batch_push_with_data`: the leaf records to write, and the hash of every node
      of the final tree that covers a new leaf. */
  method PushItems(h: HashFn, items: seq<Bytes>, start: u64, prefetched: Hashes, ghost E: seq<Bytes>)
    returns (hashes: Hashes, leafPuts: Db)
    requires start + |items| == |E| <= MAX_LEAVES && E[start..] == items
    requires Prefetched(h, E, prefetched, start)
    requires CoversSiblings(prefetched.Keys, start, |E|)
    ensures Computed(h, E, hashes, start, |E|)
    ensures leafPuts == LeafPuts(E, start)
  {
    hide Lo, Top, NodeHash, LeafPath, Computed, Prefetched;
    hashes, leafPuts := map[], map[];
    NothingComputed(h, E, start);
    for j := 0 to |items|
      invariant Computed(h, E, hashes, start, start + j)
      invariant leafPuts == map i: nat | start <= i < start + j :: LeafKey(i) := Raw(E[i])
    {
      var c := start + j;
      assert items[j] == E[c];
      leafPuts := leafPuts[LeafKey(c) := Raw(items[j])];
      hashes := PushLeaf(h, hashes, prefetched, items[j], c, E, start);
    }
  }

  lemma NothingComputed(h: HashFn, E: seq<Bytes>, from: nat)
    requires from <= |E|
    ensures Computed(h, E, map[], from, from)
  {
    hide Lo, Top;
  }
}
