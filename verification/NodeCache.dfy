/** Which reads the node cache of the tree survives: exactly those whose answer cannot change before
    the size they ask for is published. */
module NodeCache {
  import opened TreeMath
  import opened Rfc6962
  import opened Inclusion
  import opened ConsistencyProofs
  import opened LogTypes
  import opened TreeStore
  import opened TreeRuns
  import opened TreeReads

  /** At every published size every node is answered with its hash at that size. */
  ghost predicate AnswersRight(h: HashFn, cache: Cache, s: TreeState) {
    forall x: nat, v: nat | v in s.published && InTree(x, v) ::
      v <= |s.leaves| && CachedRead(cache, s.db, x, v).0 == Ok(NodeHash(h, s.leaves, x, v))
  }

  /** The cache answers right now and after every further run of batches. */
  ghost predicate RightForever(h: HashFn, cache: Cache, s: TreeState) {
    forall batches: seq<Batch> | Legal(batches) :: AnswersRight(h, cache, Run(h, s, batches))
  }

  lemma {:induction false} RunKeepsCache(h: HashFn, cache: Cache, s: TreeState, batches: seq<Batch>)
    requires Inv(h, s) && Legal(batches) && CacheOk(h, cache, s)
    ensures CacheOk(h, cache, Run(h, s, batches))
    decreases |batches|
  {
    hide Inv, Step, NoTreeKeys, CacheOk, PublishedSizes;
    if batches != [] {
      StepKeepsInv(h, s, batches[0]);
      assert PublishedSizes(s) by { SizesOf(h, s); }
      StepKeepsCache(h, cache, s, batches[0]);
      RunKeepsCache(h, cache, Step(h, s, batches[0]), batches[1..]);
    }
  }

  lemma SizesOf(h: HashFn, s: TreeState)
    requires Inv(h, s)
    ensures PublishedSizes(s)
  {
    hide SizeKeys, LeafKeys, NodeKeys, VersionKeys, TileKeys;
  }

  /** The cache invariant is enough: such a cache answers right for ever. */
  lemma OkIsRight(h: HashFn, cache: Cache, s: TreeState)
    requires Inv(h, s) && CacheOk(h, cache, s)
    ensures RightForever(h, cache, s)
  {
    hide Inv, CacheOk, Run, NodeHash, InTree, CachedRead, SafeRead;
    forall batches: seq<Batch> | Legal(batches) ensures AnswersRight(h, cache, Run(h, s, batches)) {
      var t := Run(h, s, batches);
      RunKeepsInv(h, s, batches);
      RunKeepsCache(h, cache, s, batches);
      SizesOf(h, t);
      forall x: nat, v: nat | v in t.published && InTree(x, v)
        ensures v <= |t.leaves| && CachedRead(cache, t.db, x, v).0 == Ok(NodeHash(h, t.leaves, x, v))
      {
        assert SafeRead(|t.leaves|, x, v) by { PublishedSizeIsSafe(|t.leaves|, x, v); }
        SafeReadKeepsCache(h, cache, t, x, v);
      }
    }
  }

  lemma PublishedSizeIsSafe(size: nat, x: nat, v: nat)
    requires v <= size
    ensures SafeRead(size, x, v)
  {
    hide Top;
  }

  /** What a safe read answers is the node's hash at the size it asks for, in every later state in
      which that size is published. */
  lemma SafeAnswer(h: HashFn, s: TreeState, t: TreeState, x: nat, v: nat)
    requires Inv(h, s) && Inv(h, t) && Later(s, t) && SafeRead(|s.leaves|, x, v)
    requires v in t.published && InTree(x, v)
    ensures v <= |t.leaves| && ReadNode(s.db, s.db, s.db, x, v) == Ok(NodeHash(h, t.leaves, x, v))
  {
    hide Lo, Top, NodeHash, ReadNode, SizeKeys, LeafKeys, NodeKeys, VersionKeys, TileKeys;
    if v in s.published {
      ReadPublished(h, s, s, s, x, v);
      LaterHash(h, s, t, x, v);
    } else {
      ReadComplete(h, s, x, v);
      LaterHash(h, s, t, x, |s.leaves|);
      SameRange(h, t.leaves, x, |s.leaves|, v);
    }
  }

  /** A safe read leaves a cache that answers right for ever, if it did before. */
  lemma SafeReadStaysRight(h: HashFn, cache: Cache, s: TreeState, x: nat, v: nat)
    requires Inv(h, s) && RightForever(h, cache, s) && SafeRead(|s.leaves|, x, v)
    ensures RightForever(h, CachedRead(cache, s.db, x, v).1, s)
  {
    hide Inv, Run, NodeHash, InTree, ReadNode, SafeRead, Legal, Later;
    var c := CachedRead(cache, s.db, x, v).1;
    forall batches: seq<Batch> | Legal(batches) ensures AnswersRight(h, c, Run(h, s, batches)) {
      var t := Run(h, s, batches);
      RunKeepsInv(h, s, batches);
      assert AnswersRight(h, cache, t);
      if v in t.published && InTree(x, v) { SafeAnswer(h, s, t, x, v); }
    }
  }

  // ---------------------------------------------------------------- the other reads

  /** Two ways to go on to `v` leaves that differ below node `x`, without a collision between the
      strings the two trees hash. */
  ghost predicate Apart(h: HashFn, D: seq<Bytes>, a: seq<Bytes>, b: seq<Bytes>, x: nat, v: nat) {
    |D| + |a| == v && |D| + |b| == v && InTree(x, v) && Lo(x) <= Hi(x, v)
    && (D + a)[Lo(x)..Hi(x, v)] != (D + b)[Lo(x)..Hi(x, v)]
    && CollisionFree(h, TreeInputs(h, D + a, v) + TreeInputs(h, D + b, v))
  }

  /** For every unsafe read there are such ways, up to the collisions. */
  lemma WaysToGoOn(D: seq<Bytes>, x: nat, v: nat)
    requires !SafeRead(|D|, x, v)
    ensures var a := seq(v - |D|, _ => [0]); var b := seq(v - |D|, _ => [1]);
            Lo(x) < Hi(x, v) <= v && (D + a)[Lo(x)..Hi(x, v)] != (D + b)[Lo(x)..Hi(x, v)]
  {
    hide Lo, Top;
    LoInTree(x, v);
    var a: seq<Bytes>, b: seq<Bytes> := seq(v - |D|, _ => [0]), seq(v - |D|, _ => [1]);
    var last := Hi(x, v) - 1;
    assert (D + a)[Lo(x)..Hi(x, v)][last - Lo(x)] == (D + a)[last] == [0];
    assert (D + b)[Lo(x)..Hi(x, v)][last - Lo(x)] == (D + b)[last] == [1];
  }

  /** The hash of the node differs between the two trees. */
  lemma ApartHashes(h: HashFn, D: seq<Bytes>, a: seq<Bytes>, b: seq<Bytes>, x: nat, v: nat)
    requires Apart(h, D, a, b, x, v)
    ensures NodeHash(h, D + a, x, v) != NodeHash(h, D + b, x, v)
  {
    hide Lo, Top, NodeHash, TreeInputs, CollisionFree;
    if NodeHash(h, D + a, x, v) == NodeHash(h, D + b, x, v) {
      SameHashSameLeaves(h, D + a, v, x, D + b, v, x, TreeInputs(h, D + a, v) + TreeInputs(h, D + b, v));
    }
  }

  /** An unsafe read caches some answer. */
  lemma UnsafeReadIsCached(h: HashFn, cache: Cache, s: TreeState, x: nat, v: nat)
    requires Inv(h, s) && (x, v) !in cache && !SafeRead(|s.leaves|, x, v)
    ensures (x, v) in CachedRead(cache, s.db, x, v).1
  {
    hide Lo, Top, TileKeys, LeafKeys, Touched, NodeHash;
    if NVerKey(x) in s.db {
      assert LatestVersion(s, x);
      assert VNodeKey(x, s.db[NVerKey(x)].n) in s.db;
    }
  }

  /** After one of the two batches the cached answer is wrong: the size is published, and the node is
      answered with something that is not its hash. */
  lemma UnsafeReadSpoilsCache(h: HashFn, cache: Cache, s: TreeState, x: nat, v: nat, a: seq<Bytes>, b: seq<Bytes>)
    requires Inv(h, s) && (x, v) !in cache && !SafeRead(|s.leaves|, x, v) && Apart(h, s.leaves, a, b, x, v)
    ensures var c := CachedRead(cache, s.db, x, v).1;
            var t := Step(h, s, Batch(a, [], true)); var u := Step(h, s, Batch(b, [], true));
            v in t.published && |t.leaves| == v && v in u.published && |u.leaves| == v
            && (CachedRead(c, t.db, x, v).0 != Ok(NodeHash(h, t.leaves, x, v))
                || CachedRead(c, u.db, x, v).0 != Ok(NodeHash(h, u.leaves, x, v)))
  {
    hide Inv, Top, NodeHash, ReadNode, BatchPuts, Apart;
    assert |s.leaves| + |a| == v && |s.leaves| + |b| == v by { ApartSizes(h, s.leaves, a, b, x, v); }
    UnsafeReadIsCached(h, cache, s, x, v);
    ApartHashes(h, s.leaves, a, b, x, v);
  }

  lemma ApartSizes(h: HashFn, D: seq<Bytes>, a: seq<Bytes>, b: seq<Bytes>, x: nat, v: nat)
    requires Apart(h, D, a, b, x, v)
    ensures |D| + |a| == v && |D| + |b| == v
  {}

  /** Exactly the safe reads leave a cache that answers right at every published size for ever. For
      the other reads one of two batches that do not collide shows a wrong answer. */
  lemma CacheKeptIffSafe(h: HashFn, cache: Cache, s: TreeState, x: nat, v: nat, a: seq<Bytes>, b: seq<Bytes>)
    requires Inv(h, s) && RightForever(h, cache, s) && (x, v) !in cache
    requires !SafeRead(|s.leaves|, x, v) ==> Apart(h, s.leaves, a, b, x, v)
    ensures RightForever(h, CachedRead(cache, s.db, x, v).1, s) <==> SafeRead(|s.leaves|, x, v)
  {
    hide Inv, Apart, NodeHash, ReadNode, Run, Step, AnswersRight, CachedRead;
    if SafeRead(|s.leaves|, x, v) {
      SafeReadStaysRight(h, cache, s, x, v);
    } else {
      UnsafeReadSpoilsCache(h, cache, s, x, v, a, b);
      var c := CachedRead(cache, s.db, x, v).1;
      if RightForever(h, c, s) {
        AnswerAfter(h, c, s, a, x, v);
        AnswerAfter(h, c, s, b, x, v);
      }
    }
  }

  /** A cache that is right for ever is right after one more batch. */
  lemma AnswerAfter(h: HashFn, c: Cache, s: TreeState, items: seq<Bytes>, x: nat, v: nat)
    requires RightForever(h, c, s) && InTree(x, v)
    ensures var t := Step(h, s, Batch(items, [], true));
            v in t.published ==>
              v <= |t.leaves| && CachedRead(c, t.db, x, v).0 == Ok(NodeHash(h, t.leaves, x, v))
  {
    hide NodeHash, ReadNode, InTree, CachedRead, BatchPuts;
    var one := Batch(items, [], true);
    assert Legal([one]);
    assert Run(h, s, [one]) == Step(h, s, one) by {
      assert [one][1..] == [];
      assert Run(h, Step(h, s, one), []) == Step(h, s, one);
    }
    assert AnswersRight(h, c, Run(h, s, [one]));
  }

  /** Reading leaf 0 under size 1 before it exists hides it once it does. */
  lemma EarlyReadHidesLeaf(h: HashFn, d: Bytes)
    requires LeafHash(h, d) != ZERO_DIGEST
    ensures var cache := CachedRead(map[], EMPTY.db, 0, 1).1;
            var s := Step(h, EMPTY, Batch([d], [], true));
            1 in s.published && InTree(0, 1)
            && CachedRead(cache, s.db, 0, 1).0 == Ok(ZERO_DIGEST)
            && CachedRead(map[], s.db, 0, 1).0 == Ok(LeafHash(h, d))
  {
    hide Inv, BatchPuts;
    var s := Step(h, EMPTY, Batch([d], [], true));
    EmptyInv(h);
    StepKeepsInv(h, EMPTY, Batch([d], [], true));
    ReadPublished(h, s, s, s, 0, 1);
    NodeHashLeaf(h, s.leaves, 0, 1);
  }
}
