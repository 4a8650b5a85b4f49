/** Versioned reads: `get_node_hash_at_version` with its three probes and its cache. */
module TreeReads {
  import opened TreeMath
  import opened Rfc6962
  import opened Consistency
  import opened LogTypes
  import opened TreeStore
  import opened TreeRuns

  // ---------------------------------------------------------------- the three probes

  function DigestOf(v: Value): Outcome<Digest> {
    if v.Hash? then Ok(v.digest) else Err(EncodingError)
  }

  /** `get_node_hash_at_version` past the cache. The exact key, the latest-version pointer and the
      pointed-to node are read one after the other, from possibly different stores. */
  function ReadNode(exact: Db, pointer: Db, final: Db, x: nat, v: nat): Outcome<Digest> {
    if VNodeKey(x, v) in exact then DigestOf(exact[VNodeKey(x, v)])
    else if NVerKey(x) !in pointer then Ok(ZERO_DIGEST)
    else if !pointer[NVerKey(x)].Num? then Err(EncodingError)
    else
      var latest := pointer[NVerKey(x)].n;
      if latest > v then Ok(ZERO_DIGEST)
      else if VNodeKey(x, latest) !in final then
        Err(InconsistentState("latest version pointer without data"))
      else DigestOf(final[VNodeKey(x, latest)])
  }

  lemma LaterHash(h: HashFn, s: TreeState, t: TreeState, x: nat, v: nat)
    requires s.leaves <= t.leaves && InTree(x, v) && v <= |s.leaves|
    ensures NodeHash(h, s.leaves, x, v) == NodeHash(h, t.leaves, x, v)
  {
    hide NodeHash;
    assert s.leaves + t.leaves[|s.leaves|..] == t.leaves;
    NodeHashAppend(h, s.leaves, t.leaves[|s.leaves|..], x, v);
  }

  /** A node that was not written at the published size `v` is complete, and its pointer names an
      earlier size from which it can be read, now and later. */
  lemma PointerOfComplete(h: HashFn, s: TreeState, t: TreeState, u: TreeState, x: nat, v: nat)
    requires Inv(h, s) && Inv(h, t) && Inv(h, u) && Later(s, t) && Later(t, u)
    requires v in s.published && InTree(x, v) && VNodeKey(x, v) !in s.db
    ensures NVerKey(x) in t.db && t.db[NVerKey(x)].Num? && t.db[NVerKey(x)].n < v
    ensures var w := t.db[NVerKey(x)].n; VNodeKey(x, w) in u.db && InTree(x, w) && Top(x) <= w
  {
    hide Lo, Top, TileKeys, LeafKeys;
    LoInTree(x, v);
    var w :| w in s.published && w < v && !(w < Hi(x, v));
    BlockInTree(x, |t.leaves|);
    assert LatestVersion(t, x);
    var latest := t.db[NVerKey(x)].n;
    assert latest <= w;
    assert Touched(x, latest, u.published);
  }

  /** The answer for a published size: the node's hash at that size, whatever batches commit
      between the three probes. */
  lemma ReadPublished(h: HashFn, s: TreeState, t: TreeState, u: TreeState, x: nat, v: nat)
    requires Inv(h, s) && Inv(h, t) && Inv(h, u) && Later(s, t) && Later(t, u)
    requires v in s.published && InTree(x, v)
    ensures v <= |s.leaves|
    ensures ReadNode(s.db, t.db, u.db, x, v) == Ok(NodeHash(h, s.leaves, x, v))
  {
    hide Lo, Top, TileKeys, LeafKeys, VersionKeys, Touched, NodeHash;
    if VNodeKey(x, v) !in s.db {
      PointerOfComplete(h, s, t, u, x, v);
      var w := t.db[NVerKey(x)].n;
      SameRange(h, u.leaves, x, w, v);
      assert s.leaves <= u.leaves;
      LaterHash(h, s, u, x, v);
    }
  }

  lemma SameRange(h: HashFn, D: seq<Bytes>, x: nat, v: nat, w: nat)
    requires Top(x) <= v <= |D| && Top(x) <= w <= |D|
    ensures InTree(x, v) && InTree(x, w) && NodeHash(h, D, x, v) == NodeHash(h, D, x, w)
  {
    hide Lo, Top, MTH;
    BlockInTree(x, v);
    BlockInTree(x, w);
  }

  /** A complete node can be read under any size at or past the committed one, so also under the
      size of a batch still being prepared. */
  lemma ReadComplete(h: HashFn, s: TreeState, x: nat, v: nat)
    requires Inv(h, s) && Top(x) <= |s.leaves| <= v
    ensures InTree(x, |s.leaves|)
    ensures ReadNode(s.db, s.db, s.db, x, v) == Ok(NodeHash(h, s.leaves, x, |s.leaves|))
  {
    hide Lo, Top, TileKeys, LeafKeys, Touched, NodeHash;
    BlockInTree(x, |s.leaves|);
    if VNodeKey(x, v) !in s.db {
      assert LatestVersion(s, x);
      var w := s.db[NVerKey(x)].n;
      assert VNodeKey(x, w) in s.db;
      SameRange(h, s.leaves, x, w, |s.leaves|);
    }
  }

  /** `get_node_hash`: the hash of a node of the committed tree. */
  function ReadLatest(db: Db, x: nat): Outcome<Digest> {
    if NVerKey(x) !in db then Ok(ZERO_DIGEST)
    else if !db[NVerKey(x)].Num? then Err(EncodingError)
    else ReadNode(db, db, db, x, db[NVerKey(x)].n)
  }

  lemma ReadLatestCorrect(h: HashFn, s: TreeState, x: nat)
    requires Inv(h, s)
    ensures ReadLatest(s.db, x)
         == Ok(if InTree(x, |s.leaves|) then NodeHash(h, s.leaves, x, |s.leaves|) else ZERO_DIGEST)
  {
    hide Lo, Top, TileKeys, LeafKeys, Touched, NodeHash;
    if InTree(x, |s.leaves|) {
      assert LatestVersion(s, x);
      var w := s.db[NVerKey(x)].n;
      ReadPublished(h, s, s, s, x, w);
      if w != |s.leaves| { SameRange(h, s.leaves, x, w, |s.leaves|); }
    }
  }

  /** A node that the requested tree does not have is read as the zero digest, at every size. */
  lemma ReadOutside(h: HashFn, s: TreeState, x: nat, v: nat)
    requires Inv(h, s) && !InTree(x, v)
    ensures ReadNode(s.db, s.db, s.db, x, v) == Ok(ZERO_DIGEST)
  {
    hide Lo, Top, TileKeys, LeafKeys, Touched, NodeHash;
    if NVerKey(x) in s.db { assert LatestVersion(s, x); }
  }

  /** Past the committed size a read gives what the committed tree has. */
  lemma ReadAhead(h: HashFn, s: TreeState, x: nat, v: nat)
    requires Inv(h, s) && |s.leaves| < v
    ensures ReadNode(s.db, s.db, s.db, x, v)
         == Ok(if InTree(x, |s.leaves|) then NodeHash(h, s.leaves, x, |s.leaves|) else ZERO_DIGEST)
  {
    hide Lo, Top, TileKeys, LeafKeys, Touched, NodeHash;
    if InTree(x, |s.leaves|) {
      assert LatestVersion(s, x);
      var w := s.db[NVerKey(x)].n;
      assert VNodeKey(x, w) in s.db;
      if w != |s.leaves| { SameRange(h, s.leaves, x, w, |s.leaves|); }
    }
  }

  /** The node was complete at some published size below `v`. */
  ghost predicate CompleteBefore(s: TreeState, x: nat, v: nat) {
    exists w :: w in s.published && Top(x) <= w < v
  }

  /** At a size between published ones a read gives the hash of a node that was complete before, and the
      zero digest for every other node. */
  lemma ReadUnpublished(h: HashFn, s: TreeState, x: nat, v: nat)
    requires Inv(h, s) && v <= |s.leaves| && v !in s.published && InTree(x, v)
    ensures ReadNode(s.db, s.db, s.db, x, v)
         == Ok(if CompleteBefore(s, x, v) then NodeHash(h, s.leaves, x, v) else ZERO_DIGEST)
  {
    hide Lo, Top, TileKeys, LeafKeys, NodeHash;
    LoInTree(x, v);
    assert LatestVersion(s, x);
    var latest := s.db[NVerKey(x)].n;
    if CompleteBefore(s, x, v) {
      var w :| w in s.published && Top(x) <= w < v;
      assert latest <= w;
      assert VNodeKey(x, latest) in s.db;
      SameRange(h, s.leaves, x, latest, v);
    } else {
      assert latest > v;
    }
  }

  // ---------------------------------------------------------------- the node cache

  type Cache = map<(nat, nat), Digest>

  /** Every cached answer that a read at a published size can meet, now or later, is right. */
  ghost predicate CacheOk(h: HashFn, cache: Cache, s: TreeState) {
    forall x: nat, v: nat | (x, v) in cache && InTree(x, v) ::
      (v in s.published ==> v <= |s.leaves| && cache[(x, v)] == NodeHash(h, s.leaves, x, v))
      && (v > |s.leaves| ==>
            Top(x) <= |s.leaves| && InTree(x, |s.leaves|)
            && cache[(x, v)] == NodeHash(h, s.leaves, x, |s.leaves|))
  }

  /** A read with the cache: the answer and the cache afterwards. */
  function CachedRead(cache: Cache, db: Db, x: nat, v: nat): (Outcome<Digest>, Cache) {
    if (x, v) in cache then (Ok(cache[(x, v)]), cache)
    else
      var r := ReadNode(db, db, db, x, v);
      (r, if r.Ok? then cache[(x, v) := r.value] else cache)
  }

  /** The reads that leave the cache right: at most the committed size, or of a complete node, or
      of a node the requested tree does not have. */
  predicate SafeRead(size: nat, x: nat, v: nat) {
    v <= size || Top(x) <= size || !InTree(x, v)
  }

  /** A safe read keeps the cache right, and at a published size it answers the node's hash. */
  lemma SafeReadKeepsCache(h: HashFn, cache: Cache, s: TreeState, x: nat, v: nat)
    requires Inv(h, s) && CacheOk(h, cache, s) && SafeRead(|s.leaves|, x, v)
    ensures CacheOk(h, CachedRead(cache, s.db, x, v).1, s)
    ensures v in s.published && InTree(x, v) ==>
              v <= |s.leaves| && CachedRead(cache, s.db, x, v).0 == Ok(NodeHash(h, s.leaves, x, v))
    ensures Top(x) <= |s.leaves| < v && InTree(x, v) ==>
              InTree(x, |s.leaves|)
              && CachedRead(cache, s.db, x, v).0 == Ok(NodeHash(h, s.leaves, x, |s.leaves|))
  {
    hide Lo, Top, Inv, NodeHash, ReadNode;
    if InTree(x, v) {
      if v in s.published { ReadPublished(h, s, s, s, x, v); }
      if Top(x) <= |s.leaves| < v { ReadComplete(h, s, x, v); }
    }
  }

  /** A complete node can be read under any size past the committed one, whatever batches commit
      between the three probes. */
  lemma ReadCompleteLater(h: HashFn, s: TreeState, t: TreeState, u: TreeState, x: nat, v: nat)
    requires Inv(h, s) && Inv(h, t) && Inv(h, u) && Later(s, t) && Later(t, u)
    requires Top(x) <= |s.leaves| < v
    ensures InTree(x, |s.leaves|)
    ensures ReadNode(s.db, t.db, u.db, x, v) == Ok(NodeHash(h, s.leaves, x, |s.leaves|))
  {
    hide Lo, Top, TileKeys, LeafKeys, NodeHash;
    BlockInTree(x, |s.leaves|);
    BlockInTree(x, |t.leaves|);
    assert LatestVersion(t, x);
    var w := t.db[NVerKey(x)].n;
    assert w <= |s.leaves|;
    assert Touched(x, w, u.published);
    SameRange(h, u.leaves, x, w, |s.leaves|);
    assert s.leaves <= u.leaves;
    LaterHash(h, s, u, x, |s.leaves|);
  }

  /** A safe read keeps the cache right even if batches commit between its probes, and between the
      last probe and the insertion of its answer. */
  lemma InterleavedRead(h: HashFn, cache: Cache, s: TreeState, t: TreeState, u: TreeState, w: TreeState,
                        x: nat, v: nat)
    requires Inv(h, s) && Inv(h, t) && Inv(h, u) && Inv(h, w) && Later(s, t) && Later(t, u) && Later(u, w)
    requires CacheOk(h, cache, w) && SafeRead(|s.leaves|, x, v)
    ensures var r := ReadNode(s.db, t.db, u.db, x, v);
            r.Ok? ==> CacheOk(h, cache[(x, v) := r.value], w)
  {
    hide Lo, Top, NodeHash, ReadNode, SizeKeys, LeafKeys, NodeKeys, VersionKeys, TileKeys;
    assert s.leaves <= w.leaves && s.published <= w.published;
    if InTree(x, v) {
      if v in s.published {
        ReadPublished(h, s, t, u, x, v);
        LaterHash(h, s, w, x, v);
      } else if v > |s.leaves| {
        ReadCompleteLater(h, s, t, u, x, v);
        LaterHash(h, s, w, x, |s.leaves|);
        var to := if v <= |w.leaves| then v else |w.leaves|;
        SameRange(h, w.leaves, x, |s.leaves|, to);
      }
    }
  }

  /** Batches and failed writes keep the cache right. */
  lemma StepKeepsCache(h: HashFn, cache: Cache, s: TreeState, b: Batch)
    requires PublishedSizes(s) && CacheOk(h, cache, s)
    ensures CacheOk(h, cache, Step(h, s, b))
  {
    hide Lo, Top, NodeHash, BatchPuts;
    var t := Step(h, s, b);
    forall x: nat, v: nat | (x, v) in cache && InTree(x, v)
      ensures v in t.published ==> v <= |t.leaves| && cache[(x, v)] == NodeHash(h, t.leaves, x, v)
      ensures v > |t.leaves| ==>
                Top(x) <= |t.leaves| && InTree(x, |t.leaves|)
                && cache[(x, v)] == NodeHash(h, t.leaves, x, |t.leaves|)
    {
      if v > |s.leaves| {
        LaterHash(h, s, t, x, |s.leaves|);
        SameRange(h, t.leaves, x, |s.leaves|, |t.leaves|);
        if v <= |t.leaves| { SameRange(h, t.leaves, x, |s.leaves|, v); }
      } else if v in s.published {
        LaterHash(h, s, t, x, v);
      }
    }
  }

  /** The cache may drop entries at any time. */
  lemma EvictionKeepsCache(h: HashFn, cache: Cache, keep: set<(nat, nat)>, s: TreeState)
    requires CacheOk(h, cache, s)
    ensures CacheOk(h, map k | k in cache && k in keep :: cache[k], s)
  {
    hide Top, NodeHash;
  }
}
