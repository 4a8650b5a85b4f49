/** The store invariant over all runs of `batch_push_with_data`. */
module TreeRuns {
  import opened TreeMath
  import opened Rfc6962
  import opened Consistency
  import opened LogTypes
  import opened TreeStore

  // ---------------------------------------------------------------- every batch keeps the invariant

  lemma ExtraKeys(pairs: seq<(Key, Value)>)
    requires NoTreeKeys(pairs)
    ensures forall k | k in Puts(pairs) :: !IsTreeKey(k)
  {
    if pairs != [] { ExtraKeys(pairs[..|pairs| - 1]); }
  }

  lemma LeafPutsAt(D: seq<Bytes>, from: nat, k: Key)
    requires from <= |D|
    ensures k in LeafPuts(D, from) <==> k.LeafKey? && from <= k.i < |D|
    ensures k in LeafPuts(D, from) ==> LeafPuts(D, from)[k] == Raw(D[k.i])
  {}

  lemma NodePutsAt(h: HashFn, D: seq<Bytes>, from: nat, k: Key)
    ensures k in NodePuts(h, D, from) <==> k.VNodeKey? && k.v == |D| && k.x in TouchedNodes(|D|, from)
    ensures k in NodePuts(h, D, from) ==> NodePuts(h, D, from)[k] == Hash(NodeHash(h, D, k.x, |D|))
  {
    hide TouchedNodes, NodeHash;
  }

  lemma VersionPutsAt(n: nat, from: nat, k: Key)
    ensures k in VersionPuts(n, from) <==> k.NVerKey? && k.x in TouchedNodes(n, from)
    ensures k in VersionPuts(n, from) ==> VersionPuts(n, from)[k] == Num(n)
  {
    hide TouchedNodes;
  }

  lemma TilePutsAt(h: HashFn, D: seq<Bytes>, from: nat, k: Key)
    ensures k in TilePuts(h, D, from) <==> k.TileKey? && (k.level, k.i) in NewTiles(|D|, from)
    ensures k in TilePuts(h, D, from) ==>
              TileFull(k.level, k.i, |D|) && TilePuts(h, D, from)[k] == Tile(TileHashes(h, D, k.level, k.i))
  {
    hide NewTiles, TileHashes, TileFull;
    if k in TilePuts(h, D, from) { assert (k.level, k.i) in NewTiles(|D|, from); }
  }

  /** What a write batch holds under each kind of tree key. */
  lemma BatchPutsAt(h: HashFn, D: seq<Bytes>, from: nat, extra: seq<(Key, Value)>, k: Key)
    requires from <= |D| && NoTreeKeys(extra) && IsTreeKey(k)
    ensures var B := BatchPuts(h, D, from, extra); var n := |D|;
      match k
      case LeafKey(i) =>
        (k in B <==> from <= i < n) && (k in B ==> B[k] == Raw(D[i]))
      case VNodeKey(x, v) =>
        (k in B <==> v == n && x in TouchedNodes(n, from)) && (k in B ==> B[k] == Hash(NodeHash(h, D, x, n)))
      case NVerKey(x) =>
        (k in B <==> x in TouchedNodes(n, from)) && (k in B ==> B[k] == Num(n))
      case TileKey(level, i) =>
        (k in B <==> (level, i) in NewTiles(n, from))
        && (k in B ==> TileFull(level, i, n) && B[k] == Tile(TileHashes(h, D, level, i)))
      case _ => k in B && B[k] == Num(n)
  {
    hide LeafPuts, NodePuts, VersionPuts, TilePuts, Puts, TouchedNodes, NewTiles, NodeHash, TileHashes, TileFull;
    ExtraKeys(extra);
    LeafPutsAt(D, from, k);
    NodePutsAt(h, D, from, k);
    VersionPutsAt(|D|, from, k);
    TilePutsAt(h, D, from, k);
  }

  lemma SizeKeysStep(h: HashFn, s: TreeState, b: Batch)
    requires SizeKeys(s) && NoTreeKeys(b.extra)
    ensures SizeKeys(Step(h, s, b))
  {
    hide BatchPuts;
    var D := s.leaves + b.items;
    BatchPutsAt(h, D, |s.leaves|, b.extra, MetaKey);
    BatchPutsAt(h, D, |s.leaves|, b.extra, CommittedKey);
    BatchPutsAt(h, D, |s.leaves|, b.extra, LastPrecomputedKey);
  }

  lemma LeafKeysStep(h: HashFn, s: TreeState, b: Batch)
    requires LeafKeys(s) && NoTreeKeys(b.extra)
    ensures LeafKeys(Step(h, s, b))
  {
    hide BatchPuts;
    forall i: nat
      ensures var t := Step(h, s, b);
              (LeafKey(i) in t.db <==> i < |t.leaves|)
              && (i < |t.leaves| ==> t.db[LeafKey(i)] == Raw(t.leaves[i]))
    {
      BatchPutsAt(h, s.leaves + b.items, |s.leaves|, b.extra, LeafKey(i));
    }
  }

  /** The nodes a batch writes are the nodes the invariant calls touched. */
  lemma TouchedByBatch(s: TreeState, x: nat, n: nat)
    requires PublishedSizes(s) && |s.leaves| < n && InTree(x, n)
    ensures Touched(x, n, s.published + {n}) <==> |s.leaves| < Hi(x, n)
  {
    hide Lo, Top;
    LoInTree(x, n);
  }

  /** Earlier versions stay as they were. */
  lemma TouchedEarlier(s: TreeState, x: nat, v: nat, n: nat)
    requires v <= |s.leaves| < n
    ensures Touched(x, v, s.published + {n}) <==> Touched(x, v, s.published)
  {}

  /** Appending leaves does not change the hash of a node at an earlier size. */
  lemma NodeHashAppend(h: HashFn, D: seq<Bytes>, items: seq<Bytes>, x: nat, v: nat)
    requires InTree(x, v) && v <= |D|
    ensures NodeHash(h, D + items, x, v) == NodeHash(h, D, x, v)
  {
    hide Lo, Top, MTH;
    LoInTree(x, v);
    assert (D + items)[Lo(x)..Hi(x, v)] == D[Lo(x)..Hi(x, v)];
  }

  lemma NodeKeysStep(h: HashFn, s: TreeState, b: Batch)
    requires PublishedSizes(s) && NodeKeys(h, s) && NoTreeKeys(b.extra)
    ensures NodeKeys(h, Step(h, s, b))
  {
    hide NodeHash, Touched, BatchPuts, NoTreeKeys;
    forall x: nat, v: nat
      ensures var t := Step(h, s, b);
              (VNodeKey(x, v) in t.db <==> v in t.published && InTree(x, v) && Touched(x, v, t.published))
              && (VNodeKey(x, v) in t.db ==>
                    v <= |t.leaves| && InTree(x, v)
                    && t.db[VNodeKey(x, v)] == Hash(NodeHash(h, t.leaves, x, v)))
    {
      NodeKeyStep(h, s, b, x, v);
    }
  }

  lemma NodeKeyStep(h: HashFn, s: TreeState, b: Batch, x: nat, v: nat)
    requires PublishedSizes(s) && NodeKeys(h, s) && NoTreeKeys(b.extra)
    ensures var t := Step(h, s, b);
            (VNodeKey(x, v) in t.db <==> v in t.published && InTree(x, v) && Touched(x, v, t.published))
            && (VNodeKey(x, v) in t.db ==>
                  v <= |t.leaves| && InTree(x, v)
                  && t.db[VNodeKey(x, v)] == Hash(NodeHash(h, t.leaves, x, v)))
  {
    hide Top, NodeHash, Touched, BatchPuts, NoTreeKeys;
    var D := s.leaves + b.items;
    var n := |D|;
    BatchPutsAt(h, D, |s.leaves|, b.extra, VNodeKey(x, v));
    if b.items == [] {
      assert D == s.leaves;
    } else if v == n {
      if InTree(x, n) { TouchedByBatch(s, x, n); }
    } else if v in s.published {
      TouchedEarlier(s, x, v, n);
      if InTree(x, v) { NodeHashAppend(h, s.leaves, b.items, x, v); }
    }
  }

  lemma VersionKeysStep(h: HashFn, s: TreeState, b: Batch)
    requires PublishedSizes(s) && VersionKeys(s) && NoTreeKeys(b.extra)
    ensures VersionKeys(Step(h, s, b))
  {
    hide Touched, BatchPuts, NoTreeKeys, LatestVersion;
    forall x: nat
      ensures var t := Step(h, s, b);
              (NVerKey(x) in t.db <==> InTree(x, |t.leaves|))
              && (NVerKey(x) in t.db ==> LatestVersion(t, x))
    {
      VersionKeyStep(h, s, b, x);
    }
  }

  lemma VersionKeyStep(h: HashFn, s: TreeState, b: Batch, x: nat)
    requires PublishedSizes(s) && VersionKeys(s) && NoTreeKeys(b.extra)
    ensures var t := Step(h, s, b);
            (NVerKey(x) in t.db <==> InTree(x, |t.leaves|))
            && (NVerKey(x) in t.db ==> LatestVersion(t, x))
  {
    hide Lo, Top, Touched, BatchPuts, NoTreeKeys;
    var D := s.leaves + b.items;
    var n := |D|;
    BatchPutsAt(h, D, |s.leaves|, b.extra, NVerKey(x));
    if NVerKey(x) in s.db { assert LatestVersion(s, x); }
    if b.items == [] {
      assert D == s.leaves;
    } else if InTree(x, n) {
      LoInTree(x, n);
      if |s.leaves| < Hi(x, n) {
        TouchedByBatch(s, x, n);
      } else {
        BlockInTree(x, |s.leaves|);
        TouchedEarlier(s, x, s.db[NVerKey(x)].n, n);
      }
    }
  }

  lemma TileHashesAppend(h: HashFn, D: seq<Bytes>, items: seq<Bytes>, level: nat, i: nat)
    requires TileFull(level, i, |D|)
    ensures TileFull(level, i, |D + items|)
    ensures TileHashes(h, D + items, level, i) == TileHashes(h, D, level, i)
  {
    hide MTH, SubtreeSize;
    forall j | 0 <= j < TILE_WIDTH
      ensures TileHashes(h, D + items, level, i)[j] == TileHashes(h, D, level, i)[j]
    {
      TilePositionFits(level, i, j, |D|);
      var lo, hi := (i * TILE_WIDTH + j) * SubtreeSize(level), (i * TILE_WIDTH + j + 1) * SubtreeSize(level);
      assert (D + items)[lo..hi] == D[lo..hi];
    }
  }

  lemma TileKeysStep(h: HashFn, s: TreeState, b: Batch)
    requires TileKeys(h, s) && NoTreeKeys(b.extra)
    ensures TileKeys(h, Step(h, s, b))
  {
    hide TileHashes, TileFull, BatchPuts, NewTiles, NoTreeKeys;
    forall level: nat, i: nat
      ensures var t := Step(h, s, b);
              (TileKey(level, i) in t.db <==> level <= MAX_TILE_LEVEL && TileFull(level, i, |t.leaves|))
              && (TileKey(level, i) in t.db ==>
                    TileFull(level, i, |t.leaves|)
                    && t.db[TileKey(level, i)] == Tile(TileHashes(h, t.leaves, level, i)))
    {
      BatchPutsAt(h, s.leaves + b.items, |s.leaves|, b.extra, TileKey(level, i));
      if TileFull(level, i, |s.leaves|) {
        TileHashesAppend(h, s.leaves, b.items, level, i);
      }
    }
  }

  /** Every call of `batch_push_with_data`, successful or not, keeps the store invariant. */
  lemma StepKeepsInv(h: HashFn, s: TreeState, b: Batch)
    requires Inv(h, s) && NoTreeKeys(b.extra)
    ensures Inv(h, Step(h, s, b))
  {
    hide SizeKeys, LeafKeys, NodeKeys, VersionKeys, TileKeys, BatchPuts;
    SizeKeysStep(h, s, b);
    LeafKeysStep(h, s, b);
    NodeKeysStep(h, s, b);
    VersionKeysStep(h, s, b);
    TileKeysStep(h, s, b);
    assert PublishedSizes(Step(h, s, b));
  }

  // ---------------------------------------------------------------- runs

  /** The store that `new` initialises. */
  const EMPTY: TreeState := TreeState(map[MetaKey := Num(0), CommittedKey := Num(0)], [], {})

  function Run(h: HashFn, s: TreeState, batches: seq<Batch>): TreeState
    decreases |batches|
  {
    if batches == [] then s else Run(h, Step(h, s, batches[0]), batches[1..])
  }

  predicate Legal(batches: seq<Batch>) { forall b <- batches :: NoTreeKeys(b.extra) }

  /** `t` is a later state: leaves and published sizes only grow, at the far end. */
  ghost predicate Later(s: TreeState, t: TreeState) {
    && s.leaves <= t.leaves && s.published <= t.published
    && (forall v | v in t.published && v !in s.published :: v > |s.leaves|)
  }

  lemma StepIsLater(h: HashFn, s: TreeState, b: Batch)
    ensures Later(s, Step(h, s, b))
  {
    hide BatchPuts;
  }

  /** After any run of batches from a good state the invariant holds and the run only appended. */
  lemma {:induction false} RunKeepsInv(h: HashFn, s: TreeState, batches: seq<Batch>)
    requires Inv(h, s) && Legal(batches)
    ensures Inv(h, Run(h, s, batches)) && Later(s, Run(h, s, batches))
    decreases |batches|
  {
    hide Inv, Step, NoTreeKeys;
    if batches != [] {
      StepKeepsInv(h, s, batches[0]);
      StepIsLater(h, s, batches[0]);
      RunKeepsInv(h, Step(h, s, batches[0]), batches[1..]);
    }
  }

  /** The initialised store, and the store left by a stop between the two initial writes. */
  lemma EmptyInv(h: HashFn)
    ensures Inv(h, EMPTY) && Inv(h, TreeState(map[MetaKey := Num(0)], [], {}))
  {
    hide SubtreeSize;
    forall level: nat, i: nat ensures !TileFull(level, i, 0) {
      if TileFull(level, i, 0) { TileIndexBound(level, i, 0); }
    }
  }
}
