/** `SlateDbBackedTree`: the Merkle tree kept in the store, with its node cache. */
module BackedTree {
  import opened Bits
  import opened TreeMath
  import opened Rfc6962
  import opened Subtree
  import opened Inclusion
  import opened Consistency
  import opened ConsistencyProofs
  import opened LogTypes
  import opened TreeStore
  import opened TreeRuns
  import opened TreeReads
  import opened BatchCompute
  import opened TileMath

  /** The root key of a size is stored exactly when the size is published. */
  lemma RootKeyStored(h: HashFn, s: TreeState, n: nat)
    requires Inv(h, s) && n > 0
    ensures VNodeKey(Root(n), n) in s.db <==> n in s.published
  {
    hide Lo, Top, Root, TileKeys, LeafKeys, VersionKeys, NodeHash;
    RootCovers(n);
  }

  class SlateDbBackedTree {
    const h: HashFn
    var db: Db
    var cache: Cache
    ghost var leaves: seq<Bytes>
    ghost var published: set<nat>

    ghost function State(): TreeState
      reads this
    {
      TreeState(db, leaves, published)
    }

    ghost predicate Valid()
      reads this
    {
      Inv(h, State()) && CacheOk(h, cache, State()) && |leaves| <= MAX_LEAVES
    }

    /** `new`: open a store that holds a tree, or initialise one that does not. */
    constructor (h: HashFn, store: Db, ghost D: seq<Bytes>, ghost P: set<nat>)
      requires |D| <= MAX_LEAVES
      requires if MetaKey in store then Inv(h, TreeState(store, D, P))
               else D == [] && P == {} && forall k | k in store :: !IsTreeKey(k)
      ensures Valid() && this.h == h && leaves == D && published == P && cache == map[]
      ensures MetaKey in store ==> db == store
      ensures MetaKey !in store ==> db == store[MetaKey := Num(0)][CommittedKey := Num(0)]
    {
      this.h := h;
      cache := map[];
      leaves := D;
      published := P;
      db := if MetaKey in store then store else store[MetaKey := Num(0)][CommittedKey := Num(0)];
      new;
      if MetaKey !in store {
        hide SubtreeSize;
        forall level: nat, i: nat ensures !TileFull(level, i, 0) {
          if TileFull(level, i, 0) { TileIndexBound(level, i, 0); }
        }
      }
    }

    /** Entries leave the cache whenever it likes. */
    method Evict(keep: set<(nat, nat)>)
      requires Valid()
      modifies this`cache
      ensures Valid() && cache == map k | k in old(cache) && k in keep :: old(cache)[k]
    {
      hide Inv, CacheOk;
      EvictionKeepsCache(h, cache, keep, State());
      cache := map k | k in cache && k in keep :: cache[k];
    }

    /** `get_committed_size`. */
    method GetCommittedSize() returns (r: Outcome<nat>)
      ensures Valid() ==> r == Ok(|leaves|)
    {
      hide LeafKeys, NodeKeys, VersionKeys, TileKeys;
      if CommittedKey !in db { return Ok(0); }
      if !db[CommittedKey].Num? { return Err(EncodingError); }
      return Ok(db[CommittedKey].n);
    }

    /** `len`. */
    method Len() returns (r: Outcome<nat>)
      ensures Valid() ==> r == Ok(|leaves|)
    {
      hide LeafKeys, NodeKeys, VersionKeys, TileKeys;
      if MetaKey !in db { return Ok(0); }
      if !db[MetaKey].Num? { return Err(EncodingError); }
      return Ok(db[MetaKey].n);
    }

    /** `get_node_hash_at_version`. */
    method GetNodeHashAtVersion(x: nat, v: nat) returns (r: Outcome<Digest>)
      modifies this`cache
      ensures (r, cache) == CachedRead(old(cache), db, x, v)
      ensures old(Valid()) && SafeRead(|leaves|, x, v) ==> Valid()
      ensures old(Valid()) && v in published && InTree(x, v) ==>
                v <= |leaves| && r == Ok(NodeHash(h, leaves, x, v))
    {
      hide Inv, CacheOk, NodeHash, InTree, SafeRead, Lo, Top;
      ghost var start := cache;
      if Valid() && SafeRead(|leaves|, x, v) { SafeReadKeepsCache(h, cache, State(), x, v); }
      if Valid() && v in published && InTree(x, v) { PublishedIsSafe(h, State(), x, v); SafeReadKeepsCache(h, cache, State(), x, v); }
      if (x, v) in cache {
        return Ok(cache[(x, v)]);
      }
      if VNodeKey(x, v) in db {
        r := DigestOf(db[VNodeKey(x, v)]);
        if r.Ok? { cache := cache[(x, v) := r.value]; }
        return;
      }
      if NVerKey(x) !in db {
        r := Ok(ZERO_DIGEST);
        cache := cache[(x, v) := r.value];
        return;
      }
      if !db[NVerKey(x)].Num? { return Err(EncodingError); }
      var latest := db[NVerKey(x)].n;
      if latest > v {
        r := Ok(ZERO_DIGEST);
        cache := cache[(x, v) := r.value];
      } else {
        if VNodeKey(x, latest) !in db {
          return Err(InconsistentState("latest version pointer without data"));
        }
        r := DigestOf(db[VNodeKey(x, latest)]);
        if r.Ok? { cache := cache[(x, v) := r.value]; }
      }
    }

    /** `get_node_hash`: the latest hash of a node, or the zero digest if it does not exist yet. */
    method GetNodeHash(x: nat) returns (r: Outcome<Digest>)
      requires Valid()
      modifies this`cache
      ensures Valid()
      ensures r == Ok(if InTree(x, |leaves|) then NodeHash(h, leaves, x, |leaves|) else ZERO_DIGEST)
    {
      hide NodeHash, Lo, Top, CacheOk, Touched, TileKeys, LeafKeys, NodeKeys;
      if NVerKey(x) !in db { return Ok(ZERO_DIGEST); }
      assert LatestVersion(State(), x);
      var v := db[NVerKey(x)].n;
      r := GetNodeHashAtVersion(x, v);
      if v != |leaves| { SameRange(h, leaves, x, v, |leaves|); }
    }

    /** Fetch the hashes of a list of nodes of a published tree. */
    method FetchAll(xs: seq<nat>, v: nat) returns (r: Outcome<seq<Digest>>)
      requires Valid() && v in published && v <= |leaves| && forall x <- xs :: InTree(x, v)
      modifies this`cache
      ensures Valid() && r == Ok(NodeHashes(h, leaves, xs, v))
    {
      hide Inv, CacheOk, NodeHash, NodeHashes, Lo, Top;
      var out: seq<Digest> := [];
      for j := 0 to |xs|
        invariant Valid() && |out| == j
        invariant forall k | 0 <= k < j :: out[k] == NodeHash(h, leaves, xs[k], v)
      {
        var d := GetNodeHashAtVersion(xs[j], v);
        out := out + [d.value];
      }
      assert out == NodeHashes(h, leaves, xs, v);
      r := Ok(out);
    }

    /** `root_at_size`: MTH of the first `n` leaves, exactly for size 0 and the published sizes. */
    method RootAtSize(n: u64) returns (r: Outcome<Digest>)
      requires Valid()
      modifies this`cache
      ensures Valid()
      ensures r.Ok? <==> n == 0 || n in published
      ensures r.Ok? ==> n <= |leaves| && r.value == MTH(h, leaves[..n])
    {
      hide Inv, CacheOk, NodeHash, Lo, Top, Root, RootIdx, MTH;
      assert PublishedSizes(State()) by { InvPublished(h, State()); }
      if n == 0 {
        assert leaves[..0] == [];
        r := Ok(h([]));
        assert MTH(h, []) == h([]) by { MthOfNone(h); }
        return;
      }
      var size := GetCommittedSize();
      if n > size.value {
        return Err(InconsistentState("requested tree size exceeds committed tree size"));
      }
      RootIdxIsRoot(n);
      RootKeyStored(h, State(), n);
      var root := RootIdx(n);
      if VNodeKey(root, n) !in db {
        return Err(InconsistentState("not a published STH boundary"));
      }
      NodeHashRoot(h, leaves, n);
      r := GetNodeHashAtVersion(root, n);
    }

    /** `prove_inclusion_at_size`: PATH(i, D[n]), exactly for published sizes and leaves in range;
        the verifier accepts it. */
    method ProveInclusionAtSize(i: u64, n: u64) returns (r: Outcome<seq<Digest>>)
      requires Valid()
      modifies this`cache
      ensures Valid()
      ensures r.Ok? <==> n in published && i < n
      ensures r.Ok? ==>
                n <= |leaves| && r.value == PATH(h, i, leaves[..n])
                && InTree(2 * i, n) && |r.value| == |PathUp(2 * i, n)|
                && FoldUp(h, 2 * i, n, LeafHash(h, leaves[i]), r.value) == MTH(h, leaves[..n])
    {
      hide Inv, CacheOk, NodeHash, NodeHashes, Lo, Top, Root, RootIdx, MTH, PATH, PathUp, FoldUp;
      InvPublished(h, State());
      var size := GetCommittedSize();
      if n > size.value {
        return Err(InconsistentState("requested tree size exceeds committed tree size"));
      }
      if i >= n {
        return Err(InconsistentState("index out of bounds for requested tree size"));
      }
      RootIdxIsRoot(n);
      RootKeyStored(h, State(), n);
      if VNodeKey(RootIdx(n), n) !in db {
        return Err(InconsistentState("not a published STH boundary"));
      }
      var idxs := IndicesForInclusionProof(n, i);
      AuditPath(h, leaves, i, n);
      InclusionComplete(h, leaves, i, n);
      r := FetchAll(idxs, n);
    }

    /** `prove_consistency_between`: PROOF(m, D[n]), exactly for equal non-zero sizes and pairs of
        published sizes; the verifier accepts it. */
    method ProveConsistencyBetween(m: u64, n: u64) returns (r: Outcome<seq<Digest>>)
      requires Valid()
      modifies this`cache
      ensures Valid()
      ensures r.Ok? <==> 0 < m <= n && (m == n || (m in published && n in published))
      ensures r.Ok? && m == n ==> r.value == []
      ensures r.Ok? && n in published ==>
                n <= |leaves| && r.value == PROOF(h, m, leaves[..n])
                && Accepts(h, MTH(h, leaves[..m]), m, MTH(h, leaves[..n]), n, r.value)
    {
      hide Inv, CacheOk, NodeHash, NodeHashes, Lo, Top, Root, RootIdx, MTH, SUBPROOF, Accepts, ConsistencyNodes;
      InvPublished(h, State());
      if m == 0 {
        return Err(InconsistentState("cannot create consistency proof from empty tree"));
      }
      if m > n {
        return Err(InconsistentState("old size must be at most new size"));
      }
      if 0 < m <= n <= |leaves| {
        ConsistencyPath(h, leaves, m, n);
        ConsistencyComplete(h, leaves, m, n);
      }
      if m == n {
        if n in published { SubproofOfAll(h, leaves[..n], true); }
        return Ok([]);
      }
      var size := GetCommittedSize();
      if n > size.value {
        return Err(InconsistentState("new size exceeds committed tree size"));
      }
      RootIdxIsRoot(m);
      RootIdxIsRoot(n);
      RootKeyStored(h, State(), m);
      RootKeyStored(h, State(), n);
      var oldExists, newExists := VNodeKey(RootIdx(m), m) in db, VNodeKey(RootIdx(n), n) in db;
      if !oldExists {
        return Err(InconsistentState("old tree size is not a published STH boundary"));
      }
      if !newExists {
        return Err(InconsistentState("new tree size is not a published STH boundary"));
      }
      var idxs := IndicesForConsistencyProof(m, n - m);
      r := FetchAll(idxs, n);
    }

    // -------------------------------------------------------------- writing

    /** Fetch the latest hashes of the nodes a batch may need. */
    method Prefetch(nodes: set<nat>) returns (fetched: Hashes)
      requires Valid()
      modifies this`cache
      ensures Valid() && fetched.Keys == nodes
      ensures forall x | x in nodes && InTree(x, |leaves|) :: fetched[x] == NodeHash(h, leaves, x, |leaves|)
    {
      hide Inv, CacheOk, NodeHash, Lo, Top;
      fetched := map[];
      var todo := nodes;
      while todo != {}
        invariant Valid() && todo <= nodes && fetched.Keys == nodes - todo
        invariant forall x | x in fetched && InTree(x, |leaves|) :: fetched[x] == NodeHash(h, leaves, x, |leaves|)
        decreases todo
      {
        var x :| x in todo;
        var d := GetNodeHash(x);
        fetched := fetched[x := d.value];
        todo := todo - {x};
      }
    }

    /** The hash of a node of the tree being committed: computed by this batch, or else of a node
        that the store already holds. */
    method NodeForTile(x: nat, n: nat, computed: Hashes, ghost E: seq<Bytes>) returns (d: Digest)
      requires Valid() && leaves <= E && n == |E| && Computed(h, E, computed, |leaves|, n) && InTree(x, n)
      modifies this`cache
      ensures Valid() && d == NodeHash(h, E, x, n)
    {
      hide Inv, CacheOk, NodeHash, Lo, Top, CachedRead;
      if x in computed {
        return computed[x];
      }
      InvPublished(h, State());
      LoInTree(x, n);
      if n == |leaves| {
        assert E == leaves;
        PublishedIsSafe(h, State(), x, n);
      } else {
        SafeReadKeepsCache(h, cache, State(), x, n);
        LaterHash(h, State(), State().(leaves := E), x, |leaves|);
        SameRange(h, E, x, |leaves|, n);
      }
      var r := GetNodeHashAtVersion(x, n);
      d := r.value;
    }

    /** Collect the hashes of one tile of the tree being committed. */
    method BuildTile(level: nat, i: nat, n: u64, computed: Hashes, ghost E: seq<Bytes>)
      returns (hashes: seq<Digest>)
      requires Valid() && leaves <= E && n == |E| <= MAX_LEAVES && Computed(h, E, computed, |leaves|, n)
      requires i * TILE_WIDTH + TILE_WIDTH <= TotalPositions(level, n)
      modifies this`cache
      ensures Valid() && |hashes| == TILE_WIDTH
      ensures TileFull(level, i, n) ==> hashes == TileHashes(h, E, level, i)
    {
      hide Inv, CacheOk, NodeHash, Lo, Top, Computed, SubtreeSize, TotalPositions, TileFull, Aligned, SubtreeNode;
      var size := SubtreeSize(level);
      hashes := [];
      for j := 0 to TILE_WIDTH
        invariant Valid() && |hashes| == j
        invariant TileFull(level, i, n) ==>
                    forall k | 0 <= k < j :: hashes[k] == TileHashes(h, E, level, i)[k]
      {
        var p := i * TILE_WIDTH + j;
        PositionExists(level, p, n);
        PositionNode(level, p, n);
        var lo := p * size;
        var hi := Min(lo + size, n);
        var x := ComputeSubtreeRoot(lo, hi);
        var d := NodeForTile(x, n, computed, E);
        if TileFull(level, i, n) {
          TilePositionFits(level, i, j, n);
          assert lo + size == (p + 1) * size;
          TileHashIs(h, E, level, i, j, x, n);
        }
        hashes := hashes + [d];
      }
    }

    /** The body of the tile loop of `precompute_tiles_batch`, for one tile of the visited range. */
    method PrecomputeTile(level: nat, i: nat, start: nat, n: u64, last: nat, total: nat, computed: Hashes,
                          before: Db, ghost E: seq<Bytes>) returns (puts: Db)
      requires Valid() && leaves <= E && n == |E| <= MAX_LEAVES && Computed(h, E, computed, |leaves|, n)
      requires start == last == |leaves| && level <= MAX_TILE_LEVEL && total == TotalPositions(level, n)
      requires i * TILE_WIDTH < total && TilesDone(h, E, before, start, level, i)
      modifies this`cache
      ensures Valid() && TilesDone(h, E, puts, start, level, i + 1)
    {
      hide Inv, CacheOk, Lo, Top, Computed, SubtreeSize, TotalPositions, TileFull, TileHashes, TilesDone;
      var first := i * TILE_WIDTH;
      var end := Min(first + TILE_WIDTH, total);
      puts := before;
      TilesDoneNext(h, E, puts, start, level, i);
      if end - first < TILE_WIDTH {
        // a partial tile is never stored
        PartialTile(level, i, start, n);
        return;
      }
      if TileFull(level, i, last) {
        // already stored by an earlier batch
        return;
      }
      if TileKey(level, i) in db {
        StoredTileIsFull(h, State(), level, i);
        return;
      }
      var hashes := BuildTile(level, i, n, computed, E);
      var childrenFull := level == 0 || TileFull(level - 1, (i + 1) * TILE_WIDTH - 1, n);
      if level > 0 { LastChildFull(level, i, n); } else { LevelZeroFull(i, n); }
      if |hashes| == TILE_WIDTH && childrenFull {
        puts := puts[TileKey(level, i) := Tile(hashes)];
      }
    }

    /** One level of `precompute_tiles_batch`. */
    method PrecomputeLevel(level: nat, start: nat, n: u64, last: nat, computed: Hashes, before: Db,
                           ghost E: seq<Bytes>) returns (puts: Db)
      requires Valid() && leaves <= E && n == |E| <= MAX_LEAVES && Computed(h, E, computed, |leaves|, n)
      requires start == last == |leaves| && level <= MAX_TILE_LEVEL
      requires TilesDone(h, E, before, start, level, 0)
      modifies this`cache
      ensures Valid() && TilesDone(h, E, puts, start, level + 1, 0)
    {
      hide Inv, CacheOk, Lo, Top, Computed, TotalPositions, TileFull, TileHashes, TilesDone;
      hide FirstAffected, LastAffected;
      var total := TotalPositions(level, n);
      var firstTile := FirstAffected(level, start);
      var lastTile := LastAffected(level, n);
      puts := before;
      LevelStart(h, E, puts, start, level);
      var i := firstTile;
      while i <= lastTile
        invariant Valid() && TilesDone(h, E, puts, start, level, i)
      {
        if i * TILE_WIDTH >= total { break; }
        puts := PrecomputeTile(level, i, start, n, last, total, computed, puts, E);
        i := i + 1;
      }
      if n == 0 { NoPositions(level); }
      LevelDone(h, E, puts, start, level, i);
    }

    /** `precompute_tiles_batch`: exactly the tiles that become full with this batch. */
    method PrecomputeTiles(start: nat, n: u64, computed: Hashes, ghost E: seq<Bytes>) returns (puts: Db)
      requires Valid() && leaves <= E && n == |E| <= MAX_LEAVES && Computed(h, E, computed, |leaves|, n)
      requires start == |leaves|
      modifies this`cache
      ensures Valid() && puts == TilePuts(h, E, start)
    {
      hide CacheOk, Lo, Top, Computed, TilePuts, LeafKeys, NodeKeys, VersionKeys, TileKeys, TileFull, TileHashes;
      var last := if LastPrecomputedKey in db then db[LastPrecomputedKey].n else 0;
      puts := map[];
      for level := 0 to MAX_TILE_LEVEL + 1
        invariant Valid() && TilesDone(h, E, puts, start, level, 0)
      {
        puts := PrecomputeLevel(level, start, n, last, computed, puts, E);
      }
      AllTilesDone(h, E, puts, start);
    }

    /** Everything `batch_push_with_data` puts into its write batch. */
    method PrepareBatch(items: seq<Bytes>, extra: seq<(Key, Value)>, start: u64) returns (batch: Db)
      requires Valid() && start == |leaves| && |leaves| + |items| <= MAX_LEAVES
      modifies this`cache
      ensures Valid() && batch == BatchPuts(h, leaves + items, |leaves|, extra)
    {
      hide Inv, CacheOk, Lo, Top, Computed, NodeHash, Prefetched, CoversSiblings, Puts;
      hide LeafPuts, TilePuts, NodePuts, VersionPuts, BatchPuts;
      ghost var E := leaves + items;
      var nodes := NodesToPrefetch(start, |items|);
      var prefetched := Prefetch(nodes);
      PrefetchedIs(h, leaves, items, prefetched);
      var computed, leafPuts := PushItems(h, items, start, prefetched, E);
      var n: u64 := start + |items|;
      ComputedPuts(h, E, computed, start);
      var nodePuts := map x | x in computed :: VNodeKey(x, n) := Hash(computed[x]);
      var versionPuts := map x | x in computed :: NVerKey(x) := Num(n);
      var tilePuts := PrecomputeTiles(start, n, computed, E);
      var sizePuts := map[MetaKey := Num(n), CommittedKey := Num(n), LastPrecomputedKey := Num(n)];
      batch := leafPuts + nodePuts + versionPuts + tilePuts + sizePuts + Puts(extra);
      BatchIs(h, E, start, extra, leafPuts, nodePuts, versionPuts, tilePuts, sizePuts);
    }

    /** `batch_push_with_data`: one atomic write of everything the batch changes. `written` says
        whether the store accepted the write. */
    method BatchPushWithData(items: seq<Bytes>, extra: seq<(Key, Value)>, written: bool)
      returns (r: Outcome<nat>)
      requires Valid() && NoTreeKeys(extra) && |leaves| + |items| <= MAX_LEAVES
      modifies this
      ensures Valid()
      ensures State() == Step(h, old(State()), Batch(items, extra, written))
      ensures r == if written || (items == [] && extra == []) then Ok(|old(leaves)|) else Err(DbError)
    {
      hide Inv, CacheOk, BatchPuts, NoTreeKeys;
      var len := Len();
      var start := len.value;
      if items == [] && extra == [] {
        return Ok(start);
      }
      var batch := PrepareBatch(items, extra, start);
      if !written {
        return Err(DbError);
      }
      StepKeepsInv(h, State(), Batch(items, extra, true));
      InvPublished(h, State());
      StepKeepsCache(h, cache, State(), Batch(items, extra, true));
      db := db + batch;
      published := if items == [] then published else published + {|leaves| + |items|};
      leaves := leaves + items;
      r := Ok(start);
    }
  }

  lemma BatchIs(h: HashFn, E: seq<Bytes>, from: nat, extra: seq<(Key, Value)>,
                leafPuts: Db, nodePuts: Db, versionPuts: Db, tilePuts: Db, sizePuts: Db)
    requires from <= |E| && leafPuts == LeafPuts(E, from) && nodePuts == NodePuts(h, E, from)
    requires versionPuts == VersionPuts(|E|, from) && tilePuts == TilePuts(h, E, from)
    requires sizePuts == SizePuts(|E|)
    ensures leafPuts + nodePuts + versionPuts + tilePuts + sizePuts + Puts(extra)
         == BatchPuts(h, E, from, extra)
  {
    hide LeafPuts, TilePuts, NodePuts, VersionPuts, SizePuts, Puts;
  }

  lemma PrefetchedIs(h: HashFn, D: seq<Bytes>, items: seq<Bytes>, nodes: Hashes)
    requires forall x | x in nodes && InTree(x, |D|) :: nodes[x] == NodeHash(h, D, x, |D|)
    ensures Prefetched(h, D + items, nodes, |D|)
  {
    hide Lo, Top, NodeHash;
    forall x | x in nodes && InTree(x, |D|) ensures nodes[x] == NodeHash(h, D + items, x, |D|) {
      NodeHashAppend(h, D, items, x, |D|);
    }
  }

  lemma ComputedPuts(h: HashFn, E: seq<Bytes>, computed: Hashes, from: nat)
    requires Computed(h, E, computed, from, |E|)
    ensures (map x | x in computed :: VNodeKey(x, |E|) := Hash(computed[x])) == NodePuts(h, E, from)
    ensures (map x | x in computed :: NVerKey(x) := Num(|E|)) == VersionPuts(|E|, from)
  {
    hide Lo, Top, NodeHash, TouchedNodes;
    forall x ensures x in computed <==> x in TouchedNodes(|E|, from) { assert x in computed.Keys <==> x in computed; }
  }

  lemma NoPositions(level: nat)
    ensures TotalPositions(level, 0) == 0
  {
    hide SubtreeSize;
  }

  lemma PartialTile(level: nat, i: nat, from: nat, n: nat)
    requires i * TILE_WIDTH + TILE_WIDTH > TotalPositions(level, n)
    ensures !TileFull(level, i, n) || TileFull(level, i, from)
  {
    hide TotalPositions, TileFull, SubtreeSize;
    if TileFull(level, i, n) && !TileFull(level, i, from) { NewTileIsVisited(level, i, from, n); }
  }

  lemma StoredTileIsFull(h: HashFn, s: TreeState, level: nat, i: nat)
    requires Inv(h, s) && TileKey(level, i) in s.db
    ensures TileFull(level, i, |s.leaves|)
  {
    hide SizeKeys, LeafKeys, NodeKeys, VersionKeys, TileFull, TileHashes;
  }

  lemma TileHashIs(h: HashFn, E: seq<Bytes>, level: nat, i: nat, j: nat, x: nat, n: nat)
    requires n == |E| && TileFull(level, i, n) && j < TILE_WIDTH && InTree(x, n)
    requires Lo(x) == (i * TILE_WIDTH + j) * SubtreeSize(level)
    requires Hi(x, n) == (i * TILE_WIDTH + j + 1) * SubtreeSize(level)
    ensures TileHashes(h, E, level, i)[j] == NodeHash(h, E, x, n)
  {
    hide Lo, Top, MTH, SubtreeSize;
    TilePositionFits(level, i, j, n);
  }

  lemma MthOfNone(h: HashFn)
    ensures MTH(h, []) == h([])
  {}

  lemma InvPublished(h: HashFn, s: TreeState)
    requires Inv(h, s)
    ensures PublishedSizes(s)
  {
    hide SizeKeys, LeafKeys, NodeKeys, VersionKeys, TileKeys;
  }

  lemma PublishedIsSafe(h: HashFn, s: TreeState, x: nat, v: nat)
    requires Inv(h, s) && v in s.published
    ensures SafeRead(|s.leaves|, x, v)
  {
    hide Top, SizeKeys, LeafKeys, NodeKeys, VersionKeys, TileKeys;
  }
}
