/** The tree in its key-value store, as values: what one committed batch writes, and the invariant every
    batch keeps. */
module TreeStore {
  import opened Bits
  import opened TreeMath
  import opened Rfc6962
  import opened LogTypes

  const TILE_WIDTH: nat := 256

  const MAX_TILE_LEVEL: nat := 5

  /** The store, with the leaves appended so far and the sizes at which a non-empty batch ended. */
  datatype TreeState = TreeState(db: Db, leaves: seq<Bytes>, published: set<nat>)

  // ---------------------------------------------------------------- tiles

  /** Leaves below one hash of a tile: 256^level. */
  function SubtreeSize(level: nat): (s: nat)
    ensures s >= 1
  {
    if level == 0 then 1 else TILE_WIDTH * SubtreeSize(level - 1)
  }

  /** `is_tile_full_at_size`. */
  predicate TileFull(level: nat, i: nat, size: nat) {
    (i * TILE_WIDTH + TILE_WIDTH) * SubtreeSize(level) <= size
  }

  /** The hashes of tile `i`: the roots of 256 aligned complete subtrees. */
  function TileHashes(h: HashFn, D: seq<Bytes>, level: nat, i: nat): seq<Digest>
    requires TileFull(level, i, |D|)
  {
    seq(TILE_WIDTH, j requires 0 <= j < TILE_WIDTH =>
      TilePositionFits(level, i, j, |D|);
      MTH(h, D[(i * TILE_WIDTH + j) * SubtreeSize(level)..(i * TILE_WIDTH + j + 1) * SubtreeSize(level)]))
  }

  lemma TilePositionFits(level: nat, i: nat, j: nat, size: nat)
    requires TileFull(level, i, size) && j < TILE_WIDTH
    ensures (i * TILE_WIDTH + j) * SubtreeSize(level) < (i * TILE_WIDTH + j + 1) * SubtreeSize(level) <= size
  {
    hide SubtreeSize;
    var p := i * TILE_WIDTH + j;
    MulMono(p + 1, i * TILE_WIDTH + TILE_WIDTH, SubtreeSize(level));
    assert (p + 1) * SubtreeSize(level) == p * SubtreeSize(level) + SubtreeSize(level);
  }

  // ---------------------------------------------------------------- the invariant

  /** `x` has been rewritten by the batch that ended at `v`: it covers a leaf of that batch. */
  ghost predicate Touched(x: nat, v: nat, published: set<nat>) {
    forall w | w in published && w < v :: w < Hi(x, v)
  }

  /** The committed size is missing only if initialisation stopped after its first write. */
  ghost predicate SizeKeys(s: TreeState) {
    && MetaKey in s.db && s.db[MetaKey] == Num(|s.leaves|)
    && (CommittedKey in s.db ==> s.db[CommittedKey] == Num(|s.leaves|))
    && (CommittedKey !in s.db ==> |s.leaves| == 0)
    && (LastPrecomputedKey in s.db ==> s.db[LastPrecomputedKey] == Num(|s.leaves|))
    && (LastPrecomputedKey !in s.db ==> |s.leaves| == 0)
  }

  ghost predicate PublishedSizes(s: TreeState) {
    && (forall v | v in s.published :: 0 < v <= |s.leaves|)
    && (|s.leaves| > 0 ==> |s.leaves| in s.published)
  }

  ghost predicate LeafKeys(s: TreeState) {
    && (forall i: nat :: LeafKey(i) in s.db <==> i < |s.leaves|)
    && (forall i: nat | i < |s.leaves| :: LeafKey(i) in s.db && s.db[LeafKey(i)] == Raw(s.leaves[i]))
  }

  /** A node is stored under size `v` exactly when the batch that ended at `v` touched it. */
  ghost predicate NodeKeys(h: HashFn, s: TreeState) {
    && (forall x: nat, v: nat :: VNodeKey(x, v) in s.db <==>
          v in s.published && InTree(x, v) && Touched(x, v, s.published))
    && (forall x: nat, v: nat | VNodeKey(x, v) in s.db ::
          v <= |s.leaves| && InTree(x, v)
          && s.db[VNodeKey(x, v)] == Hash(NodeHash(h, s.leaves, x, v)))
  }

  /** The one pointer kept per node names the last batch that touched it. */
  ghost predicate VersionKeys(s: TreeState) {
    && (forall x: nat :: NVerKey(x) in s.db <==> InTree(x, |s.leaves|))
    && (forall x: nat | NVerKey(x) in s.db :: LatestVersion(s, x))
  }

  ghost predicate LatestVersion(s: TreeState, x: nat)
    requires NVerKey(x) in s.db
  {
    && s.db[NVerKey(x)].Num?
    && var v := s.db[NVerKey(x)].n;
       v in s.published && InTree(x, v) && Touched(x, v, s.published)
       && (v == |s.leaves| || Top(x) <= v)
  }

  ghost predicate TileKeys(h: HashFn, s: TreeState) {
    && (forall level: nat, i: nat :: TileKey(level, i) in s.db <==>
          level <= MAX_TILE_LEVEL && TileFull(level, i, |s.leaves|))
    && (forall level: nat, i: nat | TileKey(level, i) in s.db ::
          TileFull(level, i, |s.leaves|)
          && s.db[TileKey(level, i)] == Tile(TileHashes(h, s.leaves, level, i)))
  }

  ghost predicate Inv(h: HashFn, s: TreeState) {
    && SizeKeys(s) && PublishedSizes(s) && LeafKeys(s)
    && NodeKeys(h, s) && VersionKeys(s) && TileKeys(h, s)
  }

  // ---------------------------------------------------------------- what a batch writes

  function LeafPuts(D: seq<Bytes>, from: nat): Db
    requires from <= |D|
  {
    map i: nat | from <= i < |D| :: LeafKey(i) := Raw(D[i])
  }

  /** The nodes of the tree over `D` that cover a leaf at or after `from`. */
  function TouchedNodes(n: nat, from: nat): (xs: set<nat>)
    ensures forall x <- xs :: InTree(x, n)
  {
    set x: nat | x < NumInternalNodes(n) && from < Hi(x, n)
  }

  function NodePuts(h: HashFn, D: seq<Bytes>, from: nat): Db {
    var n := |D|;
    map x | x in TouchedNodes(n, from) :: VNodeKey(x, n) := Hash(NodeHash(h, D, x, n))
  }

  function VersionPuts(n: nat, from: nat): Db {
    map x | x in TouchedNodes(n, from) :: NVerKey(x) := Num(n)
  }

  function SizePuts(n: nat): Db {
    map[MetaKey := Num(n), CommittedKey := Num(n), LastPrecomputedKey := Num(n)]
  }

  /** The tiles that become full when the tree grows from `from` to `|D|` leaves. */
  function NewTiles(n: nat, from: nat): (ts: set<(nat, nat)>)
    ensures forall t <- ts :: t.0 <= MAX_TILE_LEVEL && TileFull(t.0, t.1, n) && !TileFull(t.0, t.1, from)
    ensures forall level: nat, i: nat ::
              level <= MAX_TILE_LEVEL && TileFull(level, i, n) && !TileFull(level, i, from)
              ==> (level, i) in ts
  {
    var ts := set level: nat, i: nat |
                0 <= level <= MAX_TILE_LEVEL && 0 <= i < n
                && TileFull(level, i, n) && !TileFull(level, i, from) :: (level, i);
    assert forall level: nat, i: nat ::
        level <= MAX_TILE_LEVEL && TileFull(level, i, n) ==> i < n by {
      forall level: nat, i: nat | level <= MAX_TILE_LEVEL && TileFull(level, i, n) ensures i < n {
        TileIndexBound(level, i, n);
      }
    }
    ts
  }

  lemma TileIndexBound(level: nat, i: nat, n: nat)
    requires TileFull(level, i, n)
    ensures i < n
  {
    hide SubtreeSize;
    var w := i * TILE_WIDTH + TILE_WIDTH;
    MulMono(1, SubtreeSize(level), w);
  }

  function TilePuts(h: HashFn, D: seq<Bytes>, from: nat): Db {
    map t | t in NewTiles(|D|, from) :: TileKey(t.0, t.1) := Tile(TileHashes(h, D, t.0, t.1))
  }

  /** Additional pairs in order: the last put for a key wins. */
  function Puts(pairs: seq<(Key, Value)>): Db {
    if pairs == [] then map[]
    else Puts(pairs[..|pairs| - 1])[pairs[|pairs| - 1].0 := pairs[|pairs| - 1].1]
  }

  predicate NoTreeKeys(pairs: seq<(Key, Value)>) {
    forall p <- pairs :: !IsTreeKey(p.0)
  }

  /** The whole write batch of `batch_push_with_data`. */
  function BatchPuts(h: HashFn, D: seq<Bytes>, from: nat, extra: seq<(Key, Value)>): Db
    requires from <= |D|
  {
    LeafPuts(D, from) + NodePuts(h, D, from) + VersionPuts(|D|, from)
    + TilePuts(h, D, from) + SizePuts(|D|) + Puts(extra)
  }

  datatype Batch = Batch(items: seq<Bytes>, extra: seq<(Key, Value)>, written: bool)

  /** One call of `batch_push_with_data`; an empty call and a failed write change nothing. */
  function Step(h: HashFn, s: TreeState, b: Batch): TreeState {
    if !b.written || (b.items == [] && b.extra == []) then s
    else
      var D := s.leaves + b.items;
      TreeState(s.db + BatchPuts(h, D, |s.leaves|, b.extra), D,
                if b.items == [] then s.published else s.published + {|D|})
  }
}
