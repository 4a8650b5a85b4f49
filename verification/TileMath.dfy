/** Tile arithmetic: a tile position is the root of an aligned subtree of 256^level leaves. */
module TileMath {
  import opened Bits
  import opened TreeMath
  import opened TreeOps
  import opened Rfc6962
  import opened Subtree
  import opened Consistency
  import opened LogTypes
  import opened TreeStore
  import opened TreeRuns

  lemma {:induction false} SubtreeSizeIsPow2(level: nat)
    ensures SubtreeSize(level) == Pow2(8 * level)
  {
    if level > 0 {
      SubtreeSizeIsPow2(level - 1);
      Pow2Byte(8 * (level - 1));
    }
  }

  lemma {:induction false} ShlIsMul(p: nat, k: nat)
    ensures Shl(p, k) == p * Pow2(k)
  {
    if k > 0 {
      ShlIsMul(p, k - 1);
      assert 2 * (p * Pow2(k - 1)) == p * (2 * Pow2(k - 1));
    }
  }

  /** A range that starts at a multiple of 2^k and is at most 2^k long is aligned. */
  lemma {:induction false} AlignedAt(k: nat, p: nat, hi: nat)
    requires Shl(p, k) < hi <= Shl(p, k) + Pow2(k)
    ensures Aligned(Shl(p, k), hi)
  {
    if k > 0 && hi - Shl(p, k) > 1 {
      AlignedAt(k - 1, p, (hi + 1) / 2);
      assert Shl(p, k) / 2 == Shl(p, k - 1);
    }
  }

  lemma SubtreeDouble(lo: nat, hi: nat)
    requires lo < hi
    ensures SubtreeNode(2 * lo, 2 * hi) == 2 * SubtreeNode(lo, hi) + 1
  {
    assert 2 * lo / 2 == lo && (2 * hi + 1) / 2 == hi;
  }

  /** The node of a complete aligned subtree covers it in every larger tree. */
  lemma {:induction false} CompleteAt(k: nat, p: nat)
    ensures Top(SubtreeNode(Shl(p, k), Shl(p, k) + Pow2(k))) == Shl(p, k) + Pow2(k)
  {
    hide Top, Lo, SubtreeNode;
    if k > 0 {
      var lo, hi := Shl(p, k - 1), Shl(p, k - 1) + Pow2(k - 1);
      CompleteAt(k - 1, p);
      SubtreeDouble(lo, hi);
      OddNode(SubtreeNode(lo, hi));
      assert 2 * lo == Shl(p, k) && 2 * hi == Shl(p, k) + Pow2(k);
    } else {
      AlignedLeaf(p);
      LeafNode(p);
    }
  }

  /** The node under tile position `p` in a tree of `n` leaves, complete or cut off at `n`. */
  lemma PositionNode(level: nat, p: nat, n: nat)
    requires p * SubtreeSize(level) < n
    ensures var lo := p * SubtreeSize(level); var hi := Min(lo + SubtreeSize(level), n);
            Aligned(lo, hi)
            && var x := SubtreeNode(lo, hi); InTree(x, n) && Lo(x) == lo && Hi(x, n) == hi
  {
    hide Lo, Top, Aligned, SubtreeNode, Pow2, SubtreeSize;
    SubtreeSizeIsPow2(level);
    ShlIsMul(p, 8 * level);
    RangeNode(8 * level, p, n);
  }

  lemma RangeNode(k: nat, p: nat, n: nat)
    requires Shl(p, k) < n
    ensures var lo := Shl(p, k); var hi := Min(lo + Pow2(k), n);
            Aligned(lo, hi)
            && var x := SubtreeNode(lo, hi); InTree(x, n) && Lo(x) == lo && Hi(x, n) == hi
  {
    hide Lo, Top, Aligned, SubtreeNode, Pow2, Shl;
    var lo := Shl(p, k);
    var hi := Min(lo + Pow2(k), n);
    AlignedAt(k, p, hi);
    SubtreeNodeCovers(lo, hi);
    if hi < n {
      CompleteAt(k, p);
      BlockInTree(SubtreeNode(lo, hi), n);
    }
  }

  lemma DivBounds(a: nat, s: nat, q: nat)
    requires s > 0
    ensures a < q * s <==> a / s < q
    ensures q * s <= a <==> q <= a / s
  {
    var d := a / s;
    assert d * s <= a < d * s + s;
    if d < q { MulMono(d + 1, q, s); assert (d + 1) * s == d * s + s; } else { MulMono(q, d, s); }
  }

  /** Number of tile positions of a tree of `n` leaves, the last one possibly partial. */
  function TotalPositions(level: nat, n: nat): nat {
    n / SubtreeSize(level) + if n % SubtreeSize(level) > 0 then 1 else 0
  }

  lemma PositionExists(level: nat, p: nat, n: nat)
    ensures p < TotalPositions(level, n) <==> p * SubtreeSize(level) < n
  {
    hide SubtreeSize;
    var s := SubtreeSize(level);
    DivBounds(n, s, p);
    assert n == n / s * s + n % s;
    if p == n / s { assert p * s == n / s * s; }
    if p < n / s { MulMono(p + 1, n / s, s); assert (p + 1) * s == p * s + s; }
  }

  /** The first tile a batch can affect. */
  function FirstAffected(level: nat, from: nat): nat { from / SubtreeSize(level) / TILE_WIDTH }

  /** The last tile a batch can affect. */
  function LastAffected(level: nat, n: nat): nat {
    if n > 0 then FirstAffected(level, n - 1) else 0
  }

  /** A tile that becomes full lies in the range of tiles `precompute_tiles_batch` visits, and all
      its 256 positions exist. */
  lemma NewTileIsVisited(level: nat, i: nat, from: nat, n: nat)
    requires TileFull(level, i, n) && !TileFull(level, i, from)
    ensures n > 0
    ensures FirstAffected(level, from) <= i <= LastAffected(level, n)
    ensures i * TILE_WIDTH + TILE_WIDTH <= TotalPositions(level, n)
  {
    hide SubtreeSize;
    var s := SubtreeSize(level);
    var q := i * TILE_WIDTH + TILE_WIDTH;
    TileIndexBound(level, i, n);
    DivBounds(from, s, q);
    TilePositionFits(level, i, 255, n);
    assert (q - 1) * s <= n - 1;
    DivBounds(n - 1, s, q - 1);
    DivBounds(n, s, q);
  }

  /** The test on the last child tile is the test that the tile itself is full. */
  lemma LastChildFull(level: nat, i: nat, n: nat)
    requires level > 0
    ensures TileFull(level - 1, (i + 1) * TILE_WIDTH - 1, n) <==> TileFull(level, i, n)
  {
    var s := SubtreeSize(level - 1);
    var q := i * TILE_WIDTH + TILE_WIDTH;
    assert ((i + 1) * TILE_WIDTH - 1) * TILE_WIDTH + TILE_WIDTH == q * TILE_WIDTH;
    assert q * (TILE_WIDTH * s) == q * TILE_WIDTH * s;
  }

  lemma LevelZeroFull(i: nat, n: nat)
    requires i * TILE_WIDTH + TILE_WIDTH <= TotalPositions(0, n)
    ensures TileFull(0, i, n)
  {}

  /** The tiles put so far: the new ones of the lower levels, and of this level below tile `i`. */
  ghost predicate TilesDone(h: HashFn, E: seq<Bytes>, puts: Db, from: nat, level: nat, i: nat) {
    forall k: Key ::
      (k in puts <==> k.TileKey? && (k.level, k.i) in NewTiles(|E|, from)
                      && (k.level < level || (k.level == level && k.i < i)))
      && (k in puts ==> TileFull(k.level, k.i, |E|) && puts[k] == Tile(TileHashes(h, E, k.level, k.i)))
  }

  lemma TilesDoneNext(h: HashFn, E: seq<Bytes>, puts: Db, from: nat, level: nat, i: nat)
    requires TilesDone(h, E, puts, from, level, i) && level <= MAX_TILE_LEVEL
    ensures TileFull(level, i, |E|) && !TileFull(level, i, from) ==>
              TilesDone(h, E, puts[TileKey(level, i) := Tile(TileHashes(h, E, level, i))], from, level, i + 1)
    ensures !TileFull(level, i, |E|) || TileFull(level, i, from) ==> TilesDone(h, E, puts, from, level, i + 1)
  {
    hide TileFull, TileHashes;
  }

  /** Tiles outside the visited range of a level do not become full. */
  lemma LevelDone(h: HashFn, E: seq<Bytes>, puts: Db, from: nat, level: nat, i: nat)
    requires TilesDone(h, E, puts, from, level, i) && level <= MAX_TILE_LEVEL
    requires i * TILE_WIDTH >= TotalPositions(level, |E|)
             || (|E| > 0 && i > LastAffected(level, |E|))
    ensures TilesDone(h, E, puts, from, level + 1, 0)
  {
    hide TileFull, TileHashes, SubtreeSize, TotalPositions, LastAffected, FirstAffected;
    forall k: Key | k.TileKey? && k.level == level && (k.level, k.i) in NewTiles(|E|, from) ensures k.i < i {
      NewTileIsVisited(level, k.i, from, |E|);
    }
  }

  lemma LevelStart(h: HashFn, E: seq<Bytes>, puts: Db, from: nat, level: nat)
    requires TilesDone(h, E, puts, from, level, 0)
    ensures TilesDone(h, E, puts, from, level, FirstAffected(level, from))
  {
    hide TileFull, TileHashes, SubtreeSize, TotalPositions, LastAffected, FirstAffected;
    forall k: Key | k.TileKey? && k.level == level && (k.level, k.i) in NewTiles(|E|, from)
      ensures k.i >= FirstAffected(level, from)
    {
      NewTileIsVisited(level, k.i, from, |E|);
    }
  }

  lemma AllTilesDone(h: HashFn, E: seq<Bytes>, puts: Db, from: nat)
    requires TilesDone(h, E, puts, from, MAX_TILE_LEVEL + 1, 0)
    ensures puts == TilePuts(h, E, from)
  {
    hide TileFull, TileHashes;
    forall k: Key
      ensures k in puts <==> k in TilePuts(h, E, from)
      ensures k in puts ==> puts[k] == TilePuts(h, E, from)[k]
    {
      TilePutsAt(h, E, from, k);
    }
  }
}
