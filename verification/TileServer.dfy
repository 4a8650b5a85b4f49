/** Serving tiles (`static_handlers.rs`): stored tiles and tiles generated on demand agree. */
module TileServer {
  import opened Bits
  import opened TreeMath
  import opened Rfc6962
  import opened Subtree
  import opened LogTypes
  import opened TreeStore
  import opened TreeRuns
  import opened TreeReads
  import opened BackedTree
  import opened TileMath
  import opened TileAnswers

  /** The hash of one position, read at a published size. */
  method HashAtPosition(tree: SlateDbBackedTree, level: nat, p: nat, n: u64) returns (d: Digest)
    requires tree.Valid() && n in tree.published && InPosition(level, p, n)
    modifies tree`cache
    ensures tree.Valid() && n <= |tree.leaves| && HashIs(tree.h, tree.leaves[..n], level, p, d)
  {
    hide Inv, CacheOk, NodeHash, Lo, Top, SubtreeSize, Aligned, SubtreeNode, PositionHash, InTree;
    InvPublished(tree.h, tree.State());
    PositionNode(level, p, n);
    var size := SubtreeSize(level);
    var start := p * size;
    var end := Min(start + size, n);
    var x := ComputeSubtreeRoot(start, end);
    PublishedIsSafe(tree.h, tree.State(), x, n);
    var r := tree.GetNodeHashAtVersion(x, n);
    NodeHashOfPrefix(tree.h, tree.leaves, x, n);
    NodeIsPosition(tree.h, tree.leaves[..n], level, p, x);
    d := r.value;
  }

  lemma NodeHashOfPrefix(h: HashFn, D: seq<Bytes>, x: nat, n: nat)
    requires InTree(x, n) && n <= |D|
    ensures NodeHash(h, D[..n], x, n) == NodeHash(h, D, x, n)
  {
    hide NodeHash;
    NodeHashAppend(h, D[..n], D[n..], x, n);
    assert D[..n] + D[n..] == D;
  }

  /** The hashes of `count` positions from `first` on. */
  method HashesFrom(tree: SlateDbBackedTree, level: nat, first: nat, count: nat, n: u64)
    returns (hashes: seq<Digest>)
    requires tree.Valid() && n in tree.published && n <= |tree.leaves|
    requires first + count <= TotalPositions(level, n)
    modifies tree`cache
    ensures tree.Valid() && hashes == Positions(tree.h, tree.leaves[..n], level, first, count)
  {
    hide Inv, CacheOk, SubtreeSize, TotalPositions, PositionHash, InPosition, Positions;
    hashes := [];
    ghost var D := tree.leaves[..n];
    for j := 0 to count
      invariant tree.Valid() && |hashes| == j
      invariant forall k | 0 <= k < j :: HashIs(tree.h, D, level, first + k, hashes[k])
    {
      ExistsInTree(level, first + j, n);
      var d := HashAtPosition(tree, level, first + j, n);
      hashes := hashes + [d];
    }
    ArePositions(tree.h, D, level, first, count, hashes);
  }

  lemma ArePositions(h: HashFn, D: seq<Bytes>, level: nat, first: nat, count: nat, hashes: seq<Digest>)
    requires first + count <= TotalPositions(level, |D|) && |hashes| == count
    requires forall j | 0 <= j < count :: HashIs(h, D, level, first + j, hashes[j])
    ensures hashes == Positions(h, D, level, first, count)
  {
    hide SubtreeSize, TotalPositions, PositionHash, InPosition, Positions;
    var ps := Positions(h, D, level, first, count);
    forall j | 0 <= j < count ensures hashes[j] == ps[j] {
      assert HashIs(h, D, level, first + j, hashes[j]) && HashIs(h, D, level, first + j, ps[j]);
    }
  }

  /** `generate_merkle_tile` at the size the handler read, whatever has been committed since. */
  method GenerateMerkleTile(tree: SlateDbBackedTree, level: nat, i: u64, n: u64, width: Option<nat>)
    returns (r: Response)
    requires tree.Valid() && (n == 0 || n in tree.published)
    requires width.Some? ==> width.value > 0
    modifies tree`cache
    ensures tree.Valid() && n <= |tree.leaves|
    ensures r == TileAnswer(tree.h, tree.leaves[..n], level, First(i), width)
  {
    hide Inv, CacheOk, SubtreeSize, TotalPositions, HashIs, Positions;
    InvPublished(tree.h, tree.State());
    var total := TotalPositions(level, n);
    TotalBound(level, n);
    var first := i * TILE_WIDTH % U64_SIZE;
    var end := Min((first + TILE_WIDTH) % U64_SIZE, total);
    if first >= total {
      return NotFound;
    }
    var max := if width.Some? then Min(width.value, end - first) else end - first;
    var hashes := HashesFrom(tree, level, first, max, n);
    r := Served(hashes);
  }

  /** `get_tile`: a width asks for a tile generated now, no width for the stored tile first. Either
      way the answer is what generation gives, and for a full tile the stored hashes. */
  method GetTile(tree: SlateDbBackedTree, level: nat, i: u64, width: Option<nat>) returns (r: Response)
    requires tree.Valid()
    modifies tree`cache
    ensures tree.Valid()
    ensures r == BadRequest <==> level > 5 || (width.Some? && (width.value == 0 || width.value > 256))
    ensures r != BadRequest ==> r == TileAnswer(tree.h, tree.leaves, level, First(i), width)
    ensures r != BadRequest && TileFull(level, i, |tree.leaves|) ==>
              r == Served(Take(TileHashes(tree.h, tree.leaves, level, i), width))
  {
    hide Inv, CacheOk, SubtreeSize, TileFull, TileHashes, TotalPositions, Positions;
    if level > MAX_TILE_LEVEL || (width.Some? && (width.value == 0 || width.value > TILE_WIDTH)) {
      return BadRequest;
    }
    var size := tree.GetCommittedSize();
    var n := size.value;
    if width.None? && TileKey(level, i) in tree.db {
      StoredTile(tree.h, tree.State(), level, i);
      FullIsGenerated(tree.h, tree.leaves, level, i, None);
      if !tree.db[TileKey(level, i)].Tile? {
        return ServerError;
      }
      return Served(tree.db[TileKey(level, i)].hashes);
    }
    InvPublished(tree.h, tree.State());
    r := GenerateMerkleTile(tree, level, i, n, width);
    assert tree.leaves[..n] == tree.leaves;
    if TileFull(level, i, n) { FullIsGenerated(tree.h, tree.leaves, level, i, width); }
  }

  lemma StoredTile(h: HashFn, s: TreeState, level: nat, i: nat)
    requires Inv(h, s) && TileKey(level, i) in s.db
    ensures TileFull(level, i, |s.leaves|) && s.db[TileKey(level, i)] == Tile(TileHashes(h, s.leaves, level, i))
  {
    hide SizeKeys, LeafKeys, NodeKeys, VersionKeys, TileFull, TileHashes;
  }

  /** The first `width` hashes of a tile. */
  function Take(hashes: seq<Digest>, width: Option<nat>): seq<Digest> {
    if width.Some? && width.value <= |hashes| then hashes[..width.value] else hashes
  }

  /** What is stored of a full tile is what generation gives. */
  lemma FullIsGenerated(h: HashFn, D: seq<Bytes>, level: nat, i: nat, width: Option<nat>)
    requires TileFull(level, i, |D|) && |D| < U64_SIZE && (width.Some? ==> width.value <= TILE_WIDTH)
    ensures TileAnswer(h, D, level, First(i), width) == Served(Take(TileHashes(h, D, level, i), width))
  {
    hide TotalPositions, TileFull, TileHashes, HashIs, SubtreeSize, Positions;
    LastPosition(level, i, |D|);
    TotalBound(level, |D|);
    FullTileAt(h, D, level, i, 0);
    var hashes := Take(TileHashes(h, D, level, i), width);
    forall j | 0 <= j < |hashes| ensures HashIs(h, D, level, First(i) + j, hashes[j]) {
      FullTileAt(h, D, level, i, j);
    }
    ArePositions(h, D, level, First(i), |hashes|, hashes);
  }

  lemma LastPosition(level: nat, i: nat, n: nat)
    requires TileFull(level, i, n)
    ensures i * TILE_WIDTH + TILE_WIDTH <= TotalPositions(level, n)
  {
    hide SubtreeSize, TotalPositions, TileFull;
    TilePositionFits(level, i, 255, n);
    PositionExists(level, i * TILE_WIDTH + 255, n);
  }

  lemma FullTileAt(h: HashFn, D: seq<Bytes>, level: nat, i: nat, j: nat)
    requires TileFull(level, i, |D|) && j < TILE_WIDTH && First(i) == i * TILE_WIDTH
    ensures |TileHashes(h, D, level, i)| == TILE_WIDTH
    ensures HashIs(h, D, level, First(i) + j, TileHashes(h, D, level, i)[j])
  {
    hide SubtreeSize, MTH, TileFull;
    TilePositionFits(level, i, j, |D|);
    var p := First(i) + j;
    assert (p + 1) * SubtreeSize(level) == p * SubtreeSize(level) + SubtreeSize(level);
  }

  /** A stored tile is what on-demand generation gives at every later published size. */
  lemma TileStable(h: HashFn, s: TreeState, t: TreeState, level: nat, i: nat)
    requires Inv(h, s) && Inv(h, t) && Later(s, t) && TileKey(level, i) in s.db
    ensures TileKey(level, i) in t.db && t.db[TileKey(level, i)] == s.db[TileKey(level, i)]
    ensures TileFull(level, i, |t.leaves|)
            && t.db[TileKey(level, i)] == Tile(TileHashes(h, t.leaves, level, i))
  {
    hide TileHashes, TileFull, NodeKeys, VersionKeys, LeafKeys, SizeKeys;
    var more := t.leaves[|s.leaves|..];
    assert s.leaves + more == t.leaves;
    TileHashesAppend(h, s.leaves, more, level, i);
  }
}
