/** What a request for a tile should get (`static_handlers.rs`): the roots of its positions. When the
    answer is the one for the tile asked for, and when it stays the same while the tree grows. */
module TileAnswers {
  import opened Bits
  import opened TreeMath
  import opened Rfc6962
  import opened Subtree
  import opened Inclusion
  import opened ConsistencyProofs
  import opened LogTypes
  import opened TreeStore
  import opened TileMath

  datatype Response = Served(hashes: seq<Digest>) | BadRequest | NotFound | ServerError

  /** Tile position `p` covers a leaf of the tree of `n` leaves. */
  predicate InPosition(level: nat, p: nat, n: nat) { p * SubtreeSize(level) < n }

  /** The root of the leaves under tile position `p`, cut off at the tree size. */
  function PositionHash(h: HashFn, D: seq<Bytes>, level: nat, p: nat): Digest
    requires InPosition(level, p, |D|)
  {
    MTH(h, D[p * SubtreeSize(level)..Min(p * SubtreeSize(level) + SubtreeSize(level), |D|)])
  }

  ghost predicate HashIs(h: HashFn, D: seq<Bytes>, level: nat, p: nat, d: Digest) {
    InPosition(level, p, |D|) && d == PositionHash(h, D, level, p)
  }

  lemma ExistsInTree(level: nat, p: nat, n: nat)
    requires p < TotalPositions(level, n)
    ensures InPosition(level, p, n)
  {
    hide SubtreeSize, TotalPositions;
    PositionExists(level, p, n);
  }

  /** The roots of `count` positions from `first` on. */
  function Positions(h: HashFn, D: seq<Bytes>, level: nat, first: nat, count: nat): (hashes: seq<Digest>)
    requires first + count <= TotalPositions(level, |D|)
    ensures |hashes| == count
    ensures forall j | 0 <= j < count :: HashIs(h, D, level, first + j, hashes[j])
  {
    hide SubtreeSize, TotalPositions, PositionHash, InPosition;
    if count == 0 then []
    else
      ExistsInTree(level, first + count - 1, |D|);
      Positions(h, D, level, first, count - 1) + [PositionHash(h, D, level, first + count - 1)]
  }

  /** How many hashes a request asks for. */
  function Wanted(width: Option<nat>): (w: nat)
    ensures w <= TILE_WIDTH
  {
    if width.Some? && width.value <= TILE_WIDTH then width.value else TILE_WIDTH
  }

  /** How many of them exist. */
  function Requested(level: nat, first: nat, n: nat, width: Option<nat>): nat
    requires first < TotalPositions(level, n)
  {
    Min(Wanted(width), TotalPositions(level, n) - first)
  }

  /** What a request for the positions from `first` on should get. */
  function TileAnswer(h: HashFn, D: seq<Bytes>, level: nat, first: nat, width: Option<nat>): Response {
    if first >= TotalPositions(level, |D|) then NotFound
    else Served(Positions(h, D, level, first, Requested(level, first, |D|, width)))
  }

  /** What an answer holds: nothing past the tree; otherwise the roots of consecutive ranges of 256^level
      leaves, the last one cut off at the tree, as many as asked for and as there are. */
  lemma TileReads(h: HashFn, D: seq<Bytes>, level: nat, first: nat, width: Option<nat>)
    requires width.Some? ==> 0 < width.value <= 256
    ensures var r := TileAnswer(h, D, level, first, width); var s := SubtreeSize(level);
            (r == NotFound <==> first * s >= |D|) && (r != NotFound ==> r.Served?)
            && (r.Served? ==>
                  && 0 < |r.hashes| <= (if width.Some? then width.value else 256)
                  && (|r.hashes| < (if width.Some? then width.value else 256) ==> (first + |r.hashes|) * s >= |D|)
                  && forall j | 0 <= j < |r.hashes| :: HashIs(h, D, level, first + j, r.hashes[j]))
  {
    hide SubtreeSize, TotalPositions, Positions, HashIs;
    var total := TotalPositions(level, |D|);
    PositionExists(level, first, |D|);
    if first < total { PositionExists(level, first + Requested(level, first, |D|, width), |D|); }
  }

  /** The hash of a position, written out. */
  lemma PositionIs(h: HashFn, D: seq<Bytes>, level: nat, p: nat, d: Digest)
    requires HashIs(h, D, level, p, d)
    ensures var s := SubtreeSize(level);
            p * s < |D| && d == MTH(h, D[p * s..if p * s + s <= |D| then p * s + s else |D|])
  {
    hide MTH, SubtreeSize;
  }

  lemma SubtreeSizes()
    ensures SubtreeSize(0) == 1 && SubtreeSize(1) == 0x100 && SubtreeSize(2) == 0x1_0000
    ensures SubtreeSize(3) == 0x100_0000 && SubtreeSize(4) == 0x1_0000_0000 && SubtreeSize(5) == 0x100_0000_0000
  {
    assert SubtreeSize(1) == 256 * SubtreeSize(0);
    assert SubtreeSize(2) == 256 * SubtreeSize(1);
    assert SubtreeSize(3) == 256 * SubtreeSize(2);
    assert SubtreeSize(4) == 256 * SubtreeSize(3);
  }

  lemma TotalBound(level: nat, n: nat)
    ensures TotalPositions(level, n) <= n
  {
    hide TotalPositions, SubtreeSize;
    var t := TotalPositions(level, n);
    if t > 0 {
      PositionExists(level, t - 1, n);
      MulMono(1, SubtreeSize(level), t - 1);
    }
  }

  // ---------------------------------------------------------------- wrapping

  /** The first position of tile `i`; the multiplication wraps in a release build. */
  function First(i: nat): nat { i * TILE_WIDTH % U64_SIZE }

  /** Tile `i` gets its own answer exactly if its number does not wrap, or wraps past the tree. */
  lemma TileExact(h: HashFn, D: seq<Bytes>, level: nat, i: nat, width: Option<nat>)
    requires |D| < U64_SIZE
    ensures TileAnswer(h, D, level, First(i), width) == TileAnswer(h, D, level, i * TILE_WIDTH, width) <==>
              i < 0x100_0000_0000_0000 || First(i) >= TotalPositions(level, |D|)
  {
    hide TotalPositions, TileAnswer, First;
    TotalBound(level, |D|);
    FirstOf(i);
    NotFoundPast(h, D, level, First(i), width);
    NotFoundPast(h, D, level, i * TILE_WIDTH, width);
  }

  lemma FirstOf(i: nat)
    ensures if i < 0x100_0000_0000_0000 then First(i) == i * TILE_WIDTH else i * TILE_WIDTH >= U64_SIZE
  {}

  lemma NotFoundPast(h: HashFn, D: seq<Bytes>, level: nat, first: nat, width: Option<nat>)
    ensures TileAnswer(h, D, level, first, width) == NotFound <==> first >= TotalPositions(level, |D|)
    ensures TileAnswer(h, D, level, first, width).Served? <==> first < TotalPositions(level, |D|)
  {
    hide TotalPositions, Positions;
  }

  /** The first tile number that wraps gets tile 0 of any tree with a leaf, instead of not found. */
  lemma TileWraps(h: HashFn, D: seq<Bytes>, level: nat, width: Option<nat>)
    requires 0 < |D| < U64_SIZE
    ensures var i := 0x100_0000_0000_0000;
            TileAnswer(h, D, level, First(i), width) == TileAnswer(h, D, level, 0, width)
            && TileAnswer(h, D, level, First(i), width).Served?
            && TileAnswer(h, D, level, i * TILE_WIDTH, width) == NotFound
  {
    hide TotalPositions, TileAnswer, SubtreeSize, First;
    var i := 0x100_0000_0000_0000;
    assert First(i) == 0 by { FirstWraps(); }
    TotalBound(level, |D|);
    PositionExists(level, 0, |D|);
    NotFoundPast(h, D, level, 0, width);
    NotFoundPast(h, D, level, i * TILE_WIDTH, width);
  }

  lemma FirstWraps()
    ensures First(0x100_0000_0000_0000) == 0
  {}

  // ---------------------------------------------------------------- growing

  /** Every position the request asks for exists and is complete. */
  predicate Complete(level: nat, first: nat, width: Option<nat>, n: nat) {
    (first + Wanted(width)) * SubtreeSize(level) <= n
  }

  /** The answer stays the same whatever leaves are appended. */
  ghost predicate KeptForever(h: HashFn, D: seq<Bytes>, level: nat, first: nat, width: Option<nat>) {
    forall more: seq<Bytes> ::
      TileAnswer(h, D + more, level, first, width) == TileAnswer(h, D, level, first, width)
  }

  lemma CompletePosition(h: HashFn, D: seq<Bytes>, more: seq<Bytes>, level: nat, p: nat)
    requires (p + 1) * SubtreeSize(level) <= |D|
    ensures InPosition(level, p, |D|) && InPosition(level, p, |D + more|)
    ensures PositionHash(h, D + more, level, p) == PositionHash(h, D, level, p)
  {
    hide MTH, SubtreeSize;
    var s := SubtreeSize(level);
    assert (p + 1) * s == p * s + s;
    assert (D + more)[p * s..p * s + s] == D[p * s..p * s + s];
  }

  lemma CompletePositions(level: nat, first: nat, width: Option<nat>, n: nat)
    requires Complete(level, first, width, n) && Wanted(width) > 0
    ensures first + Wanted(width) <= TotalPositions(level, n)
  {
    hide TotalPositions, SubtreeSize, Wanted;
    var p := first + Wanted(width) - 1;
    assert (p + 1) * SubtreeSize(level) == p * SubtreeSize(level) + SubtreeSize(level);
    PositionExists(level, p, n);
  }

  lemma CompleteGrows(level: nat, first: nat, width: Option<nat>, n: nat, m: nat)
    requires Complete(level, first, width, n) && n <= m
    ensures Complete(level, first, width, m)
  {
    hide SubtreeSize, Wanted;
  }

  /** A complete answer is the same in every larger tree. */
  lemma CompleteKept(h: HashFn, D: seq<Bytes>, more: seq<Bytes>, level: nat, first: nat, width: Option<nat>)
    requires Complete(level, first, width, |D|) && Wanted(width) > 0
    ensures TileAnswer(h, D + more, level, first, width) == TileAnswer(h, D, level, first, width)
  {
    hide TotalPositions, SubtreeSize, Wanted, PositionHash, InPosition, Complete, Positions;
    var count, E := Wanted(width), D + more;
    CompleteGrows(level, first, width, |D|, |E|);
    CompletePositions(level, first, width, |D|);
    CompletePositions(level, first, width, |E|);
    var ps, qs := Positions(h, D, level, first, count), Positions(h, E, level, first, count);
    forall j | 0 <= j < count ensures ps[j] == qs[j] {
      assert HashIs(h, D, level, first + j, ps[j]) && HashIs(h, E, level, first + j, qs[j]);
      PositionDone(level, first, width, |D|, j);
      CompletePosition(h, D, more, level, first + j);
    }
    assert ps == qs;
  }

  lemma PositionDone(level: nat, first: nat, width: Option<nat>, n: nat, j: nat)
    requires Complete(level, first, width, n) && j < Wanted(width)
    ensures (first + j + 1) * SubtreeSize(level) <= n
  {
    hide SubtreeSize, Wanted;
    MulMono(first + j + 1, first + Wanted(width), SubtreeSize(level));
  }

  /** Where fewer hashes than asked for exist, one more position makes the answer longer. */
  lemma ShortAnswerGrows(h: HashFn, D: seq<Bytes>, more: seq<Bytes>, level: nat, first: nat, width: Option<nat>)
    requires first < TotalPositions(level, |D|) < first + Wanted(width)
    requires TotalPositions(level, |D|) < TotalPositions(level, |D + more|)
    ensures TileAnswer(h, D + more, level, first, width) != TileAnswer(h, D, level, first, width)
  {
    hide TotalPositions, Positions, HashIs, Wanted;
    var a, b := TileAnswer(h, D, level, first, width), TileAnswer(h, D + more, level, first, width);
    assert |a.hashes| == TotalPositions(level, |D|) - first < |b.hashes|;
  }

  lemma MorePositions(level: nat, n: nat)
    ensures TotalPositions(level, n) < TotalPositions(level, n + SubtreeSize(level))
  {
    hide TotalPositions, SubtreeSize;
    var t, s := TotalPositions(level, n), SubtreeSize(level);
    if t > 0 {
      PositionExists(level, t - 1, n);
      assert (t - 1) * s + s == t * s;
    }
    PositionExists(level, t, n + s);
  }

  /** Two ways to go on to `v` leaves that differ below position `p`, without a collision between the
      strings the two trees hash. */
  ghost predicate ApartAt(h: HashFn, D: seq<Bytes>, a: seq<Bytes>, b: seq<Bytes>, level: nat, p: nat) {
    var s := SubtreeSize(level);
    var v := |D| + |a|;
    |b| == |a| && p * s < v && p * s <= Min(p * s + s, v)
    && (D + a)[p * s..Min(p * s + s, v)] != (D + b)[p * s..Min(p * s + s, v)]
    && CollisionFree(h, TreeInputs(h, D + a, v) + TreeInputs(h, D + b, v))
  }

  lemma NodeIsPosition(h: HashFn, D: seq<Bytes>, level: nat, p: nat, x: nat)
    requires InTree(x, |D|) && InPosition(level, p, |D|)
    requires Lo(x) == p * SubtreeSize(level)
    requires Hi(x, |D|) == Min(p * SubtreeSize(level) + SubtreeSize(level), |D|)
    ensures NodeHash(h, D, x, |D|) == PositionHash(h, D, level, p)
  {
    hide Lo, Top, MTH, SubtreeSize;
  }

  lemma ApartPositions(h: HashFn, D: seq<Bytes>, a: seq<Bytes>, b: seq<Bytes>, level: nat, p: nat)
    requires ApartAt(h, D, a, b, level, p)
    ensures InPosition(level, p, |D + a|) && InPosition(level, p, |D + b|)
    ensures PositionHash(h, D + a, level, p) != PositionHash(h, D + b, level, p)
  {
    hide Lo, Top, SubtreeSize, NodeHash, TreeInputs, CollisionFree, PositionHash, Aligned, SubtreeNode;
    var s, v := SubtreeSize(level), |D| + |a|;
    PositionNode(level, p, v);
    var x := SubtreeNode(p * s, Min(p * s + s, v));
    NodeIsPosition(h, D + a, level, p, x);
    NodeIsPosition(h, D + b, level, p, x);
    if NodeHash(h, D + a, x, v) == NodeHash(h, D + b, x, v) {
      SameHashSameLeaves(h, D + a, v, x, D + b, v, x, TreeInputs(h, D + a, v) + TreeInputs(h, D + b, v));
    }
  }

  /** Where the last position of an answer can still change, it does after one of the two. */
  lemma PartialAnswerChanges(h: HashFn, D: seq<Bytes>, a: seq<Bytes>, b: seq<Bytes>, level: nat, first: nat,
                             width: Option<nat>)
    requires 0 < Wanted(width) && first + Wanted(width) <= TotalPositions(level, |D|)
    requires ApartAt(h, D, a, b, level, first + Wanted(width) - 1)
    ensures TileAnswer(h, D + a, level, first, width) != TileAnswer(h, D + b, level, first, width)
  {
    hide TotalPositions, Positions, Wanted, PositionHash, InPosition, ApartAt, SubtreeSize;
    var last := first + Wanted(width) - 1;
    ApartPositions(h, D, a, b, level, last);
    LaterPositions(level, last, |D|, |D + a|);
    LaterPositions(level, last, |D|, |D + b|);
    var p := Positions(h, D + a, level, first, Wanted(width));
    var q := Positions(h, D + b, level, first, Wanted(width));
    assert HashIs(h, D + a, level, last, p[Wanted(width) - 1]);
    assert HashIs(h, D + b, level, last, q[Wanted(width) - 1]);
  }

  lemma LaterPositions(level: nat, p: nat, n: nat, m: nat)
    requires n <= m && p < TotalPositions(level, n)
    ensures p < TotalPositions(level, m)
  {
    hide TotalPositions, SubtreeSize;
    PositionExists(level, p, n);
    PositionExists(level, p, m);
  }

  /** The answer to a request that is served is the same for ever exactly if it is complete. The
      handlers mark every answer as immutable. */
  lemma KeptIffComplete(h: HashFn, D: seq<Bytes>, level: nat, first: nat, width: Option<nat>,
                        a: seq<Bytes>, b: seq<Bytes>)
    requires Wanted(width) > 0 && first < TotalPositions(level, |D|)
    requires !Complete(level, first, width, |D|) && first + Wanted(width) <= TotalPositions(level, |D|) ==>
               ApartAt(h, D, a, b, level, first + Wanted(width) - 1)
    ensures KeptForever(h, D, level, first, width) <==> Complete(level, first, width, |D|)
  {
    hide TotalPositions, Wanted, SubtreeSize, TileAnswer, Complete, ApartAt;
    if Complete(level, first, width, |D|) {
      forall more: seq<Bytes>
        ensures TileAnswer(h, D + more, level, first, width) == TileAnswer(h, D, level, first, width)
      {
        CompleteKept(h, D, more, level, first, width);
      }
    } else if KeptForever(h, D, level, first, width) {
      if first + Wanted(width) <= TotalPositions(level, |D|) {
        assert TileAnswer(h, D + a, level, first, width) == TileAnswer(h, D + b, level, first, width);
        PartialAnswerChanges(h, D, a, b, level, first, width);
      } else {
        var more: seq<Bytes> := seq(SubtreeSize(level), _ => []);
        MorePositions(level, |D|);
        ShortAnswerGrows(h, D, more, level, first, width);
      }
    }
  }

  /** Five hashes asked of a tree of three leaves: three are served, and one more with the next leaf. */
  lemma PartialTileGrows(h: HashFn, D: seq<Bytes>, d: Bytes)
    requires |D| == 3
    ensures var before := TileAnswer(h, D, 0, 0, Some(5)); var after := TileAnswer(h, D + [d], 0, 0, Some(5));
            before.Served? && |before.hashes| == 3 && after.Served? && |after.hashes| == 4
  {
    hide Positions, HashIs;
    assert TotalPositions(0, 3) == 3 && TotalPositions(0, 4) == 4;
  }
}
