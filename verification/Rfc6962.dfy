/** The recursive definitions of sections 2.1, 2.1.1 and 2.1.2 of RFC 6962, and the hash of a
    node of the array tree in their terms. The hash function is a parameter throughout. */
module Rfc6962 {
  import opened Bits
  import opened TreeMath

  type byte = x: int | 0 <= x < 256

  type Bytes = seq<byte>

  type Bytes32 = d: Bytes | |d| == 32 witness seq(32, i => 0)

  datatype Digest = Digest(bytes: Bytes32)

  type HashFn = Bytes -> Digest

  /** The value of `digest::Output::default()`. */
  const ZERO_DIGEST: Digest := Digest(
    [0, 0, 0, 0, 0, 0, 0, 0, 0, 0, 0, 0, 0, 0, 0, 0,
     0, 0, 0, 0, 0, 0, 0, 0, 0, 0, 0, 0, 0, 0, 0, 0])

  /** `leaf_hash`: H(0x00 || d). */
  function LeafHash(h: HashFn, d: Bytes): Digest { h(LeafInput(d)) }

  /** `parent_hash`: H(0x01 || l || r). */
  function ParentHash(h: HashFn, l: Digest, r: Digest): Digest { h(ParentInput(l, r)) }

  function LeafInput(d: Bytes): Bytes { [0] + d }

  function ParentInput(l: Digest, r: Digest): Bytes { [1] + l.bytes + r.bytes }

  /** Digests one after the other: `from_digests`. */
  function Flat(ds: seq<Digest>): Bytes {
    if ds == [] then [] else ds[0].bytes + Flat(ds[1..])
  }

  lemma DigestsInOrder(a: Digest, b: Digest)
    ensures Flat([a, b]) == a.bytes + b.bytes
  {
    assert [b][1..] == [];
    assert Flat([b]) == b.bytes + [];
    assert [a, b][1..] == [b];
  }

  /** A byte string cut into digests: `chunks(output_size)`. */
  function Chunks(b: Bytes): (ds: seq<Digest>)
    requires |b| % 32 == 0
    ensures 32 * |ds| == |b|
  {
    if b == [] then [] else [Digest(b[..32])] + Chunks(b[32..])
  }

  /** The bytes of a list of digests are cut into those digests again. */
  lemma {:induction false} ChunksOfFlat(ds: seq<Digest>)
    ensures |Flat(ds)| == 32 * |ds| && Chunks(Flat(ds)) == ds
  {
    if ds != [] {
      ChunksOfFlat(ds[1..]);
      assert Flat(ds)[..32] == ds[0].bytes && Flat(ds)[32..] == Flat(ds[1..]);
      assert [ds[0]] + ds[1..] == ds;
    }
  }

  /** The digests a byte string is cut into are its bytes. */
  lemma {:induction false} FlatOfChunks(b: Bytes)
    requires |b| % 32 == 0
    ensures Flat(Chunks(b)) == b
  {
    if b != [] {
      FlatOfChunks(b[32..]);
      assert Chunks(b)[1..] == Chunks(b[32..]);
      assert b[..32] + b[32..] == b;
    }
  }

  /** The largest power of two smaller than `n`. */
  function SplitPoint(n: nat): (k: nat)
    requires n >= 2
    ensures IsPow2(k) && k < n <= 2 * k
  {
    if n == 2 then 1 else 2 * SplitPoint((n + 1) / 2)
  }

  lemma SplitPointHalves(n: nat)
    requires n >= 2
    ensures SplitPoint(n) == if n == 2 then 1 else 2 * SplitPoint((n + 1) / 2)
  {
    hide IsPow2;
  }

  /** Merkle Tree Hash, section 2.1. */
  function MTH(h: HashFn, D: seq<Bytes>): Digest
    decreases |D|
  {
    if |D| == 0 then h([])
    else if |D| == 1 then LeafHash(h, D[0])
    else
      var k := SplitPoint(|D|);
      ParentHash(h, MTH(h, D[..k]), MTH(h, D[k..]))
  }

  /** The first trees, byte for byte: no leaf, one leaf, two leaves. */
  lemma FirstTrees(h: HashFn, a: Bytes, b: Bytes)
    ensures MTH(h, []) == h([])
    ensures MTH(h, [a]) == h([0] + a)
    ensures MTH(h, [a, b]) == h([1] + h([0] + a).bytes + h([0] + b).bytes)
  {
    assert [a, b][..1] == [a] && [a, b][1..] == [b];
    assert SplitPoint(2) == 1;
  }

  /** Merkle audit path, section 2.1.1. */
  function PATH(h: HashFn, m: nat, D: seq<Bytes>): seq<Digest>
    requires m < |D|
    decreases |D|
  {
    if |D| == 1 then []
    else
      var k := SplitPoint(|D|);
      if m < k then PATH(h, m, D[..k]) + [MTH(h, D[k..])]
      else PATH(h, m - k, D[k..]) + [MTH(h, D[..k])]
  }

  /** Merkle consistency proof, section 2.1.2. */
  function PROOF(h: HashFn, m: nat, D: seq<Bytes>): seq<Digest>
    requires 0 < m <= |D|
  {
    SUBPROOF(h, m, D, true)
  }

  function SUBPROOF(h: HashFn, m: nat, D: seq<Bytes>, b: bool): seq<Digest>
    requires 0 < m <= |D|
    decreases |D|
  {
    if m == |D| then (if b then [] else [MTH(h, D)])
    else
      var k := SplitPoint(|D|);
      if m <= k then SUBPROOF(h, m, D[..k], b) + [MTH(h, D[k..])]
      else SUBPROOF(h, m - k, D[k..], false) + [MTH(h, D[..k])]
  }

  // ---------------------------------------------------------------- nodes of the array tree

  /** The RFC splits a node's leaves exactly where the array tree does. */
  lemma {:induction false} NodeSplits(x: nat, n: nat)
    requires IsInner(x) && InTree(x, n)
    ensures Hi(x, n) - Lo(x) >= 2
    ensures Mid(x) - Lo(x) == SplitPoint(Hi(x, n) - Lo(x))
  {
    hide Lo, Top, LeftHand, SplitPoint, IsPow2;
    MidInTree(x, n);
    SplitPointHalves(Hi(x, n) - Lo(x));
    var y := ViewNode(x);
    if IsInner(y) {
      HalfTree(x, y, n);
      NodeSplits(y, (n + 1) / 2);
      MidInTree(y, (n + 1) / 2);
      assert Hi(x, n) - Lo(x) >= 3;
      assert Hi(y, (n + 1) / 2) - Lo(y) == (Hi(x, n) - Lo(x) + 1) / 2;
    } else {
      var q := ViewNode(y);
    }
  }

  /** The hash of node `x` in the tree over the first `n` leaves of `D`. */
  function NodeHash(h: HashFn, D: seq<Bytes>, x: nat, n: nat): Digest
    requires InTree(x, n) && n <= |D|
  {
    LoInTree(x, n);
    MTH(h, D[Lo(x)..Hi(x, n)])
  }

  lemma NodeHashLeaf(h: HashFn, D: seq<Bytes>, i: nat, n: nat)
    requires i < n <= |D|
    ensures InTree(2 * i, n) && NodeHash(h, D, 2 * i, n) == LeafHash(h, D[i])
  {
    hide Lo, Top, LeftHand;
    LeafNode(i);
    assert D[i..i + 1] == [D[i]];
  }

  lemma NodeHashInner(h: HashFn, D: seq<Bytes>, x: nat, n: nat)
    requires IsInner(x) && InTree(x, n) && n <= |D|
    ensures InTree(LeftOf(x), n)
    ensures NodeHash(h, D, x, n)
         == ParentHash(h, NodeHash(h, D, LeftOf(x), n), NodeHash(h, D, RightOf(x, n), n))
  {
    hide Lo, Top, LeftHand, LeftOf, RightOf;
    NodeSplits(x, n);
    MidInTree(x, n);
    var S := D[Lo(x)..Hi(x, n)];
    var k := Mid(x) - Lo(x);
    assert S[..k] == D[Lo(x)..Mid(x)];
    assert S[k..] == D[Mid(x)..Hi(x, n)];
  }

  lemma NodeHashRoot(h: HashFn, D: seq<Bytes>, n: nat)
    requires 0 < n <= |D|
    ensures InTree(Root(n), n) && NodeHash(h, D, Root(n), n) == MTH(h, D[..n])
  {
    hide Lo, Top, Root;
    RootCovers(n);
    assert D[0..n] == D[..n];
  }
}
