/** What the whole history of a store promises: every run of batches from the empty store, in terms
    of the batches alone. */
module TreeHistory {
  import opened TreeMath
  import opened Rfc6962
  import opened Inclusion
  import opened Consistency
  import opened ConsistencyProofs
  import opened LogTypes
  import opened TreeStore
  import opened TreeRuns
  import opened TreeReads
  import opened BackedTree

  /** The leaves a list of batches appends: those of the batches whose write succeeded, in order. */
  function Appended(batches: seq<Batch>): seq<Bytes> {
    if batches == [] then []
    else (if batches[0].written then batches[0].items else []) + Appended(batches[1..])
  }

  /** The sizes at which a written, non-empty batch ends. */
  function EndSizes(batches: seq<Batch>, from: nat): set<nat> {
    if batches == [] then {}
    else
      var b := batches[0];
      var n := from + if b.written then |b.items| else 0;
      (if b.written && b.items != [] then {n} else {}) + EndSizes(batches[1..], n)
  }

  /** The store after a run: the appended leaves, published at the end sizes. */
  lemma {:induction false} RunIs(h: HashFn, s: TreeState, batches: seq<Batch>)
    ensures Run(h, s, batches).leaves == s.leaves + Appended(batches)
    ensures Run(h, s, batches).published == s.published + EndSizes(batches, |s.leaves|)
    decreases |batches|
  {
    hide BatchPuts;
    if batches != [] { RunIs(h, Step(h, s, batches[0]), batches[1..]); }
  }

  lemma {:induction false} RunTwice(h: HashFn, s: TreeState, a: seq<Batch>, b: seq<Batch>)
    ensures Run(h, Run(h, s, a), b) == Run(h, s, a + b)
    decreases |a|
  {
    hide Step;
    if a == [] {
      assert a + b == b;
    } else {
      RunTwice(h, Step(h, s, a[0]), a[1..], b);
      assert (a + b)[1..] == a[1..] + b;
    }
  }

  /** The store after a run from the empty store. */
  function After(h: HashFn, batches: seq<Batch>): TreeState { Run(h, EMPTY, batches) }

  lemma AfterIs(h: HashFn, past: seq<Batch>, more: seq<Batch>)
    requires Legal(past) && Legal(more)
    ensures Inv(h, After(h, past)) && Inv(h, After(h, past + more)) && Later(After(h, past), After(h, past + more))
    ensures After(h, past).leaves == Appended(past) && After(h, past).published == EndSizes(past, 0)
  {
    hide Inv, Run;
    EmptyInv(h);
    RunKeepsInv(h, EMPTY, past);
    RunKeepsInv(h, After(h, past), more);
    RunTwice(h, EMPTY, past, more);
    RunIs(h, EMPTY, past);
    assert [] + Appended(past) == Appended(past);
  }

  /** A size has its root key stored exactly when a written, non-empty batch ended there. */
  lemma RootStoredIffEnded(h: HashFn, batches: seq<Batch>, n: nat)
    requires Legal(batches) && n > 0
    ensures VNodeKey(Root(n), n) in After(h, batches).db <==> n in EndSizes(batches, 0)
  {
    hide Inv, Run, Root;
    AfterIs(h, batches, []);
    RootKeyStored(h, After(h, batches), n);
  }

  /** Over all runs: at every size where a batch ended, every node of that tree is read as the hash
      of its leaf range, in every later state and with any batches between the three probes. */
  lemma HistoricRead(h: HashFn, past: seq<Batch>, b1: seq<Batch>, b2: seq<Batch>, x: nat, v: nat)
    requires Legal(past) && Legal(b1) && Legal(b2) && v in EndSizes(past, 0) && InTree(x, v)
    ensures v <= |Appended(past)|
    ensures ReadNode(After(h, past).db, After(h, past + b1).db, After(h, past + b1 + b2).db, x, v)
         == Ok(NodeHash(h, Appended(past), x, v))
  {
    hide Inv, Run, InTree, NodeHash, ReadNode, EndSizes, Appended, Later;
    AfterIs(h, past, b1);
    assert Legal(past + b1) by { LegalBoth(past, b1); }
    AfterIs(h, past + b1, b2);
    ReadPublished(h, After(h, past), After(h, past + b1), After(h, past + b1 + b2), x, v);
  }

  lemma LegalBoth(a: seq<Batch>, b: seq<Batch>)
    requires Legal(a) && Legal(b)
    ensures Legal(a + b)
  {
    hide NoTreeKeys;
  }

  /** What a proof at size `v` reads from a store. */
  ghost predicate ReadsAs(db: Db, xs: seq<nat>, v: nat, ds: seq<Digest>) {
    |ds| == |xs| && forall j | 0 <= j < |xs| :: ReadNode(db, db, db, xs[j], v) == Ok(ds[j])
  }

  lemma HistoricReads(h: HashFn, past: seq<Batch>, more: seq<Batch>, xs: seq<nat>, v: nat)
    requires Legal(past) && Legal(more) && v in EndSizes(past, 0) && forall x <- xs :: InTree(x, v)
    ensures v <= |Appended(past)|
    ensures ReadsAs(After(h, past + more).db, xs, v, NodeHashes(h, Appended(past), xs, v))
  {
    hide Inv, Run, InTree, NodeHash, ReadNode, EndSizes, Appended, NodeHashes, PublishedSizes, After;
    AfterIs(h, past, more);
    InvPublished(h, After(h, past));
    assert v <= |Appended(past)| by { EndSizeBound(h, past, v); }
    var u := After(h, past + more);
    var D := u.leaves;
    assert Inv(h, u) && Later(u, u) && v in u.published;
    forall j | 0 <= j < |xs| ensures ReadNode(u.db, u.db, u.db, xs[j], v) == Ok(NodeHash(h, Appended(past), xs[j], v)) {
      ReadPublished(h, u, u, u, xs[j], v);
      LaterHash(h, After(h, past), u, xs[j], v);
    }
  }

  lemma EndSizeBound(h: HashFn, past: seq<Batch>, v: nat)
    requires Legal(past) && v in EndSizes(past, 0)
    ensures 0 < v <= |Appended(past)|
  {
    hide Inv, Run, EndSizes, Appended;
    AfterIs(h, past, []);
    InvPublished(h, After(h, past));
  }

  /** Over all runs: for every size where a batch ended and every leaf below it, every later store
      holds PATH(i, D[v]), which the verifier accepts against the root that store holds for `v`. */
  lemma HistoricInclusion(h: HashFn, past: seq<Batch>, more: seq<Batch>, i: nat, v: nat)
    requires Legal(past) && Legal(more) && v in EndSizes(past, 0) && i < v
    ensures var D := Appended(past); var db := After(h, past + more).db;
      v <= |D| && InTree(2 * i, v)
      && ReadsAs(db, PathUp(2 * i, v), v, PATH(h, i, D[..v]))
      && ReadsAs(db, [Root(v)], v, [MTH(h, D[..v])])
      && |PATH(h, i, D[..v])| == |PathUp(2 * i, v)|
      && FoldUp(h, 2 * i, v, LeafHash(h, D[i]), PATH(h, i, D[..v])) == MTH(h, D[..v])
  {
    hide Run, After, InTree, NodeHash, ReadNode, EndSizes, Appended, PathUp, FoldUp, PATH, MTH, Root, NodeHashes, ReadsAs;
    var D := Appended(past);
    EndSizeBound(h, past, v);
    AuditPath(h, D, i, v);
    InclusionComplete(h, D, i, v);
    HistoricReads(h, past, more, PathUp(2 * i, v), v);
    HistoricRoot(h, past, more, v);
  }

  /** Every later store holds the root of every size where a batch ended. */
  lemma HistoricRoot(h: HashFn, past: seq<Batch>, more: seq<Batch>, v: nat)
    requires Legal(past) && Legal(more) && v in EndSizes(past, 0)
    ensures v <= |Appended(past)|
    ensures ReadsAs(After(h, past + more).db, [Root(v)], v, [MTH(h, Appended(past)[..v])])
  {
    hide Run, After, InTree, NodeHash, ReadNode, EndSizes, Appended, MTH, Root, ReadsAs;
    var D := Appended(past);
    EndSizeBound(h, past, v);
    RootCovers(v);
    HistoricReads(h, past, more, [Root(v)], v);
    NodeHashRoot(h, D, v);
    assert NodeHashes(h, D, [Root(v)], v) == [MTH(h, D[..v])];
  }

  /** Over all runs: for any two sizes where batches ended, every later store holds PROOF(m, D[n])
      and both roots, and the two-tree verifier accepts the one against the others. */
  lemma HistoricConsistency(h: HashFn, past: seq<Batch>, more: seq<Batch>, m: nat, n: nat)
    requires Legal(past) && Legal(more) && m in EndSizes(past, 0) && n in EndSizes(past, 0) && m <= n
    ensures var D := Appended(past); var db := After(h, past + more).db;
      0 < m <= n <= |D|
      && ReadsAs(db, ConsistencyNodes(m, n), n, PROOF(h, m, D[..n]))
      && ReadsAs(db, [Root(m)], m, [MTH(h, D[..m])]) && ReadsAs(db, [Root(n)], n, [MTH(h, D[..n])])
      && Accepts(h, MTH(h, D[..m]), m, MTH(h, D[..n]), n, PROOF(h, m, D[..n]))
  {
    hide Run, After, InTree, NodeHash, ReadNode, EndSizes, Appended, ConsistencyNodes, Accepts, PROOF, MTH, Root, NodeHashes, ReadsAs;
    var D := Appended(past);
    EndSizeBound(h, past, m);
    EndSizeBound(h, past, n);
    ConsistencyPath(h, D, m, n);
    ConsistencyComplete(h, D, m, n);
    HistoricReads(h, past, more, ConsistencyNodes(m, n), n);
    HistoricRoot(h, past, more, m);
    HistoricRoot(h, past, more, n);
  }
}
