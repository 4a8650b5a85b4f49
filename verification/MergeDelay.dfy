/** Zero merge delay: the worker and its flushes together, from the queue to the replies. */
module MergeDelay {
  import opened Rfc6962
  import opened Inclusion
  import opened LogTypes
  import opened LogStore
  import opened TreeStore
  import opened TreeRuns
  import opened TreeReads
  import opened LeafCodec
  import opened BackedTree
  import opened Flush
  import opened CtStorageModel
  import opened BatchWorker
  import opened Sequencer

  /** A new log on an empty store: the state from which every run starts. */
  method NewLog(env: Env) returns (storage: CtStorage)
    ensures storage.Valid() && storage.env == env && storage.log == [] && storage.tree.leaves == []
    ensures fresh(storage) && fresh(storage.tree)
  {
    hide Inv, LogInv;
    var tree := new SlateDbBackedTree(env.h, map[], [], {});
    EmptyLogInv(env);
    assert tree.State() == EMPTY;
    storage := new CtStorage(env, tree, []);
  }

  /** What the store answers, flush by flush. */
  function Answers(f: nat -> bool, n: nat): (bs: seq<bool>)
    ensures |bs| == n && forall i | 0 <= i < n :: bs[i] == f(i)
  {
    seq(n, i requires 0 <= i < n => f(i))
  }

  /** No two of the strings hashed in the run collide: those of the log, and of the batches the
      worker forms and the store takes. */
  ghost predicate NoCollision(env: Env, log: seq<Record>, script: seq<Wake<BatchEntry>>, max: nat, writes: nat -> bool) {
    var batches := Batches(script, max);
    FitsIndex(|log|, |Concat(batches)|) ==>
      CollisionFree(env.h, HashedBy(log + Sequenced(batches, Answers(writes, |batches|), |log|)))
  }

  lemma {:induction false} InConcat<T>(xss: seq<seq<T>>, b: nat, i: nat)
    requires b < |xss| && i < |xss[b]|
    ensures xss[b][i] in Concat(xss)
  {
    if b < |xss| - 1 { InConcat(xss[..|xss| - 1], b, i); }
  }

  lemma {:induction false} IssuedAppend(a: Replies, b: Replies)
    ensures Issued(a + b) == Issued(a) + Issued(b)
  {
    if b == [] {
      assert a + b == a;
    } else {
      var k := |b| - 1;
      IssuedAppend(a, b[..k]);
      assert (a + b)[..|a + b| - 1] == a + b[..k];
    }
  }

  lemma {:induction false} IssuedOfConcat(rss: seq<Replies>)
    ensures IssuedAll(rss) == Issued(Concat(rss))
  {
    hide Issued;
    if rss == [] {
      assert Issued([]) == [] by { IssuedByErrors([]); }
    } else {
      var k := |rss| - 1;
      IssuedOfConcat(rss[..k]);
      IssuedAppend(Concat(rss[..k]), rss[k]);
    }
  }

  /** Replies that fit batch by batch fit the queue as a whole. */
  lemma {:induction false} KeptInQueue(env: Env, leaves: seq<Bytes>, log: seq<Record>, batches: seq<seq<BatchEntry>>,
                                           rss: seq<Replies>)
    requires |rss| == |batches|
    requires forall b | 0 <= b < |batches| :: AllKept(env, leaves, log, batches[b], rss[b])
    ensures AllKept(env, leaves, log, Concat(batches), Concat(rss))
  {
    hide Kept, Logged;
    if batches != [] {
      var k := |batches| - 1;
      KeptInQueue(env, leaves, log, batches[..k], rss[..k]);
      assert AllKept(env, leaves, log, batches[k], rss[k]);
    }
  }

  /** Every run of the worker and its flushes: the log grows by the submissions of the written
      batches, in queue order, and each submission gets one reply. An index told to a submitter is
      committed, and its SCT was signed for that index over the very bytes of the leaf there. The
      issued indices are the next ones of the log, in queue order and without a gap. */
  method Serve(storage: CtStorage, script: seq<Wake<BatchEntry>>, max: nat, probes: nat -> bool, writes: nat -> bool)
    returns (batches: seq<seq<BatchEntry>>, replies: Replies)
    requires storage.Valid() && FitsIndex(|storage.log|, |Arrivals(script)|)
    requires forall e <- Arrivals(script) :: WellFormed(storage.env.tbs, e.entry) && Honest(storage.env.builder, e)
    requires NoCollision(storage.env, storage.log, script, max, writes)
    modifies storage`log, storage.tree
    ensures storage.Valid() && old(storage.tree.leaves) <= storage.tree.leaves
    ensures Concat(batches) == Arrivals(script)
    ensures forall b | 0 <= b < |batches| :: 1 <= |batches[b]| <= (if max == 0 then 1 else max)
    ensures storage.log
         == old(storage.log) + Sequenced(batches, Answers(writes, |batches|), |old(storage.log)|)
    ensures AllKept(storage.env, storage.tree.leaves, storage.log, Arrivals(script), replies)
    ensures Issued(replies) == Range(|old(storage.log)|, |storage.log|)
  {
    hide LogInv, WellFormed, Honest, CollisionFree, HashedBy, Sequenced, AllKept, Issued, Concat, Range, Answers;
    batches := BatchWorker.Run(script, max);
    var answers := Answers(writes, |batches|);
    forall b, i | 0 <= b < |batches| && 0 <= i < |batches[b]|
      ensures WellFormed(storage.env.tbs, batches[b][i].entry) && Honest(storage.env.builder, batches[b][i])
    {
      InConcat(batches, b, i);
    }
    var rss := FlushAll(storage, batches, Answers(probes, |batches|), answers);
    KeptInQueue(storage.env, storage.tree.leaves, storage.log, batches, rss);
    IssuedOfConcat(rss);
    replies := Concat(rss);
  }

  /** What a submitter was told can be read back: the SCT by the certificate hash submitted, and at the
      told index every field of the entry as it was submitted. */
  method ReadBack(storage: CtStorage, be: BatchEntry, reply: Outcome<(nat, Sct)>)
    returns (sct: Option<SctEntry>, entry: Option<LogEntry>)
    requires storage.Valid() && reply.Ok? && Logged(storage.log, be, reply)
    modifies storage`chainCache, storage`entryCache
    ensures storage.Valid() && sct.Some? && entry.Some?
    ensures sct.value.index < |storage.log| && storage.log[sct.value.index].certHash == be.certHash
            && sct.value.sct == storage.log[sct.value.index].sct
    ensures entry.value.certificate == be.entry.certificate && entry.value.chain == be.entry.chain
    ensures entry.value.timestamp == be.entry.timestamp && entry.value.entryType == be.entry.entryType
    ensures entry.value.issuerKeyHash == be.entry.issuerKeyHash
    ensures entry.value.originalPrecert == be.entry.originalPrecert
    ensures entry.value.index == reply.value.0
  {
    hide LogInv, Inv, CacheOk, Genuine, SignatureInput, Serialized;
    assert RecordOk(storage.env, storage.log[reply.value.0], reply.value.0) by {
      RecordOf(storage.env, storage.tree.State(), storage.log, reply.value.0);
    }
    var s := storage.GetSctByCertHash(be.certHash);
    var e := storage.GetEntry(reply.value.0);
    sct, entry := s.value, e.value;
  }

  lemma RecordOf(env: Env, s: TreeState, log: seq<Record>, i: nat)
    requires LogInv(env, s, log) && i < |log|
    ensures RecordOk(env, log[i], i)
  {
    hide EntryKeys, HashKeys, SctKeys, CertKeys, RecordOk;
  }

  lemma {:induction false} CommittedInQueue(b: SctBuilder, leaves: seq<Bytes>, batches: seq<seq<BatchEntry>>, rss: seq<Replies>)
    requires |rss| == |batches|
    requires forall k | 0 <= k < |batches| :: AllCommitted(b, leaves, batches[k], rss[k])
    ensures AllCommitted(b, leaves, Concat(batches), Concat(rss))
  {
    hide CommittedReply;
    if batches != [] {
      var k := |batches| - 1;
      CommittedInQueue(b, leaves, batches[..k], rss[..k]);
      assert AllCommitted(b, leaves, batches[k], rss[k]);
    }
  }

  /** The failures of a run, batch by batch. */
  function FailuresOf(f: (nat, nat) -> bool, batches: seq<seq<BatchEntry>>, n: nat): (fs: seq<seq<bool>>)
    requires n <= |batches|
    ensures |fs| == n && forall b | 0 <= b < n :: |fs[b]| == |batches[b]|
    ensures forall b, i | 0 <= b < n && 0 <= i < |batches[b]| :: fs[b][i] == f(b, i)
  {
    if n == 0 then []
    else FailuresOf(f, batches, n - 1) + [seq(|batches[n - 1]|, i requires 0 <= i < |batches[n - 1]| => f(n - 1, i))]
  }

  /** Every run of the worker and its flushes, whatever submissions fail to serialise, whatever writes
      fail and whatever strings collide: each submission gets one reply, an index told to a submitter is
      committed and the leaf there is what its SCT signs, and the told indices are the next ones of the
      log, in queue order and without a gap. */
  method ServeAny(storage: CtStorage, script: seq<Wake<BatchEntry>>, max: nat, fails: (nat, nat) -> bool,
                  probes: nat -> bool, writes: nat -> bool) returns (replies: Replies)
    requires storage.tree.Valid() && storage.tree.h == storage.env.h
    requires FitsIndex(|storage.tree.leaves|, |Arrivals(script)|)
    requires forall e <- Arrivals(script) :: WellFormed(storage.env.tbs, e.entry) && Honest(storage.env.builder, e)
    modifies storage`log, storage.tree
    ensures storage.tree.Valid() && old(storage.tree.leaves) <= storage.tree.leaves
    ensures AllCommitted(storage.env.builder, storage.tree.leaves, Arrivals(script), replies)
    ensures Issued(replies) == Range(|old(storage.tree.leaves)|, |storage.tree.leaves|)
  {
    hide LogInv, WellFormed, Honest, AllCommitted, Issued, Concat, Range, Inv, CacheOk, Arrivals;
    var batches: seq<seq<BatchEntry>> := BatchWorker.Run(script, max);
    forall b, i | 0 <= b < |batches| && 0 <= i < |batches[b]|
      ensures WellFormed(storage.env.tbs, batches[b][i].entry) && Honest(storage.env.builder, batches[b][i])
    {
      InConcat(batches, b, i);
    }
    var rss := FlushRun(storage, batches, FailuresOf(fails, batches, |batches|),
                        Answers(probes, |batches|), Answers(writes, |batches|));
    CommittedInQueue(storage.env.builder, storage.tree.leaves, batches, rss);
    IssuedOfConcat(rss);
    replies := Concat(rss);
  }
}
