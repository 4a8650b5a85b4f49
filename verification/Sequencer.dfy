/** All runs of worker and flush: what every submitter is told, and what the log then holds. */
module Sequencer {
  import opened Rfc6962
  import opened Inclusion
  import opened LogTypes
  import opened LeafCodec
  import opened TreeStore
  import opened TreeReads
  import opened LogStore
  import opened Flush
  import opened CtStorageModel
  import opened BatchWorker

  type Replies = seq<Outcome<(nat, Sct)>>

  /** Every submission serialises. */
  function NoneFail(n: nat): (fails: seq<bool>)
    ensures |fails| == n && forall i | 0 <= i < n :: !fails[i]
  {
    seq(n, i => false)
  }

  /** The records that a run of flushes appends to a log of `start` records. */
  function Sequenced(batches: seq<seq<BatchEntry>>, writes: seq<bool>, start: nat): (rs: seq<Record>)
    requires |writes| == |batches| && FitsIndex(start, |Concat(batches)|)
    ensures |rs| <= |Concat(batches)|
  {
    if batches == [] then []
    else
      var k := |batches| - 1;
      var front := Sequenced(batches[..k], writes[..k], start);
      front + if writes[k] then PrepareAll(batches[k], start + |front|) else []
  }

  /** A whole batch at consecutive indices. */
  function PrepareAll(es: seq<BatchEntry>, start: nat): (rs: seq<Record>)
    requires FitsIndex(start, |es|)
    ensures |rs| == |es|
  {
    if es == [] then []
    else PrepareAll(es[..|es| - 1], start) + [Prepare(es[|es| - 1], start + |es| - 1)]
  }

  lemma {:induction false} AllSurvive(es: seq<BatchEntry>, start: nat)
    requires FitsIndex(start, |es|)
    ensures Survivors(es, NoneFail(|es|), start) == PrepareAll(es, start)
  {
    hide Prepare;
    if es != [] {
      var k := |es| - 1;
      AllSurvive(es[..k], start);
      assert NoneFail(|es|)[..k] == NoneFail(k);
    }
  }

  function Range(lo: nat, hi: nat): seq<nat>
    requires lo <= hi
  {
    if lo == hi then [] else Range(lo, hi - 1) + [hi - 1]
  }

  /** The indices issued by a list of replies, in order. */
  function Issued(rs: Replies): seq<nat> {
    if rs == [] then []
    else
      var last := rs[|rs| - 1];
      Issued(rs[..|rs| - 1]) + if last.Ok? then [last.value.0] else []
  }

  lemma RangeSplits(a: nat, b: nat, c: nat)
    requires a <= b <= c
    ensures Range(a, b) + Range(b, c) == Range(a, c)
  {
    if b < c { RangeSplits(a, b, c - 1); }
    else { assert Range(a, b) + [] == Range(a, b); }
  }

  lemma IssuedByErrors(rs: Replies)
    requires forall i | 0 <= i < |rs| :: rs[i].Err?
    ensures Issued(rs) == []
  {}

  /** A committed batch issues consecutive indices, one to each submission that survives. */
  lemma {:induction false} IssuedByCommit(es: seq<BatchEntry>, fails: seq<bool>, start: nat, rs: Replies)
    requires |fails| == |es| && FitsIndex(start, |es|) && |rs| <= |es|
    requires forall i | 0 <= i < |rs| :: rs[i] == Reply(es, fails, start, i)
    ensures Issued(rs) == Range(start, start + Rank(fails, |rs|))
  {
    if rs != [] {
      var k := |rs| - 1;
      IssuedByCommit(es, fails, start, rs[..k]);
    }
  }

  lemma HashedPrefix(h: HashFn, log: seq<Record>, more: seq<Record>)
    requires log <= more && CollisionFree(h, HashedBy(more))
    ensures CollisionFree(h, HashedBy(log))
  {
    hide Certs;
    assert HashedBy(log) <= HashedBy(more) by {
      assert log + more[|log|..] == more;
      CachesSurvive(log, more[|log|..]);
      forall s | s in LeafInputs(log) ensures s in LeafInputs(more) {
        var i: nat :| i < |log| && s == LeafInput(log[i].entry.leafData);
        assert more[i] == log[i];
      }
    }
  }

  /** Sequencing longer runs only appends. */
  lemma {:induction false} SequencedPrefix(batches: seq<seq<BatchEntry>>, writes: seq<bool>, start: nat, j: nat)
    requires |writes| == |batches| && FitsIndex(start, |Concat(batches)|) && j <= |batches|
    ensures |Concat(batches[..j])| <= |Concat(batches)|
    ensures Sequenced(batches[..j], writes[..j], start) <= Sequenced(batches, writes, start)
    decreases |batches|
  {
    hide PrepareAll;
    if j == |batches| {
      assert batches[..j] == batches && writes[..j] == writes;
    } else {
      var k := |batches| - 1;
      SequencedPrefix(batches[..k], writes[..k], start, j);
      assert batches[..k][..j] == batches[..j] && writes[..k][..j] == writes[..j];
    }
  }

  /** The reply is committed, and its SCT was signed for the index it names. */
  ghost predicate Kept(env: Env, leaves: seq<Bytes>, e: LogEntry, reply: Outcome<(nat, Sct)>) {
    reply.Ok? ==>
      reply.value.0 <= MAX_INDEX && SctFor(env.builder, e, reply.value.0, reply.value.1)
      && CommittedReply(env.builder, leaves, e, reply.value.0, reply.value.1)
  }

  lemma KeptLater(env: Env, leaves: seq<Bytes>, more: seq<Bytes>, e: LogEntry, reply: Outcome<(nat, Sct)>)
    requires Kept(env, leaves, e, reply) && leaves <= more
    ensures Kept(env, more, e, reply)
  {
    hide SctFor, SignatureInput, Genuine;
  }

  lemma NoneFailCommits(n: nat, written: bool)
    ensures NoGap(NoneFail(n)) && (Commits(NoneFail(n), written) <==> written && n > 0)
  {
    if n > 0 { assert !NoneFail(n)[0]; }
  }

  /** One flush of a run. */
  method FlushOne(storage: CtStorage, es: seq<BatchEntry>, probeOk: bool, written: bool) returns (replies: Replies)
    requires storage.Valid() && FitsIndex(|storage.log|, |es|)
    requires forall i | 0 <= i < |es| ::
               WellFormed(storage.env.tbs, es[i].entry) && Honest(storage.env.builder, es[i])
    requires written ==>
               CollisionFree(storage.env.h, HashedBy(storage.log + PrepareAll(es, |storage.log|)))
    modifies storage`log, storage.tree
    ensures storage.Valid() && |replies| == |es|
    ensures storage.log == old(storage.log) + if written then PrepareAll(es, |old(storage.log)|) else []
    ensures old(storage.tree.leaves) <= storage.tree.leaves
    ensures Issued(replies) == Range(|old(storage.log)|, |storage.log|)
    ensures AllKept(storage.env, storage.tree.leaves, storage.log, es, replies)
  {
    hide LogInv, WellFormed, Honest, SctFor, SignatureInput, Genuine, Survivors, HashedBy, Rank, NoGap, Commits;
    hide PrepareAll, CommittedReply;
    var start := |storage.log|;
    ghost var fails := NoneFail(|es|);
    NoneFailCommits(|es|, written);
    LogSize(storage.env, storage.tree.State(), storage.log);
    AllSurvive(es, start);
    replies := storage.FlushBatch(es, NoneFail(|es|), probeOk, written);
    if written && es != [] {
      RankBound(fails, |es|);
      IssuedByCommit(es, fails, start, replies);
    } else {
      IssuedByErrors(replies);
    }
    forall i | 0 <= i < |es|
      ensures Kept(storage.env, storage.tree.leaves, es[i].entry, replies[i]) && Logged(storage.log, es[i], replies[i])
    {
      if replies[i].Ok? { ReplyMatchesSct(storage.env.builder, es, fails, start, i); }
    }
  }

  /** Zero merge delay over a whole run of flushes, where every submission serialises: whatever
      writes fail, every index told to a submitter is committed, its SCT was signed for that index
      over the very bytes of the leaf there, and the issued indices are the next ones of the log, in
      queue order and without a gap. */
  method FlushAll(storage: CtStorage, batches: seq<seq<BatchEntry>>, probes: seq<bool>, writes: seq<bool>)
    returns (replies: seq<Replies>)
    requires storage.Valid() && |writes| == |probes| == |batches|
    requires FitsIndex(|storage.log|, |Concat(batches)|)
    requires forall b, i | 0 <= b < |batches| && 0 <= i < |batches[b]| ::
               WellFormed(storage.env.tbs, batches[b][i].entry) && Honest(storage.env.builder, batches[b][i])
    requires CollisionFree(storage.env.h,
                           HashedBy(storage.log + Sequenced(batches, writes, |storage.log|)))
    modifies storage`log, storage.tree
    ensures storage.Valid()
    ensures storage.log == old(storage.log) + Sequenced(batches, writes, |old(storage.log)|)
    ensures old(storage.tree.leaves) <= storage.tree.leaves
    ensures |replies| == |batches|
    ensures forall b | 0 <= b < |batches| :: AllKept(storage.env, storage.tree.leaves, storage.log, batches[b], replies[b])
    ensures IssuedAll(replies) == Range(|old(storage.log)|, |storage.log|)
  {
    hide LogInv, WellFormed, Honest, HashedBy, PrepareAll, CollisionFree, AllKept, Range, Issued, Sequenced, Concat;
    hide Inv, CacheOk;
    RangeEmpty(|storage.log|);
    ConcatNone(batches, writes, |storage.log|);
    ghost var log0 := storage.log;
    var start := |storage.log|;
    replies := [];
    for b := 0 to |batches|
      invariant storage.Valid() && |replies| == b
      invariant |Concat(batches[..b])| <= |Concat(batches)|
      invariant storage.log == log0 + Sequenced(batches[..b], writes[..b], start)
      invariant old(storage.tree.leaves) <= storage.tree.leaves
      invariant forall c | 0 <= c < b :: AllKept(storage.env, storage.tree.leaves, storage.log, batches[c], replies[c])
      invariant IssuedAll(replies) == Range(start, |storage.log|)
    {
      ghost var leaves, before := storage.tree.leaves, storage.log;
      SequencedNext(storage.env.h, log0, batches, writes, start, b);
      var r := FlushOne(storage, batches[b], probes[b], writes[b]);
      forall c | 0 <= c < b ensures AllKept(storage.env, storage.tree.leaves, storage.log, batches[c], replies[c]) {
        AllKeptLater(storage.env, leaves, storage.tree.leaves, before, storage.log, batches[c], replies[c]);
      }
      RangeSplits(start, |before|, |storage.log|);
      assert (replies + [r])[..b] == replies;
      replies := replies + [r];
    }
    assert batches[..|batches|] == batches && writes[..|batches|] == writes;
  }

  lemma RangeEmpty(a: nat)
    ensures Range(a, a) == []
  {}

  lemma ConcatNone(batches: seq<seq<BatchEntry>>, writes: seq<bool>, start: nat)
    requires |writes| == |batches| && FitsIndex(start, |Concat(batches)|)
    ensures Concat(batches[..0]) == [] && Sequenced(batches[..0], writes[..0], start) == []
  {}

  /** One more batch of a run, and what is hashed up to there. */
  lemma SequencedNext(h: HashFn, log: seq<Record>, batches: seq<seq<BatchEntry>>, writes: seq<bool>, start: nat, b: nat)
    requires |writes| == |batches| && FitsIndex(start, |Concat(batches)|) && b < |batches| && |log| == start
    requires CollisionFree(h, HashedBy(log + Sequenced(batches, writes, start)))
    ensures |Concat(batches[..b])| + |batches[b]| == |Concat(batches[..b + 1])| <= |Concat(batches)|
    ensures var done := Sequenced(batches[..b], writes[..b], start);
            |done| <= |Concat(batches[..b])|
            && Sequenced(batches[..b + 1], writes[..b + 1], start)
               == done + (if writes[b] then PrepareAll(batches[b], start + |done|) else [])
            && (writes[b] ==> CollisionFree(h, HashedBy(log + done + PrepareAll(batches[b], start + |done|))))
  {
    hide HashedBy, CollisionFree, PrepareAll;
    assert batches[..b + 1][..b] == batches[..b] && writes[..b + 1][..b] == writes[..b];
    SequencedPrefix(batches, writes, start, b + 1);
    var done := Sequenced(batches[..b], writes[..b], start);
    if writes[b] {
      var next := PrepareAll(batches[b], start + |done|);
      assert log + done + next == log + (done + next);
      HashedPrefix(h, log + done + next, log + Sequenced(batches, writes, start));
    }
  }

  ghost predicate AllKept(env: Env, leaves: seq<Bytes>, log: seq<Record>, es: seq<BatchEntry>, rs: Replies) {
    |rs| == |es|
    && forall i | 0 <= i < |es| :: Kept(env, leaves, es[i].entry, rs[i]) && Logged(log, es[i], rs[i])
  }

  lemma AllKeptLater(env: Env, leaves: seq<Bytes>, leaves': seq<Bytes>, log: seq<Record>, log': seq<Record>,
                     es: seq<BatchEntry>, rs: Replies)
    requires AllKept(env, leaves, log, es, rs) && leaves <= leaves' && log <= log'
    ensures AllKept(env, leaves', log', es, rs)
  {
    hide Kept, Logged;
    forall i | 0 <= i < |es| ensures Kept(env, leaves', es[i].entry, rs[i]) && Logged(log', es[i], rs[i]) {
      KeptLater(env, leaves, leaves', es[i].entry, rs[i]);
      LoggedLater(log, log', es[i], rs[i]);
    }
  }

  lemma LoggedLater(log: seq<Record>, log': seq<Record>, be: BatchEntry, reply: Outcome<(nat, Sct)>)
    requires Logged(log, be, reply) && log <= log'
    ensures Logged(log', be, reply)
  {}

  function IssuedAll(rss: seq<Replies>): seq<nat> {
    if rss == [] then [] else IssuedAll(rss[..|rss| - 1]) + Issued(rss[|rss| - 1])
  }

  // ---------------------------------------------------------------- runs with failing submissions

  /** Every told index is committed, and the leaf there is what the SCT signs. */
  ghost predicate AllCommitted(b: SctBuilder, leaves: seq<Bytes>, es: seq<BatchEntry>, rs: Replies) {
    |rs| == |es|
    && forall i | 0 <= i < |es| && rs[i].Ok? ::
         CommittedReply(b, leaves, es[i].entry, rs[i].value.0, rs[i].value.1)
  }

  lemma AllCommittedLater(b: SctBuilder, leaves: seq<Bytes>, more: seq<Bytes>, es: seq<BatchEntry>, rs: Replies)
    requires AllCommitted(b, leaves, es, rs) && leaves <= more
    ensures AllCommitted(b, more, es, rs)
  {
    hide SignatureInput, Genuine;
  }

  /** One flush, whatever fails: what is told is committed, and the told indices are the next ones. */
  method FlushAny(storage: CtStorage, es: seq<BatchEntry>, fails: seq<bool>, probeOk: bool, written: bool)
    returns (replies: Replies)
    requires storage.tree.Valid() && storage.tree.h == storage.env.h
    requires |fails| == |es| && FitsIndex(|storage.tree.leaves|, |es|)
    requires forall i | 0 <= i < |es| ::
               WellFormed(storage.env.tbs, es[i].entry) && Honest(storage.env.builder, es[i])
    modifies storage`log, storage.tree
    ensures storage.tree.Valid() && old(storage.tree.leaves) <= storage.tree.leaves
    ensures |storage.tree.leaves| <= |old(storage.tree.leaves)| + |es|
    ensures AllCommitted(storage.env.builder, storage.tree.leaves, es, replies)
    ensures Issued(replies) == Range(|old(storage.tree.leaves)|, |storage.tree.leaves|)
  {
    hide LogInv, WellFormed, Honest, Survivors, HashedBy, CollisionFree, NoGap, Commits, CommittedReply, Range;
    hide Inv, CacheOk;
    var start := |storage.tree.leaves|;
    replies := storage.FlushBatch(es, fails, probeOk, written);
    if Commits(fails, written) {
      SurvivorCount(es, fails, start);
      RankBound(fails, |es|);
      IssuedByCommit(es, fails, start, replies);
    } else {
      RangeEmpty(start);
      IssuedByErrors(replies);
    }
  }

  lemma LastBatch(batches: seq<seq<BatchEntry>>, b: nat)
    requires b < |batches|
    ensures |Concat(batches[..b])| + |batches[b]| == |Concat(batches[..b + 1])| <= |Concat(batches)|
  {
    assert batches[..b + 1][..b] == batches[..b];
    ConcatPrefix(batches, b + 1);
  }

  lemma {:induction false} ConcatPrefix(batches: seq<seq<BatchEntry>>, j: nat)
    requires j <= |batches|
    ensures |Concat(batches[..j])| <= |Concat(batches)|
  {
    if j == |batches| {
      assert batches[..j] == batches;
    } else {
      ConcatPrefix(batches[..|batches| - 1], j);
      assert batches[..|batches| - 1][..j] == batches[..j];
    }
  }

  /** Zero merge delay over a whole run of flushes, whatever submissions fail to serialise and whatever
      writes fail: every told index is committed, the leaf there is what the SCT signs, and the told
      indices are the next ones of the log, in queue order and without a gap. */
  method FlushRun(storage: CtStorage, batches: seq<seq<BatchEntry>>, fails: seq<seq<bool>>, probes: seq<bool>,
                  writes: seq<bool>) returns (replies: seq<Replies>)
    requires storage.tree.Valid() && storage.tree.h == storage.env.h
    requires |writes| == |probes| == |fails| == |batches|
    requires forall b | 0 <= b < |batches| :: |fails[b]| == |batches[b]|
    requires FitsIndex(|storage.tree.leaves|, |Concat(batches)|)
    requires forall b, i | 0 <= b < |batches| && 0 <= i < |batches[b]| ::
               WellFormed(storage.env.tbs, batches[b][i].entry) && Honest(storage.env.builder, batches[b][i])
    modifies storage`log, storage.tree
    ensures storage.tree.Valid() && old(storage.tree.leaves) <= storage.tree.leaves
    ensures |replies| == |batches|
    ensures forall b | 0 <= b < |batches| ::
              AllCommitted(storage.env.builder, storage.tree.leaves, batches[b], replies[b])
    ensures IssuedAll(replies) == Range(|old(storage.tree.leaves)|, |storage.tree.leaves|)
  {
    hide LogInv, WellFormed, Honest, AllCommitted, Range, Issued, Concat, Inv, CacheOk;
    var start := |storage.tree.leaves|;
    RangeEmpty(start);
    assert |Concat(batches[..0])| == 0 by { NoBatches(batches); }
    replies := [];
    for b := 0 to |batches|
      invariant storage.tree.Valid() && |replies| == b
      invariant |Concat(batches[..b])| <= |Concat(batches)|
      invariant |storage.tree.leaves| <= start + |Concat(batches[..b])|
      invariant old(storage.tree.leaves) <= storage.tree.leaves
      invariant forall c | 0 <= c < b ::
                  AllCommitted(storage.env.builder, storage.tree.leaves, batches[c], replies[c])
      invariant IssuedAll(replies) == Range(start, |storage.tree.leaves|)
    {
      ghost var leaves := storage.tree.leaves;
      LastBatch(batches, b);
      var r := FlushAny(storage, batches[b], fails[b], probes[b], writes[b]);
      forall c | 0 <= c < b
        ensures AllCommitted(storage.env.builder, storage.tree.leaves, batches[c], replies[c])
      {
        AllCommittedLater(storage.env.builder, leaves, storage.tree.leaves, batches[c], replies[c]);
      }
      RangeSplits(start, |leaves|, |storage.tree.leaves|);
      assert (replies + [r])[..b] == replies;
      replies := replies + [r];
    }
  }

  lemma NoBatches(batches: seq<seq<BatchEntry>>)
    ensures |Concat(batches[..0])| == 0
  {}
}
