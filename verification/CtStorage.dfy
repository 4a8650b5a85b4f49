/** `CtStorage`: sequencing, deduplication and lookups on top of the tree. */
module CtStorageModel {
  import opened Rfc6962
  import opened Inclusion
  import opened LogTypes
  import opened TreeStore
  import opened TreeReads
  import opened BackedTree
  import opened LeafCodec
  import opened LogStore
  import opened Flush

  class CtStorage {
    const env: Env
    const tree: SlateDbBackedTree
    var chainCache: map<Digest, Bytes>
    var entryCache: map<nat, LogEntry>
    ghost var log: seq<Record>

    /** Cached chain certificates are certificates of the log under their own hash. */
    ghost predicate ChainCacheOk()
      reads this`chainCache, this`log
    {
      forall d | d in chainCache :: env.h(chainCache[d]) == d && chainCache[d] in AllCerts(log)
    }

    ghost predicate EntryCacheOk()
      reads this`entryCache, this`log
    {
      forall i | i in entryCache :: i < |log| && entryCache[i] == log[i].entry
    }

    ghost predicate Valid()
      reads this, tree
    {
      tree.Valid() && tree.h == env.h && LogInv(env, tree.State(), log) && ChainCacheOk() && EntryCacheOk()
    }

    constructor (env: Env, tree: SlateDbBackedTree, ghost log: seq<Record>)
      requires tree.Valid() && tree.h == env.h && LogInv(env, tree.State(), log)
      ensures Valid() && this.env == env && this.tree == tree && this.log == log
      ensures chainCache == map[] && entryCache == map[]
    {
      this.env := env;
      this.tree := tree;
      this.log := log;
      chainCache := map[];
      entryCache := map[];
    }

    /** Entries leave the caches whenever they like. */
    method Evict(chain: set<Digest>, entries: set<nat>)
      requires Valid()
      modifies this`chainCache, this`entryCache
      ensures Valid()
    {
      hide LogInv;
      chainCache := map d | d in chainCache && d in chain :: chainCache[d];
      entryCache := map i | i in entryCache && i in entries :: entryCache[i];
    }

    /** `find_index_by_hash`: the one position whose leaf has this hash, or none. */
    method FindIndexByHash(d: Digest) returns (r: Outcome<Option<nat>>)
      requires Valid()
      ensures r.Ok?
      ensures r.value.Some? ==>
                r.value.value < |tree.leaves| && LeafHash(env.h, tree.leaves[r.value.value]) == d
      ensures r.value.Some? <==> exists i: nat :: i < |tree.leaves| && LeafHash(env.h, tree.leaves[i]) == d
      ensures r.value.Some? ==>
                forall i: nat | i < |tree.leaves| && LeafHash(env.h, tree.leaves[i]) == d :: i == r.value.value
    {
      hide EntryKeys, SctKeys, CertKeys, LeafHash, RecordOk;
      if HashKey(d) !in tree.db { return Ok(None); }
      if !tree.db[HashKey(d)].Num? { return Err(EncodingError); }
      var i := tree.db[HashKey(d)].n;
      assert LeafHash(env.h, tree.leaves[i]) == d;
      return Ok(Some(i));
    }

    /** `get_sct_by_cert_hash`: a stored SCT names a committed index, and it signs the very bytes of
        the leaf there. */
    method GetSctByCertHash(c: Digest) returns (r: Outcome<Option<SctEntry>>)
      requires Valid()
      ensures r.Ok?
      ensures r.value.Some? <==> exists i: nat :: i < |log| && log[i].certHash == c
      ensures r.value.Some? ==>
                var e := r.value.value;
                e.index < |log| && e.index < |tree.leaves| && log[e.index].certHash == c
                && e.sct == log[e.index].sct && e.timestamp == e.sct.timestamp
                && tree.leaves[e.index]
                   == SignatureInput(e.sct, log[e.index].entry.certificate, log[e.index].entry.entryType,
                                     log[e.index].entry.issuerKeyHash)
                && Genuine(env.builder, e.sct, tree.leaves[e.index])
    {
      hide EntryKeys, HashKeys, CertKeys, SignatureInput, LeafOf, Genuine;
      if CertSctKey(c) !in tree.db { return Ok(None); }
      assert SctStored(log, c, tree.db[CertSctKey(c)]);
      if !tree.db[CertSctKey(c)].SctValue? { return Err(EncodingError); }
      var e := tree.db[CertSctKey(c)].sctEntry;
      assert RecordOk(env, log[e.index], e.index);
      assert log[e.index].certHash == c;
      return Ok(Some(e));
    }

    /** `get_certificate`. */
    method GetCertificate(d: Digest) returns (r: Outcome<Option<Bytes>>)
      requires Valid()
      ensures forall c | c in AllCerts(log) && env.h(c) == d :: r == Ok(Some(c))
      ensures r.Ok? && r.value.Some? ==> env.h(r.value.value) == d && r.value.value in AllCerts(log)
    {
      hide EntryKeys, HashKeys, SctKeys, RecordsOk, AllCerts;
      if CertKey(d) !in tree.db { return Ok(None); }
      if !tree.db[CertKey(d)].Raw? { return Err(EncodingError); }
      return Ok(Some(tree.db[CertKey(d)].bytes));
    }

    /** `get_chain_certificate`: the same answer through the cache. */
    method GetChainCertificate(d: Digest) returns (r: Outcome<Option<Bytes>>)
      requires Valid()
      modifies this`chainCache
      ensures Valid()
      ensures forall c | c in AllCerts(log) && env.h(c) == d :: r == Ok(Some(c))
      ensures r.Ok? && r.value.Some? ==> env.h(r.value.value) == d && r.value.value in AllCerts(log)
    {
      hide EntryKeys, HashKeys, SctKeys, RecordsOk, AllCerts;
      if d in chainCache {
        assert chainCache[d] in AllCerts(log);
        return Ok(Some(chainCache[d]));
      }
      r := GetCertificate(d);
      if r.Ok? && r.value.Some? {
        chainCache := chainCache[d := r.value.value];
      }
    }

    /** Fetch a chain by its hashes. */
    method GetChain(hashes: Option<seq<Digest>>, ghost chain: Option<seq<Bytes>>)
      returns (r: Outcome<Option<seq<Bytes>>>)
      requires Valid()
      modifies this`chainCache
      ensures Valid()
      ensures ChainOf(env.h, log, hashes, chain) ==> r == Ok(chain)
    {
      hide LogInv, AllCerts, HashAll;
      if hashes.None? {
        return Ok(None);
      }
      var out: seq<Bytes> := [];
      for i := 0 to |hashes.value|
        invariant Valid() && |out| == i
        invariant ChainOf(env.h, log, hashes, chain) ==> out == chain.value[..i]
      {
        var c := GetChainCertificate(hashes.value[i]);
        if c.Err? {
          return Err(c.error);
        }
        if c.value.None? {
          return Err(InconsistentState("chain certificate not found"));
        }
        out := out + [c.value.value];
      }
      assert ChainOf(env.h, log, hashes, chain) ==> chain.value[..|out|] == chain.value;
      r := Ok(Some(out));
    }

    /** `reconstruct_log_entry`: undoes deduplication for every entry of the log. */
    method ReconstructLogEntry(d: DedupEntry, ghost i: nat) returns (r: Outcome<LogEntry>)
      requires Valid()
      modifies this`chainCache
      ensures Valid()
      ensures i < |log| && Dedupable(log[i].entry) && d == Dedup(env.h, log[i].entry) ==> r == Ok(log[i].entry)
    {
      hide LogInv, HashAll, AllCerts, Genuine;
      ghost var good := i < |log| && Dedupable(log[i].entry) && d == Dedup(env.h, log[i].entry);
      if good { EntryHasSources(env, tree.State(), log, i); }
      ghost var chainOf := if good then log[i].entry.chain else None;
      var main := GetCertificate(d.certificateHash);
      if main.Err? {
        return Err(main.error);
      }
      if main.value.None? {
        return Err(InconsistentState("certificate not found"));
      }
      var certificate, precert := main.value.value, None;
      if d.entryType == PrecertEntry {
        var issuers := GetChain(d.chainHashes, chainOf);
        if issuers.Err? {
          return Err(issuers.error);
        }
        var tbs := env.tbs(main.value.value, if issuers.value.Some? then issuers.value.value else []);
        if tbs.None? {
          return Err(InconsistentState("failed to transform precert"));
        }
        certificate, precert := tbs.value, Some(main.value.value);
      }
      var chain := GetChain(d.chainHashes, chainOf);
      if chain.Err? {
        return Err(chain.error);
      }
      r := Ok(LogEntry(d.index, d.timestamp, d.entryType, certificate, chain.value, d.issuerKeyHash, precert, d.leafData));
    }

    /** `get_entry`: in every reachable state, the entry sequenced at that index. */
    method GetEntry(i: nat) returns (r: Outcome<Option<LogEntry>>)
      requires Valid()
      modifies this`chainCache, this`entryCache
      ensures Valid()
      ensures r == Ok(if i < |log| then Some(log[i].entry) else None)
      ensures r.value.Some? ==> i < |tree.leaves| && Serialized(r.value.value) == Some(tree.leaves[i])
    {
      hide HashKeys, SctKeys, CertKeys, LeafOf, SctFor, Dedup, ChainCacheOk;
      if i < |log| { SerializedIsLeaf(env, log[i], i); }
      if i in entryCache {
        return Ok(Some(entryCache[i]));
      }
      if EntryKey(i) !in tree.db { return Ok(None); }
      if !tree.db[EntryKey(i)].Entry? { return Err(EncodingError); }
      var e := ReconstructLogEntry(tree.db[EntryKey(i)].entry, i);
      entryCache := entryCache[i := e.value];
      r := Ok(Some(e.value));
    }

    /** The middle of `flush_batch`: collect the certificates, leave out those the store already
        holds, and push leaves and additional data in one batch. */
    method PushRecords(leafData: seq<Bytes>, records: seq<Record>, start: nat, probeOk: bool, written: bool)
      returns (pushed: Outcome<nat>)
      requires tree.Valid() && tree.h == env.h && start == |tree.leaves|
      requires records != [] && FitsIndex(start, |records|) && AllDedupable(records)
      requires |leafData| == |records| && forall v | 0 <= v < |records| :: leafData[v] == records[v].entry.leafData
      modifies this`log, tree
      ensures tree.Valid() && (pushed.Ok? <==> written)
      ensures !written ==> log == old(log) && tree.State() == old(tree.State())
      ensures written ==> tree.leaves == old(tree.leaves) + leafData
      ensures !written && old(Valid()) ==> Valid()
      ensures written && old(Valid()) && CollisionFree(env.h, HashedBy(old(log) + records))
              && (forall v: nat | v < |records| :: RecordOk(env, records[v], start + v)) ==>
                Valid() && log == old(log) + records
    {
      hide LogInv, MetaPairs, CertPairs, Step, RecordOk, Inv, CacheOk, AllCerts, HashedBy, CollisionFree, Collected;
      hide AllDedupable, NoTreeKeys;
      ghost var before := tree.State();
      ghost var good := Valid() && CollisionFree(env.h, HashedBy(log + records))
                        && forall v: nat | v < |records| :: RecordOk(env, records[v], start + v);
      if Valid() { LogSize(env, before, log); }
      var certMap := CollectAll(env.h, records);
      var existing: set<Digest> := {};
      if probeOk {
        existing := set d | d in certMap && CertKey(d) in tree.db;
      }
      var meta := BuildMetaPairs(env.h, records, start);
      var certs := BuildCertPairs(env.h, certMap, existing, tree.db, records);
      FlushOutside(env.h, tree.db, records, start, certs);
      ghost var b := Batch(leafData, meta + certs, written);
      pushed := tree.BatchPushWithData(leafData, meta + certs, written);
      if !written {
        StepFails(env.h, before, b);
        return;
      }
      StepAppends(env.h, before, b);
      if good {
        FlushedLog(env, before, log, records, b, certs);
        CachesSurvive(log, records);
        log := log + records;
      }
    }

    /** `flush_batch`. `fails` marks the submissions whose entry does not serialise, `probeOk` says
        whether the store answered the certificate lookup, `written` whether it took the write. */
    method FlushBatch(es: seq<BatchEntry>, fails: seq<bool>, probeOk: bool, written: bool)
      returns (replies: seq<Outcome<(nat, Sct)>>)
      requires tree.Valid() && tree.h == env.h && |fails| == |es| && FitsIndex(|tree.leaves|, |es|)
      requires forall i | 0 <= i < |es| :: WellFormed(env.tbs, es[i].entry) && Honest(env.builder, es[i])
      modifies this`log, tree
      ensures tree.Valid() && |replies| == |es|
      ensures !Commits(fails, written) ==>
                log == old(log) && tree.State() == old(tree.State()) && (old(Valid()) ==> Valid())
                && forall i | 0 <= i < |es| :: replies[i] == Err(if fails[i] then EncodingError else DbError)
      ensures Commits(fails, written) ==>
                (forall i | 0 <= i < |es| :: replies[i] == Reply(es, fails, |old(tree.leaves)|, i))
                && |tree.leaves| == |old(tree.leaves)| + |Survivors(es, fails, |old(tree.leaves)|)|
                && old(tree.leaves) <= tree.leaves
      ensures Commits(fails, written) ==>
                forall i | 0 <= i < |es| && replies[i].Ok? ::
                  CommittedReply(env.builder, tree.leaves, es[i].entry, replies[i].value.0, replies[i].value.1)
      ensures Commits(fails, written) && NoGap(fails) && old(Valid()) ==>
                FitsIndex(|old(log)|, |es|)
                && (CollisionFree(env.h, HashedBy(old(log) + Survivors(es, fails, |old(log)|))) ==>
                      Valid() && log == old(log) + Survivors(es, fails, |old(log)|)
                      && forall i | 0 <= i < |es| :: Logged(log, es[i], replies[i]))
    {
      hide LogInv, Survivors, WellFormed, Honest, Reply, NoGap, Inv, CacheOk, RecordOk, HashedBy, CollisionFree;
      hide CommittedReply, AllDedupable, Logged;
      if es == [] {
        return [];
      }
      if Valid() { LogSize(env, tree.State(), log); }
      var size := tree.Len();
      var start := size.value;
      var leafData, records := Separate(es, fails, start);
      SurvivorCount(es, fails, start);
      RankBound(fails, |es|);
      AnySurvivor(fails);
      if leafData == [] {
        replies := seq(|es|, i => Err(EncodingError));
        return;
      }
      SurvivorsDedupable(env.tbs, es, fails, start);
      if NoGap(fails) { SurvivorsAreRecords(env, es, fails, start); }
      var pushed := PushRecords(leafData, records, start, probeOk, written);
      if pushed.Err? {
        replies := seq(|es|, i requires 0 <= i < |es| => Err(if fails[i] then EncodingError else DbError));
        return;
      }
      replies := NotifyAll(es, fails, start);
      if old(Valid()) { AllLogged(es, fails, old(log), replies); }
      forall i | 0 <= i < |es| && replies[i].Ok?
        ensures CommittedReply(env.builder, tree.leaves, es[i].entry, replies[i].value.0, replies[i].value.1)
      {
        ReplyIsCommitted(env.builder, es, fails, old(tree.leaves), leafData, start, i);
      }
    }
  }

  lemma FlushedLog(env: Env, s: TreeState, log: seq<Record>, rs: seq<Record>, b: Batch, certs: seq<(Key, Value)>)
    requires LogInv(env, s, log) && rs != [] && FitsIndex(|log|, |rs|) && AllDedupable(rs) && b.written
    requires |b.items| == |rs| && forall v | 0 <= v < |rs| :: b.items[v] == rs[v].entry.leafData
    requires forall v: nat | v < |rs| :: RecordOk(env, rs[v], |log| + v)
    requires CertPairs(env.h, s.db, rs, certs) && b.extra == MetaPairs(env.h, rs, |log|) + certs
    requires CollisionFree(env.h, HashedBy(log + rs))
    ensures LogInv(env, Step(env.h, s, b), log + rs)
  {
    hide LogInv, MetaPairs, CertPairs, Step, RecordOk, HashedBy, CollisionFree, AllDedupable;
    assert IsFlush(env, s, log, rs, b);
    FlushKeepsLogInv(env, s, log, rs, b);
  }

  lemma CachesSurvive(log: seq<Record>, rs: seq<Record>)
    ensures AllCerts(log) <= AllCerts(log + rs)
  {
    hide AllCerts;
    AllCertsAppend(log, rs);
  }

  /** A batch is committed when the store takes the write and some submission survives. */
  predicate Commits(fails: seq<bool>, written: bool) { written && exists i :: 0 <= i < |fails| && !fails[i] }

  lemma AnySurvivor(fails: seq<bool>)
    ensures Rank(fails, |fails|) > 0 <==> exists i :: 0 <= i < |fails| && !fails[i]
  {
    RankZero(fails, |fails|);
  }

  lemma RankZero(fails: seq<bool>, n: nat)
    requires n <= |fails|
    ensures Rank(fails, n) == 0 <==> forall i | 0 <= i < n :: fails[i]
  {}

  /** Zero merge delay: the told index is committed, and the leaf there is what the SCT signs. */
  predicate CommittedReply(b: SctBuilder, leaves: seq<Bytes>, e: LogEntry, index: nat, sct: Sct) {
    index < |leaves|
    && leaves[index] == SignatureInput(sct, e.certificate, e.entryType, e.issuerKeyHash)
    && Genuine(b, sct, leaves[index])
  }

  lemma ReplyIsCommitted(b: SctBuilder, es: seq<BatchEntry>, fails: seq<bool>, before: seq<Bytes>,
                         leafData: seq<Bytes>, start: nat, i: nat)
    requires |fails| == |es| && i < |es| && FitsIndex(start, |es|) && Honest(b, es[i])
    requires Reply(es, fails, start, i).Ok? && |before| == start
    requires var rs := Survivors(es, fails, start);
             |leafData| == |rs| && forall v | 0 <= v < |rs| :: leafData[v] == rs[v].entry.leafData
    ensures var r := Reply(es, fails, start, i).value;
            CommittedReply(b, before + leafData, es[i].entry, r.0, r.1)
  {
    hide Survivors, Rank, Genuine, SignatureInput, Honest;
    ReplyLeaf(b, es, fails, start, i);
  }

  lemma LogSize(env: Env, s: TreeState, log: seq<Record>)
    requires LogInv(env, s, log)
    ensures |s.leaves| == |log| <= MAX_INDEX + 1
  {
    hide EntryKeys, HashKeys, SctKeys, CertKeys, RecordOk;
  }

  lemma FlushOutside(h: HashFn, db: Db, rs: seq<Record>, start: nat, certs: seq<(Key, Value)>)
    requires AllDedupable(rs) && CertPairs(h, db, rs, certs)
    ensures NoTreeKeys(MetaPairs(h, rs, start) + certs)
  {
    hide MetaPairs, AllCerts, Puts, AllDedupable;
    MetaPairsOutside(h, rs, start);
  }

  lemma StepFails(h: HashFn, s: TreeState, b: Batch)
    requires !b.written
    ensures Step(h, s, b) == s
  {}

  lemma StepAppends(h: HashFn, s: TreeState, b: Batch)
    requires b.written && b.items != []
    ensures Step(h, s, b).leaves == s.leaves + b.items
  {
    hide BatchPuts;
  }

  /** `LogEntry::serialize`: refused for a precert entry without issuer key hash. */
  function Serialized(e: LogEntry): Option<Bytes> {
    if e.index > MAX_INDEX || (e.entryType.PrecertEntry? && e.issuerKeyHash.None?) then None
    else Some(MerkleTreeLeaf(e.certificate, e.entryType,
                             if e.entryType.PrecertEntry? then e.issuerKeyHash else None,
                             e.timestamp, Some(e.index)))
  }

  /** Serialising a sequenced entry gives back the bytes hashed into the tree. */
  lemma SerializedIsLeaf(env: Env, r: Record, i: nat)
    requires RecordOk(env, r, i)
    ensures Serialized(r.entry) == Some(r.entry.leafData)
  {
    hide MerkleTreeLeaf;
  }

  /** The hashes are those of a chain whose certificates the log holds. */
  ghost predicate ChainOf(h: HashFn, log: seq<Record>, hashes: Option<seq<Digest>>, chain: Option<seq<Bytes>>) {
    (hashes.None? <==> chain.None?)
    && (chain.Some? ==> hashes.value == HashAll(h, chain.value) && forall c <- chain.value :: c in AllCerts(log))
  }

  /** Everything reconstruction needs of entry `i` is in the certificate store. */
  lemma EntryHasSources(env: Env, s: TreeState, log: seq<Record>, i: nat)
    requires LogInv(env, s, log) && i < |log| && Dedupable(log[i].entry)
    ensures var e := log[i].entry; var d := Dedup(env.h, e);
            WellFormed(env.tbs, e) && ChainOf(env.h, log, d.chainHashes, e.chain)
            && d.issuerKeyHash == e.issuerKeyHash
            && (if e.entryType.PrecertEntry? then e.originalPrecert.value else e.certificate) in AllCerts(log)
  {
    hide EntryKeys, HashKeys, SctKeys, CertKeys, SctFor, LeafOf, HashAll;
    var e := log[i].entry;
    assert RecordOk(env, log[i], i);
    assert forall c | c in Certs(e) :: c in AllCerts(log);
    if e.issuerKeyHash.Some? { assert e.issuerKeyHash.value[..32] == e.issuerKeyHash.value; }
  }
}
