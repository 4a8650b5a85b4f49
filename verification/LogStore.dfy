/** The sequenced log in the store: what `flush_batch` adds next to the tree, the invariant tying
    entries, leaf hashes, SCTs and certificates to the tree, and why every flush keeps it. */
module LogStore {
  import opened Rfc6962
  import opened LogTypes
  import opened Inclusion
  import opened TreeStore
  import opened TreeRuns
  import opened LeafCodec

  /** TBS extraction: any deterministic partial function of the precertificate and its chain. */
  type TbsFn = (Bytes, seq<Bytes>) -> Option<Bytes>

  /** The hash function, the TBS extractor and the log's key. */
  datatype Env = Env(h: HashFn, tbs: TbsFn, builder: SctBuilder)

  /** A submission waiting in the queue. */
  datatype BatchEntry = BatchEntry(entry: LogEntry, certHash: Digest, callback: nat -> Sct)

  /** A sequenced submission: the entry with its index and leaf, and the SCT issued for it. */
  datatype Record = Record(entry: LogEntry, certHash: Digest, sct: Sct)

  // ---------------------------------------------------------------- entries

  function ChainOrEmpty(e: LogEntry): seq<Bytes> {
    if e.chain.Some? then e.chain.value else []
  }

  /** What `new_with_timestamp` and `new_precert_with_timestamp` build from a submission. */
  predicate WellFormed(tbs: TbsFn, e: LogEntry) {
    match e.entryType
    case X509Entry => e.issuerKeyHash.None? && e.originalPrecert.None?
    case PrecertEntry =>
      e.issuerKeyHash.Some? && |e.issuerKeyHash.value| == 32 && e.originalPrecert.Some?
      && tbs(e.originalPrecert.value, ChainOrEmpty(e)) == Some(e.certificate)
  }

  /** `new_with_timestamp`. */
  function NewEntry(certificate: Bytes, chain: Option<seq<Bytes>>, timestamp: nat): LogEntry {
    LogEntry(0, timestamp, X509Entry, certificate, chain, None, None,
             MerkleTreeLeaf(certificate, X509Entry, None, timestamp, None))
  }

  /** `new_precert_with_timestamp`. */
  function NewPrecertEntry(tbsCertificate: Bytes, chain: Option<seq<Bytes>>, issuerKeyHash: Bytes, precert: Bytes,
                           timestamp: nat): LogEntry {
    LogEntry(0, timestamp, PrecertEntry, tbsCertificate, chain, Some(issuerKeyHash), Some(precert),
             MerkleTreeLeaf(tbsCertificate, PrecertEntry, Some(issuerKeyHash), timestamp, None))
  }

  /** What the handlers submit is well-formed: an X.509 entry always, a precert entry with the TBS
      certificate they extracted and a 32-byte issuer key hash. */
  lemma SubmittedIsWellFormed(tbs: TbsFn, certificate: Bytes, chain: seq<Bytes>, issuerKeyHash: Bytes, precert: Bytes,
                              timestamp: nat)
    requires |issuerKeyHash| == 32
    ensures var given := if chain == [] then None else Some(chain);
            WellFormed(tbs, NewEntry(certificate, given, timestamp))
            && (tbs(precert, chain).Some? ==>
                  WellFormed(tbs, NewPrecertEntry(tbs(precert, chain).value, given, issuerKeyHash, precert, timestamp)))
  {
    hide MerkleTreeLeaf;
  }

  /** The MerkleTreeLeaf of an entry at an index. */
  function LeafOf(e: LogEntry, index: nat): Bytes
    requires index <= MAX_INDEX
  {
    MerkleTreeLeaf(e.certificate, e.entryType, e.issuerKeyHash, e.timestamp, Some(index))
  }

  /** An SCT for the entry at an index: signed by the log over exactly the leaf with that index. */
  predicate SctFor(b: SctBuilder, e: LogEntry, index: nat, s: Sct)
    requires index <= MAX_INDEX
  {
    s.timestamp == e.timestamp
    && SignatureInput(s, e.certificate, e.entryType, e.issuerKeyHash) == LeafOf(e, index)
    && Genuine(b, s, LeafOf(e, index))
  }

  /** The handlers pass a callback that signs the very entry they submit. */
  ghost predicate Honest(b: SctBuilder, be: BatchEntry) {
    forall index: nat | index <= MAX_INDEX :: SctFor(b, be.entry, index, be.callback(index))
  }

  /** The callback the handlers submit with an entry. It panics past the last index, where any value
      will do here. */
  function HandlerCallback(b: SctBuilder, e: LogEntry): nat -> Sct {
    (index: nat) =>
      if index > MAX_INDEX then Sct([], 0, [], [])
      else SignedSct(b, e.certificate, e.entryType, e.issuerKeyHash, e.timestamp, Some(index))
  }

  lemma HandlerIsHonest(b: SctBuilder, e: LogEntry, certHash: Digest)
    ensures Honest(b, BatchEntry(e, certHash, HandlerCallback(b, e)))
  {
    hide SignedSct, MerkleTreeLeaf, SignatureInput, Genuine;
    forall index: nat | index <= MAX_INDEX ensures SctFor(b, e, index, HandlerCallback(b, e)(index)) {
      SctSignsLeaf(b, e.certificate, e.entryType, e.issuerKeyHash, e.timestamp, Some(index));
    }
  }

  /** What `from_log_entry` needs in order not to panic. */
  predicate Dedupable(e: LogEntry) {
    (e.entryType.PrecertEntry? ==> e.originalPrecert.Some?)
    && (e.issuerKeyHash.Some? ==> |e.issuerKeyHash.value| >= 32)
  }

  predicate AllDedupable(rs: seq<Record>) { forall i | 0 <= i < |rs| :: Dedupable(rs[i].entry) }

  /** `DeduplicatedLogEntry::from_log_entry`. */
  function Dedup(h: HashFn, e: LogEntry): DedupEntry
    requires Dedupable(e)
  {
    var precert := e.entryType.PrecertEntry?;
    DedupEntry(
      e.index, e.timestamp, e.entryType,
      h(if precert then e.originalPrecert.value else e.certificate),
      if e.chain.Some? then Some(HashAll(h, e.chain.value)) else None,
      if e.issuerKeyHash.Some? then Some(e.issuerKeyHash.value[..32]) else None,
      if precert then Some(h(e.originalPrecert.value)) else None,
      e.leafData)
  }

  function HashAll(h: HashFn, certs: seq<Bytes>): (r: seq<Digest>)
    ensures |r| == |certs| && forall i | 0 <= i < |certs| :: r[i] == h(certs[i])
  {
    if certs == [] then [] else [h(certs[0])] + HashAll(h, certs[1..])
  }

  /** The certificates `flush_batch` stores by content for an entry. */
  function Certs(e: LogEntry): set<Bytes> {
    (if e.entryType.X509Entry? then {e.certificate} else {})
    + (set c | c in ChainOrEmpty(e))
    + (if e.originalPrecert.Some? then {e.originalPrecert.value} else {})
  }

  // ---------------------------------------------------------------- the invariant

  /** Record `i` of the log: at its index, with the leaf and the SCT for that index. */
  ghost predicate RecordOk(env: Env, r: Record, i: nat) {
    i <= MAX_INDEX && r.entry.index == i && WellFormed(env.tbs, r.entry)
    && r.entry.leafData == LeafOf(r.entry, i) && SctFor(env.builder, r.entry, i, r.sct)
  }

  ghost predicate RecordsOk(env: Env, D: seq<Bytes>, log: seq<Record>) {
    |log| == |D| <= MAX_INDEX + 1 && AllDedupable(log)
    && forall i: nat | i < |log| :: RecordOk(env, log[i], i) && D[i] == log[i].entry.leafData
  }

  ghost predicate EntryKeys(env: Env, db: Db, log: seq<Record>)
    requires AllDedupable(log)
  {
    && (forall i: nat :: EntryKey(i) in db <==> i < |log|)
    && (forall i: nat | i < |log| :: EntryKey(i) in db && db[EntryKey(i)] == Entry(Dedup(env.h, log[i].entry)))
  }

  /** The leaf-hash index is a bijection between the stored hashes and the positions of the log. */
  ghost predicate HashKeys(h: HashFn, db: Db, log: seq<Record>) {
    && (forall i: nat | i < |log| ::
          HashKey(LeafHash(h, log[i].entry.leafData)) in db
          && db[HashKey(LeafHash(h, log[i].entry.leafData))] == Num(i))
    && (forall d: Digest | HashKey(d) in db ::
          db[HashKey(d)].Num? && db[HashKey(d)].n < |log|
          && LeafHash(h, log[db[HashKey(d)].n].entry.leafData) == d)
  }

  ghost predicate SctKeys(db: Db, log: seq<Record>) {
    && (forall i: nat | i < |log| :: CertSctKey(log[i].certHash) in db)
    && (forall c: Digest | CertSctKey(c) in db :: SctStored(log, c, db[CertSctKey(c)]))
  }

  predicate SctStored(log: seq<Record>, c: Digest, v: Value) {
    v.SctValue? && v.sctEntry.index < |log|
    && var r := log[v.sctEntry.index];
       r.certHash == c && v.sctEntry == SctEntry(v.sctEntry.index, r.sct, r.sct.timestamp)
  }

  /** The content-addressed certificate store. */
  ghost predicate CertKeys(h: HashFn, db: Db, log: seq<Record>) {
    && (forall c: Bytes | c in AllCerts(log) :: CertKey(h(c)) in db && db[CertKey(h(c))] == Raw(c))
    && (forall d: Digest | CertKey(d) in db ::
          db[CertKey(d)].Raw? && h(db[CertKey(d)].bytes) == d && db[CertKey(d)].bytes in AllCerts(log))
  }

  ghost function AllCerts(log: seq<Record>): set<Bytes> {
    set i: nat, c | i < |log| && c in Certs(log[i].entry) :: c
  }

  ghost predicate LogInv(env: Env, s: TreeState, log: seq<Record>) {
    && RecordsOk(env, s.leaves, log)
    && EntryKeys(env, s.db, log) && HashKeys(env.h, s.db, log)
    && SctKeys(s.db, log) && CertKeys(env.h, s.db, log)
  }

  /** Every string that is hashed as a leaf or as a certificate. */
  ghost function HashedBy(log: seq<Record>): set<Bytes> {
    LeafInputs(log) + AllCerts(log)
  }

  ghost function LeafInputs(log: seq<Record>): set<Bytes> {
    set i: nat | i < |log| :: LeafInput(log[i].entry.leafData)
  }

  /** A key that the tree does not own is changed by the additional data alone. */
  lemma ExtraAt(h: HashFn, s: TreeState, b: Batch, k: Key)
    requires b.written && !(b.items == [] && b.extra == []) && !IsTreeKey(k)
    ensures var t := Step(h, s, b);
            (k in t.db <==> k in s.db || k in Puts(b.extra))
            && (k in t.db ==> t.db[k] == if k in Puts(b.extra) then Puts(b.extra)[k] else s.db[k])
  {
    hide LeafPuts, NodePuts, VersionPuts, TilePuts, Puts;
    var D := s.leaves + b.items;
    LeafPutsAt(D, |s.leaves|, k);
    NodePutsAt(h, D, |s.leaves|, k);
    VersionPutsAt(|D|, |s.leaves|, k);
    TilePutsAt(h, D, |s.leaves|, k);
  }

  // ---------------------------------------------------------------- what a flush adds

  /** The entry, leaf-hash and SCT pairs of one record at a position. */
  function RecordPairs(h: HashFn, r: Record, index: nat): seq<(Key, Value)>
    requires Dedupable(r.entry)
  {
    [(EntryKey(index), Entry(Dedup(h, r.entry))),
     (HashKey(LeafHash(h, r.entry.leafData)), Num(index)),
     (CertSctKey(r.certHash), SctValue(SctEntry(index, r.sct, r.sct.timestamp)))]
  }

  function MetaPairs(h: HashFn, rs: seq<Record>, start: nat): seq<(Key, Value)>
    requires AllDedupable(rs)
  {
    if rs == [] then []
    else MetaPairs(h, rs[..|rs| - 1], start) + RecordPairs(h, rs[|rs| - 1], start + |rs| - 1)
  }

  lemma {:induction false} PutsAppend(a: seq<(Key, Value)>, b: seq<(Key, Value)>)
    ensures Puts(a + b) == Puts(a) + Puts(b)
  {
    hide Puts;
    if b == [] {
      assert a + b == a;
      PutsNone();
    } else {
      var front, last := b[..|b| - 1], b[|b| - 1];
      assert b == front + [last];
      PutsAppend(a, front);
      PutsLast(a + front, last);
      PutsLast(front, last);
      PutOver(Puts(a), Puts(front), last.0, last.1);
      assert a + b == a + front + [last];
    }
  }

  lemma PutOver(a: Db, b: Db, k: Key, v: Value)
    ensures (a + b)[k := v] == a + b[k := v]
  {}

  lemma PutsLast(pairs: seq<(Key, Value)>, p: (Key, Value))
    ensures Puts(pairs + [p]) == Puts(pairs)[p.0 := p.1]
  {
    assert (pairs + [p])[..|pairs|] == pairs;
  }

  lemma PutsOfThree(p: (Key, Value), q: (Key, Value), r: (Key, Value))
    ensures Puts([p, q, r]) == map[][p.0 := p.1][q.0 := q.1][r.0 := r.1]
  {
    var a, b, c := [p], [p, q], [p, q, r];
    assert a[..0] == [] && b[..1] == a && c[..2] == b;
    assert Puts(a) == map[][p.0 := p.1];
    assert Puts(b) == Puts(a)[q.0 := q.1];
  }

  /** A value put under a key by the flush of `rs` at `start` comes from a record of the batch. */
  predicate FromBatch(h: HashFn, rs: seq<Record>, start: nat, k: Key, v: Value)
    requires AllDedupable(rs)
  {
    match k
    case EntryKey(i) => start <= i < start + |rs| && v == Entry(Dedup(h, rs[i - start].entry))
    case HashKey(d) =>
      v.Num? && start <= v.n < start + |rs| && LeafHash(h, rs[v.n - start].entry.leafData) == d
    case CertSctKey(c) =>
      v.SctValue? && start <= v.sctEntry.index < start + |rs|
      && var r := rs[v.sctEntry.index - start];
         r.certHash == c && v.sctEntry == SctEntry(v.sctEntry.index, r.sct, r.sct.timestamp)
    case _ => false
  }

  lemma {:induction false} MetaSound(h: HashFn, rs: seq<Record>, start: nat, k: Key)
    requires AllDedupable(rs)
    ensures k in Puts(MetaPairs(h, rs, start)) ==> FromBatch(h, rs, start, k, Puts(MetaPairs(h, rs, start))[k])
  {
    hide Puts, Dedup;
    if rs == [] {
      assert Puts([]) == map[] by { PutsNone(); }
    } else {
      var front, n := rs[..|rs| - 1], |rs| - 1;
      MetaSound(h, front, start, k);
      var ps := RecordPairs(h, rs[n], start + n);
      PutsAppend(MetaPairs(h, front, start), ps);
      PutsOfThree(ps[0], ps[1], ps[2]);
      assert ps == [ps[0], ps[1], ps[2]];
    }
  }

  lemma PutsNone()
    ensures Puts([]) == map[]
  {}

  lemma {:induction false} MetaComplete(h: HashFn, rs: seq<Record>, start: nat, v: nat)
    requires AllDedupable(rs) && v < |rs|
    ensures var P := Puts(MetaPairs(h, rs, start));
            EntryKey(start + v) in P && HashKey(LeafHash(h, rs[v].entry.leafData)) in P
            && CertSctKey(rs[v].certHash) in P
  {
    hide Puts, Dedup;
    var front, n := rs[..|rs| - 1], |rs| - 1;
    var ps := RecordPairs(h, rs[n], start + n);
    PutsAppend(MetaPairs(h, front, start), ps);
    if v < n {
      MetaComplete(h, front, start, v);
    } else {
      PutsOfThree(ps[0], ps[1], ps[2]);
      assert ps == [ps[0], ps[1], ps[2]];
    }
  }

  // ---------------------------------------------------------------- every flush keeps the invariant

  /** The certificate pairs of a flush: each new certificate of the batch under its own hash. */
  ghost predicate CertPairs(h: HashFn, db: Db, rs: seq<Record>, pairs: seq<(Key, Value)>) {
    && (forall p <- pairs ::
          p.0.CertKey? && p.1.Raw? && p.0.hash == h(p.1.bytes) && p.1.bytes in AllCerts(rs))
    && (forall c: Bytes | c in AllCerts(rs) :: CertKey(h(c)) in db || CertKey(h(c)) in Puts(pairs))
  }

  lemma {:induction false} CertPutsAt(h: HashFn, db: Db, rs: seq<Record>, pairs: seq<(Key, Value)>, k: Key)
    requires forall p <- pairs ::
               p.0.CertKey? && p.1.Raw? && p.0.hash == h(p.1.bytes) && p.1.bytes in AllCerts(rs)
    requires k in Puts(pairs)
    ensures k.CertKey? && Puts(pairs)[k].Raw? && k.hash == h(Puts(pairs)[k].bytes)
            && Puts(pairs)[k].bytes in AllCerts(rs)
  {
    hide AllCerts;
    var last := pairs[|pairs| - 1];
    if k != last.0 { CertPutsAt(h, db, rs, pairs[..|pairs| - 1], k); }
  }

  /** One flush: the batch of records at the end of the log, with their pairs. */
  ghost predicate IsFlush(env: Env, s: TreeState, log: seq<Record>, rs: seq<Record>, b: Batch)
  {
    && b.written && rs != [] && |b.items| == |rs| && |log| + |rs| <= MAX_INDEX + 1
    && AllDedupable(rs)
    && (forall v: nat | v < |rs| ::
          RecordOk(env, rs[v], |log| + v) && b.items[v] == rs[v].entry.leafData)
    && exists certs: seq<(Key, Value)> ::
         CertPairs(env.h, s.db, rs, certs) && b.extra == MetaPairs(env.h, rs, |log|) + certs
  }

  /** What one flush puts under a key outside the tree. */
  lemma FlushPuts(env: Env, s: TreeState, log: seq<Record>, rs: seq<Record>, b: Batch, k: Key)
    requires IsFlush(env, s, log, rs, b)
    ensures k in Puts(b.extra) ==>
              if k.CertKey? then
                Puts(b.extra)[k].Raw? && k.hash == env.h(Puts(b.extra)[k].bytes)
                && Puts(b.extra)[k].bytes in AllCerts(rs)
              else FromBatch(env.h, rs, |log|, k, Puts(b.extra)[k])
    ensures k in Puts(MetaPairs(env.h, rs, |log|)) ==> k in Puts(b.extra)
    ensures k.CertKey? && (exists c :: c in AllCerts(rs) && k.hash == env.h(c)) ==>
              k in s.db || k in Puts(b.extra)
  {
    hide Puts, AllCerts, MetaPairs, FromBatch;
    var certs :| CertPairs(env.h, s.db, rs, certs) && b.extra == MetaPairs(env.h, rs, |log|) + certs;
    PutsAppend(MetaPairs(env.h, rs, |log|), certs);
    MetaSound(env.h, rs, |log|, k);
    if k in Puts(certs) { CertPutsAt(env.h, s.db, rs, certs, k); }
    if k in Puts(MetaPairs(env.h, rs, |log|)) { NotCert(env.h, rs, |log|, k, Puts(MetaPairs(env.h, rs, |log|))[k]); }
  }

  lemma NotCert(h: HashFn, rs: seq<Record>, start: nat, k: Key, v: Value)
    requires AllDedupable(rs) && FromBatch(h, rs, start, k, v)
    ensures !k.CertKey?
  {}

  lemma FlushKeepsRecords(env: Env, s: TreeState, log: seq<Record>, rs: seq<Record>, b: Batch)
    requires LogInv(env, s, log) && IsFlush(env, s, log, rs, b)
    ensures RecordsOk(env, Step(env.h, s, b).leaves, log + rs)
  {
    hide BatchPuts, RecordOk, Dedupable, EntryKeys, HashKeys, SctKeys, CertKeys;
  }

  lemma FlushKeepsEntries(env: Env, s: TreeState, log: seq<Record>, rs: seq<Record>, b: Batch)
    requires LogInv(env, s, log) && IsFlush(env, s, log, rs, b)
    ensures AllDedupable(log + rs) && EntryKeys(env, Step(env.h, s, b).db, log + rs)
  {
    hide Step, RecordOk, Dedupable, Puts, MetaPairs, HashKeys, SctKeys, CertKeys, Dedup;
    forall i: nat
      ensures var db := Step(env.h, s, b).db;
              (EntryKey(i) in db <==> i < |log + rs|)
              && (i < |log + rs| ==> db[EntryKey(i)] == Entry(Dedup(env.h, (log + rs)[i].entry)))
    {
      ExtraAt(env.h, s, b, EntryKey(i));
      FlushPuts(env, s, log, rs, b, EntryKey(i));
      if |log| <= i < |log| + |rs| { MetaComplete(env.h, rs, |log|, i - |log|); }
    }
  }

  /** Two records at different positions have different leaf hashes, unless strings collide. */
  lemma LeafHashesDiffer(env: Env, log: seq<Record>, i: nat, j: nat)
    requires i < |log| && j < |log| && RecordOk(env, log[i], i) && RecordOk(env, log[j], j)
    requires CollisionFree(env.h, HashedBy(log))
    requires LeafHash(env.h, log[i].entry.leafData) == LeafHash(env.h, log[j].entry.leafData)
    ensures i == j
  {
    hide LeafOf, SctFor, WellFormed;
    var a, b := log[i].entry.leafData, log[j].entry.leafData;
    assert LeafInput(a) in HashedBy(log) && LeafInput(b) in HashedBy(log);
    assert LeafInput(a)[1..] == a && LeafInput(b)[1..] == b;
    if i != j { LeafOfDiffers(log[i].entry, log[j].entry, i, j); }
  }

  lemma LeafOfDiffers(a: LogEntry, b: LogEntry, i: nat, j: nat)
    requires i <= MAX_INDEX && j <= MAX_INDEX && i != j
    ensures LeafOf(a, i) != LeafOf(b, j)
  {
    hide MerkleTreeLeaf;
    LeavesDiffer(a, b, i, j);
  }

  lemma FlushKeepsHashes(env: Env, s: TreeState, log: seq<Record>, rs: seq<Record>, b: Batch)
    requires LogInv(env, s, log) && IsFlush(env, s, log, rs, b)
    requires CollisionFree(env.h, HashedBy(log + rs))
    ensures HashKeys(env.h, Step(env.h, s, b).db, log + rs)
  {
    hide Step, RecordOk, Dedupable, Puts, MetaPairs, EntryKeys, SctKeys, CertKeys, Dedup, LeafHash, HashedBy, CollisionFree;
    var db := Step(env.h, s, b).db;
    var all := log + rs;
    FlushKeepsRecords(env, s, log, rs, b);
    forall d: Digest | HashKey(d) in db
      ensures db[HashKey(d)].Num? && db[HashKey(d)].n < |all|
              && LeafHash(env.h, all[db[HashKey(d)].n].entry.leafData) == d
    {
      ExtraAt(env.h, s, b, HashKey(d));
      FlushPuts(env, s, log, rs, b, HashKey(d));
    }
    forall i: nat | i < |all|
      ensures var k := HashKey(LeafHash(env.h, all[i].entry.leafData)); k in db && db[k] == Num(i)
    {
      var k := HashKey(LeafHash(env.h, all[i].entry.leafData));
      ExtraAt(env.h, s, b, k);
      FlushPuts(env, s, log, rs, b, k);
      if i >= |log| { MetaComplete(env.h, rs, |log|, i - |log|); }
      LeafHashesDiffer(env, all, i, db[k].n);
    }
  }

  lemma FlushKeepsScts(env: Env, s: TreeState, log: seq<Record>, rs: seq<Record>, b: Batch)
    requires LogInv(env, s, log) && IsFlush(env, s, log, rs, b)
    ensures SctKeys(Step(env.h, s, b).db, log + rs)
  {
    hide Step, RecordOk, Dedupable, Puts, MetaPairs, EntryKeys, HashKeys, CertKeys, Dedup;
    var db := Step(env.h, s, b).db;
    forall c: Digest | CertSctKey(c) in db ensures SctStored(log + rs, c, db[CertSctKey(c)]) {
      ExtraAt(env.h, s, b, CertSctKey(c));
      FlushPuts(env, s, log, rs, b, CertSctKey(c));
      if CertSctKey(c) !in Puts(b.extra) { assert SctStored(log, c, s.db[CertSctKey(c)]); }
    }
    forall i: nat | i < |log + rs| ensures CertSctKey((log + rs)[i].certHash) in db {
      ExtraAt(env.h, s, b, CertSctKey((log + rs)[i].certHash));
      FlushPuts(env, s, log, rs, b, CertSctKey((log + rs)[i].certHash));
      if i >= |log| { MetaComplete(env.h, rs, |log|, i - |log|); }
    }
  }

  lemma AllCertsAppend(log: seq<Record>, rs: seq<Record>)
    ensures AllCerts(log + rs) == AllCerts(log) + AllCerts(rs)
  {
    hide Certs;
    forall c | c in AllCerts(log) + AllCerts(rs) ensures c in AllCerts(log + rs) {
      if c in AllCerts(log) {
        var i: nat :| i < |log| && c in Certs(log[i].entry);
        assert (log + rs)[i] == log[i];
      } else {
        var i: nat :| i < |rs| && c in Certs(rs[i].entry);
        assert (log + rs)[|log| + i] == rs[i];
      }
    }
    forall c | c in AllCerts(log + rs) ensures c in AllCerts(log) + AllCerts(rs) {
      var i: nat :| i < |log + rs| && c in Certs((log + rs)[i].entry);
      if i >= |log| { assert rs[i - |log|] == (log + rs)[i]; }
    }
  }

  lemma FlushKeepsCerts(env: Env, s: TreeState, log: seq<Record>, rs: seq<Record>, b: Batch)
    requires LogInv(env, s, log) && IsFlush(env, s, log, rs, b)
    requires CollisionFree(env.h, HashedBy(log + rs))
    ensures CertKeys(env.h, Step(env.h, s, b).db, log + rs)
  {
    hide Step, RecordOk, Dedupable, Puts, MetaPairs, EntryKeys, HashKeys, SctKeys, Dedup, AllCerts, FromBatch;
    var db := Step(env.h, s, b).db;
    var all := log + rs;
    AllCertsAppend(log, rs);
    forall d: Digest | CertKey(d) in db
      ensures db[CertKey(d)].Raw? && env.h(db[CertKey(d)].bytes) == d && db[CertKey(d)].bytes in AllCerts(all)
    {
      ExtraAt(env.h, s, b, CertKey(d));
      FlushPuts(env, s, log, rs, b, CertKey(d));
    }
    forall c: Bytes | c in AllCerts(all) ensures CertKey(env.h(c)) in db && db[CertKey(env.h(c))] == Raw(c) {
      ExtraAt(env.h, s, b, CertKey(env.h(c)));
      FlushPuts(env, s, log, rs, b, CertKey(env.h(c)));
      assert CertKey(env.h(c)) in db;
      var c' := db[CertKey(env.h(c))].bytes;
      assert c in HashedBy(all) && c' in HashedBy(all);
    }
  }

  /** Every flush of a batch keeps the log invariant. */
  lemma FlushKeepsLogInv(env: Env, s: TreeState, log: seq<Record>, rs: seq<Record>, b: Batch)
    requires LogInv(env, s, log) && IsFlush(env, s, log, rs, b)
    requires CollisionFree(env.h, HashedBy(log + rs))
    ensures LogInv(env, Step(env.h, s, b), log + rs)
  {
    hide Step, RecordsOk, EntryKeys, HashKeys, SctKeys, CertKeys, IsFlush, AllDedupable, CollisionFree, HashedBy;
    FlushKeepsRecords(env, s, log, rs, b);
    FlushKeepsEntries(env, s, log, rs, b);
    FlushKeepsHashes(env, s, log, rs, b);
    FlushKeepsScts(env, s, log, rs, b);
    FlushKeepsCerts(env, s, log, rs, b);
  }

  /** The empty log in a fresh store: where every run starts. */
  lemma EmptyLogInv(env: Env)
    ensures LogInv(env, EMPTY, [])
  {
    assert AllCerts([]) == {};
  }
}
