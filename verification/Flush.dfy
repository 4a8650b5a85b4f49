/** The pure part of `flush_batch`: which submissions become records, what is collected for the
    certificate store, and what each submitter is told. */
module Flush {
  import opened Rfc6962
  import opened LogTypes
  import opened TreeStore
  import opened LeafCodec
  import opened LogStore

  /** A submission after index assignment, signing and leaf serialisation. */
  function Prepare(be: BatchEntry, index: nat): Record
    requires index <= MAX_INDEX
  {
    Record(be.entry.(index := index, leafData := LeafOf(be.entry, index)), be.certHash, be.callback(index))
  }

  predicate FitsIndex(start: nat, count: nat) { start + count <= MAX_INDEX + 1 }

  /** The records of the submissions whose entry serialises; `fails` marks the others. */
  function Survivors(es: seq<BatchEntry>, fails: seq<bool>, start: nat): seq<Record>
    requires |fails| == |es| && FitsIndex(start, |es|)
  {
    if es == [] then []
    else
      var k := |es| - 1;
      Survivors(es[..k], fails[..k], start) + if fails[k] then [] else [Prepare(es[k], start + k)]
  }

  /** How many submissions before the `i`-th survive. */
  function Rank(fails: seq<bool>, i: nat): nat
    requires i <= |fails|
  {
    if i == 0 then 0 else Rank(fails, i - 1) + if fails[i - 1] then 0 else 1
  }

  /** What submitter `i` is told once the batch is committed. */
  function Reply(es: seq<BatchEntry>, fails: seq<bool>, start: nat, i: nat): Outcome<(nat, Sct)>
    requires |fails| == |es| && i < |es| && FitsIndex(start, |es|)
  {
    if fails[i] then Err(EncodingError) else Ok((start + Rank(fails, i), es[i].callback(start + i)))
  }

  /** The log holds what was submitted at the index the submitter was told: under its certificate hash,
      with the SCT it got, and with every field as it came. */
  ghost predicate Logged(log: seq<Record>, be: BatchEntry, reply: Outcome<(nat, Sct)>) {
    reply.Ok? ==>
      && reply.value.0 < |log|
      && var r := log[reply.value.0];
         && r.certHash == be.certHash && r.sct == reply.value.1
         && r.entry.certificate == be.entry.certificate && r.entry.chain == be.entry.chain
         && r.entry.timestamp == be.entry.timestamp && r.entry.entryType == be.entry.entryType
         && r.entry.issuerKeyHash == be.entry.issuerKeyHash
         && r.entry.originalPrecert == be.entry.originalPrecert
  }

  lemma ReplyLogged(es: seq<BatchEntry>, fails: seq<bool>, log: seq<Record>, i: nat)
    requires |fails| == |es| && i < |es| && FitsIndex(|log|, |es|)
    ensures Logged(log + Survivors(es, fails, |log|), es[i], Reply(es, fails, |log|, i))
  {
    hide Survivors, Rank, Logged, Prepare;
    var all := log + Survivors(es, fails, |log|);
    if fails[i] {
      NotLogged(all, es[i], Reply(es, fails, |log|, i));
    } else {
      SurvivorAt(es, fails, |log|, i);
      RecordLogged(all, es[i], |log| + Rank(fails, i), |log| + i);
    }
  }

  lemma NotLogged(log: seq<Record>, be: BatchEntry, reply: Outcome<(nat, Sct)>)
    requires reply.Err?
    ensures Logged(log, be, reply)
  {}

  lemma RecordLogged(log: seq<Record>, be: BatchEntry, j: nat, k: nat)
    requires j < |log| && k <= MAX_INDEX && log[j] == Prepare(be, k)
    ensures Logged(log, be, Ok((j, be.callback(k))))
  {
    hide LeafOf;
  }

  lemma AllLogged(es: seq<BatchEntry>, fails: seq<bool>, log: seq<Record>, replies: seq<Outcome<(nat, Sct)>>)
    requires |fails| == |es| == |replies| && FitsIndex(|log|, |es|)
    requires forall i | 0 <= i < |es| :: replies[i] == Reply(es, fails, |log|, i)
    ensures forall i | 0 <= i < |es| :: Logged(log + Survivors(es, fails, |log|), es[i], replies[i])
  {
    hide Survivors, Logged, Reply;
    forall i | 0 <= i < |es| ensures Logged(log + Survivors(es, fails, |log|), es[i], replies[i]) {
      ReplyLogged(es, fails, log, i);
    }
  }

  /** No submission survives after one that does not. */
  predicate NoGap(fails: seq<bool>) {
    forall i, j | 0 <= i < j < |fails| :: fails[i] ==> fails[j]
  }

  lemma RankBound(fails: seq<bool>, i: nat)
    requires i <= |fails|
    ensures Rank(fails, i) <= i
    ensures Rank(fails, i) == i <==> forall j | 0 <= j < i :: !fails[j]
  {}

  /** The index told to a submitter is the index its SCT was signed for exactly when no earlier
      submission of the batch failed to serialise. */
  lemma ReplyMatchesSct(b: SctBuilder, es: seq<BatchEntry>, fails: seq<bool>, start: nat, i: nat)
    requires |fails| == |es| && i < |es| && FitsIndex(start, |es|) && !fails[i] && Honest(b, es[i])
    ensures var (index, sct) := Reply(es, fails, start, i).value;
            index <= MAX_INDEX
            && (SctFor(b, es[i].entry, index, sct) <==> forall j | 0 <= j < i :: !fails[j])
  {
    hide LeafOf, Genuine, SignatureInput, Rank;
    RankBound(fails, i);
    var index := start + Rank(fails, i);
    assert SctFor(b, es[i].entry, start + i, es[i].callback(start + i));
    if index != start + i { LeafOfDiffers(es[i].entry, es[i].entry, index, start + i); }
  }

  /** Survivors keep their order and, where there is no gap, sit at the index they were given. */
  lemma {:induction false} SurvivorAt(es: seq<BatchEntry>, fails: seq<bool>, start: nat, i: nat)
    requires |fails| == |es| && FitsIndex(start, |es|) && i < |es| && !fails[i]
    ensures Rank(fails, i) < |Survivors(es, fails, start)|
    ensures Survivors(es, fails, start)[Rank(fails, i)] == Prepare(es[i], start + i)
  {
    hide Prepare, Rank;
    var k := |es| - 1;
    SurvivorCount(es[..k], fails[..k], start);
    RankPrefix(fails, fails[..k], i);
    if i < k { SurvivorAt(es[..k], fails[..k], start, i); }
  }

  lemma {:induction false} SurvivorCount(es: seq<BatchEntry>, fails: seq<bool>, start: nat)
    requires |fails| == |es| && FitsIndex(start, |es|)
    ensures |Survivors(es, fails, start)| == Rank(fails, |es|)
  {
    if es != [] {
      var k := |es| - 1;
      SurvivorCount(es[..k], fails[..k], start);
      RankPrefix(fails, fails[..k], k);
    }
  }

  lemma RankPrefix(fails: seq<bool>, front: seq<bool>, i: nat)
    requires i <= |front| && front <= fails
    ensures Rank(fails, i) == Rank(front, i)
  {}

  /** Without a gap, survivor `v` is submission `v` at index `start + v`. */
  lemma SurvivorsInOrder(es: seq<BatchEntry>, fails: seq<bool>, start: nat, v: nat)
    requires |fails| == |es| && FitsIndex(start, |es|) && NoGap(fails)
    requires v < |Survivors(es, fails, start)|
    ensures v < |es| && Survivors(es, fails, start)[v] == Prepare(es[v], start + v)
  {
    hide Prepare, Survivors;
    SurvivorCount(es, fails, start);
    RankBound(fails, |es|);
    if fails[v] {
      RankSplits(fails, v, |es|);
      RankBound(fails, v);
    }
    RankBound(fails, v);
    SurvivorAt(es, fails, start, v);
  }

  /** Past a failure without a gap nothing is counted any more. */
  lemma RankSplits(fails: seq<bool>, v: nat, i: nat)
    requires v <= i <= |fails| && v < |fails| && fails[v] && NoGap(fails)
    ensures Rank(fails, i) == Rank(fails, v)
    decreases i
  {
    if i > v { RankSplits(fails, v, i - 1); }
  }

  // ---------------------------------------------------------------- the loops

  /** The loop that separates surviving and failed submissions. */
  method Separate(es: seq<BatchEntry>, fails: seq<bool>, start: nat)
    returns (leaves: seq<Bytes>, records: seq<Record>)
    requires |fails| == |es| && FitsIndex(start, |es|)
    ensures records == Survivors(es, fails, start)
    ensures |leaves| == |records| && forall v | 0 <= v < |leaves| :: leaves[v] == records[v].entry.leafData
  {
    hide LeafOf, Prepare;
    leaves, records := [], [];
    for i := 0 to |es|
      invariant records == Survivors(es[..i], fails[..i], start)
      invariant |leaves| == |records| && forall v | 0 <= v < |leaves| :: leaves[v] == records[v].entry.leafData
    {
      assert es[..i + 1][..i] == es[..i] && fails[..i + 1][..i] == fails[..i];
      if !fails[i] {
        var r := Prepare(es[i], start + i);
        leaves := leaves + [r.entry.leafData];
        records := records + [r];
      }
    }
    assert es[..|es|] == es && fails[..|es|] == fails;
  }

  /** Certificates by their hash; the first one seen under a hash is kept. */
  type CertMap = map<Digest, Bytes>

  ghost predicate Collected(h: HashFn, m: CertMap, certs: set<Bytes>) {
    && (forall d | d in m :: h(m[d]) == d && m[d] in certs)
    && (forall c | c in certs :: h(c) in m)
  }

  method Collect(h: HashFn, m: CertMap, c: Bytes, ghost seen: set<Bytes>) returns (m': CertMap)
    requires Collected(h, m, seen)
    ensures Collected(h, m', seen + {c})
  {
    var d := h(c);
    if d in m { m' := m; } else { m' := m[d := c]; }
  }

  /** The certificates of one record. */
  method CollectRecord(h: HashFn, m: CertMap, r: Record, ghost seen: set<Bytes>) returns (m': CertMap)
    requires Collected(h, m, seen)
    ensures Collected(h, m', seen + Certs(r.entry))
  {
    hide Collected;
    m' := m;
    ghost var all := seen;
    if r.entry.entryType != PrecertEntry {
      m' := Collect(h, m', r.entry.certificate, all);
      all := all + {r.entry.certificate};
    }
    if r.entry.chain.Some? {
      var chain := r.entry.chain.value;
      ghost var before := all;
      for i := 0 to |chain|
        invariant all == before + set c | c in chain[..i]
        invariant Collected(h, m', all)
      {
        m' := Collect(h, m', chain[i], all);
        assert chain[..i + 1] == chain[..i] + [chain[i]];
        all := all + {chain[i]};
      }
      assert chain[..|chain|] == chain;
    }
    if r.entry.originalPrecert.Some? {
      m' := Collect(h, m', r.entry.originalPrecert.value, all);
      all := all + {r.entry.originalPrecert.value};
    }
    assert all == seen + Certs(r.entry);
  }

  /** All certificates of the batch. */
  method CollectAll(h: HashFn, rs: seq<Record>) returns (m: CertMap)
    ensures Collected(h, m, AllCerts(rs))
  {
    hide Collected, Certs;
    m := map[];
    assert Collected(h, m, {}) by { NothingCollected(h); }
    assert AllCerts(rs[..0]) == {};
    for i := 0 to |rs|
      invariant Collected(h, m, AllCerts(rs[..i]))
    {
      m := CollectRecord(h, m, rs[i], AllCerts(rs[..i]));
      assert rs[..i + 1] == rs[..i] + [rs[i]];
      AllCertsAppend(rs[..i], [rs[i]]);
      CertsOfOne(rs[i]);
    }
    assert rs[..|rs|] == rs;
  }

  lemma NothingCollected(h: HashFn)
    ensures Collected(h, map[], {})
  {}

  lemma CertsOfOne(r: Record)
    ensures AllCerts([r]) == Certs(r.entry)
  {
    hide Certs;
    forall c | c in Certs(r.entry) ensures c in AllCerts([r]) { assert [r][0] == r; }
  }

  /** The entry, leaf-hash and SCT pairs of the batch. */
  method BuildMetaPairs(h: HashFn, rs: seq<Record>, start: nat) returns (pairs: seq<(Key, Value)>)
    requires AllDedupable(rs)
    ensures pairs == MetaPairs(h, rs, start)
  {
    hide Dedup, Dedupable;
    pairs := [];
    for v := 0 to |rs|
      invariant AllDedupable(rs[..v]) && pairs == MetaPairs(h, rs[..v], start)
    {
      assert rs[..v + 1][..v] == rs[..v];
      var index := start + v;
      var r := rs[v];
      var dedup := Dedup(h, r.entry);
      pairs := pairs + [(EntryKey(index), Entry(dedup)),
                        (HashKey(LeafHash(h, r.entry.leafData)), Num(index)),
                        (CertSctKey(r.certHash), SctValue(SctEntry(index, r.sct, r.sct.timestamp)))];
    }
    assert rs[..|rs|] == rs;
  }

  /** The pairs of the certificates that the store does not hold yet, in any order. */
  method BuildCertPairs(h: HashFn, m: CertMap, existing: set<Digest>, db: Db, ghost rs: seq<Record>)
    returns (pairs: seq<(Key, Value)>)
    requires Collected(h, m, AllCerts(rs)) && forall d | d in existing :: CertKey(d) in db
    ensures CertPairs(h, db, rs, pairs)
  {
    hide AllCerts, Puts;
    pairs := [];
    PutsNone();
    var todo := m.Keys - existing;
    while todo != {}
      invariant todo <= m.Keys
      invariant forall p <- pairs ::
                  p.0.CertKey? && p.1.Raw? && p.0.hash == h(p.1.bytes) && p.1.bytes in AllCerts(rs)
      invariant forall d | d in m :: d in todo || CertKey(d) in db || CertKey(d) in Puts(pairs)
      decreases todo
    {
      var d :| d in todo;
      PutsLast(pairs, (CertKey(d), Raw(m[d])));
      pairs := pairs + [(CertKey(d), Raw(m[d]))];
      todo := todo - {d};
    }
  }

  /** The notification loop after a commit. */
  method NotifyAll(es: seq<BatchEntry>, fails: seq<bool>, start: nat)
    returns (replies: seq<Outcome<(nat, Sct)>>)
    requires |fails| == |es| && FitsIndex(start, |es|)
    ensures |replies| == |es| && forall i | 0 <= i < |es| :: replies[i] == Reply(es, fails, start, i)
  {
    replies := [];
    var valid := 0;
    for i := 0 to |es|
      invariant |replies| == i && valid == Rank(fails, i)
      invariant forall j | 0 <= j < i :: replies[j] == Reply(es, fails, start, j)
    {
      if fails[i] {
        replies := replies + [Err(EncodingError)];
      } else {
        replies := replies + [Ok((start + valid, es[i].callback(start + i)))];
        valid := valid + 1;
      }
    }
  }

  lemma {:induction false} MetaPairsOutside(h: HashFn, rs: seq<Record>, start: nat)
    requires AllDedupable(rs)
    ensures NoTreeKeys(MetaPairs(h, rs, start))
  {
    hide Dedup;
    if rs != [] { MetaPairsOutside(h, rs[..|rs| - 1], start); }
  }

  lemma {:induction false} SurvivorsDedupable(tbs: TbsFn, es: seq<BatchEntry>, fails: seq<bool>, start: nat)
    requires |fails| == |es| && FitsIndex(start, |es|)
    requires forall i | 0 <= i < |es| :: WellFormed(tbs, es[i].entry)
    ensures AllDedupable(Survivors(es, fails, start))
  {
    hide LeafOf;
    if es != [] {
      var k := |es| - 1;
      SurvivorsDedupable(tbs, es[..k], fails[..k], start);
    }
  }

  /** Without a gap the survivors are the next records of the log. */
  lemma SurvivorsAreRecords(env: Env, es: seq<BatchEntry>, fails: seq<bool>, start: nat)
    requires |fails| == |es| && FitsIndex(start, |es|) && NoGap(fails)
    requires forall i | 0 <= i < |es| :: WellFormed(env.tbs, es[i].entry) && Honest(env.builder, es[i])
    ensures forall v: nat | v < |Survivors(es, fails, start)| ::
              RecordOk(env, Survivors(es, fails, start)[v], start + v)
  {
    hide Survivors;
    forall v: nat | v < |Survivors(es, fails, start)|
      ensures RecordOk(env, Survivors(es, fails, start)[v], start + v)
    {
      SurvivorsInOrder(es, fails, start, v);
      PreparedIsRecord(env, es[v], start + v);
    }
  }

  /** The survivors are the next records of the log exactly when there is no gap: past one, a
      survivor carries an index and a leaf that are not those of its position. */
  lemma RecordsIffNoGap(env: Env, es: seq<BatchEntry>, fails: seq<bool>, start: nat)
    requires |fails| == |es| && FitsIndex(start, |es|)
    requires forall i | 0 <= i < |es| :: WellFormed(env.tbs, es[i].entry) && Honest(env.builder, es[i])
    ensures NoGap(fails) <==>
              forall v: nat | v < |Survivors(es, fails, start)| ::
                RecordOk(env, Survivors(es, fails, start)[v], start + v)
  {
    hide Survivors, WellFormed, Honest, LeafOf, SctFor;
    if NoGap(fails) {
      SurvivorsAreRecords(env, es, fails, start);
    } else {
      var i, j :| 0 <= i < j < |fails| && fails[i] && !fails[j];
      SurvivorAt(es, fails, start, j);
      RankBound(fails, j);
      assert !RecordOk(env, Survivors(es, fails, start)[Rank(fails, j)], start + Rank(fails, j));
    }
  }

  /** Two submissions, the first of which does not serialise: the second is told the first index of the
      batch, its SCT is signed for the next one, and its record is not the one of its position. */
  lemma GapOfTwo(env: Env, es: seq<BatchEntry>, start: nat)
    requires |es| == 2 && FitsIndex(start, 2) && Honest(env.builder, es[1])
    ensures var fails := [true, false]; var sct := es[1].callback(start + 1);
            Reply(es, fails, start, 1) == Ok((start, sct))
            && SctFor(env.builder, es[1].entry, start + 1, sct) && !SctFor(env.builder, es[1].entry, start, sct)
            && Survivors(es, fails, start) == [Prepare(es[1], start + 1)]
            && !RecordOk(env, Prepare(es[1], start + 1), start)
  {
    hide LeafOf, Genuine, Survivors;
    var fails := [true, false];
    assert Rank(fails, 1) == 0 && Rank(fails, 2) == 1;
    ReplyMatchesSct(env.builder, es, fails, start, 1);
    SurvivorCount(es, fails, start);
    SurvivorAt(es, fails, start, 1);
  }

  lemma PreparedIsRecord(env: Env, be: BatchEntry, index: nat)
    requires index <= MAX_INDEX && WellFormed(env.tbs, be.entry) && Honest(env.builder, be)
    ensures RecordOk(env, Prepare(be, index), index)
  {
    hide MerkleTreeLeaf, Genuine, SignatureInput;
    assert SctFor(env.builder, be.entry, index, be.callback(index));
  }

  /** Whatever else failed, the leaf at the index told to a submitter is what its SCT signs. */
  lemma ReplyLeaf(b: SctBuilder, es: seq<BatchEntry>, fails: seq<bool>, start: nat, i: nat)
    requires |fails| == |es| && i < |es| && FitsIndex(start, |es|) && !fails[i] && Honest(b, es[i])
    ensures var e := es[i].entry; var sct := es[i].callback(start + i); var rs := Survivors(es, fails, start);
            Rank(fails, i) < |rs|
            && rs[Rank(fails, i)].entry.leafData
               == SignatureInput(sct, e.certificate, e.entryType, e.issuerKeyHash)
            && Genuine(b, sct, rs[Rank(fails, i)].entry.leafData)
  {
    hide Survivors, Rank, Genuine, SignatureInput, MerkleTreeLeaf;
    SurvivorAt(es, fails, start, i);
    assert SctFor(b, es[i].entry, start + i, es[i].callback(start + i));
  }
}
