/** Serving pages and data tiles from the log (`pages_handlers.rs`, `static_handlers.rs`). */
module PageServer {
  import opened Bits
  import opened Rfc6962
  import opened LogTypes
  import opened TreeStore
  import opened LeafCodec
  import opened LogStore
  import opened CtStorageModel
  import opened Pages
  import opened TileAnswers

  datatype PageResponse = Page(bytes: Bytes, immutable: bool) | PageNotFound | PageError

  /** The records of a sequenced log all carry a leaf with version and type bytes. */
  predicate HaveLeaves(log: seq<Record>) {
    forall i: nat | i < |log| :: |log[i].entry.leafData| >= 2 && Dedupable(log[i].entry)
  }

  /** What a page shows of a record. */
  function PageEntryOf(h: HashFn, r: Record): PageEntry
    requires |r.entry.leafData| >= 2 && Dedupable(r.entry)
  {
    PageEntry(r.entry.leafData[2..], IssuersOf(Dedup(h, r.entry)))
  }

  function IssuersOf(d: DedupEntry): seq<Digest> {
    if d.chainHashes.Some? then d.chainHashes.value else []
  }

  function PageEntries(h: HashFn, log: seq<Record>, lo: nat, hi: nat): (es: seq<PageEntry>)
    requires lo <= hi <= |log| && HaveLeaves(log)
    ensures |es| == hi - lo
  {
    if lo == hi then [] else PageEntries(h, log, lo, hi - 1) + [PageEntryOf(h, log[hi - 1])]
  }

  /** The bytes of the page that starts at an index of the log. */
  function PageFrom(h: HashFn, log: seq<Record>, start: nat): Bytes
    requires start < |log| && HaveLeaves(log)
  {
    PageBytes(start, PageEntries(h, log, start, Min(start + PAGE_SIZE, |log|)))
  }

  /** A page may be cached for ever when entries follow it. */
  predicate Immutable(start: nat, size: nat) { start + PAGE_SIZE < size }

  /** What a request for the page that starts at an index should get. */
  function PageAnswer(h: HashFn, log: seq<Record>, start: nat): PageResponse
    requires HaveLeaves(log)
  {
    if start >= |log| then PageNotFound else Page(PageFrom(h, log, start), Immutable(start, |log|))
  }

  /** Where the page of a number starts; the multiplication wraps in a release build. */
  function PageStart(page: nat): nat { page * PAGE_SIZE % U64_SIZE }

  /** A page number gets its own answer exactly if it does not wrap, or wraps past the log. */
  lemma PageExact(h: HashFn, log: seq<Record>, page: nat)
    requires HaveLeaves(log) && |log| < U64_SIZE
    ensures PageAnswer(h, log, PageStart(page)) == PageAnswer(h, log, page * PAGE_SIZE) <==>
              page <= 18446744073709551 || PageStart(page) >= |log|
  {
    hide HaveLeaves, PageFrom;
    if page > 18446744073709551 { assert page * PAGE_SIZE >= U64_SIZE; }
  }

  /** Page 2^61 gets page 0 of any log with an entry, instead of not found. */
  lemma PageWraps(h: HashFn, log: seq<Record>)
    requires HaveLeaves(log) && 0 < |log| < U64_SIZE
    ensures var page := 0x2000_0000_0000_0000;
            PageAnswer(h, log, PageStart(page)) == PageAnswer(h, log, 0)
            && PageAnswer(h, log, PageStart(page)).Page?
            && PageAnswer(h, log, page * PAGE_SIZE) == PageNotFound
  {
    hide HaveLeaves, PageFrom;
  }

  // ---------------------------------------------------------------- what is shown of an entry

  /** The digests of a chain, in order; none without a chain. */
  ghost predicate ChainHashes(h: HashFn, chain: Option<seq<Bytes>>, ds: seq<Digest>) {
    if chain.None? then ds == []
    else |ds| == |chain.value| && forall k | 0 <= k < |ds| :: ds[k] == h(chain.value[k])
  }

  /** A page entry shows a leaf without version and type, and the hashes of the entry's chain. */
  ghost predicate Shows(h: HashFn, leaf: Bytes, e: LogEntry, p: PageEntry) {
    |leaf| >= 2 && p.timestamped == leaf[2..] && ChainHashes(h, e.chain, p.issuers)
  }

  /** Leaf and chain fit the length fields of a page. */
  predicate FitsPage(e: LogEntry) {
    |e.leafData| < 0x1_0000_0000 && (e.chain.Some? ==> |e.chain.value| < 0x1_0000)
  }

  lemma EntryShows(h: HashFn, r: Record)
    requires |r.entry.leafData| >= 2 && Dedupable(r.entry)
    ensures Shows(h, r.entry.leafData, r.entry, PageEntryOf(h, r))
    ensures FitsPage(r.entry) ==> EntryFits(PageEntryOf(h, r))
  {
    Widths();
  }

  lemma Widths()
    ensures Pow256(2) == 0x1_0000 && Pow256(4) == 0x1_0000_0000 && Pow256(8) == 0x1_0000_0000_0000_0000
  {
    assert Pow256(3) == 0x100_0000;
    assert Pow256(6) == 0x1_0000_0000_0000;
  }

  /** What a reader finds in a page: the index it starts at, and the entries from there on. */
  ghost predicate PageReads(h: HashFn, D: seq<Bytes>, log: seq<Record>, start: nat, bytes: Bytes) {
    |D| == |log| && start <= |log| && DecodePage(bytes).Some?
    && var (first, es) := DecodePage(bytes).value;
       first == start && |es| == Min(1000, |log| - start)
       && forall j | 0 <= j < |es| :: Shows(h, D[start + j], log[start + j].entry, es[j])
  }

  lemma {:induction false} PageEntriesShow(h: HashFn, log: seq<Record>, lo: nat, hi: nat)
    requires lo <= hi <= |log| && HaveLeaves(log)
    ensures forall j | 0 <= j < hi - lo ::
              Shows(h, log[lo + j].entry.leafData, log[lo + j].entry, PageEntries(h, log, lo, hi)[j])
    ensures (forall i | 0 <= i < |log| :: FitsPage(log[i].entry)) ==>
              forall e <- PageEntries(h, log, lo, hi) :: EntryFits(e)
    decreases hi
  {
    hide Shows, FitsPage, EntryFits, PageEntryOf, Dedupable;
    if lo < hi {
      PageEntriesShow(h, log, lo, hi - 1);
      EntryShows(h, log[hi - 1]);
    }
  }

  lemma PageReadsLog(h: HashFn, D: seq<Bytes>, log: seq<Record>, start: nat)
    requires HaveLeaves(log) && start < |log| <= MAX_INDEX + 1
    requires |D| == |log| && forall i | 0 <= i < |log| :: D[i] == log[i].entry.leafData
    requires forall i | 0 <= i < |log| :: FitsPage(log[i].entry)
    ensures PageReads(h, D, log, start, PageFrom(h, log, start))
  {
    hide HaveLeaves, FitsPage, Shows, PageEntries, DecodePage, PageBytes, EntryFits, Pow256;
    var hi := Min(start + PAGE_SIZE, |log|);
    PageEntriesShow(h, log, start, hi);
    Widths();
    PageRoundTrip(start, PageEntries(h, log, start, hi));
  }

  lemma LeavesAre(env: Env, s: TreeState, log: seq<Record>)
    requires LogInv(env, s, log)
    ensures |s.leaves| == |log| && forall i | 0 <= i < |log| :: s.leaves[i] == log[i].entry.leafData
  {
    hide EntryKeys, HashKeys, SctKeys, CertKeys, RecordOk;
  }

  predicate AllFitPage(log: seq<Record>) { forall i | 0 <= i < |log| :: FitsPage(log[i].entry) }

  /** What the answer to a request for a page holds, read from its bytes. */
  lemma PageAnswerReads(env: Env, s: TreeState, log: seq<Record>, start: nat)
    requires LogInv(env, s, log)
    ensures HaveLeaves(log)
    ensures var r := PageAnswer(env.h, log, start);
            (r == PageNotFound <==> start >= |log|)
            && (r.Page? ==> (r.immutable <==> start + 1000 < |log|))
            && (r.Page? && AllFitPage(log) ==> PageReads(env.h, s.leaves, log, start, r.bytes))
  {
    hide LogInv, HaveLeaves, FitsPage, PageReads, PageFrom;
    LogHasLeaves(env, s, log);
    LogSize(env, s, log);
    LeavesAre(env, s, log);
    if start < |log| && AllFitPage(log) { PageReadsLog(env.h, s.leaves, log, start); }
  }

  lemma LogHasLeaves(env: Env, s: TreeState, log: seq<Record>)
    requires LogInv(env, s, log)
    ensures HaveLeaves(log)
  {
    hide EntryKeys, HashKeys, SctKeys, CertKeys, SctFor, WellFormed, SignedEntry, ExtensionField;
    forall i: nat | i < |log| ensures |log[i].entry.leafData| >= 2 && Dedupable(log[i].entry) {
      assert RecordOk(env, log[i], i);
    }
  }

  lemma EntryStored(env: Env, s: TreeState, log: seq<Record>, i: nat)
    requires LogInv(env, s, log) && i < |log|
    ensures Dedupable(log[i].entry)
    ensures EntryKey(i) in s.db && s.db[EntryKey(i)] == Entry(Dedup(env.h, log[i].entry))
  {
    hide HashKeys, SctKeys, CertKeys, RecordOk, Dedup, Dedupable;
  }

  /** The deduplicated entry read back from the store. */
  method ReadEntry(storage: CtStorage, i: nat) returns (d: Option<DedupEntry>)
    requires storage.Valid()
    ensures HaveLeaves(storage.log)
    ensures i < |storage.log| ==> d == Some(Dedup(storage.env.h, storage.log[i].entry))
    ensures i < |storage.log| ==> d.value.leafData == storage.log[i].entry.leafData
  {
    hide LogInv, Dedup, Dedupable;
    LogHasLeaves(storage.env, storage.tree.State(), storage.log);
    if i < |storage.log| {
      EntryStored(storage.env, storage.tree.State(), storage.log, i);
      DedupKeepsLeaf(storage.env.h, storage.log[i].entry);
    }
    var k := EntryKey(i);
    d := if k in storage.tree.db && storage.tree.db[k].Entry? then Some(storage.tree.db[k].entry) else None;
  }

  /** `get_page`. */
  method GetPage(storage: CtStorage, page: nat) returns (r: PageResponse)
    requires storage.Valid() && page < U64_SIZE
    ensures HaveLeaves(storage.log) && r == PageAnswer(storage.env.h, storage.log, PageStart(page))
    ensures r == PageNotFound <==> PageStart(page) >= |storage.log|
    ensures r.Page? ==> (r.immutable <==> PageStart(page) + 1000 < |storage.log|)
    ensures r.Page? && AllFitPage(storage.log) ==>
              PageReads(storage.env.h, storage.tree.leaves, storage.log, PageStart(page), r.bytes)
  {
    hide LogInv, Dedup, Dedupable, PageBytes, PageReads, AllFitPage;
    PageAnswerReads(storage.env, storage.tree.State(), storage.log, PageStart(page));
    LogHasLeaves(storage.env, storage.tree.State(), storage.log);
    LogSize(storage.env, storage.tree.State(), storage.log);
    var start := page * PAGE_SIZE % U64_SIZE;
    var end := (start + PAGE_SIZE) % U64_SIZE;
    var size := storage.tree.Len();
    if start >= size.value {
      return PageNotFound;
    }
    assert end == start + PAGE_SIZE;
    var actualEnd := Min(end, size.value);
    var p := new EntriesPage(start);
    for index := start to actualEnd
      invariant p.entryCount == |p.entries| && p.firstEntryIndex == start
      invariant p.entries == PageEntries(storage.env.h, storage.log, start, index)
    {
      var d := ReadEntry(storage, index);
      if d.None? || |d.value.leafData| < 2 {
        return PageError;
      }
      p.AddEntry(d.value.leafData[2..], IssuersOf(d.value));
    }
    var bytes := p.ToBinary();
    r := Page(bytes, actualEnd == end && actualEnd < size.value);
  }

  lemma DedupKeepsLeaf(h: HashFn, e: LogEntry)
    requires Dedupable(e)
    ensures Dedup(h, e).leafData == e.leafData
  {}

  lemma {:induction false} PageEntriesLater(h: HashFn, log: seq<Record>, more: seq<Record>, lo: nat, hi: nat)
    requires lo <= hi <= |log| && HaveLeaves(log) && HaveLeaves(more) && log <= more
    ensures PageEntries(h, log, lo, hi) == PageEntries(h, more, lo, hi)
    decreases hi
  {
    hide HaveLeaves, Dedupable;
    if lo < hi { PageEntriesLater(h, log, more, lo, hi - 1); }
  }

  /** A page served as immutable is served with the same bytes, as immutable, in every later state. */
  lemma ImmutablePage(h: HashFn, log: seq<Record>, more: seq<Record>, start: nat)
    requires Immutable(start, |log|) && HaveLeaves(log) && HaveLeaves(more) && log <= more
    ensures Immutable(start, |more|) && PageFrom(h, more, start) == PageFrom(h, log, start)
  {
    hide HaveLeaves, PageBytes;
    PageEntriesLater(h, log, more, start, start + PAGE_SIZE);
  }

  /** The entries of the first `pages` pages of a log. */
  function FirstPages(h: HashFn, log: seq<Record>, pages: nat): seq<PageEntry>
    requires HaveLeaves(log)
  {
    if pages == 0 then []
    else
      var start := (pages - 1) * PAGE_SIZE;
      FirstPages(h, log, pages - 1)
      + if start >= |log| then [] else PageEntries(h, log, start, Min(start + PAGE_SIZE, |log|))
  }

  lemma {:induction false} PageEntriesSplit(h: HashFn, log: seq<Record>, a: nat, b: nat, c: nat)
    requires a <= b <= c <= |log| && HaveLeaves(log)
    ensures PageEntries(h, log, a, b) + PageEntries(h, log, b, c) == PageEntries(h, log, a, c)
    decreases c
  {
    hide HaveLeaves, Dedupable;
    if b < c { PageEntriesSplit(h, log, a, b, c - 1); }
    else { assert PageEntries(h, log, a, b) + [] == PageEntries(h, log, a, b); }
  }

  /** Consecutive pages hold every entry of the log exactly once, in order. */
  lemma {:induction false} PagesPartitionLog(h: HashFn, log: seq<Record>, pages: nat)
    requires HaveLeaves(log)
    ensures FirstPages(h, log, pages) == PageEntries(h, log, 0, Min(pages * PAGE_SIZE, |log|))
  {
    hide HaveLeaves, PageEntries;
    if pages == 0 {
      assert PageEntries(h, log, 0, 0) == [] by { NoEntries(h, log); }
    } else {
      PagesPartitionLog(h, log, pages - 1);
      var start := (pages - 1) * PAGE_SIZE;
      if start < |log| { PageEntriesSplit(h, log, 0, start, Min(start + PAGE_SIZE, |log|)); }
    }
  }

  lemma NoEntries(h: HashFn, log: seq<Record>)
    requires HaveLeaves(log)
    ensures PageEntries(h, log, 0, 0) == []
  {}

  // ---------------------------------------------------------------- data tiles

  /** What a data tile shows of a record: the TimestampedEntry, the precertificate and the chain. */
  function DataLeafOf(h: HashFn, r: Record): TileLeaf
    requires |r.entry.leafData| >= 2 && Dedupable(r.entry)
  {
    TileLeaf(r.entry.leafData[2..],
             if r.entry.entryType.PrecertEntry? then r.entry.originalPrecert else None,
             IssuersOf(Dedup(h, r.entry)))
  }

  /** Certificate, precertificate and chain fit their length fields. */
  predicate EntryFitsTile(e: LogEntry) {
    |e.certificate| < Pow256(3) && (e.originalPrecert.Some? ==> |e.originalPrecert.value| < Pow256(3))
    && 32 * |ChainOrEmpty(e)| < Pow256(2)
  }

  /** Every record within the field widths gives a leaf that a data tile determines. */
  lemma RecordLeafFits(env: Env, r: Record, i: nat)
    requires RecordOk(env, r, i) && EntryFitsTile(r.entry)
    ensures |r.entry.leafData| >= 2 && Dedupable(r.entry) && LeafFits(DataLeafOf(env.h, r))
  {
    hide SctFor, SignedEntry, Be, Pow256, LeafFits;
    var e := r.entry;
    var keyHash := KeyHashOr0(e.issuerKeyHash);
    var ext := ExtensionBytes(LeafIndexExtension(i).value);
    IndexField(i);
    assert SignedEntry(e.certificate, e.entryType, e.issuerKeyHash)
        == SignedEntry(e.certificate, e.entryType, Some(keyHash)) by { KeyHashGiven(e); }
    var raw := e.leafData[2..];
    assert raw == Be(e.timestamp, 8) + (SignedEntry(e.certificate, e.entryType, Some(keyHash)) + (Be(|ext|, 2) + ext));
    Field16();
    assert IsTimestamped(raw, Be(e.timestamp, 8), e.certificate, e.entryType, keyHash, ext);
    LeafFitsBy(DataLeafOf(env.h, r), Be(e.timestamp, 8), e.certificate, e.entryType, keyHash, ext);
  }

  lemma LeafFitsBy(l: TileLeaf, time: Bytes, cert: Bytes, t: EntryType, keyHash: Bytes, ext: Bytes)
    requires IsTimestamped(l.timestamped, time, cert, t, keyHash, ext) && 32 * |l.chain| < Pow256(2)
    requires (l.precert.Some? <==> t == PrecertEntry) && (l.precert.Some? ==> |l.precert.value| < Pow256(3))
    ensures LeafFits(l)
  {}

  lemma Field16()
    ensures Pow256(2) == 0x1_0000
  {
    assert Pow256(1) == 256;
  }

  lemma KeyHashGiven(e: LogEntry)
    ensures SignedEntry(e.certificate, e.entryType, e.issuerKeyHash)
         == SignedEntry(e.certificate, e.entryType, Some(KeyHashOr0(e.issuerKeyHash)))
  {}

  lemma IndexField(i: nat)
    requires i <= MAX_INDEX
    ensures var ext := ExtensionBytes(LeafIndexExtension(i).value);
            |ext| == 8 && ExtensionField(Some(i)) == Be(|ext|, 2) + ext
  {
    hide Be;
    var e := LeafIndexExtension(i).value;
    assert ExtensionsBody([e]) == ExtensionBytes(e) by { assert [e][1..] == []; }
  }

  function DataLeaves(h: HashFn, log: seq<Record>, lo: nat, hi: nat): (ls: seq<TileLeaf>)
    requires lo <= hi <= |log| && HaveLeaves(log)
    ensures |ls| == hi - lo
  {
    if lo == hi then [] else DataLeaves(h, log, lo, hi - 1) + [DataLeafOf(h, log[hi - 1])]
  }

  /** Every record of the log is in order and within the field widths of a data tile. */
  ghost predicate LogFitsTiles(env: Env, log: seq<Record>) {
    forall i: nat | i < |log| :: RecordOk(env, log[i], i) && EntryFitsTile(log[i].entry)
  }

  lemma {:induction false} DataLeavesFit(env: Env, log: seq<Record>, lo: nat, hi: nat)
    requires lo <= hi <= |log| && HaveLeaves(log) && LogFitsTiles(env, log)
    ensures forall l <- DataLeaves(env.h, log, lo, hi) :: LeafFits(l)
    decreases hi
  {
    hide HaveLeaves, RecordOk, EntryFitsTile, LeafFits, DataLeafOf;
    if lo < hi {
      DataLeavesFit(env, log, lo, hi - 1);
      RecordLeafFits(env, log[hi - 1], hi - 1);
    }
  }

  /** Equal data tiles of two logs show equal leaves, however many each of them holds. */
  lemma DataTileDeterminesLeaves(env: Env, a: seq<Record>, b: seq<Record>, lo: nat, hiA: nat, hiB: nat)
    requires lo <= hiA <= |a| && HaveLeaves(a) && LogFitsTiles(env, a)
    requires lo <= hiB <= |b| && HaveLeaves(b) && LogFitsTiles(env, b)
    requires TileLeavesBytes(DataLeaves(env.h, a, lo, hiA)) == TileLeavesBytes(DataLeaves(env.h, b, lo, hiB))
    ensures hiA == hiB && DataLeaves(env.h, a, lo, hiA) == DataLeaves(env.h, b, lo, hiB)
  {
    hide HaveLeaves, LogFitsTiles, LeafFits, TileLeavesBytes;
    DataLeavesFit(env, a, lo, hiA);
    DataLeavesFit(env, b, lo, hiB);
    DataTileUnique(DataLeaves(env.h, a, lo, hiA), DataLeaves(env.h, b, lo, hiB));
  }

  datatype DataResponse = Data(bytes: Bytes) | DataNotFound | DataError

  /** What a request for the leaves from an index on should get. */
  function DataAnswer(h: HashFn, log: seq<Record>, start: nat, width: Option<nat>): DataResponse
    requires HaveLeaves(log)
  {
    if start >= |log| || Wanted(width) == 0 then DataNotFound
    else Data(TileLeavesBytes(DataLeaves(h, log, start, Min(start + Wanted(width), |log|))))
  }

  /** Data tile `i` gets its own answer exactly if its number does not wrap, or wraps past the log. */
  lemma DataTileExact(h: HashFn, log: seq<Record>, i: nat, width: Option<nat>)
    requires HaveLeaves(log) && |log| < U64_SIZE && Wanted(width) > 0
    ensures DataAnswer(h, log, First(i), width) == DataAnswer(h, log, i * TILE_WIDTH, width) <==>
              i < 0x100_0000_0000_0000 || First(i) >= |log|
  {
    hide HaveLeaves, DataLeaves, TileLeavesBytes, Wanted, First;
    FirstOf(i);
  }

  /** The first number that wraps gets data tile 0 of any log with an entry, instead of not found. */
  lemma DataTileWraps(h: HashFn, log: seq<Record>, width: Option<nat>)
    requires HaveLeaves(log) && 0 < |log| < U64_SIZE && Wanted(width) > 0
    ensures var i := 0x100_0000_0000_0000;
            DataAnswer(h, log, First(i), width) == DataAnswer(h, log, 0, width)
            && DataAnswer(h, log, First(i), width).Data?
            && DataAnswer(h, log, i * TILE_WIDTH, width) == DataNotFound
  {
    hide HaveLeaves, DataLeaves, TileLeavesBytes, Wanted;
  }

  lemma {:induction false} DataLeavesLater(h: HashFn, log: seq<Record>, more: seq<Record>, lo: nat, hi: nat)
    requires lo <= hi <= |log| && HaveLeaves(log) && HaveLeaves(more) && log <= more
    ensures DataLeaves(h, log, lo, hi) == DataLeaves(h, more, lo, hi)
    decreases hi
  {
    hide HaveLeaves, Dedupable, DataLeafOf;
    if lo < hi { DataLeavesLater(h, log, more, lo, hi - 1); }
  }

  lemma {:induction false} DataLeavesSplit(h: HashFn, log: seq<Record>, a: nat, b: nat, c: nat)
    requires a <= b <= c <= |log| && HaveLeaves(log)
    ensures DataLeaves(h, log, a, b) + DataLeaves(h, log, b, c) == DataLeaves(h, log, a, c)
    decreases c
  {
    hide HaveLeaves, Dedupable;
    if b < c { DataLeavesSplit(h, log, a, b, c - 1); }
    else { assert DataLeaves(h, log, a, b) + [] == DataLeaves(h, log, a, b); }
  }

  lemma {:induction false} TileBytesSplit(a: seq<TileLeaf>, b: seq<TileLeaf>)
    ensures TileLeavesBytes(a + b) == TileLeavesBytes(a) + TileLeavesBytes(b)
  {
    hide TileLeafBytes, TileLeavesBytes;
    if a == [] {
      assert a + b == b;
      TileBytesStep(a);
    } else {
      TileBytesSplit(a[1..], b);
      TileBytesStep(a);
      TileBytesStep(a + b);
      assert (a + b)[1..] == a[1..] + b;
    }
  }

  lemma TileBytesStep(ls: seq<TileLeaf>)
    ensures TileLeavesBytes(ls) == if ls == [] then [] else TileLeafBytes(ls[0]) + TileLeavesBytes(ls[1..])
  {}

  /** More leaves, more bytes. */
  lemma LongerTile(h: HashFn, log: seq<Record>, a: nat, b: nat, c: nat)
    requires a <= b < c <= |log| && HaveLeaves(log)
    ensures |TileLeavesBytes(DataLeaves(h, log, a, b))| < |TileLeavesBytes(DataLeaves(h, log, a, c))|
  {
    hide HaveLeaves, DataLeaves, TileLeafBytes, TileLeavesBytes;
    DataLeavesSplit(h, log, a, b, c);
    var tail := DataLeaves(h, log, b, c);
    TileBytesSplit(DataLeaves(h, log, a, b), tail);
    TileBytesStep(tail);
    LeafNotEmpty(tail[0]);
  }

  /** A data tile that is served keeps its bytes in a later log exactly if all entries it asks for
      are there, or none has been added. The handler marks every data tile as immutable. */
  lemma DataTileKept(h: HashFn, log: seq<Record>, more: seq<Record>, start: nat, width: Option<nat>)
    requires HaveLeaves(log) && HaveLeaves(more) && log <= more && start < |log| && Wanted(width) > 0
    ensures DataAnswer(h, more, start, width) == DataAnswer(h, log, start, width) <==>
              start + Wanted(width) <= |log| || |more| == |log|
  {
    hide HaveLeaves, DataLeaves, TileLeavesBytes, Wanted;
    var hi := Min(start + Wanted(width), |log|);
    DataLeavesLater(h, log, more, start, hi);
    if start + Wanted(width) > |log| && |more| > |log| {
      LongerTile(h, more, start, hi, Min(start + Wanted(width), |more|));
    }
  }

  /** A data tile leaf shows a leaf without version and type, the precertificate of a precert entry, and
      the hashes of the entry's chain. */
  ghost predicate LeafShows(h: HashFn, leaf: Bytes, e: LogEntry, l: TileLeaf) {
    |leaf| >= 2 && l.timestamped == leaf[2..] && ChainHashes(h, e.chain, l.chain)
    && l.precert == if e.entryType.PrecertEntry? then e.originalPrecert else None
  }

  lemma {:induction false} DataLeavesShow(h: HashFn, log: seq<Record>, lo: nat, hi: nat)
    requires lo <= hi <= |log| && HaveLeaves(log)
    ensures forall j | 0 <= j < hi - lo ::
              LeafShows(h, log[lo + j].entry.leafData, log[lo + j].entry, DataLeaves(h, log, lo, hi)[j])
    decreases hi
  {
    hide Dedupable;
    if lo < hi { DataLeavesShow(h, log, lo, hi - 1); }
  }

  /** What a reader finds in a data tile: the leaves from an index on. */
  ghost predicate TileReads(h: HashFn, D: seq<Bytes>, log: seq<Record>, start: nat, count: nat, bytes: Bytes) {
    |D| == |log| && DecodeTile(bytes).Some? && |DecodeTile(bytes).value| == count && start + count <= |log|
    && forall j | 0 <= j < count ::
         LeafShows(h, D[start + j], log[start + j].entry, DecodeTile(bytes).value[j])
  }

  lemma TileReadsLog(env: Env, s: TreeState, log: seq<Record>, lo: nat, hi: nat)
    requires LogInv(env, s, log) && lo <= hi <= |log| && forall i | 0 <= i < |log| :: EntryFitsTile(log[i].entry)
    ensures HaveLeaves(log)
    ensures TileReads(env.h, s.leaves, log, lo, hi - lo, TileLeavesBytes(DataLeaves(env.h, log, lo, hi)))
  {
    hide LogInv, HaveLeaves, EntryFitsTile, LeafShows, DataLeaves, DecodeTile, LeafFits, TileLeavesBytes, RecordOk;
    LogHasLeaves(env, s, log);
    LeavesAre(env, s, log);
    assert LogFitsTiles(env, log) by { RecordsAre(env, s, log); }
    DataLeavesShow(env.h, log, lo, hi);
    DataLeavesFit(env, log, lo, hi);
    TileRoundTrip(DataLeaves(env.h, log, lo, hi));
  }

  lemma RecordsAre(env: Env, s: TreeState, log: seq<Record>)
    requires LogInv(env, s, log)
    ensures forall i: nat | i < |log| :: RecordOk(env, log[i], i)
  {
    hide EntryKeys, HashKeys, SctKeys, CertKeys, RecordOk;
  }

  predicate AllFitTile(log: seq<Record>) { forall i | 0 <= i < |log| :: EntryFitsTile(log[i].entry) }

  /** What the answer to a request for a data tile holds, read from its bytes. */
  lemma DataAnswerReads(env: Env, s: TreeState, log: seq<Record>, n: nat, start: nat, width: Option<nat>)
    requires LogInv(env, s, log) && n <= |log| && (width.Some? ==> 0 < width.value <= 256)
    ensures HaveLeaves(log[..n])
    ensures var r := DataAnswer(env.h, log[..n], start, width);
            (r == DataNotFound <==> start >= n)
            && (r.Data? && AllFitTile(log) ==>
                  TileReads(env.h, s.leaves, log, start, Min(if width.Some? then width.value else 256, n - start), r.bytes))
  {
    hide LogInv, HaveLeaves, EntryFitsTile, TileReads, DataLeaves, TileLeavesBytes;
    LogHasLeaves(env, s, log);
    HaveLeavesPrefix(log, n);
    if start < n {
      var hi := Min(start + Wanted(width), n);
      DataLeavesLater(env.h, log[..n], log, start, hi);
      if AllFitTile(log) { TileReadsLog(env, s, log, start, hi); }
    }
  }

  lemma HaveLeavesPrefix(log: seq<Record>, n: nat)
    requires HaveLeaves(log) && n <= |log|
    ensures HaveLeaves(log[..n])
  {}

  /** `generate_data_tile` at the size the handler read, whatever has been committed since. */
  method GenerateDataTile(storage: CtStorage, tile: u64, n: nat, width: Option<nat>) returns (r: DataResponse)
    requires storage.Valid() && n <= |storage.log| && (width.Some? ==> 0 < width.value <= TILE_WIDTH)
    ensures HaveLeaves(storage.log[..n]) && r == DataAnswer(storage.env.h, storage.log[..n], First(tile), width)
    ensures r == DataNotFound <==> First(tile) >= n
    ensures r.Data? && AllFitTile(storage.log) ==>
              TileReads(storage.env.h, storage.tree.leaves, storage.log, First(tile),
                        Min(if width.Some? then width.value else 256, n - First(tile)), r.bytes)
  {
    hide LogInv, Dedup, Dedupable, TileLeavesBytes, HaveLeaves, DataLeaves, TileReads, AllFitTile;
    DataAnswerReads(storage.env, storage.tree.State(), storage.log, n, First(tile), width);
    LogHasLeaves(storage.env, storage.tree.State(), storage.log);
    HaveLeavesPrefix(storage.log, n);
    var start := tile * TILE_WIDTH % U64_SIZE;
    var max := if width.Some? then width.value else TILE_WIDTH;
    var leaves := ReadLeaves(storage, start, max, n);
    if leaves.None? {
      return DataError;
    }
    if leaves.value == [] {
      return DataNotFound;
    }
    DataLeavesLater(storage.env.h, storage.log[..n], storage.log, start, Min(start + max, n));
    var data := AssembleDataTile(leaves.value);
    r := Data(data);
  }

  /** The leaves of a tile as far as the tree of `n` entries has them. */
  method ReadLeaves(storage: CtStorage, start: nat, max: nat, n: nat) returns (r: Option<seq<TileLeaf>>)
    requires storage.Valid() && n <= |storage.log|
    ensures HaveLeaves(storage.log) && r.Some?
    ensures start >= n ==> r.value == []
    ensures start < n ==> r.value == DataLeaves(storage.env.h, storage.log, start, Min(start + max, n))
  {
    hide LogInv, Dedup, Dedupable, HaveLeaves;
    LogHasLeaves(storage.env, storage.tree.State(), storage.log);
    var leaves: seq<TileLeaf> := [];
    for i := 0 to max
      invariant start >= n ==> leaves == []
      invariant start < n ==> leaves == DataLeaves(storage.env.h, storage.log, start, Min(start + i, n))
    {
      var index := start + i;
      if index < n {
        var d := ReadEntry(storage, index);
        if d.None? {
          return None;
        }
        var leaf := DataLeaf(storage, d.value, index);
        leaves := leaves + [leaf];
      }
    }
    r := Some(leaves);
  }

  /** One leaf of a data tile: for a precert entry the precertificate is fetched by its hash. */
  method DataLeaf(storage: CtStorage, d: DedupEntry, ghost i: nat) returns (l: TileLeaf)
    requires storage.Valid() && i < |storage.log| && HaveLeaves(storage.log)
    requires d == Dedup(storage.env.h, storage.log[i].entry)
    ensures l == DataLeafOf(storage.env.h, storage.log[i])
  {
    hide LogInv, AllCerts, HashAll;
    var precert: Option<Bytes> := None;
    EntryHasSources(storage.env, storage.tree.State(), storage.log, i);
    if d.entryType == PrecertEntry && d.originalPrecertHash.Some? {
      var c := storage.GetCertificate(d.originalPrecertHash.value);
      precert := c.value;
    }
    l := LeafFromEntry(d, precert);
  }
}
