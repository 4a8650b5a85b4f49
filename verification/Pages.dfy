/** Entry pages (`pages.rs`) and data tiles (`tiles.rs`): byte layouts with their decoders. */
module Pages {
  import opened Rfc6962
  import opened LogTypes
  import opened LeafCodec

  const PAGE_SIZE: nat := 1000

  // ---------------------------------------------------------------- reading bytes

  /** Split off the first `n` bytes. */
  function TakeBytes(b: Bytes, n: nat): Option<(Bytes, Bytes)> {
    if n <= |b| then Some((b[..n], b[n..])) else None
  }

  /** Split off a big-endian number of `k` bytes. */
  function TakeNum(b: Bytes, k: nat): Option<(nat, Bytes)> {
    if k <= |b| then Some((FromBe(b[..k]), b[k..])) else None
  }

  lemma TakesBytes(data: Bytes, rest: Bytes)
    ensures TakeBytes(data + rest, |data|) == Some((data, rest))
  {}

  lemma TakesNum(x: nat, k: nat, rest: Bytes)
    requires x < Pow256(k)
    ensures TakeNum(Be(x, k) + rest, k) == Some((x, rest))
  {
    hide Be, FromBe, Pow256;
    FromBeOfBe(x, k);
    assert (Be(x, k) + rest)[..k] == Be(x, k) && (Be(x, k) + rest)[k..] == rest;
  }

  function TakeDigests(b: Bytes, n: nat): Option<(seq<Digest>, Bytes)> {
    if n == 0 then Some(([], b))
    else if |b| < 32 then None
    else match TakeDigests(b[32..], n - 1)
      case None => None
      case Some((ds, rest)) => Some(([Digest(b[..32])] + ds, rest))
  }

  lemma {:induction false} TakesDigests(ds: seq<Digest>, rest: Bytes)
    ensures TakeDigests(Flat(ds) + rest, |ds|) == Some((ds, rest))
    ensures |Flat(ds)| == 32 * |ds|
  {
    if ds == [] {
      assert Flat(ds) + rest == rest;
    } else {
      hide Flat;
      TakesDigests(ds[1..], rest);
      FlatFirst(ds);
      var b := Flat(ds) + rest;
      assert b[..32] == ds[0].bytes && b[32..] == Flat(ds[1..]) + rest;
      assert [ds[0]] + ds[1..] == ds;
    }
  }

  lemma FlatFirst(ds: seq<Digest>)
    requires ds != []
    ensures Flat(ds) == ds[0].bytes + Flat(ds[1..])
  {}

  // ---------------------------------------------------------------- pages

  datatype PageEntry = PageEntry(timestamped: Bytes, issuers: seq<Digest>)

  /** Within the widths of the page's length fields. */
  predicate EntryFits(e: PageEntry) { |e.timestamped| < Pow256(4) && |e.issuers| < Pow256(2) }

  function EntryBytes(e: PageEntry): Bytes {
    Be(|e.timestamped|, 4) + (e.timestamped + (Be(|e.issuers|, 2) + Flat(e.issuers)))
  }

  function EntriesBytes(es: seq<PageEntry>): Bytes {
    if es == [] then [] else EntryBytes(es[0]) + EntriesBytes(es[1..])
  }

  /** Version, entry count, first index, entries. */
  function PageBytes(first: nat, es: seq<PageEntry>): Bytes {
    [0] + (Be(|es|, 8) + (Be(first, 8) + EntriesBytes(es)))
  }

  function TakeEntry(b: Bytes): Option<(PageEntry, Bytes)> {
    match TakeNum(b, 4)
    case None => None
    case Some((len, b1)) =>
      match TakeBytes(b1, len)
      case None => None
      case Some((timestamped, b2)) =>
        match TakeNum(b2, 2)
        case None => None
        case Some((count, b3)) =>
          match TakeDigests(b3, count)
          case None => None
          case Some((issuers, rest)) => Some((PageEntry(timestamped, issuers), rest))
  }

  function TakeEntries(b: Bytes, n: nat): Option<(seq<PageEntry>, Bytes)>
    decreases n
  {
    if n == 0 then Some(([], b))
    else match TakeEntry(b)
      case None => None
      case Some((e, b1)) =>
        match TakeEntries(b1, n - 1)
        case None => None
        case Some((es, rest)) => Some(([e] + es, rest))
  }

  function DecodePage(b: Bytes): Option<(nat, seq<PageEntry>)> {
    if b == [] || b[0] != 0 then None
    else match TakeNum(b[1..], 8)
      case None => None
      case Some((count, b1)) =>
        match TakeNum(b1, 8)
        case None => None
        case Some((first, b2)) =>
          match TakeEntries(b2, count)
          case None => None
          case Some((es, rest)) => if rest == [] then Some((first, es)) else None
  }

  lemma TakesEntry(e: PageEntry, rest: Bytes)
    requires EntryFits(e)
    ensures TakeEntry(EntryBytes(e) + rest) == Some((e, rest))
  {
    hide Be, FromBe, Flat, TakeDigests, TakeNum, TakeBytes, Pow256;
    var t3 := Flat(e.issuers) + rest;
    var t2 := Be(|e.issuers|, 2) + t3;
    var t1 := e.timestamped + t2;
    assert EntryBytes(e) + rest == Be(|e.timestamped|, 4) + t1;
    TakesNum(|e.timestamped|, 4, t1);
    TakesBytes(e.timestamped, t2);
    TakesNum(|e.issuers|, 2, t3);
    TakesDigests(e.issuers, rest);
  }

  lemma {:induction false} TakesEntries(es: seq<PageEntry>, rest: Bytes)
    requires forall e <- es :: EntryFits(e)
    ensures TakeEntries(EntriesBytes(es) + rest, |es|) == Some((es, rest))
  {
    hide TakeEntry, EntryBytes, EntryFits;
    if es == [] {
      assert EntriesBytes(es) + rest == rest;
    } else {
      var more := EntriesBytes(es[1..]) + rest;
      TakesEntries(es[1..], rest);
      assert EntriesBytes(es) + rest == EntryBytes(es[0]) + more;
      TakesEntry(es[0], more);
      assert [es[0]] + es[1..] == es;
    }
  }

  /** A page determines its first index and its entries. */
  lemma PageRoundTrip(first: nat, es: seq<PageEntry>)
    requires first < Pow256(8) && |es| < Pow256(8) && forall e <- es :: EntryFits(e)
    ensures DecodePage(PageBytes(first, es)) == Some((first, es))
  {
    hide Be, FromBe, TakeNum, TakeEntries, EntriesBytes, EntryFits, Pow256;
    var t2 := EntriesBytes(es);
    var t1 := Be(first, 8) + t2;
    assert PageBytes(first, es)[1..] == Be(|es|, 8) + t1;
    TakesNum(|es|, 8, t1);
    TakesNum(first, 8, t2);
    TakesEntries(es, []);
    assert t2 + [] == t2;
  }

  /** A page with one entry, byte for byte. */
  lemma OneEntryPage(first: nat, timestamped: Bytes, issuer: Digest)
    ensures PageBytes(first, [PageEntry(timestamped, [issuer])])
         == [0] + [0, 0, 0, 0, 0, 0, 0, 1] + Be(first, 8) + Be(|timestamped|, 4) + timestamped + [0, 1] + issuer.bytes
  {
    hide Be, Flat, EntriesBytes;
    var e := PageEntry(timestamped, [issuer]);
    BeOne();
    FlatOne(issuer);
    OneEntry(e);
    assert EntryBytes(e) == Be(|timestamped|, 4) + (timestamped + ([0, 1] + issuer.bytes));
    Grouped([0, 0, 0, 0, 0, 0, 0, 1], Be(first, 8), Be(|timestamped|, 4), timestamped, [0, 1], issuer.bytes);
  }

  lemma Grouped(a: Bytes, b: Bytes, c: Bytes, d: Bytes, e: Bytes, f: Bytes)
    ensures [0] + (a + (b + (c + (d + (e + f))))) == [0] + a + b + c + d + e + f
  {}

  lemma FlatOne(d: Digest)
    ensures Flat([d]) == d.bytes
  {
    assert [d][1..] == [];
  }

  lemma OneEntry(e: PageEntry)
    ensures EntriesBytes([e]) == EntryBytes(e)
  {
    hide EntryBytes;
    assert [e][1..] == [];
  }

  lemma BeOne()
    ensures Be(1, 2) == [0, 1] && Be(1, 8) == [0, 0, 0, 0, 0, 0, 0, 1]
  {
    assert Be(0, 1) == [0];
    assert Be(0, 4) == [0, 0, 0, 0] by { assert Be(0, 2) == [0, 0]; }
    assert Be(0, 7) == [0, 0, 0, 0, 0, 0, 0] by { assert Be(0, 5) == [0, 0, 0, 0, 0]; }
  }

  /** `EntriesPage`. */
  class EntriesPage {
    var entryCount: nat
    const firstEntryIndex: nat
    var entries: seq<PageEntry>

    constructor (first: nat)
      ensures firstEntryIndex == first && entryCount == 0 && entries == []
    {
      firstEntryIndex, entryCount, entries := first, 0, [];
    }

    method AddEntry(timestamped: Bytes, issuers: seq<Digest>)
      modifies this
      ensures entries == old(entries) + [PageEntry(timestamped, issuers)] && entryCount == old(entryCount) + 1
    {
      entries := entries + [PageEntry(timestamped, issuers)];
      entryCount := entryCount + 1;
    }

    /** `to_binary`. */
    method ToBinary() returns (out: Bytes)
      requires entryCount == |entries|
      ensures out == PageBytes(firstEntryIndex, entries)
    {
      hide Be, Flat, EntryBytes;
      out := [];
      out := out + [0];
      out := out + Be(entryCount, 8);
      out := out + Be(firstEntryIndex, 8);
      ghost var head := out;
      for i := 0 to |entries|
        invariant out + EntriesBytes(entries[i..]) == head + EntriesBytes(entries)
      {
        var e := entries[i];
        assert entries[i..][0] == e && entries[i..][1..] == entries[i + 1..];
        out := AppendEntry(out, e);
      }
      assert entries[|entries|..] == [] && out + [] == out;
      assert head + EntriesBytes(entries) == PageBytes(firstEntryIndex, entries);
    }
  }

  /** The body of the entry loop of `to_binary`. */
  method AppendEntry(buffer: Bytes, e: PageEntry) returns (out: Bytes)
    ensures out == buffer + EntryBytes(e)
  {
    hide Be, Flat;
    out := buffer;
    out := out + Be(|e.timestamped|, 4);
    out := out + e.timestamped;
    out := out + Be(|e.issuers|, 2);
    out := AppendDigests(out, e.issuers);
  }

  method AppendDigests(buffer: Bytes, ds: seq<Digest>) returns (out: Bytes)
    ensures out == buffer + Flat(ds)
  {
    out := buffer;
    for i := 0 to |ds|
      invariant out + Flat(ds[i..]) == buffer + Flat(ds)
    {
      assert ds[i..][0] == ds[i] && ds[i..][1..] == ds[i + 1..];
      out := out + ds[i].bytes;
    }
    assert ds[|ds|..] == [];
  }

  // ---------------------------------------------------------------- data tiles

  /** `TileLeaf`. */
  datatype TileLeaf = TileLeaf(timestamped: Bytes, precert: Option<Bytes>, chain: seq<Digest>)

  /** `TileLeaf::from_entry`. */
  function LeafFromEntry(d: DedupEntry, precert: Option<Bytes>): TileLeaf
    requires |d.leafData| >= 2
  {
    TileLeaf(d.leafData[2..], if d.entryType.PrecertEntry? then precert else None,
             if d.chainHashes.Some? then d.chainHashes.value else [])
  }

  function TileLeafBytes(l: TileLeaf): Bytes {
    l.timestamped + ((if l.precert.Some? then Counted24(l.precert.value) else [])
                     + (Be(32 * |l.chain|, 2) + Flat(l.chain)))
  }

  function TileLeavesBytes(ls: seq<TileLeaf>): Bytes {
    if ls == [] then [] else TileLeafBytes(ls[0]) + TileLeavesBytes(ls[1..])
  }

  /** `TileLeaf::to_bytes`. */
  method TileLeafToBytes(l: TileLeaf) returns (data: Bytes)
    ensures data == TileLeafBytes(l)
  {
    hide Be, Flat;
    data := [];
    data := data + l.timestamped;
    if l.precert.Some? {
      data := data + Be(|l.precert.value|, 3);
      data := data + l.precert.value;
    }
    data := data + Be(32 * |l.chain|, 2);
    data := AppendDigests(data, l.chain);
  }

  /** The assembly loop of `generate_data_tile`. */
  method AssembleDataTile(ls: seq<TileLeaf>) returns (data: Bytes)
    ensures data == TileLeavesBytes(ls)
  {
    hide TileLeafBytes;
    data := [];
    for i := 0 to |ls|
      invariant data + TileLeavesBytes(ls[i..]) == TileLeavesBytes(ls)
    {
      assert ls[i..][0] == ls[i] && ls[i..][1..] == ls[i + 1..];
      var b := TileLeafToBytes(ls[i]);
      data := data + b;
    }
    assert ls[|ls|..] == [] && data + [] == data;
  }

  /** Read a counted byte string of a `k`-byte length. */
  function TakeCounted(b: Bytes, k: nat): Option<(Bytes, Bytes)> {
    match TakeNum(b, k)
    case None => None
    case Some((len, rest)) => TakeBytes(rest, len)
  }

  lemma TakesCounted(data: Bytes, k: nat, rest: Bytes)
    requires |data| < Pow256(k)
    ensures TakeCounted(Be(|data|, k) + data + rest, k) == Some((data, rest))
  {
    hide Be, FromBe, Pow256, TakeNum, TakeBytes;
    assert Be(|data|, k) + data + rest == Be(|data|, k) + (data + rest);
    TakesNum(|data|, k, data + rest);
    TakesBytes(data, rest);
  }

  /** The length of the TimestampedEntry at the front of `b`, and whether it is a precert entry. */
  function TimestampedEnd(b: Bytes): Option<(nat, bool)> {
    if |b| < 10 then None
    else
      var precert := b[9] == 1;
      var front := if precert then 42 else 10;
      if |b| < front then None
      else match TakeCounted(b[front..], 3)
        case None => None
        case Some((cert, b1)) =>
          match TakeCounted(b1, 2)
          case None => None
          case Some((ext, rest)) => Some((|b| - |rest|, precert))
  }

  function TakeTileLeaf(b: Bytes): Option<(TileLeaf, Bytes)> {
    match TimestampedEnd(b)
    case None => None
    case Some((end, precert)) =>
      if end > |b| then None
      else if precert then
        match TakeCounted(b[end..], 3)
        case None => None
        case Some((p, b1)) => TakeChain(b[..end], Some(p), b1)
      else TakeChain(b[..end], None, b[end..])
  }

  function TakeChain(timestamped: Bytes, precert: Option<Bytes>, b: Bytes): Option<(TileLeaf, Bytes)> {
    match TakeNum(b, 2)
    case None => None
    case Some((len, b1)) =>
      match TakeDigests(b1, len / 32)
      case None => None
      case Some((chain, rest)) => Some((TileLeaf(timestamped, precert, chain), rest))
  }

  /** A leaf of a data tile within the widths of its length fields: a TimestampedEntry with any
      extensions, its precertificate exactly for precert entries, and its chain. */
  ghost predicate LeafFits(l: TileLeaf) {
    && 32 * |l.chain| < Pow256(2)
    && exists time: Bytes, cert: Bytes, t: EntryType, keyHash: Bytes, ext: Bytes ::
         IsTimestamped(l.timestamped, time, cert, t, keyHash, ext)
         && (l.precert.Some? <==> t == PrecertEntry)
         && (l.precert.Some? ==> |l.precert.value| < Pow256(3))
  }

  predicate IsTimestamped(b: Bytes, time: Bytes, cert: Bytes, t: EntryType, keyHash: Bytes, ext: Bytes) {
    |time| == 8 && |keyHash| == 32 && |cert| < Pow256(3) && |ext| < Pow256(2)
    && b == time + (SignedEntry(cert, t, Some(keyHash)) + (Be(|ext|, 2) + ext))
  }

  lemma FindsTimestamped(b: Bytes, time: Bytes, cert: Bytes, t: EntryType, keyHash: Bytes, ext: Bytes, rest: Bytes)
    requires IsTimestamped(b, time, cert, t, keyHash, ext)
    ensures TimestampedEnd(b + rest) == Some((|b|, t == PrecertEntry))
  {
    hide Be, FromBe, Pow256, TakeCounted, IsTimestamped;
    var tail := Be(|ext|, 2) + ext + rest;
    var front := time + KindBytes(t, keyHash);
    TimestampedShape(b, time, cert, t, keyHash, ext, rest);
    var counted := Be(|cert|, 3) + cert + tail;
    assert (b + rest)[9] == front[9];
    assert (b + rest)[|front|..] == counted;
    TakesCounted(cert, 3, tail);
    TakesCounted(ext, 2, rest);
  }

  function KindBytes(t: EntryType, keyHash: Bytes): Bytes {
    if t == PrecertEntry then [0, 1] + keyHash else [0, 0]
  }

  lemma TimestampedShape(b: Bytes, time: Bytes, cert: Bytes, t: EntryType, keyHash: Bytes, ext: Bytes, rest: Bytes)
    requires IsTimestamped(b, time, cert, t, keyHash, ext)
    ensures |time| == 8 && |keyHash| == 32 && |cert| < Pow256(3) && |ext| < Pow256(2)
    ensures b + rest == (time + KindBytes(t, keyHash)) + (Be(|cert|, 3) + cert + (Be(|ext|, 2) + ext + rest))
  {
    hide Be, Pow256, SignedEntry, KindBytes;
    SignedShape(cert, t, keyHash);
    Regroup(time, KindBytes(t, keyHash), Be(|cert|, 3) + cert, Be(|ext|, 2) + ext, rest);
  }

  lemma SignedShape(cert: Bytes, t: EntryType, keyHash: Bytes)
    ensures SignedEntry(cert, t, Some(keyHash)) == KindBytes(t, keyHash) + (Be(|cert|, 3) + cert)
  {
    hide Be;
    assert [0, 1] + (keyHash + (Be(|cert|, 3) + cert)) == [0, 1] + keyHash + (Be(|cert|, 3) + cert);
  }

  lemma Regroup(a: Bytes, b: Bytes, c: Bytes, d: Bytes, e: Bytes)
    ensures a + (b + c + d) + e == a + b + (c + (d + e))
  {
    assert a + (b + c + d) == a + b + (c + d);
    assert a + b + (c + d) + e == a + b + (c + d + e);
    assert c + d + e == c + (d + e);
  }

  lemma TakesChain(timestamped: Bytes, precert: Option<Bytes>, chain: seq<Digest>, rest: Bytes)
    requires 32 * |chain| < Pow256(2)
    ensures TakeChain(timestamped, precert, Be(32 * |chain|, 2) + Flat(chain) + rest)
         == Some((TileLeaf(timestamped, precert, chain), rest))
  {
    hide Be, FromBe, Pow256, TakeNum, TakeDigests, Flat;
    assert Be(32 * |chain|, 2) + Flat(chain) + rest == Be(32 * |chain|, 2) + (Flat(chain) + rest);
    TakesNum(32 * |chain|, 2, Flat(chain) + rest);
    TakesDigests(chain, rest);
  }

  lemma TakesTileLeaf(l: TileLeaf, rest: Bytes)
    requires LeafFits(l)
    ensures TakeTileLeaf(TileLeafBytes(l) + rest) == Some((l, rest))
  {
    hide Be, FromBe, Pow256, TakeCounted, TakeChain, TimestampedEnd, Flat, IsTimestamped;
    var time, cert, t, keyHash, ext :|
      IsTimestamped(l.timestamped, time, cert, t, keyHash, ext)
      && (l.precert.Some? <==> t == PrecertEntry)
      && (l.precert.Some? ==> |l.precert.value| < Pow256(3));
    var chain := Be(32 * |l.chain|, 2) + Flat(l.chain) + rest;
    var tail := (if l.precert.Some? then Counted24(l.precert.value) else []) + chain;
    var b := TileLeafBytes(l) + rest;
    assert b == l.timestamped + tail;
    FindsTimestamped(l.timestamped, time, cert, t, keyHash, ext, tail);
    assert b[..|l.timestamped|] == l.timestamped && b[|l.timestamped|..] == tail;
    if l.precert.Some? { TakesCounted(l.precert.value, 3, chain); } else { assert tail == chain; }
    TakesChain(l.timestamped, l.precert, l.chain, rest);
  }

  /** A data tile determines its leaves: equal bytes, equal leaf sequences. */
  lemma {:induction false} DataTileUnique(ls: seq<TileLeaf>, ms: seq<TileLeaf>)
    requires (forall l <- ls :: LeafFits(l)) && (forall m <- ms :: LeafFits(m))
    requires TileLeavesBytes(ls) == TileLeavesBytes(ms)
    ensures ls == ms
  {
    hide TakeTileLeaf, LeafFits, TileLeafBytes;
    if ls != [] && ms != [] {
      TakesTileLeaf(ls[0], TileLeavesBytes(ls[1..]));
      TakesTileLeaf(ms[0], TileLeavesBytes(ms[1..]));
      DataTileUnique(ls[1..], ms[1..]);
      assert [ls[0]] + ls[1..] == ls && [ms[0]] + ms[1..] == ms;
    } else if ls != [] {
      LeafNotEmpty(ls[0]);
    } else if ms != [] {
      LeafNotEmpty(ms[0]);
    }
  }

  /** The leaf of a precertificate with one issuer, byte for byte. */
  lemma PrecertLeaf(timestamped: Bytes, precert: Bytes, issuer: Digest)
    ensures TileLeafBytes(TileLeaf(timestamped, Some(precert), [issuer]))
         == timestamped + Be(|precert|, 3) + precert + [0, 32] + issuer.bytes
  {
    hide Be, Flat;
    assert Be(32, 2) == [0, 32] by { BeThirtyTwo(); }
    FlatOne(issuer);
    TailGrouped(timestamped, Be(|precert|, 3), precert, [0, 32], issuer.bytes);
  }

  lemma TailGrouped(a: Bytes, b: Bytes, c: Bytes, d: Bytes, e: Bytes)
    ensures a + ((b + c) + (d + e)) == a + b + c + d + e
  {}

  lemma BeThirtyTwo()
    ensures Be(32, 2) == [0, 32]
  {
    assert Be(0, 1) == [0];
  }

  /** All leaves of a data tile. */
  function DecodeTile(b: Bytes): Option<seq<TileLeaf>>
    decreases |b|
  {
    if b == [] then Some([])
    else match TakeTileLeaf(b)
      case None => None
      case Some((l, rest)) => if |rest| < |b| then Prepend([l], DecodeTile(rest)) else None
  }

  lemma {:induction false} TileRoundTrip(ls: seq<TileLeaf>)
    requires forall l <- ls :: LeafFits(l)
    ensures DecodeTile(TileLeavesBytes(ls)) == Some(ls)
  {
    hide TakeTileLeaf, LeafFits, TileLeafBytes;
    if ls != [] {
      var rest := TileLeavesBytes(ls[1..]);
      TileRoundTrip(ls[1..]);
      TakesTileLeaf(ls[0], rest);
      LeafNotEmpty(ls[0]);
      assert [ls[0]] + ls[1..] == ls;
    }
  }

  lemma LeafNotEmpty(l: TileLeaf)
    ensures |TileLeafBytes(l)| >= 2
  {
    hide Flat;
  }
}
