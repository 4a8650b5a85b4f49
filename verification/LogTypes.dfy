/** The records of `types/mod.rs`, `types/sct.rs` and `storage/mod.rs`, and the keys and values of
    the store. Values are kept decoded: postcard and big-endian encodings are taken as total. */
module LogTypes {
  import opened Rfc6962

  datatype Option<+T> = None | Some(value: T)

  datatype Outcome<+T> = Ok(value: T) | Err(error: Error)

  datatype Error = EncodingError | InconsistentState(reason: string) | DbError

  datatype EntryType = X509Entry | PrecertEntry

  datatype LogEntry = LogEntry(
    index: nat, timestamp: nat, entryType: EntryType, certificate: Bytes, chain: Option<seq<Bytes>>,
    issuerKeyHash: Option<Bytes>, originalPrecert: Option<Bytes>, leafData: Bytes)

  datatype DedupEntry = DedupEntry(
    index: nat, timestamp: nat, entryType: EntryType, certificateHash: Digest,
    chainHashes: Option<seq<Digest>>, issuerKeyHash: Option<Bytes>,
    originalPrecertHash: Option<Digest>, leafData: Bytes)

  datatype Sct = Sct(logId: Bytes, timestamp: nat, extensions: Bytes, signature: Bytes)

  datatype SctEntry = SctEntry(index: nat, sct: Sct, timestamp: nat)

  datatype Key =
    | LeafKey(i: nat)
    | VNodeKey(x: nat, v: nat)
    | NVerKey(x: nat)
    | TileKey(level: nat, i: nat)
    | MetaKey
    | CommittedKey
    | LastPrecomputedKey
    | EntryKey(i: nat)
    | HashKey(hash: Digest)
    | CertSctKey(hash: Digest)
    | CertKey(hash: Digest)

  datatype Value =
    | Raw(bytes: Bytes)
    | Num(n: nat)
    | Hash(digest: Digest)
    | Tile(hashes: seq<Digest>)
    | Entry(entry: DedupEntry)
    | SctValue(sctEntry: SctEntry)

  type Db = map<Key, Value>

  /** The keys owned by the tree; everything else is additional data of a batch. */
  predicate IsTreeKey(k: Key) {
    k.LeafKey? || k.VNodeKey? || k.NVerKey? || k.TileKey?
    || k.MetaKey? || k.CommittedKey? || k.LastPrecomputedKey?
  }
}
