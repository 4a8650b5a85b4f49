/** The byte keys of the store: why its keys may be told apart by kind and fields. */
module KeyCodec {
  import opened Rfc6962
  import opened LogTypes
  import opened LeafCodec

  /** The text at the front of a key, or the whole of a key without fields. */
  function Tag(k: Key): Bytes {
    match k
    case LeafKey(_) => [108, 101, 97, 102, 58]                 // leaf:
    case VNodeKey(_, _) => [118, 110, 111, 100, 101, 58]       // vnode:
    case NVerKey(_) => [110, 118, 101, 114, 58]                // nver:
    case TileKey(_, _) => [116, 105, 108, 101, 58]             // tile:
    case MetaKey => [109, 101, 116, 97]                        // meta
    case CommittedKey =>                                       // committed_size
      [99, 111, 109, 109, 105, 116, 116, 101, 100, 95, 115, 105, 122, 101]
    case LastPrecomputedKey =>                                 // last_precomputed_size
      [108, 97, 115, 116, 95, 112, 114, 101, 99, 111, 109, 112, 117, 116, 101, 100, 95, 115, 105, 122, 101]
    case EntryKey(_) => [101, 110, 116, 114, 121, 58]          // entry:
    case HashKey(_) => [104, 97, 115, 104, 58]                 // hash:
    case CertSctKey(_) => [99, 101, 114, 116, 95, 115, 99, 116, 58]  // cert_sct:
    case CertKey(_) => [99, 101, 114, 116, 58]                 // cert:
  }

  function Fields(k: Key): Bytes {
    match k
    case LeafKey(i) => Be(i, 8)
    case VNodeKey(x, v) => Be(x, 8) + ([64] + Be(v, 8))
    case NVerKey(x) => Be(x, 8)
    case TileKey(level, i) => Be(level, 1) + ([58] + Be(i, 8))
    case EntryKey(i) => Be(i, 8)
    case HashKey(d) => d.bytes
    case CertSctKey(d) => d.bytes
    case CertKey(d) => d.bytes
    case _ => []
  }

  /** The key builders of `slatedb_backed_tree.rs` and `storage/mod.rs`. */
  function KeyBytes(k: Key): Bytes { Tag(k) + Fields(k) }

  /** Numbers within the widths of the key fields. */
  predicate KeyFits(k: Key) {
    match k
    case LeafKey(i) => i < Pow256(8)
    case VNodeKey(x, v) => x < Pow256(8) && v < Pow256(8)
    case NVerKey(x) => x < Pow256(8)
    case TileKey(level, i) => level < Pow256(1) && i < Pow256(8)
    case EntryKey(i) => i < Pow256(8)
    case _ => true
  }

  /** The kind of a key, read off a few bytes at its front. */
  function KindOf(b: Bytes): nat
    requires |b| >= 5 || (|b| == 4 && b[0] == 109)
  {
    match b[0]
    case 118 => 1
    case 110 => 2
    case 116 => 3
    case 109 => 4
    case 101 => 5
    case 104 => 6
    case 108 => if b[1] == 101 then 7 else 8
    case _ => if b[1] == 111 then 9 else if b[4] == 95 then 10 else 11
  }

  function Kind(k: Key): nat {
    match k
    case VNodeKey(_, _) => 1
    case NVerKey(_) => 2
    case TileKey(_, _) => 3
    case MetaKey => 4
    case EntryKey(_) => 5
    case HashKey(_) => 6
    case LeafKey(_) => 7
    case LastPrecomputedKey => 8
    case CommittedKey => 9
    case CertSctKey(_) => 10
    case CertKey(_) => 11
  }

  lemma FrontBytes(k: Key)
    ensures var b := KeyBytes(k); var t := Tag(k);
            |t| >= 4 && |b| >= |t| && b[0] == t[0] && b[1] == t[1] && (|t| > 4 ==> b[4] == t[4])
            && (|t| == 4 ==> k.MetaKey? && b == t)
  {
    hide Fields;
    if k.MetaKey? { assert Fields(k) == [] by { MetaFields(); } }
  }

  lemma MetaFields()
    ensures Fields(MetaKey) == []
  {}

  lemma KindIsRead(k: Key)
    ensures var b := KeyBytes(k); (|b| >= 5 || (|b| == 4 && b[0] == 109)) && KindOf(b) == Kind(k)
  {
    hide Fields, KeyBytes;
    FrontBytes(k);
  }

  /** No key of one kind is a key of another: the kind can be read off the bytes. */
  lemma TagsSeparate(a: Key, b: Key)
    requires KeyBytes(a) == KeyBytes(b)
    ensures Kind(a) == Kind(b) && Tag(a) == Tag(b)
  {
    hide KeyBytes, KindOf;
    KindIsRead(a);
    KindIsRead(b);
  }

  lemma SameKind(a: Key, b: Key)
    requires Tag(a) == Tag(b)
    ensures a.LeafKey? == b.LeafKey? && a.VNodeKey? == b.VNodeKey? && a.NVerKey? == b.NVerKey?
    ensures a.TileKey? == b.TileKey? && a.EntryKey? == b.EntryKey? && a.HashKey? == b.HashKey?
    ensures a.CertSctKey? == b.CertSctKey? && a.CertKey? == b.CertKey?
    ensures a.MetaKey? == b.MetaKey? && a.CommittedKey? == b.CommittedKey?
  {}

  lemma PairInjective(x: nat, y: nat, x': nat, y': nat, k: nat, mark: byte)
    requires x < Pow256(k) && x' < Pow256(k) && y < Pow256(8) && y' < Pow256(8)
    requires Be(x, k) + ([mark] + Be(y, 8)) == Be(x', k) + ([mark] + Be(y', 8))
    ensures x == x' && y == y'
  {
    hide Be, Pow256;
    var p, q := Be(x, k) + ([mark] + Be(y, 8)), Be(x', k) + ([mark] + Be(y', 8));
    assert p[..k] == Be(x, k) && q[..k] == Be(x', k);
    assert p[k + 1..] == Be(y, 8) && q[k + 1..] == Be(y', 8);
    BeInjective(x, x', k);
    BeInjective(y, y', 8);
  }

  lemma FieldsInjective(a: Key, b: Key)
    requires KeyFits(a) && KeyFits(b) && Tag(a) == Tag(b) && Fields(a) == Fields(b)
    ensures a == b
  {
    hide Be, Pow256, Tag;
    SameKind(a, b);
    match a
    case LeafKey(i) => BeInjective(i, b.i, 8);
    case VNodeKey(x, v) => PairInjective(x, v, b.x, b.v, 8, 64);
    case NVerKey(x) => BeInjective(x, b.x, 8);
    case TileKey(level, i) => PairInjective(level, i, b.level, b.i, 1, 58);
    case EntryKey(i) => BeInjective(i, b.i, 8);
    case _ =>
  }

  /** Keys with different kinds or fields have different bytes, so the store is a map of keys. */
  lemma KeysInjective(a: Key, b: Key)
    requires KeyFits(a) && KeyFits(b)
    ensures KeyBytes(a) == KeyBytes(b) <==> a == b
  {
    hide Tag, Fields, KeyFits;
    if KeyBytes(a) == KeyBytes(b) {
      TagsSeparate(a, b);
      assert KeyBytes(a)[|Tag(a)|..] == Fields(a) && KeyBytes(b)[|Tag(b)|..] == Fields(b);
      FieldsInjective(a, b);
    }
  }
}
