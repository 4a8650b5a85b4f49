/** The byte layouts of `types/mod.rs`, `types/sct.rs` and `types/sct_extensions.rs`: MerkleTreeLeaf
    (section 3.4 of RFC 6962), the SCT signature input (section 3.2), and the leaf-index extension. */
module LeafCodec {
  import opened Rfc6962
  import opened LogTypes

  // ---------------------------------------------------------------- big-endian integers

  function Pow256(k: nat): nat {
    if k == 0 then 1 else 256 * Pow256(k - 1)
  }

  /** The low `k` bytes of `x`, most significant first: `to_be_bytes` after a truncating cast. */
  function Be(x: nat, k: nat): (b: Bytes)
    ensures |b| == k
  {
    if k == 0 then [] else Be(x / 256, k - 1) + [x % 256]
  }

  /** The number a big-endian byte string stands for. */
  function FromBe(b: Bytes): nat {
    if b == [] then 0 else 256 * FromBe(b[..|b| - 1]) + b[|b| - 1]
  }

  /** Reading back gives the value reduced to the width of the field. */
  lemma {:induction false} FromBeOfBe(x: nat, k: nat)
    ensures FromBe(Be(x, k)) < Pow256(k)
    ensures x < Pow256(k) ==> FromBe(Be(x, k)) == x
  {
    if k > 0 {
      FromBeOfBe(x / 256, k - 1);
      assert Be(x, k)[..k - 1] == Be(x / 256, k - 1);
    }
  }

  lemma ShortRoundTrip(x: nat)
    requires x < 0x1_0000
    ensures FromBe(Be(x, 2)) == x
  {
    hide Be, FromBe;
    assert Pow256(2) == 0x1_0000 by { assert Pow256(1) == 256; }
    FromBeOfBe(x, 2);
  }

  lemma BeZero()
    ensures Be(0, 2) == [0, 0]
  {
    assert Be(0, 1) == [0];
  }

  lemma BeInjective(x: nat, y: nat, k: nat)
    requires x < Pow256(k) && y < Pow256(k) && Be(x, k) == Be(y, k)
    ensures x == y
  {
    FromBeOfBe(x, k);
    FromBeOfBe(y, k);
  }

  // ---------------------------------------------------------------- the leaf-index extension

  const MAX_INDEX: nat := 0xFF_FFFF_FFFF

  const LEAF_INDEX_TYPE: byte := 0

  datatype Extension = Extension(extensionType: byte, data: Bytes)

  /** `Extension::encode`. */
  method EncodeExtension(e: Extension) returns (encoded: Bytes)
    ensures encoded == ExtensionBytes(e)
  {
    encoded := [];
    encoded := encoded + [e.extensionType];
    encoded := encoded + Be(|e.data|, 2);
    encoded := encoded + e.data;
  }

  /** A type byte, a two-byte length and the data. */
  function ExtensionBytes(e: Extension): Bytes {
    [e.extensionType] + (Be(|e.data|, 2) + e.data)
  }

  /** `Extension::leaf_index`: refused above 40 bits. */
  function LeafIndexExtension(index: nat): Option<Extension> {
    if index > MAX_INDEX then None else Some(Extension(LEAF_INDEX_TYPE, Be(index, 5)))
  }

  /** `Extension::decode`: the extension and the bytes it took. */
  function DecodeExtension(b: Bytes): Option<(Extension, nat)> {
    if |b| < 3 then None
    else
      var len := FromBe(b[1..3]);
      if |b| < 3 + len || b[0] != LEAF_INDEX_TYPE then None
      else Some((Extension(b[0], b[3..3 + len]), 3 + len))
  }

  /** The encodings of a list of extensions, one after the other. */
  function ExtensionsBody(es: seq<Extension>): Bytes {
    if es == [] then [] else ExtensionBytes(es[0]) + ExtensionsBody(es[1..])
  }

  function EncodedExtensions(es: seq<Extension>): Bytes {
    Be(|ExtensionsBody(es)|, 2) + ExtensionsBody(es)
  }

  function DecodeBody(b: Bytes): Option<seq<Extension>>
    decreases |b|
  {
    if b == [] then Some([])
    else match DecodeExtension(b)
      case None => None
      case Some((e, taken)) => Prepend([e], DecodeBody(b[taken..]))
  }

  function Prepend<T>(xs: seq<T>, r: Option<seq<T>>): Option<seq<T>> {
    if r.None? then None else Some(xs + r.value)
  }

  lemma Prepends<T>(xs: seq<T>, ys: seq<T>, r: Option<seq<T>>)
    ensures Prepend([], r) == r
    ensures Prepend(xs, Prepend(ys, r)) == Prepend(xs + ys, r)
  {
    if r.Some? {
      assert [] + r.value == r.value;
      assert xs + (ys + r.value) == xs + ys + r.value;
    }
  }

  function DecodedExtensions(b: Bytes): Option<seq<Extension>> {
    if |b| < 2 || |b| != 2 + FromBe(b[..2]) then None else DecodeBody(b[2..])
  }

  /** `CtExtensions::encode`: the total length, then the extensions. */
  method EncodeExtensions(es: seq<Extension>) returns (encoded: Bytes)
    ensures encoded == EncodedExtensions(es)
  {
    var body: Bytes := [];
    for i := 0 to |es|
      invariant body + ExtensionsBody(es[i..]) == ExtensionsBody(es)
    {
      var e := EncodeExtension(es[i]);
      assert es[i..][0] == es[i] && es[i..][1..] == es[i + 1..];
      body := body + e;
    }
    assert es[|es|..] == [];
    encoded := Be(|body|, 2) + body;
  }

  /** `CtExtensions::decode`. */
  method DecodeExtensions(b: Bytes) returns (r: Option<seq<Extension>>)
    ensures r == DecodedExtensions(b)
  {
    if |b| < 2 { return None; }
    var total := FromBe(b[..2]);
    if |b| != 2 + total { return None; }
    var out: seq<Extension> := [];
    var offset := 2;
    Prepends(out, out, DecodeBody(b[2..]));
    while offset < |b|
      invariant 2 <= offset <= |b|
      invariant DecodeBody(b[2..]) == Prepend(out, DecodeBody(b[offset..]))
    {
      var d := DecodeExtension(b[offset..]);
      if d.None? { return None; }
      var rest := b[offset + d.value.1..];
      assert b[offset..][d.value.1..] == rest;
      Prepends(out, [d.value.0], DecodeBody(rest));
      out := out + [d.value.0];
      offset := offset + d.value.1;
    }
    assert b[offset..] == [] && out + [] == out;
    r := Some(out);
  }

  /** The decoder takes exactly the first extension off an encoded list. */
  lemma NextExtension(es: seq<Extension>)
    requires es != [] && es[0].extensionType == LEAF_INDEX_TYPE && |ExtensionsBody(es)| < 0x1_0000
    ensures DecodeExtension(ExtensionsBody(es)) == Some((es[0], |ExtensionBytes(es[0])|))
    ensures ExtensionsBody(es)[|ExtensionBytes(es[0])|..] == ExtensionsBody(es[1..])
  {
    hide Be, FromBe;
    var b := ExtensionsBody(es);
    var e := es[0];
    ShortRoundTrip(|e.data|);
    assert b[1..3] == Be(|e.data|, 2);
    assert b[3..3 + |e.data|] == e.data;
  }

  lemma {:induction false} BodyRoundTrip(es: seq<Extension>)
    requires |ExtensionsBody(es)| < 0x1_0000 && forall e <- es :: e.extensionType == LEAF_INDEX_TYPE
    ensures DecodeBody(ExtensionsBody(es)) == Some(es)
  {
    if es != [] {
      NextExtension(es);
      BodyRoundTrip(es[1..]);
      assert [es[0]] + es[1..] == es;
    }
  }

  /** `CtExtensions::decode(encode(es)) == es` for every list whose total length fits 16 bits. */
  lemma ExtensionsRoundTrip(es: seq<Extension>)
    requires |ExtensionsBody(es)| < 0x1_0000 && forall e <- es :: e.extensionType == LEAF_INDEX_TYPE
    ensures DecodedExtensions(EncodedExtensions(es)) == Some(es)
  {
    var b := EncodedExtensions(es);
    assert b[..2] == Be(|ExtensionsBody(es)|, 2) && b[2..] == ExtensionsBody(es);
    ShortRoundTrip(|ExtensionsBody(es)|);
    BodyRoundTrip(es);
  }

  /** The bytes of the number a byte string stands for are that string. */
  lemma {:induction false} BeOfFromBe(b: Bytes)
    ensures Be(FromBe(b), |b|) == b
  {
    if b != [] {
      var front, last := b[..|b| - 1], b[|b| - 1];
      BeOfFromBe(front);
      assert FromBe(b) / 256 == FromBe(front) && FromBe(b) % 256 == last;
      assert front + [last] == b;
    }
  }

  lemma DecodedOneIs(b: Bytes)
    requires DecodeExtension(b).Some?
    ensures var (e, taken) := DecodeExtension(b).value;
            3 <= taken <= |b| && ExtensionBytes(e) == b[..taken] && e.extensionType == LEAF_INDEX_TYPE
  {
    hide Be, FromBe;
    BeOfFromBe(b[1..3]);
  }

  lemma BodyOfList(e: Extension, es: seq<Extension>)
    ensures ExtensionsBody([e] + es) == ExtensionBytes(e) + ExtensionsBody(es)
  {
    hide ExtensionBytes;
    assert ([e] + es)[1..] == es;
  }

  lemma {:induction false} DecodedBodyIs(b: Bytes)
    requires DecodeBody(b).Some?
    ensures ExtensionsBody(DecodeBody(b).value) == b
    ensures forall e <- DecodeBody(b).value :: e.extensionType == LEAF_INDEX_TYPE
    decreases |b|
  {
    hide Be, FromBe, ExtensionBytes, DecodeExtension, ExtensionsBody;
    if b == [] {
      NoExtensions();
    } else {
      DecodedOneIs(b);
      var (e, taken) := DecodeExtension(b).value;
      DecodedBodyIs(b[taken..]);
      BodyOfList(e, DecodeBody(b[taken..]).value);
      assert b[..taken] + b[taken..] == b;
    }
  }

  lemma NoExtensions()
    ensures ExtensionsBody([]) == []
  {}

  /** The decoder accepts exactly the encodings of the lists that fit 16 bits. */
  lemma DecoderExact(b: Bytes, es: seq<Extension>)
    ensures DecodedExtensions(b) == Some(es) <==>
              b == EncodedExtensions(es) && |ExtensionsBody(es)| < 0x1_0000
              && forall e <- es :: e.extensionType == 0
  {
    hide Be, FromBe, DecodeBody, ExtensionsBody;
    if DecodedExtensions(b) == Some(es) {
      DecodedBodyIs(b[2..]);
      BeOfFromBe(b[..2]);
      ShortValue(b[..2]);
      assert b[..2] + b[2..] == b;
    } else if b == EncodedExtensions(es) && |ExtensionsBody(es)| < 0x1_0000 && forall e <- es :: e.extensionType == 0 {
      ExtensionsRoundTrip(es);
    }
  }

  lemma ShortValue(b: Bytes)
    requires |b| == 2
    ensures FromBe(b) < 0x1_0000
  {
    var front := b[..1];
    assert FromBe(front) == 256 * FromBe(front[..0]) + front[0] && FromBe(front[..0]) == 0;
  }

  // ---------------------------------------------------------------- leaves and signature inputs

  /** A certificate or TBSCertificate with its three-byte length. */
  function Counted24(cert: Bytes): Bytes { Be(|cert|, 3) + cert }

  function KeyHashOr0(issuerKeyHash: Option<Bytes>): Bytes {
    if issuerKeyHash.Some? then issuerKeyHash.value else ZERO_DIGEST.bytes
  }

  /** Entry type and signed_entry of sections 3.2 and 3.4. */
  function SignedEntry(cert: Bytes, t: EntryType, issuerKeyHash: Option<Bytes>): Bytes {
    match t
    case X509Entry => [0, 0] + Counted24(cert)
    case PrecertEntry => [0, 1] + (KeyHashOr0(issuerKeyHash) + Counted24(cert))
  }

  /** CtExtensions of a TimestampedEntry: none, or the leaf index. */
  function ExtensionField(index: Option<nat>): Bytes
    requires index.Some? ==> index.value <= MAX_INDEX
  {
    if index.None? then Be(0, 2)
    else EncodedExtensions([LeafIndexExtension(index.value).value])
  }

  /** MerkleTreeLeaf: version v1, leaf type timestamped_entry, then the TimestampedEntry. */
  function MerkleTreeLeaf(cert: Bytes, t: EntryType, issuerKeyHash: Option<Bytes>, timestamp: nat,
                          index: Option<nat>): Bytes
    requires index.Some? ==> index.value <= MAX_INDEX
  {
    [0, 0] + (Be(timestamp, 8) + (SignedEntry(cert, t, issuerKeyHash) + ExtensionField(index)))
  }

  /** The entry-type branch that the leaf and the signature input share. */
  method AppendSignedEntry(buffer: Bytes, cert: Bytes, t: EntryType, issuerKeyHash: Option<Bytes>)
    returns (data: Bytes)
    ensures data == buffer + SignedEntry(cert, t, issuerKeyHash)
  {
    hide Be, KeyHashOr0;
    data := buffer;
    if t == X509Entry {
      data := data + [0, 0];
    } else {
      data := data + [0, 1];
      data := data + KeyHashOr0(issuerKeyHash);
    }
    data := data + Be(|cert|, 3);
    data := data + cert;
  }

  /** `serialize_merkle_tree_leaf`. It panics when the index does not fit 40 bits. */
  method SerializeMerkleTreeLeaf(cert: Bytes, t: EntryType, issuerKeyHash: Option<Bytes>, timestamp: nat,
                                 index: Option<nat>) returns (data: Bytes)
    requires index.Some? ==> index.value <= MAX_INDEX
    ensures data == MerkleTreeLeaf(cert, t, issuerKeyHash, timestamp, index)
  {
    hide SignedEntry, Be;
    data := [];
    data := data + [0];
    data := data + [0];
    data := data + Be(timestamp, 8);
    data := AppendSignedEntry(data, cert, t, issuerKeyHash);
    if index.Some? {
      var e := LeafIndexExtension(index.value).value;
      var ext := EncodeExtension(e);
      assert ext == ExtensionsBody([e]) by { assert [e][1..] == []; }
      data := data + Be(|ext|, 2);
      data := data + ext;
    } else {
      BeZero();
      data := data + [0, 0];
    }
  }

  /** What an SCT signs: version v1, signature type certificate_timestamp, and the same fields. */
  function SignatureInput(s: Sct, cert: Bytes, t: EntryType, issuerKeyHash: Option<Bytes>): Bytes {
    [0, 0] + (Be(s.timestamp, 8) + (SignedEntry(cert, t, issuerKeyHash)
                                    + (Be(|s.extensions|, 2) + s.extensions)))
  }

  /** `get_signature_input`. */
  method GetSignatureInput(s: Sct, cert: Bytes, t: EntryType, issuerKeyHash: Option<Bytes>)
    returns (input: Bytes)
    ensures input == SignatureInput(s, cert, t, issuerKeyHash)
  {
    hide SignedEntry, Be;
    input := [];
    input := input + [0];
    input := input + [0];
    input := input + Be(s.timestamp, 8);
    input := AppendSignedEntry(input, cert, t, issuerKeyHash);
    input := input + Be(|s.extensions|, 2);
    input := input + s.extensions;
  }

  type Signer = Bytes -> Bytes

  /** The log's key: its id and its signing function. */
  datatype SctBuilder = SctBuilder(logId: Bytes, sign: Signer)

  /** The TLS form of a signature: SHA-256 (4), ECDSA (3), length, bytes. */
  function TlsSignature(sig: Bytes): Bytes { [4, 3] + Be(|sig|, 2) + sig }

  /** An SCT is genuine for a signed input when it carries the log's signature over it. */
  predicate Genuine(b: SctBuilder, s: Sct, input: Bytes) {
    s.logId == b.logId && s.signature == TlsSignature(b.sign(input))
  }

  /** The SCT of an entry: the log's signature over it, the timestamp and the leaf-index extension. */
  function SignedSct(b: SctBuilder, cert: Bytes, t: EntryType, issuerKeyHash: Option<Bytes>, timestamp: nat,
                     index: Option<nat>): Sct
    requires index.Some? ==> index.value <= MAX_INDEX
  {
    var extensions := if index.None? then [] else ExtensionsBody([LeafIndexExtension(index.value).value]);
    var unsigned := Sct(b.logId, timestamp, extensions, []);
    unsigned.(signature := TlsSignature(b.sign(SignatureInput(unsigned, cert, t, issuerKeyHash))))
  }

  /** `create_sct_with_timestamp_and_index`: refused when the index does not fit 40 bits; otherwise
      the signature is over exactly the MerkleTreeLeaf with that index. */
  method CreateSct(b: SctBuilder, cert: Bytes, t: EntryType, issuerKeyHash: Option<Bytes>, timestamp: nat,
                   index: Option<nat>) returns (r: Option<Sct>)
    ensures r.None? <==> index.Some? && index.value > 0xFF_FFFF_FFFF
    ensures r.Some? ==> r.value == SignedSct(b, cert, t, issuerKeyHash, timestamp, index)
    ensures r.Some? ==>
              r.value.timestamp == timestamp
              && SignatureInput(r.value, cert, t, issuerKeyHash)
                 == MerkleTreeLeaf(cert, t, issuerKeyHash, timestamp, index)
              && Genuine(b, r.value, MerkleTreeLeaf(cert, t, issuerKeyHash, timestamp, index))
  {
    var sct := Sct(b.logId, timestamp, [], []);
    if index.Some? {
      var e := LeafIndexExtension(index.value);
      if e.None? { return None; }
      var full := EncodeExtensions([e.value]);
      assert full[2..] == ExtensionsBody([e.value]);
      sct := sct.(extensions := full[2..]);
    }
    var input := GetSignatureInput(sct, cert, t, issuerKeyHash);
    sct := sct.(signature := TlsSignature(b.sign(input)));
    r := Some(sct);
  }

  /** An SCT signs exactly the bytes of the MerkleTreeLeaf with the same index. */
  lemma SctSignsLeaf(b: SctBuilder, cert: Bytes, t: EntryType, issuerKeyHash: Option<Bytes>, timestamp: nat,
                     index: Option<nat>)
    requires index.Some? ==> index.value <= MAX_INDEX
    ensures var s := SignedSct(b, cert, t, issuerKeyHash, timestamp, index);
            var leaf := MerkleTreeLeaf(cert, t, issuerKeyHash, timestamp, index);
            s.timestamp == timestamp && SignatureInput(s, cert, t, issuerKeyHash) == leaf && Genuine(b, s, leaf)
  {
    hide SignedEntry, TlsSignature, Be;
    if index.Some? {
      var e := LeafIndexExtension(index.value).value;
      assert EncodedExtensions([e])[2..] == ExtensionsBody([e]);
    } else {
      BeZero();
    }
  }

  /** A MerkleTreeLeaf at an index, byte for byte: version, leaf type, timestamp, entry type, for a
      precert the issuer key hash, the counted certificate, and the leaf-index extension. */
  lemma LeafLayout(cert: Bytes, issuerKeyHash: Bytes, timestamp: nat, index: nat)
    requires index <= MAX_INDEX
    ensures MerkleTreeLeaf(cert, X509Entry, None, timestamp, Some(index))
         == [0, 0] + Be(timestamp, 8) + [0, 0] + Be(|cert|, 3) + cert + ([0, 8, 0, 0, 5] + Be(index, 5))
    ensures MerkleTreeLeaf(cert, PrecertEntry, Some(issuerKeyHash), timestamp, Some(index))
         == [0, 0] + Be(timestamp, 8) + [0, 1] + issuerKeyHash + Be(|cert|, 3) + cert
            + ([0, 8, 0, 0, 5] + Be(index, 5))
  {
    hide Be, ExtensionField;
    IndexFieldIs(index);
    var ext := [0, 8, 0, 0, 5] + Be(index, 5);
    SixParts([0, 0], Be(timestamp, 8), [0, 0], Be(|cert|, 3), cert, ext);
    SevenParts([0, 0], Be(timestamp, 8), [0, 1], issuerKeyHash, Be(|cert|, 3), cert, ext);
  }

  /** The cases that do not occur in a log: a precert without a key hash has 32 zero bytes in its place,
      and a leaf without an index ends in two zero bytes. */
  lemma LeafLayoutDefaults(cert: Bytes, issuerKeyHash: Bytes, timestamp: nat, index: nat)
    requires index <= MAX_INDEX
    ensures MerkleTreeLeaf(cert, PrecertEntry, None, timestamp, Some(index))
         == [0, 0] + Be(timestamp, 8) + [0, 1] + ZERO_DIGEST.bytes + Be(|cert|, 3) + cert
            + ([0, 8, 0, 0, 5] + Be(index, 5))
    ensures MerkleTreeLeaf(cert, X509Entry, None, timestamp, None)
         == [0, 0] + Be(timestamp, 8) + [0, 0] + Be(|cert|, 3) + cert + [0, 0]
    ensures MerkleTreeLeaf(cert, PrecertEntry, Some(issuerKeyHash), timestamp, None)
         == [0, 0] + Be(timestamp, 8) + [0, 1] + issuerKeyHash + Be(|cert|, 3) + cert + [0, 0]
  {
    hide Be;
    IndexFieldIs(index);
    BeZero();
    SevenParts([0, 0], Be(timestamp, 8), [0, 1], ZERO_DIGEST.bytes, Be(|cert|, 3), cert, [0, 8, 0, 0, 5] + Be(index, 5));
    SixParts([0, 0], Be(timestamp, 8), [0, 0], Be(|cert|, 3), cert, [0, 0]);
    SevenParts([0, 0], Be(timestamp, 8), [0, 1], issuerKeyHash, Be(|cert|, 3), cert, [0, 0]);
  }

  lemma SixParts(a: Bytes, b: Bytes, c: Bytes, d: Bytes, e: Bytes, f: Bytes)
    ensures a + (b + ((c + (d + e)) + f)) == a + b + c + d + e + f
  {
    assert c + (d + e) == c + d + e;
    assert a + (b + ((c + d + e) + f)) == a + b + (c + d + e) + f;
    assert a + b + (c + d + e) == a + b + c + d + e;
  }

  lemma SevenParts(a: Bytes, b: Bytes, c: Bytes, k: Bytes, d: Bytes, e: Bytes, f: Bytes)
    ensures a + (b + ((c + (k + (d + e))) + f)) == a + b + c + k + d + e + f
  {
    assert c + (k + (d + e)) == (c + k) + (d + e);
    SixParts(a, b, c + k, d, e, f);
    assert a + b + (c + k) == a + b + c + k;
  }

  lemma IndexFieldIs(index: nat)
    requires index <= MAX_INDEX
    ensures ExtensionField(Some(index)) == [0, 8, 0, 0, 5] + Be(index, 5)
  {
    var e := LeafIndexExtension(index).value;
    assert ExtensionsBody([e]) == ExtensionBytes(e) by { assert [e][1..] == []; }
    SmallLengths();
    hide Be;
  }

  lemma SmallLengths()
    ensures Be(5, 2) == [0, 5] && Be(8, 2) == [0, 8]
  {
    assert Be(0, 1) == [0];
  }

  /** A leaf ends in the extension of its index: length 8, type 0, length 5, and the five bytes. */
  lemma LeafEndsInIndex(cert: Bytes, t: EntryType, issuerKeyHash: Option<Bytes>, timestamp: nat, index: nat)
    requires index <= MAX_INDEX
    ensures var leaf := MerkleTreeLeaf(cert, t, issuerKeyHash, timestamp, Some(index));
            |leaf| >= 10 && leaf[|leaf| - 10..] == [0, 8, 0, 0, 5] + Be(index, 5)
  {
    hide SignedEntry, Be, EncodedExtensions;
    var ext := ExtensionField(Some(index));
    IndexFieldIs(index);
    var front := [0, 0] + (Be(timestamp, 8) + SignedEntry(cert, t, issuerKeyHash));
    assert MerkleTreeLeaf(cert, t, issuerKeyHash, timestamp, Some(index)) == front + ext;
    assert (front + ext)[|front + ext| - 10..] == ext;
  }

  /** The signature of an SCT: SHA-256 and ECDSA, then the counted signature over the leaf. */
  lemma SignatureLayout(b: SctBuilder, cert: Bytes, t: EntryType, issuerKeyHash: Option<Bytes>, timestamp: nat,
                        index: nat)
    requires index <= MAX_INDEX
    ensures var sig := b.sign(MerkleTreeLeaf(cert, t, issuerKeyHash, timestamp, Some(index)));
            SignedSct(b, cert, t, issuerKeyHash, timestamp, Some(index)).signature == [4, 3] + Be(|sig|, 2) + sig
  {
    hide SignedSct, MerkleTreeLeaf, SignatureInput, Be;
    SctSignsLeaf(b, cert, t, issuerKeyHash, timestamp, Some(index));
  }

  lemma LeavesDiffer(a: LogEntry, b: LogEntry, i: nat, j: nat)
    requires i <= MAX_INDEX && j <= MAX_INDEX && i != j
    ensures MerkleTreeLeaf(a.certificate, a.entryType, a.issuerKeyHash, a.timestamp, Some(i))
         != MerkleTreeLeaf(b.certificate, b.entryType, b.issuerKeyHash, b.timestamp, Some(j))
  {
    hide MerkleTreeLeaf;
    hide Be;
    LeafEndsInIndex(a.certificate, a.entryType, a.issuerKeyHash, a.timestamp, i);
    LeafEndsInIndex(b.certificate, b.entryType, b.issuerKeyHash, b.timestamp, j);
    var head := [0, 8, 0, 0, 5];
    assert (head + Be(i, 5))[5..] == Be(i, 5) && (head + Be(j, 5))[5..] == Be(j, 5);
    assert Pow256(5) == 0x100_0000_0000 by { FiveBytes(); }
    if Be(i, 5) == Be(j, 5) { BeInjective(i, j, 5); }
  }

  lemma FiveBytes()
    ensures Pow256(5) == 0x100_0000_0000 && Pow256(3) == 0x100_0000 && Pow256(8) == 0x1_0000_0000_0000_0000
  {
    assert Pow256(2) == 0x1_0000;
    assert Pow256(4) == 0x1_0000_0000;
    assert Pow256(6) == 0x1_0000_0000_0000;
  }

  /** What a leaf says: its entry type, timestamp, issuer key hash, certificate and index. */
  predicate LeafFields(e: LogEntry) {
    e.timestamp < 0x1_0000_0000_0000_0000 && |e.certificate| < 0x100_0000
    && match e.entryType
       case X509Entry => e.issuerKeyHash.None?
       case PrecertEntry => e.issuerKeyHash.Some? && |e.issuerKeyHash.value| == 32
  }

  /** Where the counted certificate starts. */
  function CertStart(t: EntryType): nat { if t == X509Entry then 12 else 44 }

  lemma LeafParts(e: LogEntry, i: nat)
    requires LeafFields(e) && i <= MAX_INDEX
    ensures var leaf := MerkleTreeLeaf(e.certificate, e.entryType, e.issuerKeyHash, e.timestamp, Some(i));
            var c := CertStart(e.entryType);
            |leaf| == c + 3 + |e.certificate| + 10 && leaf[2..10] == Be(e.timestamp, 8)
            && leaf[11] == (if e.entryType == X509Entry then 0 else 1)
            && (e.entryType == PrecertEntry ==> leaf[12..44] == e.issuerKeyHash.value)
            && leaf[c..c + 3] == Be(|e.certificate|, 3) && leaf[c + 3..|leaf| - 10] == e.certificate
  {
    hide Be, MerkleTreeLeaf;
    LeafLayout(e.certificate, if e.issuerKeyHash.Some? then e.issuerKeyHash.value else [], e.timestamp, i);
  }

  /** Equal leaves are leaves of entries that agree in every field a leaf carries, and at one index. */
  lemma LeafDetermines(a: LogEntry, i: nat, b: LogEntry, j: nat)
    requires LeafFields(a) && LeafFields(b) && i <= MAX_INDEX && j <= MAX_INDEX
    requires MerkleTreeLeaf(a.certificate, a.entryType, a.issuerKeyHash, a.timestamp, Some(i))
          == MerkleTreeLeaf(b.certificate, b.entryType, b.issuerKeyHash, b.timestamp, Some(j))
    ensures i == j && a.entryType == b.entryType && a.timestamp == b.timestamp
    ensures a.issuerKeyHash == b.issuerKeyHash && a.certificate == b.certificate
  {
    hide Be, MerkleTreeLeaf, Pow256;
    if i != j { LeavesDiffer(a, b, i, j); }
    LeafParts(a, i);
    LeafParts(b, j);
    FiveBytes();
    BeInjective(a.timestamp, b.timestamp, 8);
  }
}
