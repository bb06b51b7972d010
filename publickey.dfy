/**
 * `genPublicKey`: the SSH public-key blob, from the private key's DER
 * integers or from the record's own public blob, and the OpenSSL-style
 * SubjectPublicKeyInfo built from that blob (sections 2.3.1 and 2.3.2 of
 * RFC 3279), armoured as "PUBLIC KEY" PEM.
 */
module PublicKey {
  import opened Bytes
  import opened Wrappers
  import opened Der
  import opened Blob
  import opened Armor
  import opened Keys

  const RSA_OID: string := "1.2.840.113549.1.1.1"
  const DSA_OID: string := "1.2.840.10040.4.1"

  /** The logical ASN.1 tree the `Ber.Writer` calls describe; its byte encoding is a parameter. */
  datatype Asn =
    | Sequence(items: seq<Asn>)
    | Oid(dotted: string)
    | Null
    | BitString(unused: uint8, items: seq<Asn>)
    | Integer(bytes: seq<uint8>)

  /**
   * The SubjectPublicKeyInfo from the re-read blob fields (blob order: e, n
   * for RSA; p, q, g, y otherwise). RSA: the algorithm is rsaEncryption
   * with NULL parameters, the key a SEQUENCE of n then e. DSA: id-dsa with
   * parameters p, q, g, and the key y alone.
   */
  function Spki(isRsa: bool, fields: seq<seq<uint8>>): Asn
    requires |fields| == |FieldNames(isRsa)|
  {
    if isRsa then
      Sequence([
        Sequence([Oid(RSA_OID), Null]),
        BitString(0, [Sequence([Integer(fields[1]), Integer(fields[0])])])])
    else
      Sequence([
        Sequence([Oid(DSA_OID), Sequence([Integer(fields[0]), Integer(fields[1]), Integer(fields[2])])]),
        BitString(0, [Integer(fields[3])])])
  }

  /** The INTEGERs of a tree, left to right. */
  function Integers(a: Asn): seq<seq<uint8>>
    decreases a
  {
    match a
    case Sequence(items) => IntegersOf(items)
    case BitString(_, items) => IntegersOf(items)
    case Integer(bytes) => [bytes]
    case _ => []
  }

  function IntegersOf(items: seq<Asn>): seq<seq<uint8>>
    decreases items
  {
    if items == [] then [] else Integers(items[0]) + IntegersOf(items[1..])
  }

  /** The object identifier of the tree's AlgorithmIdentifier, if it has that shape. */
  function Algorithm(a: Asn): Option<string>
  {
    if a.Sequence? && |a.items| == 2 && a.items[0].Sequence? && |a.items[0].items| >= 1 &&
       a.items[0].items[0].Oid?
    then Some(a.items[0].items[0].dotted)
    else None
  }

  lemma IntegersOfTwo(a: Asn, b: Asn)
    ensures IntegersOf([a, b]) == Integers(a) + Integers(b)
  {
    assert [a, b][1..] == [b];
    assert [b][1..] == [];
    assert IntegersOf([b]) == Integers(b) + [];
  }

  lemma IntegersOfThree(a: Asn, b: Asn, c: Asn)
    ensures IntegersOf([a, b, c]) == Integers(a) + Integers(b) + Integers(c)
  {
    assert [a, b, c][1..] == [b, c];
    IntegersOfTwo(b, c);
  }

  lemma IntegersOfOne(a: Asn)
    ensures IntegersOf([a]) == Integers(a)
  {
    assert [a][1..] == [];
    assert IntegersOf([a]) == Integers(a) + [];
  }

  /**
   * Read left to right, the SubjectPublicKeyInfo lists the key's integers in
   * the private key's DER order (n, e; or p, q, g, y), whatever order the
   * blob carries them in, under the type's algorithm identifier.
   */
  lemma SpkiOrder(isRsa: bool, ders: seq<seq<uint8>>)
    requires |ders| == |FieldNames(isRsa)|
    ensures Integers(Spki(isRsa, WireOrder(isRsa, ders))) == ders
    ensures Algorithm(Spki(isRsa, WireOrder(isRsa, ders))) == Some(if isRsa then RSA_OID else DSA_OID)
  {
    var a := Spki(isRsa, WireOrder(isRsa, ders));
    if isRsa {
      IntegersOfTwo(Integer(ders[0]), Integer(ders[1]));
      IntegersOfOne(Sequence([Integer(ders[0]), Integer(ders[1])]));
      IntegersOfTwo(Oid(RSA_OID), Null);
      IntegersOfTwo(a.items[0], a.items[1]);
      assert ders == [ders[0], ders[1]];
    } else {
      IntegersOfThree(Integer(ders[0]), Integer(ders[1]), Integer(ders[2]));
      IntegersOfTwo(Oid(DSA_OID), a.items[0].items[1]);
      IntegersOfOne(Integer(ders[3]));
      IntegersOfTwo(a.items[0], a.items[1]);
      assert ders == [ders[0], ders[1], ders[2], ders[3]];
    }
  }

  /** What `genPublicKey` returns. */
  datatype PublicKeyBundle = PublicKeyBundle(keyType: string, fullType: string, publicBlob: seq<uint8>, publicOrig: string)

  /** The encoders `genPublicKey` calls and that are not modelled: DER output and base64. */
  datatype Encoders = Encoders(der: Asn -> seq<uint8>, base64: seq<uint8> -> Base64Text)

  /** The blob: built from the private key when there is one, else the record's public blob. */
  function SourceBlob(keyType: string, privateKey: Option<seq<uint8>>, publicKey: Option<seq<uint8>>)
    : Result<seq<uint8>, KeyError>
  {
    var isRsa := keyType == "rsa";
    if privateKey.Some? then
      var spans :- PrivateFields(privateKey.value, isRsa);
      Success(WireBlob(isRsa, WireOrder(isRsa, Contents(privateKey.value, spans))))
    else if publicKey.Some? then Success(publicKey.value)
    else Failure(MissingData)
  }

  /** `genPublicKey` as a value. */
  function PublicKeyOf(enc: Encoders, keyType: string, privateKey: Option<seq<uint8>>, publicKey: Option<seq<uint8>>)
    : Result<PublicKeyBundle, KeyError>
  {
    var isRsa := keyType == "rsa";
    var blob :- SourceBlob(keyType, privateKey, publicKey);
    var fields :- BlobFields(blob, isRsa);
    Success(PublicKeyBundle(keyType, "ssh-" + keyType, blob, PublicPem(enc.base64(enc.der(Spki(isRsa, fields))))))
  }

  /**
   * `genPublicKey(keyInfo)`: reads the record and changes nothing. The
   * cursor walk over the DER bytes and the buffer filling are the methods
   * `ParsePrivateKey` and `BuildBlob`.
   */
  method GenPublicKey(info: KeyInfo, enc: Encoders) returns (r: Result<PublicKeyBundle, KeyError>)
    ensures r == PublicKeyOf(enc, info.keyType, info.privateKey, info.publicKey)
  {
    var isRsa := info.keyType == "rsa";
    var blob: seq<uint8>;
    if info.privateKey.Some? {
      var der := info.privateKey.value;
      var spans := ParsePrivateKey(der, isRsa);
      if spans.Failure? {
        return Failure(spans.error);
      }
      blob := BuildBlob(der, spans.value, isRsa);
    } else if info.publicKey.Some? {
      blob := info.publicKey.value;
    } else {
      return Failure(MissingData);
    }
    var fields := BlobFields(blob, isRsa);
    if fields.Failure? {
      return Failure(fields.error);
    }
    var b64 := enc.base64(enc.der(Spki(isRsa, fields.value)));
    r := Success(PublicKeyBundle(info.keyType, "ssh-" + info.keyType, blob, PublicPem(b64)));
  }

  /** The errors: no key material at all, and a private key that is not a DER SEQUENCE. */
  lemma PublicKeyOfErrors(enc: Encoders, keyType: string, privateKey: Option<seq<uint8>>, publicKey: Option<seq<uint8>>)
    ensures PublicKeyOf(enc, keyType, privateKey, publicKey) == Failure(MissingData) <==>
      privateKey.None? && publicKey.None?
    ensures privateKey.Some? && !(|privateKey.value| > 0 && privateKey.value[0] == SEQUENCE) ==>
      PublicKeyOf(enc, keyType, privateKey, publicKey) == Failure(ExpectedSequence)
  {
    var isRsa := keyType == "rsa";
    if privateKey.Some? {
      var p := PrivateFields(privateKey.value, isRsa);
      assert p.Failure? ==> p.error != MissingData;
    } else if publicKey.Some? {
      var f := BlobFields(publicKey.value, isRsa);
      assert f.Failure? ==> f.error == Truncated;
    }
  }

  /**
   * From a private key whose DER walk succeeds: the blob holds the walked
   * values in blob order, `fulltype` is "ssh-" + type, and the PEM text
   * armours the SubjectPublicKeyInfo of exactly those values (for a key
   * shorter than 2^32 bytes, so that every uint32 length header is exact).
   */
  lemma PublicKeyOfPrivate(enc: Encoders, keyType: string, der: seq<uint8>, publicKey: Option<seq<uint8>>)
    requires PrivateFields(der, keyType == "rsa").Success?
    requires |der| < UINT32_LIMIT
    ensures var isRsa := keyType == "rsa";
      var ders := Contents(der, PrivateFields(der, isRsa).value);
      var r := PublicKeyOf(enc, keyType, Some(der), publicKey);
      r.Success? && r.value.keyType == keyType && r.value.fullType == "ssh-" + keyType &&
      r.value.publicBlob == WireBlob(isRsa, WireOrder(isRsa, ders)) &&
      r.value.publicOrig == PublicPem(enc.base64(enc.der(Spki(isRsa, WireOrder(isRsa, ders)))))
  {
    var isRsa := keyType == "rsa";
    var spans := PrivateFields(der, isRsa).value;
    var fields := FieldsWithin(der, spans, isRsa);
    BlobFieldsOfWireBlob(isRsa, fields);
    assert SourceBlob(keyType, Some(der), publicKey) == Success(WireBlob(isRsa, fields));
  }

  /** Values cut from `der` are no longer than `der`. */
  lemma FieldsWithin(der: seq<uint8>, spans: seq<Span>, isRsa: bool) returns (fields: seq<seq<uint8>>)
    requires |der| < UINT32_LIMIT
    requires |spans| == |FieldNames(isRsa)|
    requires forall j :: 0 <= j < |spans| ==> SpanEnd(spans[j]) <= |der|
    ensures fields == WireOrder(isRsa, Contents(der, spans))
    ensures |fields| == |FieldNames(isRsa)|
    ensures forall j :: 0 <= j < |fields| ==> |fields[j]| < UINT32_LIMIT
  {
    fields := WireOrder(isRsa, Contents(der, spans));
    var ders := Contents(der, spans);
    ContentsWithin(der, spans);
    assert forall j :: 0 <= j < |ders| ==> |ders[j]| <= |der|;
    if isRsa {
      assert WireOrder(isRsa, ders) == [ders[1], ders[0]];
    }
  }

  /**
   * From a public blob alone: the blob is returned as it is and the PEM text
   * armours the fields re-read from it; the text always ends in the END
   * line after exactly one line break, with a break after every 64 base64
   * characters.
   */
  lemma PublicKeyOfPublic(enc: Encoders, keyType: string, blob: seq<uint8>)
    requires BlobFields(blob, keyType == "rsa").Success?
    ensures var isRsa := keyType == "rsa";
      var r := PublicKeyOf(enc, keyType, None, Some(blob));
      var b64 := enc.base64(enc.der(Spki(isRsa, BlobFields(blob, isRsa).value)));
      var body := PemBody(b64);
      r.Success? && r.value.publicBlob == blob && r.value.fullType == "ssh-" + keyType &&
      r.value.publicOrig == PUBLIC_BEGIN + body + PUBLIC_END &&
      body[|body| - 1] == '\n' && StripNewlines(body) == b64 &&
      (forall k :: 0 <= k < |body| - 1 ==> (body[k] == '\n' <==> k % 65 == 64))
  {
    var isRsa := keyType == "rsa";
    PemBodyShape(enc.base64(enc.der(Spki(isRsa, BlobFields(blob, isRsa).value))));
  }
}
