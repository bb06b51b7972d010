/**
 * The SSH public-key blob of `genPublicKey` (section 6.6 of RFC 4253):
 * `string type, string field, …` with every string length-prefixed by a
 * big-endian uint32. The blob is built into a fresh buffer at a moving
 * offset and later re-read from the fixed offset 11 (4 + 7, just past
 * the seven-letter type name).
 */
module Blob {
  import opened Bytes
  import opened Wrappers
  import opened Der
  import Wire

  /** 4 bytes of length plus the 7 bytes of "ssh-rsa" or "ssh-dss". */
  const FIELDS_START: nat := 11

  /** Any type other than "rsa" is written as DSA. */
  function TypeName(isRsa: bool): (r: string)
    ensures |r| == 7 && forall k :: 0 <= k < |r| ==> (r[k] as int) < 128
  {
    if isRsa then "ssh-rsa" else "ssh-dss"
  }

  /** The fields in blob order: RSA carries e before n, DSA keeps p, q, g, y. */
  function WireOrder(isRsa: bool, fields: seq<seq<uint8>>): (r: seq<seq<uint8>>)
    requires |fields| == |FieldNames(isRsa)|
    ensures |r| == |fields|
  {
    if isRsa then [fields[1], fields[0]] else fields
  }

  /** Strings one after another, each with its length in front. */
  function SshStrings(fields: seq<seq<uint8>>): seq<uint8>
  {
    if fields == [] then [] else Wire.SshString(fields[0]) + SshStrings(fields[1..])
  }

  /** The sum of 4 + len over the fields. */
  function FramedSize(fields: seq<seq<uint8>>): nat
  {
    if fields == [] then 0 else 4 + |fields[0]| + FramedSize(fields[1..])
  }

  /** The whole blob: the type name, then the fields. */
  function WireBlob(isRsa: bool, fields: seq<seq<uint8>>): seq<uint8>
  {
    Wire.SshString(Ascii(TypeName(isRsa))) + SshStrings(fields)
  }

  lemma {:induction false} SshStringsSize(fields: seq<seq<uint8>>)
    ensures |SshStrings(fields)| == FramedSize(fields)
  {
    if fields != [] {
      SshStringsSize(fields[1..]);
    }
  }

  /** The blob is 11 bytes of name followed by 4 + len bytes per field. */
  lemma WireBlobSize(isRsa: bool, fields: seq<seq<uint8>>)
    ensures |WireBlob(isRsa, fields)| == FIELDS_START + FramedSize(fields)
  {
    SshStringsSize(fields);
  }

  // ----- building: writeUInt32BE and copy at a moving offset -----

  /**
   * `writeUInt32BE(len, p, true)` then `copy` of `src` at `p + 4`: only the
   * low 32 bits of the length are kept, and nothing before `p` or after
   * the string changes.
   */
  method PutString(a: array<uint8>, p: nat, src: seq<uint8>) returns (next: nat)
    requires p + 4 + |src| <= a.Length
    modifies a
    ensures next == p + 4 + |src|
    ensures a[..next] == old(a[..p]) + Wire.SshString(src)
    ensures a[next..] == old(a[next..])
  {
    var h := UInt32BE(|src|);
    a[p] := h[0];
    a[p + 1] := h[1];
    a[p + 2] := h[2];
    a[p + 3] := h[3];
    forall k | 0 <= k < |src| {
      a[p + 4 + k] := src[k];
    }
    next := p + 4 + |src|;
    assert a[..next] == old(a[..p]) + (h + src) by {
      forall k | 0 <= k < next
        ensures a[..next][k] == (old(a[..p]) + (h + src))[k]
      {
        if k >= p + 4 {
          assert a[p + 4 + (k - p - 4)] == src[k - p - 4];
        }
      }
    }
  }

  /** The values of `spans` as they lie in `der`. */
  lemma {:induction false} ContentsWithin(der: seq<uint8>, spans: seq<Span>)
    requires forall j :: 0 <= j < |spans| ==> SpanEnd(spans[j]) <= |der|
    ensures forall j :: 0 <= j < |spans| ==> Contents(der, spans)[j] == Slice(der, spans[j])
  {
    if spans != [] {
      ContentsWithin(der, spans[1..]);
      assert forall j :: 1 <= j < |spans| ==> Contents(der, spans)[j] == Contents(der, spans[1..])[j - 1];
    }
  }

  lemma SshStringsOfTwo(a: seq<uint8>, b: seq<uint8>)
    ensures SshStrings([a, b]) == Wire.SshString(a) + Wire.SshString(b)
  {
    assert [a, b][1..] == [b];
    assert [b][1..] == [];
    assert SshStrings([b]) == Wire.SshString(b) + [];
  }

  lemma SshStringsOfFour(a: seq<uint8>, b: seq<uint8>, c: seq<uint8>, d: seq<uint8>)
    ensures SshStrings([a, b, c, d]) ==
      Wire.SshString(a) + Wire.SshString(b) + Wire.SshString(c) + Wire.SshString(d)
  {
    assert [a, b, c, d][1..] == [b, c, d];
    assert [b, c, d][1..] == [c, d];
    SshStringsOfTwo(c, d);
  }

  /** The DSA blob as the five strings written one after another. */
  lemma WireBlobOfFour(a: seq<uint8>, b: seq<uint8>, c: seq<uint8>, d: seq<uint8>)
    ensures WireBlob(false, [a, b, c, d]) == Wire.SshString(Ascii(TypeName(false))) +
      Wire.SshString(a) + Wire.SshString(b) + Wire.SshString(c) + Wire.SshString(d)
  {
    SshStringsOfFour(a, b, c, d);
  }

  /** Two strings written one after the other. */
  method PutTwo(a: array<uint8>, p: nat, x: seq<uint8>, y: seq<uint8>) returns (next: nat)
    requires p + 4 + |x| + 4 + |y| <= a.Length
    modifies a
    ensures next == p + 4 + |x| + 4 + |y|
    ensures a[..next] == old(a[..p]) + Wire.SshString(x) + Wire.SshString(y)
    ensures a[next..] == old(a[next..])
  {
    ghost var before := a[..p];
    var mid := PutString(a, p, x);
    ghost var first := a[..mid];
    next := PutString(a, mid, y);
    assert a[..mid] == first;
  }

  /** The "ssh-rsa" branch: a buffer of 11 + 4 + |e| + 4 + |n| bytes, e written before n. */
  method BuildRsaBlob(e: seq<uint8>, n: seq<uint8>) returns (blob: seq<uint8>)
    ensures blob == WireBlob(true, [e, n])
  {
    var a := new uint8[FIELDS_START + 4 + |e| + 4 + |n|];
    var p := PutString(a, 0, Ascii(TypeName(true)));
    p := PutTwo(a, p, e, n);
    assert a[..] == a[..p];
    SshStringsOfTwo(e, n);
    blob := a[..];
  }

  /** The "ssh-dss" branch: p, q, g and y in that order. */
  method BuildDsaBlob(fp: seq<uint8>, q: seq<uint8>, g: seq<uint8>, y: seq<uint8>) returns (blob: seq<uint8>)
    ensures blob == WireBlob(false, [fp, q, g, y])
  {
    var a := new uint8[FIELDS_START + 4 + |fp| + 4 + |q| + 4 + |g| + 4 + |y|];
    var p := PutString(a, 0, Ascii(TypeName(false)));
    ghost var head := a[..p];
    assert head == Wire.SshString(Ascii(TypeName(false)));
    p := PutTwo(a, p, fp, q);
    ghost var mid := a[..p];
    assert mid == head + Wire.SshString(fp) + Wire.SshString(q);
    p := PutTwo(a, p, g, y);
    assert a[..] == a[..p] == mid + Wire.SshString(g) + Wire.SshString(y);
    WireBlobOfFour(fp, q, g, y);
    blob := a[..];
  }

  /**
   * The blob `genPublicKey` builds from the DER value ranges of a private
   * key: the field bytes copied verbatim, RSA's e before n.
   */
  method BuildBlob(der: seq<uint8>, spans: seq<Span>, isRsa: bool) returns (blob: seq<uint8>)
    requires |spans| == |FieldNames(isRsa)|
    requires forall j :: 0 <= j < |spans| ==> SpanEnd(spans[j]) <= |der|
    ensures blob == WireBlob(isRsa, WireOrder(isRsa, Contents(der, spans)))
  {
    ContentsWithin(der, spans);
    var fields := Contents(der, spans);
    if isRsa {
      blob := BuildRsaBlob(Slice(der, spans[1]), Slice(der, spans[0]));
      assert WireOrder(isRsa, fields) == [Slice(der, spans[1]), Slice(der, spans[0])];
    } else {
      blob := BuildDsaBlob(Slice(der, spans[0]), Slice(der, spans[1]), Slice(der, spans[2]), Slice(der, spans[3]));
      assert fields == [Slice(der, spans[0]), Slice(der, spans[1]), Slice(der, spans[2]), Slice(der, spans[3])];
    }
  }

  // ----- re-reading from offset 11 -----

  /**
   * One field at `p`: its uint32 length, then the bytes `slice(p + 4,
   * p + 4 + len)`, cut short at the end of the blob as `Buffer.slice` does;
   * and the offset after it. A length header past the end is `Truncated`.
   */
  function BlobField(blob: seq<uint8>, p: nat): (r: Result<(seq<uint8>, nat), KeyError>)
    ensures r.Failure? <==> |blob| < p + 4
    ensures r.Failure? ==> r.error == Truncated
    ensures r.Success? ==> r.value.1 == p + 4 + ReadUInt32BE(blob, p)
    ensures r.Success? && r.value.1 <= |blob| ==> r.value.0 == blob[p + 4..r.value.1]
    ensures r.Success? && r.value.1 > |blob| ==> r.value.0 == blob[p + 4..]
  {
    if |blob| < p + 4 then Failure(Truncated)
    else
      var len := ReadUInt32BE(blob, p);
      var end := p + 4 + len;
      Success((blob[p + 4..if end <= |blob| then end else |blob|], end))
  }

  /** `count` fields, one after another from `p`. */
  function FieldsFrom(blob: seq<uint8>, p: nat, count: nat): (r: Result<seq<seq<uint8>>, KeyError>)
    ensures r.Failure? ==> r.error == Truncated
    ensures r.Success? ==> |r.value| == count
    decreases count
  {
    if count == 0 then Success([])
    else
      var first :- BlobField(blob, p);
      var rest :- FieldsFrom(blob, first.1, count - 1);
      Success([first.0] + rest)
  }

  /** The re-read: e and n for RSA, p, q, g and y otherwise, in blob order. */
  function BlobFields(blob: seq<uint8>, isRsa: bool): (r: Result<seq<seq<uint8>>, KeyError>)
    ensures r.Failure? ==> r.error == Truncated
    ensures r.Success? ==> |r.value| == |FieldNames(isRsa)|
  {
    FieldsFrom(blob, FIELDS_START, |FieldNames(isRsa)|)
  }

  /** One length-prefixed string is read back at its own offset. */
  lemma BlobFieldOfWrite(prefix: seq<uint8>, f: seq<uint8>, rest: seq<uint8>)
    requires |f| < UINT32_LIMIT
    ensures BlobField(prefix + Wire.SshString(f) + rest, |prefix|) ==
      Success((f, |prefix| + 4 + |f|))
  {
    var blob := prefix + Wire.SshString(f) + rest;
    assert blob == prefix + UInt32BE(|f|) + (f + rest);
    ReadUInt32BEOfWrite(prefix, |f|, f + rest);
    assert blob[|prefix| + 4..|prefix| + 4 + |f|] == f;
  }

  /** Strings written one after another are read back one after another. */
  lemma {:induction false} FieldsFromOfWrite(prefix: seq<uint8>, fields: seq<seq<uint8>>)
    requires forall j :: 0 <= j < |fields| ==> |fields[j]| < UINT32_LIMIT
    ensures FieldsFrom(prefix + SshStrings(fields), |prefix|, |fields|) == Success(fields)
    decreases |fields|
  {
    if fields != [] {
      var head := prefix + Wire.SshString(fields[0]);
      assert prefix + SshStrings(fields) == head + SshStrings(fields[1..]);
      BlobFieldOfWrite(prefix, fields[0], SshStrings(fields[1..]));
      FieldsFromOfWrite(head, fields[1..]);
      assert fields == [fields[0]] + fields[1..];
    }
  }

  /** Re-reading a built blob from offset 11 recovers every field it was built from. */
  lemma BlobFieldsOfWireBlob(isRsa: bool, fields: seq<seq<uint8>>)
    requires |fields| == |FieldNames(isRsa)|
    requires forall j :: 0 <= j < |fields| ==> |fields[j]| < UINT32_LIMIT
    ensures BlobFields(WireBlob(isRsa, fields), isRsa) == Success(fields)
  {
    FieldsFromOfWrite(Wire.SshString(Ascii(TypeName(isRsa))), fields);
  }
}
