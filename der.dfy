/**
 * The hand-written walk of `genPublicKey` over a DER private key: a
 * SEQUENCE header whose length is skipped, then INTEGERs read one after
 * another (section 8.1.3 of ITU-T X.690 for the short and long length forms).
 * Only the byte ranges of the wanted integers are kept.
 */
module Der {
  import opened Bytes
  import opened Wrappers

  const SEQUENCE: uint8 := 0x30
  const INTEGER: uint8 := 0x02

  /** The errors `genPublicKey` throws, plus `Truncated` for reads past the end. */
  datatype KeyError =
    | ExpectedSequence              // "Malformed private key (expected sequence)"
    | ExpectedInteger(field: string) // "Malformed private key (expected integer for <field>)"
    | Truncated                     // a length or the last value runs past the buffer
    | MissingData                   // "Missing data generated by parseKey()"

  /** Where a value lies in the buffer. */
  datatype Span = Span(start: nat, len: nat)

  function SpanEnd(s: Span): nat
  {
    s.start + s.len
  }

  /** The bytes a span covers. */
  function Slice(der: seq<uint8>, s: Span): seq<uint8>
    requires SpanEnd(s) <= |der|
  {
    der[s.start..SpanEnd(s)]
  }

  /** The field names in DER order: RSA's n and e, DSA's p, q, g and y. */
  function FieldNames(isRsa: bool): seq<string>
  {
    if isRsa then ["n", "e"] else ["p", "q", "g", "y"]
  }

  // ----- the specification of the walk -----

  /**
   * The length at `i` and the index after it: one byte below 0x80, or
   * 0x80 + k followed by k big-endian bytes.
   */
  function LengthAt(der: seq<uint8>, i: nat): (r: Result<(nat, nat), KeyError>)
    ensures r.Success? ==> i < r.value.1 <= |der|
    ensures r.Failure? ==> r.error == Truncated
  {
    if i >= |der| then Failure(Truncated)
    else if der[i] < 0x80 then Success((der[i] as nat, i + 1))
    else
      var octets := der[i] - 0x80;
      if i + 1 + octets > |der| then Failure(Truncated)
      else Success((BigEndian(der[i + 1..i + 1 + octets]), i + 1 + octets))
  }

  /** The INTEGER at `i`: its value span and the index after the value. */
  function IntegerAt(der: seq<uint8>, i: nat, name: string): (r: Result<(Span, nat), KeyError>)
    ensures r.Failure? ==> r.error in {ExpectedInteger(name), Truncated}
    ensures r.Failure? && r.error == ExpectedInteger(name) <==> !(i < |der| && der[i] == INTEGER)
    ensures r.Success? ==> i < r.value.0.start && r.value.1 == SpanEnd(r.value.0)
  {
    if !(i < |der| && der[i] == INTEGER) then Failure(ExpectedInteger(name))
    else
      var len :- LengthAt(der, i + 1);
      Success((Span(len.1, len.0), len.1 + len.0))
  }

  /** INTEGERs `names[0]`, `names[1]`, … one directly after another from `i`. */
  function IntegersAt(der: seq<uint8>, i: nat, names: seq<string>): (r: Result<seq<Span>, KeyError>)
    ensures r.Failure? ==> r.error.ExpectedInteger? || r.error == Truncated
    ensures r.Failure? && r.error.ExpectedInteger? ==> r.error.field in names
    ensures names != [] && !(i < |der| && der[i] == INTEGER) ==> r == Failure(ExpectedInteger(names[0]))
    ensures r.Success? ==> |r.value| == |names|
    ensures r.Success? ==> forall j :: 0 <= j < |r.value| ==> i < r.value[j].start
    decreases |names|
  {
    if names == [] then Success([])
    else
      var first :- IntegerAt(der, i, names[0]);
      var rest :- IntegersAt(der, first.1, names[1..]);
      Success([first.0] + rest)
  }

  /** The integers found lie one after another: each value ends before the next one starts. */
  lemma {:induction false} IntegersAtOrdered(der: seq<uint8>, i: nat, names: seq<string>)
    requires IntegersAt(der, i, names).Success?
    ensures var spans := IntegersAt(der, i, names).value;
      forall j, k :: 0 <= j < k < |spans| ==> SpanEnd(spans[j]) < spans[k].start
    decreases |names|
  {
    if names != [] {
      var first := IntegerAt(der, i, names[0]).value;
      IntegersAtOrdered(der, first.1, names[1..]);
    }
  }

  /** Where the version INTEGER starts: after the SEQUENCE tag and its (skipped) length. */
  function VersionStart(der: seq<uint8>): nat
  {
    if |der| > 1 && der[1] >= 0x80 then 2 + (der[1] - 0x80) else 2
  }

  /**
   * The walk as a whole: the spans of n and e (RSA) or p, q, g and y (any
   * other type), in the order they appear.
   */
  function PrivateFields(der: seq<uint8>, isRsa: bool): (r: Result<seq<Span>, KeyError>)
    ensures r == Failure(ExpectedSequence) <==> !(|der| > 0 && der[0] == SEQUENCE)
    ensures r.Failure? && r.error.ExpectedInteger? ==> r.error.field in ["version"] + FieldNames(isRsa)
    ensures |der| > 0 && der[0] == SEQUENCE && !(VersionStart(der) < |der| && der[VersionStart(der)] == INTEGER) ==>
      r == Failure(ExpectedInteger("version"))
    ensures r.Success? ==> |r.value| == |FieldNames(isRsa)|
    ensures r.Success? ==> forall j :: 0 <= j < |r.value| ==> SpanEnd(r.value[j]) <= |der|
  {
    if !(|der| > 0 && der[0] == SEQUENCE) then Failure(ExpectedSequence)
    else
      var version :- IntegerAt(der, VersionStart(der), "version");
      var fields :- IntegersAt(der, version.1, FieldNames(isRsa));
      if SpanEnd(fields[|fields| - 1]) > |der| then Failure(Truncated)
      else
        IntegersAtOrdered(der, version.1, FieldNames(isRsa));
        Success(fields)
  }

  /** The spans of a successful walk are in order and do not overlap. */
  lemma PrivateFieldsOrdered(der: seq<uint8>, isRsa: bool)
    requires PrivateFields(der, isRsa).Success?
    ensures var spans := PrivateFields(der, isRsa).value;
      forall j, k :: 0 <= j < k < |spans| ==> SpanEnd(spans[j]) < spans[k].start
  {
    var version := IntegerAt(der, VersionStart(der), "version").value;
    IntegersAtOrdered(der, version.1, FieldNames(isRsa));
  }

  // ----- the walk as the source writes it: a cursor and octet loops -----

  /** The length byte and, in the long form, the loop over its octets, most significant first. */
  method ReadLength(der: seq<uint8>, i: nat) returns (r: Result<(nat, nat), KeyError>)
    ensures r == LengthAt(der, i)
  {
    if i >= |der| {
      return Failure(Truncated);
    }
    var len: nat := der[i];
    var j := i + 1;
    if len >= 0x80 {
      var total := len - 0x80;
      var octets := total;
      len := 0;
      while octets > 0
        invariant j + octets == i + 1 + total && j <= |der|
        invariant len == BigEndian(der[i + 1..j]) * Pow256(octets)
      {
        if j >= |der| {
          return Failure(Truncated);
        }
        assert der[i + 1..j + 1] == der[i + 1..j] + [der[j]];
        BigEndianShift(der[i + 1..j], der[j], octets);
        len := len + der[j] * Pow256(octets - 1);
        j := j + 1;
        octets := octets - 1;
      }
    }
    return Success((len, j));
  }

  /** One more length byte: its weight is `256^(octets - 1)`. */
  lemma BigEndianShift(before: seq<uint8>, b: uint8, octets: nat)
    requires octets > 0
    ensures BigEndian(before + [b]) * Pow256(octets - 1)
         == BigEndian(before) * Pow256(octets) + b * Pow256(octets - 1)
  {
    var s := before + [b];
    assert s[..|s| - 1] == before;
    var x, w := BigEndian(before), Pow256(octets - 1);
    assert Pow256(octets) == 256 * w;
    calc {
      BigEndian(s) * w;
      (x * 256 + b) * w;
      x * (256 * w) + b * w;
    }
  }

  /** One field: the INTEGER tag test, its length, and the cursor moved past its value. */
  method ReadInteger(der: seq<uint8>, i: nat, name: string) returns (r: Result<(Span, nat), KeyError>)
    ensures r == IntegerAt(der, i, name)
  {
    if !(i < |der| && der[i] == INTEGER) {
      return Failure(ExpectedInteger(name));
    }
    var len := ReadLength(der, i + 1);
    if len.Failure? {
      return Failure(len.error);
    }
    var (n, start) := len.value;
    return Success((Span(start, n), start + n));
  }

  /** The RSA branch: `n`, then `e`. */
  method ReadRsaFields(der: seq<uint8>, i: nat) returns (r: Result<seq<Span>, KeyError>)
    ensures r == IntegersAt(der, i, FieldNames(true))
  {
    assert FieldNames(true)[1..] == ["e"] && ["e"][1..] == [];
    var n := ReadInteger(der, i, "n");
    if n.Failure? {
      return Failure(n.error);
    }
    var e := ReadInteger(der, n.value.1, "e");
    if e.Failure? {
      return Failure(e.error);
    }
    assert IntegersAt(der, e.value.1, []) == Success([]);
    assert [e.value.0] + [] == [e.value.0];
    assert [n.value.0] + [e.value.0] == [n.value.0, e.value.0];
    return Success([n.value.0, e.value.0]);
  }

  /** The DSA branch: `p`, `q`, `g`, then `y`. */
  method ReadDsaFields(der: seq<uint8>, i: nat) returns (r: Result<seq<Span>, KeyError>)
    ensures r == IntegersAt(der, i, FieldNames(false))
  {
    assert FieldNames(false)[1..] == ["q", "g", "y"] && ["q", "g", "y"][1..] == ["g", "y"];
    assert ["g", "y"][1..] == ["y"] && ["y"][1..] == [];
    var p := ReadInteger(der, i, "p");
    if p.Failure? {
      return Failure(p.error);
    }
    var q := ReadInteger(der, p.value.1, "q");
    if q.Failure? {
      return Failure(q.error);
    }
    var g := ReadInteger(der, q.value.1, "g");
    if g.Failure? {
      return Failure(g.error);
    }
    var y := ReadInteger(der, g.value.1, "y");
    if y.Failure? {
      return Failure(y.error);
    }
    assert IntegersAt(der, y.value.1, []) == Success([]);
    assert [y.value.0] + [] == [y.value.0];
    assert [g.value.0] + [y.value.0] == [g.value.0, y.value.0];
    assert [q.value.0] + [g.value.0, y.value.0] == [q.value.0, g.value.0, y.value.0];
    assert [p.value.0] + [q.value.0, g.value.0, y.value.0] == [p.value.0, q.value.0, g.value.0, y.value.0];
    return Success([p.value.0, q.value.0, g.value.0, y.value.0]);
  }

  /** The DER half of `genPublicKey`, from the SEQUENCE tag test to the last field. */
  method ParsePrivateKey(der: seq<uint8>, isRsa: bool) returns (r: Result<seq<Span>, KeyError>)
    ensures r == PrivateFields(der, isRsa)
  {
    if !(|der| > 0 && der[0] == SEQUENCE) {
      return Failure(ExpectedSequence);
    }
    var i: nat := 2;
    if |der| > 1 && der[1] >= 0x80 {
      i := i + (der[1] - 0x80);
    }
    var version := ReadInteger(der, i, "version");
    if version.Failure? {
      return Failure(version.error);
    }
    var fields;
    if isRsa {
      fields := ReadRsaFields(der, version.value.1);
    } else {
      fields := ReadDsaFields(der, version.value.1);
    }
    if fields.Failure? {
      return Failure(fields.error);
    }
    var spans := fields.value;
    if SpanEnd(spans[|spans| - 1]) > |der| {
      return Failure(Truncated);
    }
    return Success(spans);
  }

  // ----- a DER encoder, to state what the walk recovers -----

  /** The low `k` bytes of `n`, most significant first. */
  function BytesBE(n: nat, k: nat): (r: seq<uint8>)
    ensures |r| == k
  {
    if k == 0 then [] else BytesBE(n / 256, k - 1) + [n % 256]
  }

  lemma {:induction false} BytesBEValue(n: nat, k: nat)
    requires n < Pow256(k)
    ensures BigEndian(BytesBE(n, k)) == n
  {
    if k > 0 {
      var r := BytesBE(n, k);
      assert r[..k - 1] == BytesBE(n / 256, k - 1);
      BytesBEValue(n / 256, k - 1);
    }
  }

  /** How many bytes the long form needs for `n`. */
  function OctetCount(n: nat): (k: nat)
    ensures k >= 1
  {
    if n < 256 then 1 else 1 + OctetCount(n / 256)
  }

  /** `n` fits in `OctetCount(n)` bytes. */
  lemma {:induction false} OctetCountFits(n: nat)
    ensures n < Pow256(OctetCount(n))
  {
    if n >= 256 {
      OctetCountFits(n / 256);
    }
  }

  /** Below `256^k`, at most `k` bytes are needed. */
  lemma {:induction false} OctetCountAtMost(n: nat, k: nat)
    requires k >= 1 && n < Pow256(k)
    ensures OctetCount(n) <= k
  {
    if n >= 256 {
      assert k >= 2;
      assert n / 256 < Pow256(k - 1);
      OctetCountAtMost(n / 256, k - 1);
    }
  }

  /** The lengths this encoder writes: below 2^32, so at most four length bytes. */
  predicate Encodable(n: nat)
  {
    n < UINT32_LIMIT
  }

  /** The definite length encoding of `n`, short form when it fits. */
  function EncodeLength(n: nat): (r: seq<uint8>)
    requires Encodable(n)
    ensures |r| >= 1
  {
    if n < 0x80 then [n]
    else
      OctetCountAtMost(n, 4);
      [0x80 + OctetCount(n)] + BytesBE(n, OctetCount(n))
  }

  function EncodeInteger(v: seq<uint8>): seq<uint8>
    requires Encodable(|v|)
  {
    [INTEGER] + EncodeLength(|v|) + v
  }

  function EncodeIntegers(vs: seq<seq<uint8>>): seq<uint8>
    requires forall j :: 0 <= j < |vs| ==> Encodable(|vs[j]|)
  {
    if vs == [] then [] else EncodeInteger(vs[0]) + EncodeIntegers(vs[1..])
  }

  function EncodeSequence(body: seq<uint8>): seq<uint8>
    requires Encodable(|body|)
  {
    [SEQUENCE] + EncodeLength(|body|) + body
  }

  /** `enc` occurs in `der` at `i`. */
  predicate OccursAt(der: seq<uint8>, i: nat, enc: seq<uint8>)
  {
    i + |enc| <= |der| && der[i..i + |enc|] == enc
  }

  lemma OccursAtSplit(der: seq<uint8>, i: nat, a: seq<uint8>, b: seq<uint8>)
    requires OccursAt(der, i, a + b)
    ensures OccursAt(der, i, a) && OccursAt(der, i + |a|, b)
  {
    assert der[i..i + |a|] == (a + b)[..|a|];
    assert der[i + |a|..i + |a| + |b|] == (a + b)[|a|..];
  }

  /** The encoding of `n`, read on its own, is `n` and uses all of its bytes. */
  lemma LengthOfEncoding(n: nat)
    requires Encodable(n)
    ensures LengthAt(EncodeLength(n), 0) == Success((n, |EncodeLength(n)|))
  {
    if n >= 0x80 {
      var k := OctetCount(n);
      OctetCountFits(n);
      var e := EncodeLength(n);
      assert e[1..1 + k] == BytesBE(n, k);
      BytesBEValue(n, k);
    }
  }

  /** A length read depends only on the bytes it covers. */
  lemma LengthAtMoved(der: seq<uint8>, i: nat, e: seq<uint8>, n: nat)
    requires OccursAt(der, i, e) && LengthAt(e, 0) == Success((n, |e|))
    ensures LengthAt(der, i) == Success((n, i + |e|))
  {
    assert der[i] == e[0] by {
      assert der[i..i + |e|][0] == der[i];
    }
    if e[0] >= 0x80 {
      var k := e[0] - 0x80;
      assert der[i + 1..i + 1 + k] == e[1..1 + k];
    }
  }

  lemma IntegerAtEncoded(der: seq<uint8>, i: nat, v: seq<uint8>, name: string)
    requires Encodable(|v|) && OccursAt(der, i, EncodeInteger(v))
    ensures var start := i + 1 + |EncodeLength(|v|)|;
      IntegerAt(der, i, name) == Success((Span(start, |v|), start + |v|)) &&
      SpanEnd(Span(start, |v|)) <= |der| && Slice(der, Span(start, |v|)) == v
  {
    LengthOfEncoding(|v|);
    IntegerAtOf(der, i, EncodeLength(|v|), v, name);
  }

  /** An INTEGER tag, a length that reads back as `|v|`, then `v`. */
  lemma IntegerAtOf(der: seq<uint8>, i: nat, enc: seq<uint8>, v: seq<uint8>, name: string)
    requires OccursAt(der, i, [INTEGER] + enc + v)
    requires LengthAt(enc, 0) == Success((|v|, |enc|))
    ensures var start := i + 1 + |enc|;
      IntegerAt(der, i, name) == Success((Span(start, |v|), start + |v|)) &&
      start + |v| <= |der| && der[start..start + |v|] == v
  {
    var start := i + 1 + |enc|;
    OccursAtSplit(der, i, [INTEGER] + enc, v);
    OccursAtSplit(der, i, [INTEGER], enc);
    LengthAtMoved(der, i + 1, enc, |v|);
    assert der[i] == INTEGER by {
      assert der[i..i + 1 + |enc|][0] == der[i];
    }
  }

  /** The bytes of each span, in order (empty for a span past the end). */
  function Contents(der: seq<uint8>, spans: seq<Span>): (r: seq<seq<uint8>>)
    ensures |r| == |spans|
  {
    if spans == [] then []
    else [if SpanEnd(spans[0]) <= |der| then Slice(der, spans[0]) else []] + Contents(der, spans[1..])
  }

  /** The encoding of a non-empty list: the first INTEGER, then the others. */
  lemma IntegersAtTail(der: seq<uint8>, i: nat, vs: seq<seq<uint8>>)
    requires vs != [] && forall j :: 0 <= j < |vs| ==> Encodable(|vs[j]|)
    requires OccursAt(der, i, EncodeIntegers(vs))
    ensures Encodable(|vs[0]|) && forall j :: 0 <= j < |vs[1..]| ==> Encodable(|vs[1..][j]|)
    ensures OccursAt(der, i, EncodeInteger(vs[0]))
    ensures OccursAt(der, i + |EncodeInteger(vs[0])|, EncodeIntegers(vs[1..]))
    ensures |EncodeIntegers(vs)| == |EncodeInteger(vs[0])| + |EncodeIntegers(vs[1..])|
    ensures vs[1..] == [] ==> |EncodeIntegers(vs[1..])| == 0
  {
    OccursAtSplit(der, i, EncodeInteger(vs[0]), EncodeIntegers(vs[1..]));
  }

  /**
   * One encoded INTEGER at `i`, in front of the spans `later` found after
   * it, which end `tailLen` bytes after it: the spans found from `i`.
   */
  lemma IntegersAtJoin(der: seq<uint8>, i: nat, vs: seq<seq<uint8>>, names: seq<string>,
                       next: nat, later: seq<Span>, tailLen: nat)
    returns (spans: seq<Span>)
    requires vs != [] && |vs| == |names| && Encodable(|vs[0]|)
    requires OccursAt(der, i, EncodeInteger(vs[0])) && next == i + |EncodeInteger(vs[0])|
    requires IntegersAt(der, next, names[1..]) == Success(later)
    requires Contents(der, later) == vs[1..]
    requires vs[1..] == [] ==> tailLen == 0
    requires vs[1..] != [] ==> SpanEnd(later[|vs| - 2]) == next + tailLen
    ensures IntegersAt(der, i, names) == Success(spans)
    ensures Contents(der, spans) == vs
    ensures SpanEnd(spans[|vs| - 1]) == next + tailLen
  {
    IntegerAtEncoded(der, i, vs[0], names[0]);
    var first := Span(i + 1 + |EncodeLength(|vs[0]|)|, |vs[0]|);
    IntegersAtCons(der, i, names, first, next, later);
    spans := [first] + later;
    ContentsCons(der, first, later);
    HeadTail(vs);
    if |vs| > 1 {
      assert spans[|vs| - 1] == later[|vs| - 2];
    }
  }

  lemma ContentsCons(der: seq<uint8>, s: Span, later: seq<Span>)
    requires SpanEnd(s) <= |der|
    ensures Contents(der, [s] + later) == [Slice(der, s)] + Contents(der, later)
  {
    assert ([s] + later)[1..] == later;
  }

  /** A first INTEGER read, then the rest from where it ends: the walk from `i`. */
  lemma IntegersAtCons(der: seq<uint8>, i: nat, names: seq<string>, first: Span, next: nat, later: seq<Span>)
    requires names != []
    requires IntegerAt(der, i, names[0]) == Success((first, next))
    requires IntegersAt(der, next, names[1..]) == Success(later)
    ensures IntegersAt(der, i, names) == Success([first] + later)
  {
  }

  /** Encoded INTEGERs are found again, one span per value, the last ending where the encoding ends. */
  lemma {:induction false} IntegersAtEncoded(der: seq<uint8>, i: nat, vs: seq<seq<uint8>>, names: seq<string>)
    returns (spans: seq<Span>)
    requires |vs| == |names|
    requires forall j :: 0 <= j < |vs| ==> Encodable(|vs[j]|)
    requires OccursAt(der, i, EncodeIntegers(vs))
    ensures IntegersAt(der, i, names) == Success(spans)
    ensures Contents(der, spans) == vs
    ensures vs != [] ==> SpanEnd(spans[|vs| - 1]) == i + |EncodeIntegers(vs)|
    decreases |vs|
  {
    if vs == [] {
      spans := [];
    } else {
      IntegersAtTail(der, i, vs);
      var next := i + |EncodeInteger(vs[0])|;
      var later := IntegersAtEncoded(der, next, vs[1..], names[1..]);
      spans := IntegersAtJoin(der, i, vs, names, next, later, |EncodeIntegers(vs[1..])|);
    }
  }

  /** A non-empty sequence is its head followed by its tail. */
  lemma HeadTail<T>(s: seq<T>)
    requires s != []
    ensures s == [s[0]] + s[1..]
  {
  }

  /**
   * Walking an encoded private key (a SEQUENCE of a version INTEGER, the
   * type's INTEGERs and anything after them) yields spans that cover
   * exactly the encoded values, in order.
   */
  lemma PrivateFieldsOfEncoded(version: seq<uint8>, vs: seq<seq<uint8>>, rest: seq<uint8>, isRsa: bool)
    requires |vs| == |FieldNames(isRsa)|
    requires Encodable(|version|) && forall j :: 0 <= j < |vs| ==> Encodable(|vs[j]|)
    requires Encodable(|EncodeInteger(version) + EncodeIntegers(vs) + rest|)
    ensures var der := EncodeSequence(EncodeInteger(version) + EncodeIntegers(vs) + rest);
      var r := PrivateFields(der, isRsa);
      r.Success? && Contents(der, r.value) == vs
  {
    var ver, ints := EncodeInteger(version), EncodeIntegers(vs);
    var body := ver + ints + rest;
    var der := EncodeSequence(body);
    var start := SequenceHeader(body);
    OccursAtSplit(der, start, ver + ints, rest);
    OccursAtSplit(der, start, ver, ints);
    IntegerAtEncoded(der, start, version, "version");
    var i := start + |ver|;
    var spans := IntegersAtEncoded(der, i, vs, FieldNames(isRsa));
    PrivateFieldsWhen(der, isRsa, i, spans);
  }

  /** A SEQUENCE's contents start right after its tag and length, where the walk looks for the version. */
  lemma SequenceHeader(body: seq<uint8>) returns (start: nat)
    requires Encodable(|body|)
    ensures var der := EncodeSequence(body);
      start == VersionStart(der) && |der| > 0 && der[0] == SEQUENCE && OccursAt(der, start, body)
  {
    var der := EncodeSequence(body);
    var hdr := [SEQUENCE] + EncodeLength(|body|);
    start := |hdr|;
    assert der == hdr + body;
    assert VersionStart(der) == |hdr| by {
      if |body| >= 0x80 {
        assert der[1] == 0x80 + OctetCount(|body|);
      }
    }
    assert der[|hdr|..] == body;
  }

  lemma PrivateFieldsWhen(der: seq<uint8>, isRsa: bool, i: nat, spans: seq<Span>)
    requires |der| > 0 && der[0] == SEQUENCE
    requires IntegerAt(der, VersionStart(der), "version").Success?
    requires IntegerAt(der, VersionStart(der), "version").value.1 == i
    requires IntegersAt(der, i, FieldNames(isRsa)) == Success(spans)
    requires SpanEnd(spans[|spans| - 1]) <= |der|
    ensures PrivateFields(der, isRsa) == Success(spans)
  {
  }
}
