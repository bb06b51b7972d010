/**
 * The key record `parseKey` produces and `decryptKey` rewrites in place:
 * the cipher name is mapped to OpenSSL's name, the key is derived from
 * the passphrase and the IV, the body is deciphered, and the armoured
 * text is rebuilt around the new base64 body.
 */
module Keys {
  import opened Bytes
  import opened Wrappers
  import opened LegacyKdf
  import opened Armor

  class KeyInfo {
    var keyType: string
    var encryption: string
    var extra: seq<string>
    var privateKey: Option<seq<uint8>>
    var privateOrig: string
    var publicKey: Option<seq<uint8>>

    constructor (keyType: string, encryption: string, extra: seq<string>,
                 privateKey: Option<seq<uint8>>, privateOrig: string, publicKey: Option<seq<uint8>>)
      ensures this.keyType == keyType && this.encryption == encryption && this.extra == extra
      ensures this.privateKey == privateKey && this.privateOrig == privateOrig
      ensures this.publicKey == publicKey
    {
      this.keyType := keyType;
      this.encryption := encryption;
      this.extra := extra;
      this.privateKey := privateKey;
      this.privateOrig := privateOrig;
      this.publicKey := publicKey;
    }

    /**
     * `decryptKey(keyInfo, passphrase)`. The effects happen in the source's
     * order: a missing or malformed IV stops before anything changes; the cipher name is
     * replaced before the decipher can fail; the body and the armoured text
     * change together, and only when everything succeeded.
     */
    method DecryptKey(lib: Primitives, passphrase: string) returns (r: Result<(), DecryptError>)
      modifies this
      ensures keyType == old(keyType) && extra == old(extra) && publicKey == old(publicKey)
      ensures old(extra) == [] ==> r == Failure(MissingIv) && unchanged(this)
      ensures old(extra) != [] && HexDecode(old(extra[0])).None? ==> r == Failure(MalformedIv) && unchanged(this)
      ensures old(extra) != [] && HexDecode(old(extra[0])).Some? ==>
        encryption == MappedCipher(lib.sshToOpenssl, old(encryption))
      ensures old(extra) != [] && HexDecode(old(extra[0])).Some? ==>
        var d := Decrypted(lib, passphrase, HexDecode(old(extra[0])).value, encryption, old(privateKey), old(privateOrig));
        (d.Success? ==> r.Success? && privateKey == Some(d.value.0) && privateOrig == d.value.1) &&
        (d.Failure? ==> r == Failure(d.error) && privateKey == old(privateKey) && privateOrig == old(privateOrig))
    {
      if extra == [] {
        return Failure(MissingIv);
      }
      var ivBytes := HexDecode(extra[0]);
      if ivBytes.None? {
        return Failure(MalformedIv);
      }
      var iv := ivBytes.value;
      encryption := MappedCipher(lib.sshToOpenssl, encryption);
      var keylen := KeyLength(encryption);
      var key := DeriveKey(lib.md5, Latin1(passphrase), iv, keylen);
      // the steps that can throw, in order; nothing below changes until all succeeded
      var outcome: Result<(seq<uint8>, string), DecryptError>;
      if privateKey.None? {
        outcome := Failure(DecryptionFailed);
      } else {
        var out := lib.decipher(encryption, key, iv, privateKey.value);
        if out.None? {
          outcome := Failure(DecryptionFailed);
        } else {
          var armored := Rearmored(privateOrig, lib.base64(out.value));
          if armored.Failure? {
            outcome := Failure(armored.error);
          } else {
            outcome := Success((out.value, armored.value));
          }
        }
      }
      assert outcome == Decrypted(lib, passphrase, iv, encryption, privateKey, privateOrig);
      if outcome.Failure? {
        return Failure(outcome.error);
      }
      privateKey := Some(outcome.value.0);
      privateOrig := outcome.value.1;
      r := Success(());
    }
  }

  /** The calls `decryptKey` makes into code that is not modelled. */
  datatype Primitives = Primitives(
    md5: seq<uint8> -> Digest,
    decipher: (string, seq<uint8>, seq<uint8>, seq<uint8>) -> Option<seq<uint8>>,
    base64: seq<uint8> -> Base64Text,
    sshToOpenssl: map<string, string>)

  datatype DecryptError =
    | MissingIv         // `keyInfo.extra[0]` is absent
    | MalformedIv       // the IV is not an even number of hex digits
    | DecryptionFailed  // the decipher throws (unknown cipher, wrong key size, no body)
    | MalformedArmor    // the header or footer regex does not match
    | EmptyBody         // `.match(/.{1,70}/g)` is null on an empty base64 body

  /** A character of Node's 'hex' encoding, in either case. */
  predicate IsHexDigit(c: char)
  {
    '0' <= c <= '9' || 'a' <= c <= 'f' || 'A' <= c <= 'F'
  }

  function HexValue(c: char): (r: nat)
    requires IsHexDigit(c)
    ensures r < 16
  {
    if '0' <= c <= '9' then c as int - '0' as int
    else if 'a' <= c <= 'f' then c as int - 'a' as int + 10
    else c as int - 'A' as int + 10
  }

  /**
   * `new Buffer(s, 'hex')`: two digits per byte, the high nibble first. An odd
   * length or a character that is not a hex digit throws "Invalid hex string".
   */
  function HexDecode(s: string): Option<seq<uint8>>
    decreases |s|
  {
    if s == [] then Some([])
    else if |s| == 1 || !IsHexDigit(s[0]) || !IsHexDigit(s[1]) then None
    else
      match HexDecode(s[2..])
      case None => None
      case Some(rest) => Some([16 * HexValue(s[0]) + HexValue(s[1])] + rest)
  }

  /** The decode succeeds exactly on an even number of hex digits. */
  lemma {:induction false} HexDecodeDefined(s: string)
    ensures HexDecode(s).Some? <==> |s| % 2 == 0 && forall k :: 0 <= k < |s| ==> IsHexDigit(s[k])
    decreases |s|
  {
    if |s| >= 2 {
      HexDecodeDefined(s[2..]);
      assert forall k :: 2 <= k < |s| ==> s[2..][k - 2] == s[k];
    }
  }

  /** Byte j of a successful decode is the value of digits 2j and 2j+1. */
  lemma {:induction false} HexDecodeBytes(s: string)
    requires HexDecode(s).Some?
    ensures |HexDecode(s).value| == |s| / 2
    ensures forall j :: 0 <= j < |HexDecode(s).value| ==>
      IsHexDigit(s[2 * j]) && IsHexDigit(s[2 * j + 1]) &&
      HexDecode(s).value[j] == 16 * HexValue(s[2 * j]) + HexValue(s[2 * j + 1])
    decreases |s|
  {
    if s != [] {
      var t := s[2..];
      HexDecodeBytes(t);
      var v, w := HexDecode(s).value, HexDecode(t).value;
      assert v == [16 * HexValue(s[0]) + HexValue(s[1])] + w;
      forall j | 1 <= j < |v|
        ensures IsHexDigit(s[2 * j]) && IsHexDigit(s[2 * j + 1]) &&
          v[j] == 16 * HexValue(s[2 * j]) + HexValue(s[2 * j + 1])
      {
        assert v[j] == w[j - 1];
        assert s[2 * j] == t[2 * (j - 1)] && s[2 * j + 1] == t[2 * (j - 1) + 1];
      }
    }
  }

  /** The digit for a value below 16, lower case. */
  function HexChar(n: nat): (c: char)
    requires n < 16
    ensures IsHexDigit(c) && HexValue(c) == n
  {
    if n < 10 then ('0' as int + n) as char else ('a' as int + n - 10) as char
  }

  /** The lower-case hex spelling of bytes, two digits each. */
  function HexEncode(b: seq<uint8>): (r: string)
    ensures |r| == 2 * |b|
  {
    if b == [] then "" else [HexChar(b[0] / 16), HexChar(b[0] % 16)] + HexEncode(b[1..])
  }

  /** Hex-decoding the spelling of some bytes gives those bytes back. */
  lemma {:induction false} HexDecodeOfEncode(b: seq<uint8>)
    ensures HexDecode(HexEncode(b)) == Some(b)
  {
    if b != [] {
      HexDecodeOfEncode(b[1..]);
      var hi, lo := HexChar(b[0] / 16), HexChar(b[0] % 16);
      HexDecodeCons(hi, lo, HexEncode(b[1..]));
      assert [b[0]] + b[1..] == b;
    }
  }

  /** Two hex digits in front of a decodable text decode to one more byte in front. */
  lemma HexDecodeCons(hi: char, lo: char, t: string)
    requires IsHexDigit(hi) && IsHexDigit(lo) && HexDecode(t).Some?
    ensures HexDecode([hi, lo] + t) == Some([16 * HexValue(hi) + HexValue(lo)] + HexDecode(t).value)
  {
    assert ([hi, lo] + t)[2..] == t;
  }

  /** `SSH_TO_OPENSSL[name] || name`: an absent or empty mapping keeps the name. */
  function MappedCipher(table: map<string, string>, name: string): (r: string)
    ensures name in table && table[name] != "" ==> r == table[name]
    ensures !(name in table && table[name] != "") ==> r == name
  {
    if name in table && table[name] != "" then table[name] else name
  }

  /**
   * What `decryptKey` computes from the record: the cleartext body and the
   * rebuilt armoured text, or the first error on the way.
   */
  function Decrypted(lib: Primitives, passphrase: string, iv: seq<uint8>, cipher: string,
                     body: Option<seq<uint8>>, orig: string): Result<(seq<uint8>, string), DecryptError>
  {
    var key := DerivedKey(lib.md5, Latin1(passphrase), iv, KeyLength(cipher));
    if body.None? then Failure(DecryptionFailed)
    else
      match lib.decipher(cipher, key, iv, body.value)
      case None => Failure(DecryptionFailed)
      case Some(out) =>
        var text :- Rearmored(orig, lib.base64(out));
        Success((out, text))
  }

  /**
   * The new armoured text: the old first line with its line break, the
   * base64 body in lines of at most 70 characters joined by "\n", and the
   * old last line with the line break before it.
   */
  function Rearmored(orig: string, b64: Base64Text): Result<string, DecryptError>
  {
    match Header(orig)
    case None => Failure(MalformedArmor)
    case Some(h) =>
      if b64 == "" then Failure(EmptyBody)
      else
        match Footer(orig)
        case None => Failure(MalformedArmor)
        case Some(f) => Success(h + Chunked(b64, 70) + f)
  }

  /**
   * The rebuild fails with `MalformedArmor` exactly when the header regex
   * fails, or the footer regex fails on a non-empty body; with `EmptyBody`
   * exactly when the header matches and the body is empty; and otherwise
   * succeeds with header, body and footer.
   */
  lemma RearmoredOutcome(orig: string, b64: Base64Text)
    ensures var r := Rearmored(orig, b64);
      (r.Failure? ==> r.error in {MalformedArmor, EmptyBody}) &&
      (r.Failure? && r.error == MalformedArmor <==> Header(orig).None? || (b64 != "" && Footer(orig).None?)) &&
      (r.Failure? && r.error == EmptyBody <==> Header(orig).Some? && b64 == "") &&
      (r.Success? ==>
        (Header(orig).Some? && Footer(orig).Some? &&
         HeaderMatch(orig, Header(orig).value) && FooterMatch(orig, Footer(orig).value) &&
         r.value == Header(orig).value + Chunked(b64, 70) + Footer(orig).value))
  {
    FooterSpec(orig);
  }

  /** The rebuilt text keeps the old header and footer and carries the new body, 70 columns wide. */
  lemma RearmoredShape(orig: string, b64: Base64Text)
    requires Rearmored(orig, b64).Success?
    ensures var r := Rearmored(orig, b64).value;
      var h := Header(orig).value;
      var f := Footer(orig).value;
      var body := r[|h|..|r| - |f|];
      r[..|h|] == h && r[|r| - |f|..] == f &&
      h <= orig && f == orig[|orig| - |f|..] &&
      StripNewlines(body) == b64 &&
      forall k :: 0 <= k < |body| ==> (body[k] == '\n' <==> k % 71 == 70)
  {
    FooterSpec(orig);
    var h := Header(orig).value;
    var f := Footer(orig).value;
    var c := Chunked(b64, 70);
    var r := h + c + f;
    assert r[|h|..|r| - |f|] == c;
    assert NoTerminators(b64) by {
      forall k | 0 <= k < |b64|
        ensures !IsLineTerminator(b64[k])
      {
        assert IsBase64Char(b64[k]);
      }
    }
    Chunked70Shape(b64);
  }
}
