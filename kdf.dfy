/**
 * The legacy passphrase-to-key derivation of `decryptKey`: a key length
 * looked up from the cipher name, then MD5 outputs chained until the key
 * is that long. MD5 itself is a parameter (any function with 16-byte
 * output).
 */
module LegacyKdf {
  import opened Bytes

  type Digest = s: seq<uint8> | |s| == 16 witness [0, 0, 0, 0, 0, 0, 0, 0, 0, 0, 0, 0, 0, 0, 0, 0]

  /** The `switch` on the OpenSSL cipher name: bytes of key each cipher needs. */
  const KEY_LENGTHS: map<string, nat> := map[
    "aes-256-cbc" := 32, "aes-256-ctr" := 32,
    "des-ede3-cbc" := 24, "des-ede3" := 24, "aes-192-cbc" := 24, "aes-192-ctr" := 24,
    "aes-128-cbc" := 16, "aes-128-ctr" := 16, "cast-cbc" := 16, "bf-cbc" := 16
  ]

  /** The key length for `cipher`; a name the table does not list gets 0. */
  function KeyLength(cipher: string): (n: nat)
    ensures n in {0, 16, 24, 32}
    ensures n == 0 <==> cipher !in KEY_LENGTHS
    ensures cipher in KEY_LENGTHS ==> n == KEY_LENGTHS[cipher]
  {
    if cipher in KEY_LENGTHS then KEY_LENGTHS[cipher] else 0
  }

  lemma KeyLengthExamples()
    ensures KeyLength("aes-256-cbc") == 32 && KeyLength("des-ede3-cbc") == 24
    ensures KeyLength("aes-128-cbc") == 16 && KeyLength("bf-cbc") == 16
    ensures KeyLength("aes-128-gcm") == 0
  {
  }

  /** The first 8 bytes of the IV (fewer if it is shorter): `iv.toString('binary', 0, 8)`. */
  function Salt(iv: seq<uint8>): (r: seq<uint8>)
    ensures |r| == if |iv| < 8 then |iv| else 8
    ensures r <= iv
  {
    if |iv| < 8 then iv else iv[..8]
  }

  /** Where the 8-byte block holding key byte `k` (k >= 16) begins. */
  function BlockStart(k: nat): (b: nat)
    requires k >= 16
    ensures 16 <= b <= k < b + 8 && (b - 16) % 8 == 0
  {
    k - (k - 16) % 8
  }

  /**
   * What the key loop of `decryptKey` produces: `keylen` bytes, the first
   * (up to) 16 of MD5(passphrase || salt), and every later byte taken from
   * the first half of MD5(the key's preceding 8-byte blocks || passphrase ||
   * whole IV).
   */
  predicate IsDerivedKey(md5: seq<uint8> -> Digest, passphrase: seq<uint8>, iv: seq<uint8>, keylen: nat,
                         key: seq<uint8>)
  {
    |key| == keylen &&
    (forall k :: 0 <= k < keylen && k < 16 ==> key[k] == md5(passphrase + Salt(iv))[k]) &&
    (forall k :: 16 <= k < keylen ==> key[k] == md5(key[..BlockStart(k)] + passphrase + iv)[(k - 16) % 8])
  }

  /** The description above fixes the key: two keys that meet it are equal. */
  lemma IsDerivedKeyUnique(md5: seq<uint8> -> Digest, passphrase: seq<uint8>, iv: seq<uint8>, keylen: nat,
                           k1: seq<uint8>, k2: seq<uint8>)
    requires IsDerivedKey(md5, passphrase, iv, keylen, k1)
    requires IsDerivedKey(md5, passphrase, iv, keylen, k2)
    ensures k1 == k2
  {
    DerivedPrefixesAgree(md5, passphrase, iv, keylen, k1, k2, keylen);
  }

  lemma {:induction false} DerivedPrefixesAgree(md5: seq<uint8> -> Digest, passphrase: seq<uint8>, iv: seq<uint8>,
                                                keylen: nat, k1: seq<uint8>, k2: seq<uint8>, n: nat)
    requires IsDerivedKey(md5, passphrase, iv, keylen, k1)
    requires IsDerivedKey(md5, passphrase, iv, keylen, k2)
    requires n <= keylen
    ensures k1[..n] == k2[..n]
    decreases n
  {
    if n > 0 {
      DerivedPrefixesAgree(md5, passphrase, iv, keylen, k1, k2, n - 1);
      var k := n - 1;
      if k >= 16 {
        assert k1[..BlockStart(k)] == k1[..k][..BlockStart(k)];
        assert k2[..BlockStart(k)] == k2[..k][..BlockStart(k)];
      }
      assert k1[..n] == k1[..k] + [k1[k]];
      assert k2[..n] == k2[..k] + [k2[k]];
    }
  }

  /** The loop as a recursion: keep appending 8-byte blocks while the key is short. */
  function Extend(md5: seq<uint8> -> Digest, passphrase: seq<uint8>, iv: seq<uint8>, key: seq<uint8>,
                  keylen: nat): (r: seq<uint8>)
    ensures |r| >= |key| && |r| >= keylen && r[..|key|] == key
    decreases keylen - |key|
  {
    if keylen > |key| then Extend(md5, passphrase, iv, key + md5(key + passphrase + iv)[..8], keylen)
    else key
  }

  /** The derived key as a value: the first digest, extended, cut to `keylen`. */
  function DerivedKey(md5: seq<uint8> -> Digest, passphrase: seq<uint8>, iv: seq<uint8>, keylen: nat): seq<uint8>
  {
    Extend(md5, passphrase, iv, md5(passphrase + Salt(iv)), keylen)[..keylen]
  }

  /** Extending keeps the block structure of the key. */
  lemma {:induction false} ExtendKeepsBlocks(md5: seq<uint8> -> Digest, passphrase: seq<uint8>, iv: seq<uint8>,
                                             key: seq<uint8>, keylen: nat)
    requires |key| >= 16 && (|key| - 16) % 8 == 0
    requires forall k :: 16 <= k < |key| ==> key[k] == md5(key[..BlockStart(k)] + passphrase + iv)[(k - 16) % 8]
    ensures var r := Extend(md5, passphrase, iv, key, keylen);
      forall k :: 16 <= k < |r| ==> r[k] == md5(r[..BlockStart(k)] + passphrase + iv)[(k - 16) % 8]
    decreases keylen - |key|
  {
    if keylen > |key| {
      var next := key + md5(key + passphrase + iv)[..8];
      assert next[..|key|] == key;
      forall k | 16 <= k < |next|
        ensures next[k] == md5(next[..BlockStart(k)] + passphrase + iv)[(k - 16) % 8]
      {
        assert next[..BlockStart(k)] == key[..BlockStart(k)] by {
          if k < |key| {
            assert BlockStart(k) <= |key|;
          } else {
            assert BlockStart(k) == |key|;
          }
        }
      }
      ExtendKeepsBlocks(md5, passphrase, iv, next, keylen);
    }
  }

  /** The value meets the description, so by uniqueness it is the only key that does. */
  lemma DerivedKeyIsDerived(md5: seq<uint8> -> Digest, passphrase: seq<uint8>, iv: seq<uint8>, keylen: nat)
    ensures IsDerivedKey(md5, passphrase, iv, keylen, DerivedKey(md5, passphrase, iv, keylen))
  {
    var first := md5(passphrase + Salt(iv));
    var full := Extend(md5, passphrase, iv, first, keylen);
    ExtendKeepsBlocks(md5, passphrase, iv, first, keylen);
    var key := full[..keylen];
    forall k | 0 <= k < keylen && k < 16
      ensures key[k] == first[k]
    {
      assert full[..16] == first;
    }
    forall k | 16 <= k < keylen
      ensures key[..BlockStart(k)] == full[..BlockStart(k)]
    {
    }
  }

  /**
   * The key loop of `decryptKey`. The first 16 bytes are
   * MD5(passphrase || salt); each further 8-byte block is the first half of
   * MD5(key so far || passphrase || whole IV); the result is cut to `keylen`.
   */
  method DeriveKey(md5: seq<uint8> -> Digest, passphrase: seq<uint8>, iv: seq<uint8>, keylen: nat)
    returns (key: seq<uint8>)
    ensures key == DerivedKey(md5, passphrase, iv, keylen)
  {
    var first := md5(passphrase + Salt(iv));
    key := first;
    while keylen > |key|
      invariant |key| >= 16 && (|key| - 16) % 8 == 0
      invariant key[..16] == first
      invariant forall k :: 16 <= k < |key| ==>
        key[k] == md5(key[..BlockStart(k)] + passphrase + iv)[(k - 16) % 8]
      decreases keylen - |key|
    {
      var block := md5(key + passphrase + iv)[..8];
      ghost var before := key;
      key := key + block;
      assert key[..|before|] == before;
      forall k | 16 <= k < |key|
        ensures key[k] == md5(key[..BlockStart(k)] + passphrase + iv)[(k - 16) % 8]
      {
        assert key[..BlockStart(k)] == before[..BlockStart(k)] by {
          if k < |before| {
            assert BlockStart(k) <= |before|;
          } else {
            assert BlockStart(k) == |before|;
          }
        }
      }
    }
    if |key| > keylen {
      ghost var full := key;
      key := key[..keylen];
      forall k | 16 <= k < keylen
        ensures key[..BlockStart(k)] == full[..BlockStart(k)]
      {
      }
    }
    assert IsDerivedKey(md5, passphrase, iv, keylen, key);
    DerivedKeyIsDerived(md5, passphrase, iv, keylen);
    IsDerivedKeyUnique(md5, passphrase, iv, keylen, key, DerivedKey(md5, passphrase, iv, keylen));
  }

  /**
   * OpenSSL's `EVP_BytesToKey` with MD5 and a single round:
   * D1 = MD5(passphrase || salt), Di = MD5(D(i-1) || passphrase || salt).
   */
  function BytesToKey(md5: seq<uint8> -> Digest, passphrase: seq<uint8>, salt: seq<uint8>, keylen: nat): (r: seq<uint8>)
    ensures |r| == keylen
  {
    BytesToKeyFrom(md5, passphrase, salt, [], keylen)
  }

  function BytesToKeyFrom(md5: seq<uint8> -> Digest, passphrase: seq<uint8>, salt: seq<uint8>,
                          previous: seq<uint8>, keylen: nat): (r: seq<uint8>)
    ensures |r| == keylen
    decreases keylen
  {
    var d := md5(previous + passphrase + salt);
    if keylen <= 16 then d[..keylen] else d + BytesToKeyFrom(md5, passphrase, salt, d, keylen - 16)
  }

  /** Up to 16 bytes the derivation agrees with `EVP_BytesToKey`. */
  lemma AgreesWithBytesToKeyUpTo16(md5: seq<uint8> -> Digest, passphrase: seq<uint8>,
                                   iv: seq<uint8>, keylen: nat, key: seq<uint8>)
    requires keylen <= 16 && IsDerivedKey(md5, passphrase, iv, keylen, key)
    ensures key == BytesToKey(md5, passphrase, Salt(iv), keylen)
  {
    assert [] + passphrase + Salt(iv) == passphrase + Salt(iv);
  }

  /**
   * With an 8-byte IV (DES-EDE3-CBC) the salt is the whole IV, and the
   * derivation agrees with `EVP_BytesToKey` up to 24 bytes.
   */
  lemma AgreesWithBytesToKeyFor8ByteIv(md5: seq<uint8> -> Digest, passphrase: seq<uint8>,
                                       iv: seq<uint8>, keylen: nat, key: seq<uint8>)
    requires |iv| == 8 && keylen <= 24 && IsDerivedKey(md5, passphrase, iv, keylen, key)
    ensures key == BytesToKey(md5, passphrase, Salt(iv), keylen)
  {
    if keylen <= 16 {
      AgreesWithBytesToKeyUpTo16(md5, passphrase, iv, keylen, key);
    } else {
      var d1 := md5([] + passphrase + iv);
      assert [] + passphrase + iv == passphrase + Salt(iv);
      assert key[..16] == d1;
      var d2 := md5(d1 + passphrase + iv);
      assert BytesToKeyFrom(md5, passphrase, iv, d1, keylen - 16) == d2[..keylen - 16];
      forall k | 16 <= k < keylen
        ensures key[k] == d2[k - 16]
      {
        assert BlockStart(k) == 16;
      }
      assert Salt(iv) == iv;
      assert BytesToKey(md5, passphrase, iv, keylen) == d1 + BytesToKeyFrom(md5, passphrase, iv, d1, keylen - 16);
      assert key == d1 + d2[..keylen - 16];
    }
  }

  /** A digest that only records the length of its input, to tell the two derivations apart. */
  function LengthDigest(x: seq<uint8>): Digest
  {
    [|x| % 256, 0, 0, 0, 0, 0, 0, 0, 0, 0, 0, 0, 0, 0, 0, 0]
  }

  /**
   * With a 16-byte IV (the AES ciphers) and a key longer than 16 bytes the
   * derivation is not `EVP_BytesToKey`: byte 16 hashes the whole IV where
   * `EVP_BytesToKey` hashes only the 8-byte salt.
   */
  lemma DiffersFromBytesToKeyFor16ByteIv(key: seq<uint8>)
    requires IsDerivedKey(LengthDigest, [], seq(16, _ => 0), 24, key)
    ensures key != BytesToKey(LengthDigest, [], Salt(seq(16, _ => 0)), 24)
  {
    var iv: seq<uint8> := seq(16, _ => 0);
    assert key[16] == LengthDigest(key[..BlockStart(16)] + [] + iv)[0] == 32;
    var b := BytesToKey(LengthDigest, [], Salt(iv), 24);
    var d1 := LengthDigest([] + [] + Salt(iv));
    assert b == d1 + BytesToKeyFrom(LengthDigest, [], Salt(iv), d1, 8);
    assert b[16] == LengthDigest(d1 + [] + Salt(iv))[0] == 24;
  }

  /**
   * A 32-byte key differs from `EVP_BytesToKey` even with an 8-byte IV:
   * byte 24 hashes the whole 24-byte key so far, where `EVP_BytesToKey`
   * takes byte 8 of its second digest.
   */
  lemma DiffersFromBytesToKeyAt32Bytes(key: seq<uint8>)
    requires IsDerivedKey(LengthDigest, [], seq(8, _ => 0), 32, key)
    ensures key != BytesToKey(LengthDigest, [], Salt(seq(8, _ => 0)), 32)
  {
    var iv: seq<uint8> := seq(8, _ => 0);
    assert key[24] == LengthDigest(key[..BlockStart(24)] + [] + iv)[0] == 32;
    var b := BytesToKey(LengthDigest, [], Salt(iv), 32);
    var d1 := LengthDigest([] + [] + Salt(iv));
    var d2 := LengthDigest(d1 + [] + Salt(iv));
    assert d2[..16] == d2;
    assert BytesToKeyFrom(LengthDigest, [], Salt(iv), d1, 16) == d2;
    assert b == d1 + BytesToKeyFrom(LengthDigest, [], Salt(iv), d1, 16);
    assert b[24] == d2[8] == 0;
  }
}
