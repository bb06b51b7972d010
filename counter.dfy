/**
 * `iv_inc`: the invocation counter of an AES-GCM nonce (section 7.1 of
 * RFC 5647). The 12-byte nonce is a 4-byte fixed field followed by an
 * 8-byte big-endian counter; only the counter moves.
 */
module Counter {
  import opened Bytes

  const FIXED_LEN: nat := 4
  const NONCE_LEN: nat := 12

  function Zeros(n: nat): (r: seq<uint8>)
    ensures |r| == n && forall k :: 0 <= k < n ==> r[k] == 0
  {
    seq(n, _ => 0)
  }

  /** Big-endian increment with carry; all-255 wraps to all-zero. */
  function Increment(s: seq<uint8>): (r: seq<uint8>)
    ensures |r| == |s|
  {
    if s == [] then []
    else if s[|s| - 1] == 255 then Increment(s[..|s| - 1]) + [0]
    else s[..|s| - 1] + [s[|s| - 1] + 1]
  }

  /** The increment adds one to the number the bytes spell, modulo 256^|s|. */
  lemma {:induction false} IncrementValue(s: seq<uint8>)
    ensures BigEndian(Increment(s)) == (BigEndian(s) + 1) % Pow256(|s|)
  {
    if s != [] {
      var init, last := s[..|s| - 1], s[|s| - 1];
      var r := Increment(s);
      var m, b := Pow256(|init|), BigEndian(init);
      BigEndianBound(init);
      assert Pow256(|s|) == 256 * m;
      assert BigEndian(s) == b * 256 + last;
      if last == 255 {
        IncrementValue(init);
        assert r[..|r| - 1] == Increment(init);
        var b' := BigEndian(Increment(init));
        assert BigEndian(r) == b' * 256;
        if b + 1 == m {
          ModSelf(m);
          assert b' == 0;
          ModSelf(256 * m);
        } else {
          ModSmall(b + 1, m);
          assert b' == b + 1;
          ModSmall((b + 1) * 256, 256 * m);
        }
      } else {
        assert r[..|r| - 1] == init;
        assert BigEndian(r) == b * 256 + last + 1;
        ModSmall(b * 256 + last + 1, 256 * m);
      }
    }
  }

  lemma ModSmall(x: nat, m: nat)
    requires x < m
    ensures x % m == x
  {
  }

  lemma ModSelf(m: nat)
    requires m > 0
    ensures m % m == 0
  {
  }

  /**
   * Where the carry stops: `m` is the last byte below 255; the bytes after
   * it become zero and it goes up by one.
   */
  lemma {:induction false} IncrementAt(s: seq<uint8>, m: nat)
    requires m < |s| && s[m] != 255
    requires forall j :: m < j < |s| ==> s[j] == 255
    ensures Increment(s) == s[..m] + [s[m] + 1] + Zeros(|s| - m - 1)
  {
    if m < |s| - 1 {
      IncrementAt(s[..|s| - 1], m);
      assert s[..|s| - 1][..m] == s[..m];
    } else {
      assert s[..|s| - 1] == s[..m];
    }
  }

  /** A counter of all 255s wraps to all zeros. */
  lemma {:induction false} IncrementAllMax(s: seq<uint8>)
    requires forall j :: 0 <= j < |s| ==> s[j] == 255
    ensures Increment(s) == Zeros(|s|)
  {
    if s != [] {
      IncrementAllMax(s[..|s| - 1]);
    }
  }

  /** The nonce after `iv_inc`: bytes 4..11 incremented, the rest as they were. */
  function NonceIncremented(iv: seq<uint8>): (r: seq<uint8>)
    requires |iv| >= NONCE_LEN
  {
    iv[..FIXED_LEN] + Increment(iv[FIXED_LEN..NONCE_LEN]) + iv[NONCE_LEN..]
  }

  /**
   * The promise of `iv_inc`: the fixed field and anything past byte 11 are
   * untouched, and the 64-bit counter goes up by one modulo 2^64.
   */
  lemma NonceIncrementedSpec(iv: seq<uint8>)
    requires |iv| >= NONCE_LEN
    ensures |NonceIncremented(iv)| == |iv|
    ensures forall k :: 0 <= k < |iv| && !(FIXED_LEN <= k < NONCE_LEN) ==> NonceIncremented(iv)[k] == iv[k]
    ensures BigEndian(NonceIncremented(iv)[FIXED_LEN..NONCE_LEN])
         == (BigEndian(iv[FIXED_LEN..NONCE_LEN]) + 1) % Pow256(8)
  {
    var r := NonceIncremented(iv);
    assert r[FIXED_LEN..NONCE_LEN] == Increment(iv[FIXED_LEN..NONCE_LEN]);
    IncrementValue(iv[FIXED_LEN..NONCE_LEN]);
  }

  /** A counter of eight 255s wraps to eight zeros; the fixed field stays. */
  lemma NonceWraps(iv: seq<uint8>)
    requires |iv| >= NONCE_LEN
    requires forall k :: FIXED_LEN <= k < NONCE_LEN ==> iv[k] == 255
    ensures NonceIncremented(iv) == iv[..FIXED_LEN] + Zeros(8) + iv[NONCE_LEN..]
  {
    IncrementAllMax(iv[FIXED_LEN..NONCE_LEN]);
  }

  /** From an all-zero nonce, byte 11 becomes 1 and every other byte stays 0. */
  lemma NonceFromZero()
    ensures NonceIncremented(Zeros(NONCE_LEN)) == Zeros(11) + [1]
  {
    var z := Zeros(NONCE_LEN);
    IncrementAt(z[FIXED_LEN..NONCE_LEN], 7);
    assert z[FIXED_LEN..NONCE_LEN][..7] == Zeros(7);
  }

  /** `iv_inc(iv)`: the do-while loop from byte 11 down to byte 4. */
  method IvInc(iv: array<uint8>)
    requires iv.Length >= NONCE_LEN
    modifies iv
    ensures iv[..] == NonceIncremented(old(iv[..]))
  {
    ghost var s := iv[..];
    ghost var counter := s[FIXED_LEN..NONCE_LEN];
    var n := NONCE_LEN;
    while true
      invariant FIXED_LEN < n <= NONCE_LEN
      invariant forall k :: 0 <= k < n ==> iv[k] == s[k]
      invariant forall k :: n <= k < NONCE_LEN ==> s[k] == 255 && iv[k] == 0
      invariant forall k :: NONCE_LEN <= k < iv.Length ==> iv[k] == s[k]
      decreases n
    {
      n := n - 1;
      var c := iv[n];
      if c == 255 {
        iv[n] := 0;
      } else {
        iv[n] := c + 1;
        IncrementAt(counter, n - FIXED_LEN);
        assert iv[..] == NonceIncremented(s);
        return;
      }
      if n <= FIXED_LEN {
        break;
      }
    }
    IncrementAllMax(counter);
    assert iv[..] == NonceIncremented(s);
  }
}
