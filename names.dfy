/**
 * `isStreamCipher` and `isGCM`: the case-insensitive regular expressions
 * `/^arcfour/i` and `/^aes\d+-gcm/i` over cipher names.
 */
module CipherNames {

  /** ASCII lower-casing; JavaScript's `i` flag folds only ASCII onto these ASCII letters. */
  function LowerAscii(c: char): char
  {
    if 'A' <= c <= 'Z' then (c as int + 32) as char else c
  }

  predicate IsDigit(c: char)
  {
    '0' <= c <= '9'
  }

  /** `s` begins with the lower-case pattern `p`, ignoring ASCII case. */
  predicate StartsWithIgnoringCase(s: string, p: string)
  {
    |p| <= |s| && forall k :: 0 <= k < |p| ==> LowerAscii(s[k]) == p[k]
  }

  function PrefixMatch(s: string, p: string): (r: bool)
    ensures r <==> StartsWithIgnoringCase(s, p)
  {
    if p == [] then true
    else if s == [] then false
    else LowerAscii(s[0]) == p[0] && PrefixMatch(s[1..], p[1..])
  }

  /** `isStreamCipher(name)`. */
  function IsStreamCipher(name: string): (r: bool)
    ensures r <==> |name| >= 7 && forall k :: 0 <= k < 7 ==> LowerAscii(name[k]) == "arcfour"[k]
  {
    PrefixMatch(name, "arcfour")
  }

  /** The number of decimal digits in `s` from index `i` on, before the first non-digit. */
  function DigitRun(s: string, i: nat): (n: nat)
    requires i <= |s|
    ensures i + n <= |s|
    ensures forall k :: i <= k < i + n ==> IsDigit(s[k])
    ensures i + n < |s| ==> !IsDigit(s[i + n])
    decreases |s| - i
  {
    if i < |s| && IsDigit(s[i]) then 1 + DigitRun(s, i + 1) else 0
  }

  /** One way `/^aes\d+-gcm/i` can match: the digits occupy `name[3..k]`. */
  predicate GcmSplit(name: string, k: nat)
  {
    StartsWithIgnoringCase(name, "aes") && 3 < k <= |name| &&
    (forall j :: 3 <= j < k ==> IsDigit(name[j])) &&
    StartsWithIgnoringCase(name[k..], "-gcm")
  }

  /** `isGCM(name)`: the greedy digit run is followed by `-gcm`. */
  function IsGcm(name: string): (r: bool)
    ensures r <==> exists k :: GcmSplit(name, k)
  {
    if !PrefixMatch(name, "aes") then false
    else
      var n := DigitRun(name, 3);
      var ok := n > 0 && PrefixMatch(name[3 + n..], "-gcm");
      assert ok ==> GcmSplit(name, 3 + n);
      assert (exists k :: GcmSplit(name, k)) ==> ok by {
        if k: nat :| GcmSplit(name, k) {
          // a shorter digit run would be followed by a digit, not by '-'
          assert !IsDigit(name[k]) by {
            assert name[k..][0] == name[k];
          }
          assert k == 3 + n;
        }
      }
      ok
  }

  lemma StreamCipherExample()
    ensures IsStreamCipher("arcfour256")
  {
    assert StartsWithIgnoringCase("arcfour256", "arcfour");
  }

  lemma UpperCaseStreamCipherExample()
    ensures IsStreamCipher("ARCFOUR")
  {
    assert StartsWithIgnoringCase("ARCFOUR", "arcfour");
  }

  lemma NotStreamCipherExamples()
    ensures !IsStreamCipher("arcfou") && !IsStreamCipher("aes128-ctr")
  {
  }

  lemma GcmExample()
    ensures IsGcm("aes128-gcm@openssh.com")
  {
    var name := "aes128-gcm@openssh.com";
    assert StartsWithIgnoringCase(name, "aes");
    assert name[6..] == "-gcm@openssh.com";
    assert StartsWithIgnoringCase(name[6..], "-gcm");
    assert GcmSplit(name, 6);
  }

  lemma UpperCaseGcmExample()
    ensures IsGcm("AES256-GCM")
  {
    var name := "AES256-GCM";
    assert StartsWithIgnoringCase(name, "aes");
    assert name[6..] == "-GCM";
    assert StartsWithIgnoringCase(name[6..], "-gcm");
    assert GcmSplit(name, 6);
  }

  lemma NotGcmExamples()
    ensures !IsGcm("aes-gcm") && !IsGcm("aes128-ctr")
  {
    assert DigitRun("aes-gcm", 3) == 0;
    assert DigitRun("aes128-ctr", 3) == 3;
  }
}
