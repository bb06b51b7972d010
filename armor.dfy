/**
 * The text side of PEM armour: base64 bodies cut into lines, and the
 * header and footer lines `decryptKey` keeps from the original file.
 */
module Armor {
  import opened Wrappers

  /** The characters of standard base64 text. */
  predicate IsBase64Char(c: char)
  {
    'A' <= c <= 'Z' || 'a' <= c <= 'z' || '0' <= c <= '9' || c == '+' || c == '/' || c == '='
  }

  /** What `Buffer.toString('base64')` produces; the codec itself is a parameter. */
  type Base64Text = s: string | forall k :: 0 <= k < |s| ==> IsBase64Char(s[k])

  /** The characters JavaScript's `.` does not match. */
  predicate IsLineTerminator(c: char)
  {
    c == '\n' || c == '\r' || c == ' ' || c == ' '
  }

  predicate NoTerminators(s: string)
  {
    forall k :: 0 <= k < |s| ==> !IsLineTerminator(s[k])
  }

  /** `s` with every '\n' removed. */
  function StripNewlines(s: string): (r: string)
    ensures |r| <= |s|
  {
    if s == [] then []
    else (if s[0] == '\n' then [] else [s[0]]) + StripNewlines(s[1..])
  }

  lemma {:induction false} StripNewlinesAppend(a: string, b: string)
    ensures StripNewlines(a + b) == StripNewlines(a) + StripNewlines(b)
  {
    if a != [] {
      assert (a + b)[1..] == a[1..] + b;
      StripNewlinesAppend(a[1..], b);
    } else {
      assert a + b == b;
    }
  }

  lemma {:induction false} StripNewlinesNone(s: string)
    requires forall k :: 0 <= k < |s| ==> s[k] != '\n'
    ensures StripNewlines(s) == s
  {
    if s != [] {
      StripNewlinesNone(s[1..]);
    }
  }

  // ----- `b64key.match(/.{1,70}/g).join('\n')` -----

  /** Lines of `width` characters (the last one possibly shorter) joined by '\n'. */
  function Chunked(s: string, width: nat): string
    requires width > 0
    decreases |s|
  {
    if |s| <= width then s else s[..width] + "\n" + Chunked(s[width..], width)
  }

  /**
   * For text without line breaks: the result drops back to `s` when the
   * newlines are removed, is `|s| + (|s| - 1) / 70` long, and has a newline
   * exactly after every 70 characters of `s` except after the last line.
   */
  lemma {:induction false} Chunked70Shape(s: string)
    requires |s| > 0
    requires NoTerminators(s)
    ensures var r := Chunked(s, 70);
      |r| == |s| + (|s| - 1) / 70 &&
      (forall k :: 0 <= k < |r| ==> (r[k] == '\n' <==> k % 71 == 70)) &&
      StripNewlines(r) == s
    decreases |s|
  {
    var r := Chunked(s, 70);
    if |s| <= 70 {
      StripNewlinesNone(s);
    } else {
      var rest := Chunked(s[70..], 70);
      Chunked70Shape(s[70..]);
      assert r == s[..70] + "\n" + rest;
      forall k | 0 <= k < |r|
        ensures r[k] == '\n' <==> k % 71 == 70
      {
        if k >= 71 {
          assert r[k] == rest[k - 71];
        }
      }
      StripNewlinesAppend(s[..70] + "\n", rest);
      StripNewlinesAppend(s[..70], "\n");
      StripNewlinesNone(s[..70]);
      assert s == s[..70] + s[70..];
    }
  }

  // ----- `.replace(/(.{64})/g, '$1\n')` and the public-key PEM text -----

  /** A '\n' after every complete run of `width` characters. */
  function Wrapped(s: string, width: nat): string
    requires width > 0
    decreases |s|
  {
    if |s| < width then s else s[..width] + "\n" + Wrapped(s[width..], width)
  }

  /**
   * For text without line breaks: removing the newlines gives `s` back, the
   * result is `|s| + |s| / 64` long and has a newline exactly after every 64
   * characters of `s`.
   */
  lemma {:induction false} Wrapped64Shape(s: string)
    requires NoTerminators(s)
    ensures var r := Wrapped(s, 64);
      |r| == |s| + |s| / 64 &&
      (forall k :: 0 <= k < |r| ==> (r[k] == '\n' <==> k % 65 == 64)) &&
      StripNewlines(r) == s
    decreases |s|
  {
    var r := Wrapped(s, 64);
    if |s| < 64 {
      StripNewlinesNone(s);
    } else {
      var rest := Wrapped(s[64..], 64);
      Wrapped64Shape(s[64..]);
      assert r == s[..64] + "\n" + rest;
      forall k | 0 <= k < |r|
        ensures r[k] == '\n' <==> k % 65 == 64
      {
        if k >= 65 {
          assert r[k] == rest[k - 65];
        }
      }
      StripNewlinesAppend(s[..64] + "\n", rest);
      StripNewlinesAppend(s[..64], "\n");
      StripNewlinesNone(s[..64]);
      assert s == s[..64] + s[64..];
    }
  }

  const PUBLIC_BEGIN: string := "-----BEGIN PUBLIC KEY-----\n"
  const PUBLIC_END: string := "-----END PUBLIC KEY-----"

  /** The wrapped base64 plus a final '\n' unless the wrapping already ended with one. */
  function PemBody(b64: string): string
  {
    var w := Wrapped(b64, 64);
    if |w| > 0 && w[|w| - 1] == '\n' then w else w + "\n"
  }

  /** `publicOrig`: the BEGIN line, the body, the END line. */
  function PublicPem(b64: string): string
  {
    PUBLIC_BEGIN + PemBody(b64) + PUBLIC_END
  }

  /**
   * The body ends in exactly one '\n' before the END line (for a non-empty
   * body), breaks every 64 characters, and holds the base64 text unchanged.
   */
  lemma PemBodyShape(b64: Base64Text)
    ensures var body := PemBody(b64);
      |body| > 0 && body[|body| - 1] == '\n' &&
      (|b64| > 0 ==> |body| >= 2 && body[|body| - 2] != '\n') &&
      (forall k :: 0 <= k < |body| - 1 ==> (body[k] == '\n' <==> k % 65 == 64)) &&
      StripNewlines(body) == b64
  {
    var w := Wrapped(b64, 64);
    Wrapped64Shape(b64);
    var body := PemBody(b64);
    if |w| > 0 && w[|w| - 1] == '\n' {
      assert |b64| > 0;
      assert (|w| - 1) % 65 == 64;
      if |w| >= 2 {
        assert w[|w| - 2] != '\n';
      }
    } else {
      assert body == w + "\n";
      StripNewlinesAppend(w, "\n");
      if |b64| > 0 {
        assert body[|body| - 2] == w[|w| - 1];
      }
    }
  }

  // ----- the header and footer regular expressions of `decryptKey` -----

  /** `h` is what `/^(.+(?:\r\n|\n))/` captures in `orig`. */
  predicate HeaderMatch(orig: string, h: string)
  {
    h <= orig &&
    ((|h| >= 2 && h[|h| - 1] == '\n' && NoTerminators(h[..|h| - 1])) ||
     (|h| >= 3 && h[|h| - 2..] == "\r\n" && NoTerminators(h[..|h| - 2])))
  }

  /** `f` is a match of `/((?:\r\n|\n).+)$/` in `orig`. */
  predicate FooterMatch(orig: string, f: string)
  {
    |f| <= |orig| && f == orig[|orig| - |f|..] &&
    ((|f| >= 2 && f[0] == '\n' && NoTerminators(f[1..])) ||
     (|f| >= 3 && f[..2] == "\r\n" && NoTerminators(f[2..])))
  }

  /** The index of the first line terminator of `s` at or after `i`, or `|s|`. */
  function FirstTerminator(s: string, i: nat): (k: nat)
    requires i <= |s|
    ensures i <= k <= |s| && NoTerminators(s[i..k])
    ensures k < |s| ==> IsLineTerminator(s[k])
    decreases |s| - i
  {
    if i == |s| || IsLineTerminator(s[i]) then i
    else
      var k := FirstTerminator(s, i + 1);
      assert s[i..k] == [s[i]] + s[i + 1..k];
      k
  }

  /** The index just past the last line terminator of `s[..j]`, or 0. */
  function AfterLastTerminator(s: string, j: nat): (k: nat)
    requires j <= |s|
    ensures k <= j && NoTerminators(s[k..j])
    ensures k > 0 ==> IsLineTerminator(s[k - 1])
  {
    if j == 0 || IsLineTerminator(s[j - 1]) then j
    else
      var k := AfterLastTerminator(s, j - 1);
      assert s[k..j] == s[k..j - 1] + [s[j - 1]];
      k
  }

  /** The first line with its line break: `/^(.+(?:\r\n|\n))/.exec(orig)[1]`, or None where `exec` fails. */
  function Header(orig: string): (r: Option<string>)
    ensures r.Some? ==> HeaderMatch(orig, r.value)
    ensures r.None? ==> forall h :: !HeaderMatch(orig, h)
  {
    var k := FirstTerminator(orig, 0);
    assert orig[0..k] == orig[..k];
    if k == 0 || k == |orig| then
      NoHeader(orig, k);
      None
    else if orig[k] == '\n' then
      assert orig[..k + 1][..k] == orig[..k];
      Some(orig[..k + 1])
    else if orig[k] == '\r' && k + 1 < |orig| && orig[k + 1] == '\n' then
      assert orig[..k + 2][..k] == orig[..k];
      Some(orig[..k + 2])
    else
      NoHeader(orig, k);
      None
  }

  /** Without "\n" or "\r\n" at the first terminator, after a non-empty first line, there is no header match. */
  lemma NoHeader(orig: string, k: nat)
    requires k <= |orig| && NoTerminators(orig[..k]) && (k < |orig| ==> IsLineTerminator(orig[k]))
    requires !(0 < k < |orig| && (orig[k] == '\n' || (orig[k] == '\r' && k + 1 < |orig| && orig[k + 1] == '\n')))
    ensures forall h :: !HeaderMatch(orig, h)
  {
    forall h | HeaderMatch(orig, h) ensures false {
      HeaderBreakAt(orig, h, k);
    }
  }

  /** In a header match the line break sits at the first terminator of `orig`. */
  lemma HeaderBreakAt(orig: string, h: string, k: nat)
    requires HeaderMatch(orig, h)
    requires k <= |orig| && NoTerminators(orig[..k]) && (k < |orig| ==> IsLineTerminator(orig[k]))
    ensures 0 < k < |orig|
    ensures orig[k] == '\n' || (orig[k] == '\r' && k + 1 < |orig| && orig[k + 1] == '\n')
  {
    if |h| >= 2 && h[|h| - 1] == '\n' && NoTerminators(h[..|h| - 1]) {
      LineEndsAt(orig, h, |h| - 1, k);
    } else {
      var n := |h| - 2;
      assert h[n] == h[n..][0] == '\r';
      assert h[n + 1] == h[n..][1] == '\n';
      LineEndsAt(orig, h, n, k);
      assert orig[k + 1] == h[n + 1];
    }
  }

  /** If `h <= orig` has its first terminator at `n`, so does `orig`. */
  lemma LineEndsAt(orig: string, h: string, n: nat, k: nat)
    requires h <= orig && 0 < n < |h| && NoTerminators(h[..n]) && IsLineTerminator(h[n])
    requires k <= |orig| && NoTerminators(orig[..k]) && (k < |orig| ==> IsLineTerminator(orig[k]))
    ensures k == n && orig[k] == h[n]
  {
    NoTerminatorsBefore(h, n);
    NoTerminatorsBefore(orig, k);
    assert forall j :: 0 <= j < |h| ==> h[j] == orig[j];
  }

  /** `NoTerminators` of a prefix, stated index by index. */
  lemma NoTerminatorsBefore(s: string, n: nat)
    requires n <= |s| && NoTerminators(s[..n])
    ensures forall j :: 0 <= j < n ==> !IsLineTerminator(s[j])
  {
    forall j | 0 <= j < n
      ensures !IsLineTerminator(s[j])
    {
      assert s[..n][j] == s[j];
    }
  }

  /** The last line with the break before it: `/((?:\r\n|\n).+)$/.exec(orig)[1]`, or None. */
  function Footer(orig: string): Option<string>
  {
    var k := AfterLastTerminator(orig, |orig|);
    if k == 0 || k == |orig| || orig[k - 1] != '\n' then None
    else Some(orig[if k >= 2 && orig[k - 2] == '\r' then k - 2 else k - 1..])
  }

  /** `Footer` finds the leftmost footer match, and fails only where there is none. */
  lemma FooterSpec(orig: string)
    ensures Footer(orig).Some? ==> FooterMatch(orig, Footer(orig).value)
    ensures Footer(orig).Some? ==> forall f :: FooterMatch(orig, f) ==> |f| <= |Footer(orig).value|
    ensures Footer(orig).None? ==> forall f :: !FooterMatch(orig, f)
  {
    var k := AfterLastTerminator(orig, |orig|);
    if k == 0 || k == |orig| || orig[k - 1] != '\n' {
      NoFooter(orig, k);
    } else {
      FooterFound(orig, k, if k >= 2 && orig[k - 2] == '\r' then k - 2 else k - 1);
    }
  }

  /** Without a "\n" right before a non-empty last line there is no footer match. */
  lemma NoFooter(orig: string, k: nat)
    requires k <= |orig| && NoTerminators(orig[k..|orig|]) && (k > 0 ==> IsLineTerminator(orig[k - 1]))
    requires k == 0 || k == |orig| || orig[k - 1] != '\n'
    ensures forall f :: !FooterMatch(orig, f)
  {
    assert orig[k..|orig|] == orig[k..];
    forall f | FooterMatch(orig, f) ensures false {
      FooterBreakAt(orig, f, k);
    }
  }

  /** The suffix from the last "\n" (or the "\r\n" ending there) is the leftmost footer match. */
  lemma FooterFound(orig: string, k: nat, start: nat)
    requires 0 < k < |orig| && orig[k - 1] == '\n' && NoTerminators(orig[k..|orig|])
    requires start == if k >= 2 && orig[k - 2] == '\r' then k - 2 else k - 1
    ensures FooterMatch(orig, orig[start..])
    ensures forall f :: FooterMatch(orig, f) ==> |f| <= |orig| - start
  {
    assert orig[k..|orig|] == orig[k..];
    var f := orig[start..];
    if start == k - 2 {
      assert f[..2] == "\r\n";
      assert f[2..] == orig[k..];
    } else {
      assert f[1..] == orig[k..];
    }
    forall f' | FooterMatch(orig, f') ensures |f'| <= |orig| - start {
      FooterBreakAt(orig, f', k);
    }
  }

  /** In a footer match the final line starts just past the last terminator of `orig`. */
  lemma FooterBreakAt(orig: string, f: string, k: nat)
    requires FooterMatch(orig, f)
    requires k <= |orig| && NoTerminators(orig[k..]) && (k > 0 ==> IsLineTerminator(orig[k - 1]))
    ensures 0 < k < |orig| && orig[k - 1] == '\n'
    ensures |f| == |orig| - k + 1 || (|f| == |orig| - k + 2 && orig[k - 2] == '\r')
  {
    var b := if f[0] == '\n' && NoTerminators(f[1..]) then 1 else 2;
    var n := |orig| - |f| + b;
    assert NoTerminators(orig[n..]) by {
      assert orig[n..] == f[b..];
    }
    assert orig[n - 1] == f[b - 1];
    assert IsLineTerminator(orig[n - 1]);
    assert k == n;
    if b == 2 {
      assert orig[n - 2] == f[0];
    }
  }

  /** A key file with the break styles the parser meets: header and footer are the outer lines. */
  lemma ArmorExample()
    ensures Header("B\nAA\nE") == Some("B\n")
    ensures Footer("B\nAA\nE") == Some("\nE")
    ensures Header("B\r\nAA\r\nE") == Some("B\r\n") && Footer("B\r\nAA\r\nE") == Some("\r\nE")
    ensures Header("\nAA\nE").None? && Footer("B\nAA\n").None?
  {
    assert FirstTerminator("B\nAA\nE", 0) == 1;
    assert AfterLastTerminator("B\nAA\nE", 6) == 5;
    assert "B\nAA\nE"[4..] == "\nE" && "B\nAA\nE"[..2] == "B\n";
    assert "B\r\nAA\r\nE"[..3] == "B\r\n";
    assert "B\r\nAA\r\nE"[5..] == "\r\nE";
    assert FirstTerminator("B\r\nAA\r\nE", 0) == 1;
    assert AfterLastTerminator("B\r\nAA\r\nE", 8) == 7;
    assert FirstTerminator("\nAA\nE", 0) == 0;
    assert AfterLastTerminator("B\nAA\n", 5) == 5;
  }
}
