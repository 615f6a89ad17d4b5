/** Base64 as RFC 4648 defines it: the padded standard form (section 4) that
    Node's `Buffer.toString('base64')` produces, the unpadded URL-safe form
    (section 5) that RFC 7636 Appendix A asks for, and the character rewrite
    the token endpoint uses to get from the first to the second. */
module Base64 {
  import opened Bytes

  /** A six-bit group: the index of one output character. */
  type Sextet = x: int | 0 <= x < 64

  /** The standard alphabet of RFC 4648 section 4. */
  function StdChar(x: Sextet): char {
    if x < 26 then ('A' as int + x) as char
    else if x < 52 then ('a' as int + (x - 26)) as char
    else if x < 62 then ('0' as int + (x - 52)) as char
    else if x == 62 then '+'
    else '/'
  }

  /** The URL- and filename-safe alphabet of RFC 4648 section 5. */
  function UrlChar(x: Sextet): char {
    if x < 26 then ('A' as int + x) as char
    else if x < 52 then ('a' as int + (x - 26)) as char
    else if x < 62 then ('0' as int + (x - 52)) as char
    else if x == 62 then '-'
    else '_'
  }

  predicate IsUrlSafeChar(c: char) {
    'A' <= c <= 'Z' || 'a' <= c <= 'z' || '0' <= c <= '9' || c == '-' || c == '_'
  }

  /** The six-bit groups of an octet string, three octets to four groups; a
      final one or two octets give two or three groups, zero-filled on the right. */
  function Sextets(b: seq<Byte>): (xs: seq<Sextet>)
    ensures |xs| == (4 * |b| + 2) / 3
  {
    if |b| == 0 then []
    else if |b| == 1 then [b[0] / 4, b[0] % 4 * 16]
    else if |b| == 2 then [b[0] / 4, b[0] % 4 * 16 + b[1] / 16, b[1] % 16 * 4]
    else [b[0] / 4, b[0] % 4 * 16 + b[1] / 16, b[1] % 16 * 4 + b[2] / 64, b[2] % 64] + Sextets(b[3..])
  }

  /** The '=' characters that round the standard form up to a multiple of four. */
  function Padding(n: nat): string {
    if n % 3 == 1 then "==" else if n % 3 == 2 then "=" else ""
  }

  function StdText(xs: seq<Sextet>): string {
    seq(|xs|, i requires 0 <= i < |xs| => StdChar(xs[i]))
  }

  function UrlText(xs: seq<Sextet>): string {
    seq(|xs|, i requires 0 <= i < |xs| => UrlChar(xs[i]))
  }

  /** Standard padded Base64 (RFC 4648 section 4). */
  function Encode(b: seq<Byte>): (s: string)
    ensures |s| == 4 * ((|b| + 2) / 3)
  {
    var xs := Sextets(b);
    assert |xs| + |Padding(|b|)| == 4 * ((|b| + 2) / 3) by {
      var q, r := |b| / 3, |b| % 3;
      assert |b| == 3 * q + r;
      assert (4 * |b| + 2) / 3 == 4 * q + (4 * r + 2) / 3;
      assert (|b| + 2) / 3 == q + (r + 2) / 3;
    }
    StdText(xs) + Padding(|b|)
  }

  /** Unpadded URL-safe Base64 (RFC 4648 section 5 without '='), the
      BASE64URL-ENCODE of RFC 7636 Appendix A. */
  function EncodeUrl(b: seq<Byte>): (s: string)
    ensures |s| == (4 * |b| + 2) / 3
    ensures forall i :: 0 <= i < |s| ==> IsUrlSafeChar(s[i])
  {
    UrlText(Sextets(b))
  }

  /** Every occurrence of `from` replaced by `to`, as `replace(/x/g, y)` does. */
  function ReplaceAll(s: string, from: char, to: char): string {
    seq(|s|, i requires 0 <= i < |s| => if s[i] == from then to else s[i])
  }

  /** The string without its maximal run of trailing `c`, as `replace(/c+$/, '')` does. */
  function StripTrailing(s: string, c: char): (r: string)
    ensures |r| <= |s| && r == s[..|r|]
    ensures |r| == 0 || r[|r| - 1] != c
    ensures forall i :: |r| <= i < |s| ==> s[i] == c
    decreases |s|
  {
    if |s| > 0 && s[|s| - 1] == c then StripTrailing(s[..|s| - 1], c) else s
  }

  /** The token endpoint's rewrite of standard Base64 into Base64url: '+' to '-',
      '/' to '_', then every trailing '=' dropped. */
  function ToBase64Url(s: string): (r: string)
    ensures forall i :: 0 <= i < |r| ==> r[i] != '+' && r[i] != '/'
    ensures |r| == 0 || r[|r| - 1] != '='
  {
    StripTrailing(ReplaceAll(ReplaceAll(s, '+', '-'), '/', '_'), '=')
  }

  lemma UrlCharOfStdChar(x: Sextet)
    ensures UrlChar(x) == (if StdChar(x) == '+' then '-' else if StdChar(x) == '/' then '_' else StdChar(x))
  {
  }

  /** Stripping trailing `c` from x + p gives x back when p is all `c` and x
      does not itself end in `c`. */
  lemma StripTrailingOfPadded(x: string, p: string, c: char)
    requires |x| == 0 || x[|x| - 1] != c
    requires forall i :: 0 <= i < |p| ==> p[i] == c
    ensures StripTrailing(x + p, c) == x
  {
    var s := x + p;
    var r := StripTrailing(s, c);
    assert forall i :: |x| <= i < |s| ==> s[i] == p[i - |x|];
    assert |x| == 0 || s[|x| - 1] == x[|x| - 1];
    assert |r| == 0 || s[|r| - 1] == r[|r| - 1];
  }

  /** The endpoint's rewrite of the standard encoding is exactly the unpadded
      URL-safe encoding, for every octet string. */
  lemma UrlRewriteOfEncode(b: seq<Byte>)
    ensures ToBase64Url(Encode(b)) == EncodeUrl(b)
  {
    var xs := Sextets(b);
    var p := Padding(|b|);
    var swapped := ReplaceAll(ReplaceAll(Encode(b), '+', '-'), '/', '_');
    forall i | 0 <= i < |swapped| ensures swapped[i] == (UrlText(xs) + p)[i] {
      if i < |xs| {
        UrlCharOfStdChar(xs[i]);
      }
    }
    assert swapped == UrlText(xs) + p;
    StripTrailingOfPadded(UrlText(xs), p, '=');
  }
}
