/** Octets and their lower-case hexadecimal text, the form that
    `randomBytes(32).toString('hex')` gives client secrets and access tokens. */
module Bytes {
  import opened Wrappers

  type Byte = b: int | 0 <= b < 256

  predicate IsLowerHexDigit(c: char) {
    '0' <= c <= '9' || 'a' <= c <= 'f'
  }

  predicate IsLowerHex(s: string) {
    forall i :: 0 <= i < |s| ==> IsLowerHexDigit(s[i])
  }

  /** The digit of a nibble, lower case as Node's 'hex' encoding writes it. */
  function HexDigit(n: int): (c: char)
    requires 0 <= n < 16
    ensures IsLowerHexDigit(c)
  {
    if n < 10 then ('0' as int + n) as char else ('a' as int + (n - 10)) as char
  }

  /** The nibble a lower-case hex digit stands for. */
  function DigitValue(c: char): (n: int)
    requires IsLowerHexDigit(c)
    ensures 0 <= n < 16
    ensures HexDigit(n) == c
  {
    if c <= '9' then c as int - '0' as int else c as int - 'a' as int + 10
  }

  lemma DigitValueOfHexDigit(n: int)
    requires 0 <= n < 16
    ensures DigitValue(HexDigit(n)) == n
  {
  }

  /** Hex encoding: two lower-case digits per octet, high nibble first. */
  function ToHex(b: seq<Byte>): (s: string)
    ensures |s| == 2 * |b|
    ensures IsLowerHex(s)
  {
    if |b| == 0 then "" else [HexDigit(b[0] / 16), HexDigit(b[0] % 16)] + ToHex(b[1..])
  }

  /** Hex decoding of lower-case text, the inverse of ToHex; odd length or a
      character outside [0-9a-f] gives None. */
  function FromHex(s: string): (r: Option<seq<Byte>>)
    ensures r.Some? ==> 2 * |r.value| == |s|
    decreases |s|
  {
    if |s| == 0 then Some([])
    else if |s| == 1 || !IsLowerHexDigit(s[0]) || !IsLowerHexDigit(s[1]) then None
    else
      match FromHex(s[2..])
      case None => None
      case Some(rest) => Some([DigitValue(s[0]) * 16 + DigitValue(s[1])] + rest)
  }

  /** Decoding undoes encoding. */
  lemma {:induction false} FromHexToHex(b: seq<Byte>)
    ensures FromHex(ToHex(b)) == Some(b)
  {
    if |b| > 0 {
      var s := ToHex(b);
      FromHexToHex(b[1..]);
      assert s[2..] == ToHex(b[1..]);
      DigitValueOfHexDigit(b[0] / 16);
      DigitValueOfHexDigit(b[0] % 16);
      assert b == [b[0]] + b[1..];
    }
  }

  /** Encoding undoes decoding: lower-case hex text has exactly one preimage. */
  lemma {:induction false} ToHexFromHex(s: string)
    requires FromHex(s).Some?
    ensures ToHex(FromHex(s).value) == s
  {
    if |s| > 0 {
      ToHexFromHex(s[2..]);
      var v := DigitValue(s[0]) * 16 + DigitValue(s[1]);
      assert v / 16 == DigitValue(s[0]);
      assert v % 16 == DigitValue(s[1]);
      var b := FromHex(s).value;
      assert b[0] == v && b[1..] == FromHex(s[2..]).value;
      assert s == [s[0], s[1]] + s[2..];
    }
  }

  /** FromHex accepts exactly the even-length lower-case hex strings. */
  lemma {:induction false} FromHexAccepts(s: string)
    ensures FromHex(s).Some? <==> |s| % 2 == 0 && IsLowerHex(s)
  {
    if |s| >= 2 {
      FromHexAccepts(s[2..]);
      assert IsLowerHex(s) <==> IsLowerHexDigit(s[0]) && IsLowerHexDigit(s[1]) && IsLowerHex(s[2..]) by {
        if IsLowerHexDigit(s[0]) && IsLowerHexDigit(s[1]) && IsLowerHex(s[2..]) {
          forall i | 0 <= i < |s| ensures IsLowerHexDigit(s[i]) {
            if i >= 2 { assert s[i] == s[2..][i - 2]; }
          }
        }
        if IsLowerHex(s) {
          forall i | 0 <= i < |s[2..]| ensures IsLowerHexDigit(s[2..][i]) {
            assert s[2..][i] == s[i + 2];
          }
        }
      }
    }
  }
}
