/**
 Hexadecimal text as the JavaScript built-ins see it: `parseInt(s, 16)` on a
 non-empty string of at most 13 hexadecimal digits, and
 `Number.prototype.toString(16)` on a non-negative safe integer (below 2^53),
 which writes lowercase digits with no leading zero. Within those bounds a
 JavaScript number holds the value exactly; `fixSignature` only ever handles
 two digits and values below 256.
 */
module Hex {

  /** A digit `parseInt` accepts in radix 16: `0-9`, `a-f` or `A-F`. */
  predicate IsHexDigit(c: char) {
    ('0' <= c <= '9') || ('a' <= c <= 'f') || ('A' <= c <= 'F')
  }

  /** A digit `toString(16)` may write: `0-9` or `a-f`. */
  predicate IsLowerHexDigit(c: char) {
    ('0' <= c <= '9') || ('a' <= c <= 'f')
  }

  predicate AllHexDigits(s: seq<char>) {
    forall i :: 0 <= i < |s| ==> IsHexDigit(s[i])
  }

  /** The form `toString(16)` gives: lowercase digits, at least one, no leading zero. */
  predicate IsCanonicalHex(s: seq<char>) {
    && |s| >= 1
    && (forall i :: 0 <= i < |s| ==> IsLowerHexDigit(s[i]))
    && (|s| > 1 ==> s[0] != '0')
  }

  function Pow16(k: nat): (p: nat)
    ensures p >= 1
  {
    if k == 0 then 1 else 16 * Pow16(k - 1)
  }

  /** The value of one digit; upper and lower case read the same. */
  function DigitValue(c: char): (d: nat)
    requires IsHexDigit(c)
    ensures d < 16
    ensures ('0' <= c <= '9') == (d < 10)
  {
    if '0' <= c <= '9' then c as int - '0' as int
    else if 'a' <= c <= 'f' then c as int - 'a' as int + 10
    else c as int - 'A' as int + 10
  }

  /** An upper-case digit is worth the same as its lower-case form. */
  lemma DigitValueIgnoresCase(c: char)
    requires 'A' <= c <= 'F'
    ensures DigitValue(c) == DigitValue((c as int - 'A' as int + 'a' as int) as char)
  {
  }

  /** The lowercase digit of a value below 16. */
  function DigitChar(d: nat): (c: char)
    requires d < 16
    ensures IsLowerHexDigit(c) && IsHexDigit(c)
    ensures DigitValue(c) == d
  {
    if d < 10 then ('0' as int + d) as char else ('a' as int + d - 10) as char
  }

  lemma DigitCharOfValue(c: char)
    requires IsLowerHexDigit(c)
    ensures DigitChar(DigitValue(c)) == c
  {
  }

  /**
   The value of a string of hexadecimal digits, most significant first. For a
   non-empty string of at most 13 digits this is `parseInt(s, 16)`; the empty
   string is worth 0 here, where `parseInt` gives `NaN`.
   */
  function ParseHex(s: seq<char>): (n: nat)
    requires AllHexDigits(s)
    ensures n < Pow16(|s|)
  {
    if |s| == 0 then 0
    else
      var init := s[..|s| - 1];
      assert AllHexDigits(init);
      16 * ParseHex(init) + DigitValue(s[|s| - 1])
  }

  /** Two digits are worth sixteen times the first plus the second. */
  lemma ParseHexTwoDigits(s: seq<char>)
    requires |s| == 2 && AllHexDigits(s)
    ensures ParseHex(s) == 16 * DigitValue(s[0]) + DigitValue(s[1])
  {
  }

  /** `n.toString(16)` for a non-negative integer `n`, as JavaScript writes it for safe integers. */
  function ToHexLower(n: nat): (s: seq<char>)
    ensures IsCanonicalHex(s) && AllHexDigits(s)
    ensures n < Pow16(|s|)
    ensures |s| > 1 ==> Pow16(|s| - 1) <= n
  {
    if n < 16 then [DigitChar(n)]
    else
      var q := n / 16;
      var init := ToHexLower(q);
      assert n < 16 * Pow16(|init|) by {
        assert n == 16 * q + n % 16;
      }
      init + [DigitChar(n % 16)]
  }

  /** A string whose first digit is not zero is worth at least 16 to the power of its length minus one. */
  lemma {:induction false} ParseHexLowerBound(s: seq<char>)
    requires AllHexDigits(s) && |s| >= 1 && s[0] != '0'
    ensures Pow16(|s| - 1) <= ParseHex(s)
  {
    if |s| > 1 {
      var init := s[..|s| - 1];
      assert init[0] == s[0];
      ParseHexLowerBound(init);
    }
  }

  /** Parsing what `toString(16)` wrote gives the number back. */
  lemma {:induction false} ParseToHexLower(n: nat)
    ensures ParseHex(ToHexLower(n)) == n
  {
    if n >= 16 {
      var init := ToHexLower(n / 16);
      var s := init + [DigitChar(n % 16)];
      assert s[..|s| - 1] == init;
      ParseToHexLower(n / 16);
    }
  }

  /** Writing the value of a canonical string gives the string back. */
  lemma {:induction false} ToHexLowerOfParse(s: seq<char>)
    requires IsCanonicalHex(s)
    ensures AllHexDigits(s) && ToHexLower(ParseHex(s)) == s
  {
    var last := s[|s| - 1];
    DigitCharOfValue(last);
    if |s| > 1 {
      var init := s[..|s| - 1];
      assert init[0] == s[0];
      assert IsCanonicalHex(init);
      ParseHexLowerBound(init);
      var n := ParseHex(s);
      assert n == 16 * ParseHex(init) + DigitValue(last);
      assert n / 16 == ParseHex(init) && n % 16 == DigitValue(last);
      ToHexLowerOfParse(init);
      assert s == init + [last];
    }
  }

  /** `toString(16)` writes exactly two digits just for the values 16 to 255. */
  lemma ToHexLowerTwoDigits(n: nat)
    ensures |ToHexLower(n)| == 2 <==> 16 <= n < 256
  {
  }

  /** Different numbers are written differently. */
  lemma ToHexLowerInjective(m: nat, n: nat)
    ensures ToHexLower(m) == ToHexLower(n) <==> m == n
  {
    ParseToHexLower(m);
    ParseToHexLower(n);
  }
}
