/** Character-level stand-ins for the three Python string operations the movie
    manager relies on: `str.strip()`, `str.isdigit()` and `str(int)`.

    Python's definitions range over all of Unicode; this model restricts them to
    ASCII: whitespace is the set of ASCII characters `str.isspace()` accepts, and a
    digit is one of '0'..'9'. */
module Text {

  /** The ASCII characters Python treats as whitespace: tab, line feed, vertical
      tab, form feed, carriage return (9-13), the four information separators
      (28-31) and the space (32). */
  predicate IsSpace(c: char) {
    ('\t' <= c <= '\r') || ('\U{1C}' <= c <= ' ')
  }

  /** Every character of `s` is whitespace (the empty string included). */
  predicate IsBlank(s: string) {
    forall i :: 0 <= i < |s| ==> IsSpace(s[i])
  }

  /** `s` with its leading whitespace removed. */
  function TrimStart(s: string): (r: string)
    ensures |r| <= |s| && r == s[|s| - |r|..]
    ensures forall i :: 0 <= i < |s| - |r| ==> IsSpace(s[i])
    ensures r == [] || !IsSpace(r[0])
  {
    if |s| > 0 && IsSpace(s[0]) then TrimStart(s[1..]) else s
  }

  /** `s` with its trailing whitespace removed. */
  function TrimEnd(s: string): (r: string)
    ensures |r| <= |s| && r == s[..|r|]
    ensures forall i :: |r| <= i < |s| ==> IsSpace(s[i])
    ensures r == [] || !IsSpace(r[|r| - 1])
  {
    if |s| > 0 && IsSpace(s[|s| - 1]) then TrimEnd(s[..|s| - 1]) else s
  }

  /** Python's `s.strip()`: `s` with whitespace dropped on both sides. What is
      left is the part of `s` that starts after the leading whitespace, with
      only whitespace before and after it; it neither starts nor ends with
      whitespace, and it is empty exactly when `s` is blank. */
  function Strip(s: string): (r: string)
    ensures var k := |s| - |TrimStart(s)|;
      && 0 <= k && k + |r| <= |s| && r == s[k..k + |r|]
      && (forall i :: 0 <= i < k ==> IsSpace(s[i]))
      && (forall i :: k + |r| <= i < |s| ==> IsSpace(s[i]))
    ensures r == [] || (!IsSpace(r[0]) && !IsSpace(r[|r| - 1]))
    ensures r == [] <==> IsBlank(s)
  {
    var t := TrimStart(s);
    StripSlices(s, t);
    TrimEnd(t)
  }

  /** How the two trims compose: the stripped string sits at offset |s| - |t| in
      `s`, and its first character, when there is one, is that of `t`. */
  lemma StripSlices(s: string, t: string)
    requires t == TrimStart(s)
    ensures var r := TrimEnd(t);
      && r == s[|s| - |t|..|s| - |t| + |r|]
      && (r == [] ==> IsBlank(s))
      && (r != [] ==> s[|s| - |t|] == r[0])
  {
    var r := TrimEnd(t);
    if r == [] {
      assert t == [];
    }
  }

  /** A decimal digit '0'..'9'. */
  predicate IsDigit(c: char) {
    '0' <= c <= '9'
  }

  /** Python's `s.isdigit()` on ASCII text: `s` is non-empty and made of digits
      only, so a sign, a space or a letter anywhere makes it false. */
  predicate IsDigitString(s: string) {
    |s| > 0 && forall i :: 0 <= i < |s| ==> IsDigit(s[i])
  }

  /** A digit string holds no whitespace, so it is never blank and `strip()`
      leaves it as it is. */
  lemma DigitStringIsStripped(s: string)
    ensures IsDigitString(s) ==> !IsBlank(s) && Strip(s) == s
  {
    if IsDigitString(s) {
      assert !IsSpace(s[0]) && !IsSpace(s[|s| - 1]);
    }
  }

  /** The character of digit `d`. */
  function DigitChar(d: nat): (c: char)
    requires d < 10
    ensures IsDigit(c) && c as int - '0' as int == d
  {
    ('0' as int + d) as char
  }

  /** Python's `str(n)` for a natural number: its decimal numeral, without
      leading zeros. */
  function NatToString(n: nat): (r: string)
    ensures IsDigitString(r)
    ensures r[0] == '0' ==> n == 0
    decreases n
  {
    if n < 10 then [DigitChar(n)] else NatToString(n / 10) + [DigitChar(n % 10)]
  }

  /** The number a string of digits denotes in decimal. */
  function DigitsValue(s: string): nat
    requires forall i :: 0 <= i < |s| ==> IsDigit(s[i])
  {
    if s == [] then 0
    else assert IsDigit(s[|s| - 1]); DigitsValue(s[..|s| - 1]) * 10 + (s[|s| - 1] as int - '0' as int)
  }

  /** `NatToString` is a decimal numeral for its argument: reading it back gives
      the number. */
  lemma {:induction false} NatToStringRoundTrip(n: nat)
    ensures DigitsValue(NatToString(n)) == n
    decreases n
  {
    var s := NatToString(n);
    if n >= 10 {
      NatToStringRoundTrip(n / 10);
      assert s[..|s| - 1] == NatToString(n / 10);
    }
  }
}
