/**
 * Integers as text, the way JavaScript writes and reads them: `String(n)` for an
 * integral number and the global `parseInt(s)` with no radix argument.
 */
module Decimal {
  import opened Wrappers
  import opened Text

  predicate IsDigit(c: char) {
    '0' <= c <= '9'
  }

  function DigitChar(d: nat): (c: char)
    requires d < 10
    ensures IsDigit(c)
  {
    ('0' as int + d) as char
  }

  /** Decimal digits of `n`, most significant first, without leading zeros. */
  function NatToString(n: nat): (s: string)
    ensures |s| > 0
    ensures forall i :: 0 <= i < |s| ==> IsDigit(s[i])
    ensures |s| > 1 ==> s[0] != '0'
    decreases n
  {
    if n < 10 then [DigitChar(n)] else NatToString(n / 10) + [DigitChar(n % 10)]
  }

  /** `String(n)` for an integral JavaScript number. */
  function IntToString(n: int): string {
    if n < 0 then "-" + NatToString(-n) else NatToString(n)
  }

  /** `c` is a digit in base `radix` (10 or 16), letters in either case. */
  predicate IsRadixDigit(c: char, radix: nat) {
    IsDigit(c) || (radix == 16 && ('a' <= c <= 'f' || 'A' <= c <= 'F'))
  }

  function RadixDigitValue(c: char, radix: nat): (d: nat)
    requires IsRadixDigit(c, radix)
  {
    if IsDigit(c) then c as int - '0' as int
    else if 'a' <= c <= 'f' then c as int - 'a' as int + 10
    else c as int - 'A' as int + 10
  }

  /** The number written by a string of base-`radix` digits. */
  function DigitsValue(s: string, radix: nat): nat
    requires forall i :: 0 <= i < |s| ==> IsRadixDigit(s[i], radix)
  {
    if |s| == 0 then 0
    else DigitsValue(s[..|s| - 1], radix) * radix + RadixDigitValue(s[|s| - 1], radix)
  }

  /** Length of the longest prefix of `s` made of base-`radix` digits. */
  function DigitPrefix(s: string, radix: nat): (n: nat)
    ensures n <= |s|
    ensures forall i :: 0 <= i < n ==> IsRadixDigit(s[i], radix)
    ensures n < |s| ==> !IsRadixDigit(s[n], radix)
  {
    if |s| > 0 && IsRadixDigit(s[0], radix) then 1 + DigitPrefix(s[1..], radix) else 0
  }

  /** The number written by the longest digit prefix of `v`, if that prefix is not empty. */
  function ReadDigits(v: string, radix: nat): Option<nat> {
    var n := DigitPrefix(v, radix);
    if n == 0 then None else Some(DigitsValue(v[..n], radix))
  }

  /** -1 after a leading minus sign, 1 otherwise. */
  function SignOf(t: string): int {
    if |t| > 0 && t[0] == '-' then -1 else 1
  }

  /** `t` without its leading sign character, if it has one. */
  function Unsigned(t: string): string {
    if |t| > 0 && (t[0] == '-' || t[0] == '+') then t[1..] else t
  }

  predicate HasHexPrefix(u: string) {
    |u| >= 2 && u[0] == '0' && (u[1] == 'x' || u[1] == 'X')
  }

  /**
   * The global `parseInt(s)` with the radix left out: skip leading whitespace, take an
   * optional sign, read hexadecimal after a `0x`/`0X` prefix and decimal otherwise, and
   * stop at the first character that is not a digit. No digit at all gives `NaN`,
   * written `None`.
   */
  function ParseInt(s: string): Option<int> {
    var t := TrimStart(s);
    var u := Unsigned(t);
    var digits := if HasHexPrefix(u) then ReadDigits(u[2..], 16) else ReadDigits(u, 10);
    match digits
    case None => None
    case Some(m) => Some(SignOf(t) * m)
  }

  lemma {:induction false} NatToStringValue(n: nat)
    ensures DigitsValue(NatToString(n), 10) == n
    decreases n
  {
    if n >= 10 {
      NatToStringValue(n / 10);
      var s := NatToString(n);
      assert s[..|s| - 1] == NatToString(n / 10);
    }
  }

  lemma TrimStartUnchanged(s: string)
    requires |s| > 0 ==> !IsJsSpace(s[0])
    ensures TrimStart(s) == s
  {
  }

  lemma {:induction false} DigitPrefixAll(s: string, radix: nat)
    requires forall i :: 0 <= i < |s| ==> IsRadixDigit(s[i], radix)
    ensures DigitPrefix(s, radix) == |s|
  {
    if |s| > 0 {
      DigitPrefixAll(s[1..], radix);
    }
  }

  lemma ReadDigitsOfNatToString(m: nat)
    ensures ReadDigits(NatToString(m), 10) == Some(m)
  {
    var d := NatToString(m);
    DigitPrefixAll(d, 10);
    assert d[..|d|] == d;
    NatToStringValue(m);
  }

  /** Reading back what `String(n)` wrote gives `n`. */
  lemma ParseIntOfIntToString(n: int)
    ensures ParseInt(IntToString(n)) == Some(n)
  {
    var m := if n < 0 then -n else n;
    var d := NatToString(m);
    var s := IntToString(n);
    TrimStartUnchanged(s);
    ReadDigitsOfNatToString(m);
    if n < 0 {
      assert Unsigned(s) == d;
    } else {
      assert Unsigned(s) == d;
    }
    assert !HasHexPrefix(d);
  }

  /** Parsing stops at the first non-digit: `parseInt("12abc")` is 12. */
  lemma ParseIntStopsAtNonDigit()
    ensures ParseInt("12abc") == Some(12)
  {
    var s := "12abc";
    TrimStartUnchanged(s);
    assert Unsigned(s) == s;
    assert s[1..] == "2abc" && s[1..][1..] == "abc";
    assert DigitPrefix("abc", 10) == 0;
    assert DigitPrefix(s, 10) == 2;
    assert s[..2] == "12" && "12"[..1] == "1";
    assert DigitsValue("1", 10) == 1;
  }

  /** Text without a leading digit is `NaN`: `parseInt("abc")` and `parseInt("-")`. */
  lemma ParseIntRejectsNonNumbers()
    ensures ParseInt("abc") == None
    ensures ParseInt("-") == None
  {
    TrimStartUnchanged("abc");
    assert Unsigned("abc") == "abc" && !HasHexPrefix("abc");
    assert DigitPrefix("abc", 10) == 0;
    TrimStartUnchanged("-");
    assert Unsigned("-") == "" && !HasHexPrefix("");
  }

  /** An empty field is `NaN`: `parseInt("")`. */
  lemma ParseIntOfEmpty()
    ensures ParseInt("") == None
  {
    TrimStartUnchanged("");
    assert Unsigned("") == "" && !HasHexPrefix("");
    assert DigitPrefix("", 10) == 0;
  }

  /** A `0x` prefix switches to hexadecimal: `parseInt("0x1A")` is 26. */
  lemma ParseIntReadsHex()
    ensures ParseInt("0x1A") == Some(26)
  {
    var s := "0x1A";
    TrimStartUnchanged(s);
    assert Unsigned(s) == s;
    assert HasHexPrefix(s);
    assert s[2..] == "1A" && "1A"[1..] == "A";
    assert DigitPrefix("A", 16) == 1;
    assert DigitPrefix("1A", 16) == 2;
    assert "1A"[..2] == "1A" && "1A"[..1] == "1";
    assert DigitsValue("1", 16) == 1;
  }
}
