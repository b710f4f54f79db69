/** Numbers as text: the decimal numeral JavaScript prints for a non-negative integer, and
    `parseInt` without a radix argument. */
module Numerals {
  import opened Wrappers
  import Text

  predicate IsDecimalDigit(c: char) {
    '0' <= c <= '9'
  }

  /** The value of a letter or digit as a digit in a radix up to 36; 36 for anything else. */
  function DigitValue(c: char): (v: nat)
    ensures v <= 36
    ensures v < 10 <==> IsDecimalDigit(c)
  {
    if '0' <= c <= '9' then c as int - '0' as int
    else if 'a' <= c <= 'z' then c as int - 'a' as int + 10
    else if 'A' <= c <= 'Z' then c as int - 'A' as int + 10
    else 36
  }

  function DigitChar(d: nat): (c: char)
    requires d < 10
    ensures IsDecimalDigit(c) && DigitValue(c) == d
  {
    ('0' as int + d) as char
  }

  /** `String(n)` (or `${n}`) for a non-negative integer. */
  function DecimalString(n: nat): (s: string)
    ensures |s| > 0
    ensures forall i :: 0 <= i < |s| ==> IsDecimalDigit(s[i])
  {
    if n < 10 then [DigitChar(n)] else DecimalString(n / 10) + [DigitChar(n % 10)]
  }

  /** The number that a string of digits spells in `radix`, most significant digit first. */
  function DigitsValue(ds: string, radix: nat): nat
  {
    if ds == [] then 0 else DigitsValue(ds[..|ds| - 1], radix) * radix + DigitValue(ds[|ds| - 1])
  }

  /** The length of the longest prefix of `s` made of digits of `radix`. */
  function DigitRun(s: string, radix: nat): (n: nat)
    ensures n <= |s|
    ensures forall i :: 0 <= i < n ==> DigitValue(s[i]) < radix
    ensures n < |s| ==> DigitValue(s[n]) >= radix
  {
    if s != [] && DigitValue(s[0]) < radix then 1 + DigitRun(s[1..], radix) else 0
  }

  /** The text after an optional leading sign. */
  function AfterSign(t: string): string {
    if |t| > 0 && (t[0] == '-' || t[0] == '+') then t[1..] else t
  }

  /** `0x` or `0X` in front: parseInt then reads hexadecimal digits. */
  predicate HasHexPrefix(u: string) {
    |u| >= 2 && u[0] == '0' && (u[1] == 'x' || u[1] == 'X')
  }

  /** `parseInt(s)`: leading whitespace skipped, an optional sign, a `0x`/`0X` prefix choosing
      radix 16, then the longest run of digits of that radix; `None` stands for NaN. */
  function ParseInt(s: string): (r: Option<int>)
  {
    var t := Text.TrimStart(s);
    var u := AfterSign(t);
    var radix := if HasHexPrefix(u) then 16 else 10;
    var v := if HasHexPrefix(u) then u[2..] else u;
    var n := DigitRun(v, radix);
    if n == 0 then None
    else
      var magnitude: int := DigitsValue(v[..n], radix);
      Some(if |t| > 0 && t[0] == '-' then -magnitude else magnitude)
  }

  /** The digits of `String(n)` spell `n`. */
  lemma {:induction false} DecimalStringValue(n: nat)
    ensures DigitsValue(DecimalString(n), 10) == n
    decreases n
  {
    if n < 10 {
      assert DecimalString(n)[..0] == [];
    } else {
      var d := DecimalString(n / 10);
      DecimalStringValue(n / 10);
      assert (d + [DigitChar(n % 10)])[..|d|] == d;
    }
  }

  /** A non-empty run of decimal digits with no sign or prefix parses as the number it spells. */
  lemma ParseIntOfDigits(s: string)
    requires |s| > 0 && forall i :: 0 <= i < |s| ==> IsDecimalDigit(s[i])
    ensures ParseInt(s) == Some(DigitsValue(s, 10))
  {
    assert !Text.IsJsWhitespace(s[0]) && s[0] != '-' && s[0] != '+';
    assert Text.TrimStart(s) == s;
    assert AfterSign(s) == s;
    assert !HasHexPrefix(s) by {
      if |s| >= 2 { assert IsDecimalDigit(s[1]); }
    }
    assert forall i | 0 <= i < |s| :: DigitValue(s[i]) < 10;
    assert DigitRun(s, 10) == |s|;
    assert s[..|s|] == s;
  }

  /** Round trip: `parseInt(String(n)) == n`. */
  lemma ParseIntDecimalString(n: nat)
    ensures ParseInt(DecimalString(n)) == Some(n)
  {
    ParseIntOfDigits(DecimalString(n));
    DecimalStringValue(n);
  }

  /** Different numbers print differently. */
  lemma DecimalStringInjective(a: nat, b: nat)
    requires DecimalString(a) == DecimalString(b)
    ensures a == b
  {
    DecimalStringValue(a);
    DecimalStringValue(b);
  }
}
