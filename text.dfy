/** Decimal text: the `%d` rendering the extension uses for its fallback
    labels and address strings, and the integer reading PHP applies when a
    string option is converted with `zval_get_long`. */
module Text {

  predicate IsDigit(c: char) {
    '0' <= c <= '9'
  }

  predicate AllDigits(s: string) {
    forall i :: 0 <= i < |s| ==> IsDigit(s[i])
  }

  function DigitChar(d: nat): (c: char)
    requires d < 10
    ensures IsDigit(c)
  {
    (48 + d) as char
  }

  function DigitValue(c: char): (d: nat)
    requires IsDigit(c)
    ensures d < 10
  {
    (c as int) - 48
  }

  /** Decimal digits of a natural number, most significant first, with no
      leading zeros. */
  function NatToDigits(n: nat): (s: string)
    ensures |s| >= 1 && AllDigits(s)
    ensures n < 10 ==> |s| == 1
    ensures n < 100 ==> |s| <= 2
    ensures n < 1000 ==> |s| <= 3
    ensures |s| > 1 ==> s[0] != '0'
  {
    if n < 10 then [DigitChar(n)]
    else NatToDigits(n / 10) + [DigitChar(n % 10)]
  }

  /** `%d`: an optional minus sign followed by the digits of the magnitude. */
  function FormatInt(n: int): (s: string)
    ensures |s| >= 1 && '\0' !in s
    ensures n >= 0 ==> AllDigits(s)
    ensures n < 0 ==> s[0] == '-' && AllDigits(s[1..])
  {
    if n < 0 then "-" + NatToDigits(-n) else NatToDigits(n)
  }

  /** The value of a string made of digits only (0 for the empty string). */
  function DigitsValue(s: string): nat
    requires AllDigits(s)
  {
    if s == [] then 0
    else DigitsValue(s[..|s| - 1]) * 10 + DigitValue(s[|s| - 1])
  }

  lemma {:induction false} DigitsRoundTrip(n: nat)
    ensures DigitsValue(NatToDigits(n)) == n
  {
    var s := NatToDigits(n);
    if n >= 10 {
      DigitsRoundTrip(n / 10);
      assert s[..|s| - 1] == NatToDigits(n / 10);
      assert DigitValue(s[|s| - 1]) == n % 10;
    }
  }

  /** The longest prefix of `s` made of digits. */
  function LeadingDigits(s: string): (r: string)
    ensures r <= s && AllDigits(r)
    ensures |r| == |s| || !IsDigit(s[|r|])
  {
    if s == [] || !IsDigit(s[0]) then ""
    else
      var rest := LeadingDigits(s[1..]);
      [s[0]] + rest
  }

  lemma {:induction false} LeadingDigitsOfDigits(s: string)
    requires AllDigits(s)
    ensures LeadingDigits(s) == s
  {
    if s != [] {
      LeadingDigitsOfDigits(s[1..]);
      assert [s[0]] + s[1..] == s;
    }
  }

  predicate IsSpace(c: char) {
    c == ' ' || c == '\t' || c == '\n' || c == '\r' || c as int == 11 || c as int == 12
  }

  function SkipSpace(s: string): (r: string)
    ensures |r| <= |s| && r == s[|s| - |r|..]
    ensures r == [] || !IsSpace(r[0])
  {
    if s != [] && IsSpace(s[0]) then SkipSpace(s[1..]) else s
  }

  /** The integer PHP reads from a string: leading white space, an optional
      sign, then the longest run of decimal digits; a string with no such
      digits reads as 0. */
  function StrToLong(s: string): int {
    var t := SkipSpace(s);
    var signed := t != [] && (t[0] == '-' || t[0] == '+');
    var v: int := DigitsValue(LeadingDigits(if signed then t[1..] else t));
    if signed && t[0] == '-' then -v else v
  }

  lemma {:induction false} StrToLongOfDigits(d: string)
    requires d != [] && AllDigits(d)
    ensures StrToLong(d) == DigitsValue(d)
    ensures StrToLong("-" + d) == -(DigitsValue(d) as int)
  {
    assert !IsSpace(d[0]) && d[0] != '-' && d[0] != '+';
    assert SkipSpace(d) == d;
    LeadingDigitsOfDigits(d);
    var m := "-" + d;
    assert !IsSpace(m[0]);
    assert SkipSpace(m) == m;
    assert m[1..] == d;
  }

  /** Reading back what `%d` printed gives the number that was printed. */
  lemma {:induction false} FormatIntRoundTrip(n: int)
    ensures StrToLong(FormatInt(n)) == n
  {
    var m: nat := if n < 0 then -n else n;
    var d := NatToDigits(m);
    DigitsRoundTrip(m);
    StrToLongOfDigits(d);
    if n < 0 {
      calc {
        StrToLong(FormatInt(n));
        StrToLong("-" + d);
        -(DigitsValue(d) as int);
        n;
      }
    } else {
      calc {
        StrToLong(FormatInt(n));
        StrToLong(d);
        DigitsValue(d);
        n;
      }
    }
  }
}
