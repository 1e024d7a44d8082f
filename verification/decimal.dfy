/** Decimal text of integers: how JavaScript prints an integer-valued number
    (template literals, `join`) and how `Number(text)` reads one back. */
module Decimal {
  import opened Common

  predicate IsDigit(c: char) {
    '0' <= c <= '9'
  }

  predicate AllDigits(s: string) {
    forall i :: 0 <= i < |s| ==> IsDigit(s[i])
  }

  function DigitChar(d: nat): (c: char)
    requires d < 10
    ensures IsDigit(c) && c as int - '0' as int == d
  {
    ('0' as int + d) as char
  }

  /** Decimal digits of a natural number, most significant first, no leading zeros. */
  function FormatNat(n: nat): (s: string)
    ensures |s| >= 1 && AllDigits(s)
    ensures |s| > 1 ==> s[0] != '0'
    decreases n
  {
    if n < 10 then [DigitChar(n)] else FormatNat(n / 10) + [DigitChar(n % 10)]
  }

  /** `String(n)` for an integer-valued number. */
  function Format(n: int): (s: string)
    ensures |s| >= 1
    ensures n < 0 <==> s[0] == '-'
  {
    if n < 0 then "-" + FormatNat(-n) else FormatNat(n)
  }

  /** Value of a non-empty run of digits. */
  function DigitsValue(s: string): nat
    requires AllDigits(s)
    decreases |s|
  {
    if |s| == 0 then 0
    else DigitsValue(s[..|s| - 1]) * 10 + (s[|s| - 1] as int - '0' as int)
  }

  /** The integers `Number(text)` reads exactly: an optional sign followed by
      at least one digit. Anything else (fractions, exponents, hex) is `None`. */
  function Parse(s: string): Option<int> {
    if |s| > 0 && (s[0] == '-' || s[0] == '+') then
      var body := s[1..];
      if |body| > 0 && AllDigits(body) then
        var v: int := DigitsValue(body);
        Some(if s[0] == '-' then -v else v)
      else None
    else if |s| > 0 && AllDigits(s) then Some(DigitsValue(s))
    else None
  }

  lemma {:induction false} DigitsOfFormat(n: nat)
    ensures DigitsValue(FormatNat(n)) == n
    decreases n
  {
    if n >= 10 {
      var s := FormatNat(n);
      assert s[..|s| - 1] == FormatNat(n / 10);
      DigitsOfFormat(n / 10);
    }
  }

  /** Reading back printed text gives the number that was printed. */
  lemma ParseFormat(n: int)
    ensures Parse(Format(n)) == Some(n)
  {
    var s := Format(n);
    if n < 0 {
      var body := FormatNat(-n);
      assert s[0] == '-' && s[1..] == body;
      DigitsOfFormat(-n);
      assert Parse(s) == Some(n);
    } else {
      assert s == FormatNat(n);
      assert IsDigit(s[0]);
      DigitsOfFormat(n);
    }
  }
}
