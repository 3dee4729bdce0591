/** Plain string operations that several parts of the repository rely on. */
module Texts {
  /** JavaScript's `includes`. */
  predicate Includes(text: string, pattern: string)
    decreases |text|
  {
    pattern <= text || (text != "" && Includes(text[1..], pattern))
  }

  /** Somewhere in the text the pattern stands. */
  ghost predicate Occurs(text: string, pattern: string) {
    exists before, after :: text == before + pattern + after
  }

  lemma {:induction false} IncludesMeansOccurs(text: string, pattern: string)
    ensures Includes(text, pattern) <==> Occurs(text, pattern)
    decreases |text|
  {
    if pattern <= text {
      assert text == "" + pattern + text[|pattern|..];
    } else if text != "" {
      IncludesMeansOccurs(text[1..], pattern);
      if before, after :| text[1..] == before + pattern + after {
        assert text == ([text[0]] + before) + pattern + after;
      }
      if before, after :| text == before + pattern + after {
        assert before == "" ==> text == pattern + after;
        assert text[1..] == before[1..] + pattern + after;
      }
    }
  }

  predicate IsDigit(c: char) { '0' <= c <= '9' }

  /** The `\w` class, on whose border `\b` matches. */
  predicate IsWordChar(c: char) {
    IsDigit(c) || 'a' <= c <= 'z' || 'A' <= c <= 'Z' || c == '_'
  }

  predicate AllDigits(text: string) {
    forall i :: 0 <= i < |text| ==> IsDigit(text[i])
  }

  /** The longest run of digits at the start of a text. */
  function LeadingDigits(text: string): (digits: string)
    ensures digits <= text && AllDigits(digits)
    ensures |digits| < |text| ==> !IsDigit(text[|digits|])
  {
    if text == "" || !IsDigit(text[0]) then "" else [text[0]] + LeadingDigits(text[1..])
  }

  // ----- decimal numerals

  function DigitValue(c: char): (v: nat)
    requires IsDigit(c)
    ensures v < 10
  {
    (c - '0') as nat
  }

  function Digit(v: nat): (c: char)
    requires v < 10
    ensures IsDigit(c) && DigitValue(c) == v
  {
    '0' + v as char
  }

  /** The numeral a template literal writes for a non-negative integer. */
  function Decimal(n: nat): (numeral: string)
    ensures numeral != "" && AllDigits(numeral)
  {
    if n < 10 then [Digit(n)] else Decimal(n / 10) + [Digit(n % 10)]
  }

  function NumeralValue(numeral: string): nat
    requires AllDigits(numeral)
  {
    if numeral == "" then 0 else 10 * NumeralValue(numeral[..|numeral| - 1]) + DigitValue(numeral[|numeral| - 1])
  }

  /** Reading a written number back gives the number. */
  lemma {:induction false} NumeralRoundTrip(n: nat)
    ensures NumeralValue(Decimal(n)) == n
  {
    var numeral := Decimal(n);
    if n >= 10 {
      NumeralRoundTrip(n / 10);
      assert numeral[..|numeral| - 1] == Decimal(n / 10);
    } else {
      assert numeral[..0] == "";
    }
  }
}
