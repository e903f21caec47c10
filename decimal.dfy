/** Dates travel to SQLite as text: the source binds `date.to_string()`
    (Rust's decimal rendering of an `i64`) and the `date` column, being an
    integer key, turns that text back into the integer. This module gives the
    rendering and the conversion back, and proves that one undoes the other. */
module Decimal {
  import opened SqlText

  predicate IsDigit(c: char) {
    '0' <= c <= '9'
  }

  predicate AllDigits(s: string) {
    forall i :: 0 <= i < |s| ==> IsDigit(s[i])
  }

  /** Text SQLite reads as an integer: an optional minus sign followed by at least one digit. */
  predicate IsIntegerText(s: string) {
    if |s| > 0 && s[0] == '-' then |s| > 1 && AllDigits(s[1..]) else |s| > 0 && AllDigits(s)
  }

  function DigitChar(d: int): (c: char)
    requires 0 <= d < 10
    ensures IsDigit(c)
  {
    ('0' as int + d) as char
  }

  function DigitValue(c: char): (d: int)
    requires IsDigit(c)
    ensures 0 <= d < 10 && DigitChar(d) == c
  {
    c as int - '0' as int
  }

  /** The decimal digits of `n`, most significant first, without leading zeros. */
  function RenderNat(n: nat): (r: string)
    ensures |r| > 0 && AllDigits(r)
    ensures |r| > 1 ==> r[0] != '0'
    decreases n
  {
    if n < 10 then [DigitChar(n)] else RenderNat(n / 10) + [DigitChar(n % 10)]
  }

  /** `i64::to_string`: a leading minus sign exactly for negative numbers, then the digits. */
  function Render(n: int): (r: string)
    ensures IsIntegerText(r)
    ensures r[0] == '-' <==> n < 0
  {
    if n < 0 then "-" + RenderNat(-n) else RenderNat(n)
  }

  function ParseNat(s: string): nat
    requires AllDigits(s)
    decreases |s|
  {
    if s == [] then 0 else ParseNat(s[..|s| - 1]) * 10 + DigitValue(s[|s| - 1])
  }

  /** The integer SQLite stores for integer text bound to an integer column. */
  function Parse(s: string): (r: int)
    requires IsIntegerText(s)
    ensures r < 0 ==> s[0] == '-'
  {
    if s[0] == '-' then -(ParseNat(s[1..]) as int) else ParseNat(s)
  }

  lemma {:induction false} ParseRenderNat(n: nat)
    ensures ParseNat(RenderNat(n)) == n
    decreases n
  {
    var s := RenderNat(n);
    if n >= 10 {
      assert s[..|s| - 1] == RenderNat(n / 10);
      ParseRenderNat(n / 10);
    }
  }

  /** Rendering a date and reading it back gives the same date, so the text
      key the source binds addresses exactly the row of that integer date. */
  lemma {:induction false} ParseRender(n: int)
    ensures Parse(Render(n)) == n
  {
    if n < 0 {
      assert Render(n)[1..] == RenderNat(-n);
      ParseRenderNat(-n);
    } else {
      ParseRenderNat(n);
    }
  }

  /** Two dates render to the same text only if they are equal. */
  lemma RenderInjective(a: int, b: int)
    ensures Render(a) == Render(b) ==> a == b
  {
    ParseRender(a);
    ParseRender(b);
  }

  /** A rendered date holds only digits and a minus sign, so no ASCII capital. */
  lemma RenderHasNoCapitals(n: int)
    ensures forall i :: 0 <= i < |Render(n)| ==> !IsAsciiUpper(Render(n)[i])
  {
    var r := Render(n);
    if n < 0 {
      assert forall i :: 1 <= i < |r| ==> r[i] == r[1..][i - 1];
    }
  }

  /** `lower` leaves a rendered date as it is. */
  lemma LowerRender(n: int)
    ensures Lower(Render(n)) == Render(n)
  {
    RenderHasNoCapitals(n);
    LowerOfLowerCase(Render(n));
  }
}
