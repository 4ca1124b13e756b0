/** Base-10 text for unsigned numbers: the parse of a digit string and the
    rendering `%llu` produces, with the round trips between them. */
module Decimal {

  predicate IsDigit(c: char) {
    '0' <= c <= '9'
  }

  predicate AllDigits(s: string) {
    forall i :: 0 <= i < |s| ==> IsDigit(s[i])
  }

  /** The rendering %llu gives: no sign, no leading zeros except for 0. */
  predicate Canonical(s: string) {
    |s| >= 1 && AllDigits(s) && (s[0] == '0' ==> |s| == 1)
  }

  function DigitValue(c: char): (d: nat)
    requires IsDigit(c)
    ensures d < 10
  {
    c as int - '0' as int
  }

  function DigitChar(d: nat): (c: char)
    requires d < 10
    ensures IsDigit(c) && DigitValue(c) == d
  {
    ('0' as int + d) as char
  }

  /** The number a digit string denotes, most significant digit first. */
  function Value(s: string): nat
    requires AllDigits(s)
    decreases |s|
  {
    if s == [] then 0 else 10 * Value(s[..|s| - 1]) + DigitValue(s[|s| - 1])
  }

  /** `%llu`: the decimal digits of n. */
  function Render(n: nat): (s: string)
    ensures |s| >= 1 && AllDigits(s)
    decreases n
  {
    if n < 10 then [DigitChar(n)] else Render(n / 10) + [DigitChar(n % 10)]
  }

  function Pow10(k: nat): (p: nat)
    ensures p >= 1
  {
    if k == 0 then 1 else 10 * Pow10(k - 1)
  }

  /** Parsing a rendering gives the number back. */
  lemma {:induction false} ValueOfRender(n: nat)
    ensures Value(Render(n)) == n
    decreases n
  {
    if n >= 10 {
      ValueOfRender(n / 10);
      var s := Render(n);
      assert s[..|s| - 1] == Render(n / 10);
    }
  }

  /** A rendering has no leading zero. */
  lemma {:induction false} RenderCanonical(n: nat)
    ensures Canonical(Render(n))
    ensures n >= 10 ==> Render(n)[0] != '0'
    decreases n
  {
    if n >= 10 {
      RenderCanonical(n / 10);
    }
  }

  /** A canonical string of k digits denotes a number of k digits. */
  lemma {:induction false} ValueRange(s: string)
    requires Canonical(s)
    ensures Pow10(|s| - 1) <= Value(s) || |s| == 1
    ensures Value(s) < Pow10(|s|)
    decreases |s|
  {
    if |s| > 1 {
      var init := s[..|s| - 1];
      assert init[0] == s[0];
      ValueRange(init);
    } else {
      assert Value(s) == DigitValue(s[0]);
    }
  }

  /** Rendering the value of a canonical string gives the string back. */
  lemma {:induction false} RenderOfValue(s: string)
    requires Canonical(s)
    ensures Render(Value(s)) == s
    decreases |s|
  {
    if |s| > 1 {
      var init := s[..|s| - 1];
      assert init[0] == s[0];
      ValueRange(init);
      RenderOfValue(init);
      var v := Value(s);
      assert v / 10 == Value(init) && v % 10 == DigitValue(s[|s| - 1]);
      assert v >= 10;
      assert s == init + [s[|s| - 1]];
    } else {
      assert s == [s[0]];
    }
  }

  /** A number below 10^k renders in at most k digits. */
  lemma {:induction false} RenderLength(n: nat, k: nat)
    requires k >= 1 && n < Pow10(k)
    ensures |Render(n)| <= k
    decreases k
  {
    if n >= 10 {
      assert k >= 2;
      RenderLength(n / 10, k - 1);
    }
  }
}
