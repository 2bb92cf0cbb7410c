/** Decimal digit strings: the `\d+` runs of the input grammars, the value
    `Integer.valueOf` reads from them, and the rendering of a number that
    string concatenation produces. Values beyond the Java `int` range are
    not modelled. */
module Decimal {

  predicate IsDigit(c: char) { '0' <= c <= '9' }

  predicate AllDigits(s: string) { forall i :: 0 <= i < |s| ==> IsDigit(s[i]) }

  /** A non-empty digit run without a leading zero (`0|[1-9]\d*`). */
  predicate Canonical(s: string)
  {
    |s| > 0 && AllDigits(s) && (s[0] == '0' ==> |s| == 1)
  }

  function DigitValue(c: char): (d: nat)
    requires IsDigit(c)
    ensures d < 10
  {
    c as int - '0' as int
  }

  function DigitChar(d: nat): (c: char)
    requires d < 10
    ensures IsDigit(c) && DigitValue(c) == d
    ensures c == '0' <==> d == 0
  {
    ('0' as int + d) as char
  }

  /** The value of a digit run, leading zeros allowed. */
  function Value(s: string): nat
    requires AllDigits(s)
  {
    if s == [] then 0 else Value(s[..|s| - 1]) * 10 + DigitValue(s[|s| - 1])
  }

  /** The decimal rendering of a natural number, as `"" + n` gives it. */
  function Show(n: nat): (s: string)
    ensures Canonical(s)
    decreases n
  {
    if n < 10 then [DigitChar(n)] else Show(n / 10) + [DigitChar(n % 10)]
  }

  /** Reading back a rendered number gives the number. */
  lemma {:induction false} ValueOfShow(n: nat)
    ensures Value(Show(n)) == n
    decreases n
  {
    if n >= 10 {
      var s := Show(n);
      assert s[..|s| - 1] == Show(n / 10);
      ValueOfShow(n / 10);
    }
  }

  /** A canonical run is exactly the rendering of its value. */
  lemma {:induction false} ShowOfValue(s: string)
    requires Canonical(s)
    ensures Show(Value(s)) == s
    decreases |s|
  {
    var init := s[..|s| - 1];
    var last := s[|s| - 1];
    if |s| == 1 {
      assert Value(s) == DigitValue(last);
    } else {
      assert Canonical(init);
      ShowOfValue(init);
      ValueNonZeroLead(init);
      assert Value(s) >= 10;
      assert Value(s) / 10 == Value(init);
      assert Value(s) % 10 == DigitValue(last);
      assert Show(Value(s)) == Show(Value(init)) + [DigitChar(DigitValue(last))];
    }
  }

  /** A canonical run of two or more digits has a value of at least one. */
  lemma {:induction false} ValueNonZeroLead(s: string)
    requires Canonical(s)
    ensures |s| > 1 ==> Value(s) >= 1
    ensures |s| == 1 && s[0] != '0' ==> Value(s) >= 1
    decreases |s|
  {
    if |s| > 1 {
      var init := s[..|s| - 1];
      assert Canonical(init);
      ValueNonZeroLead(init);
    }
  }

  /** Rendering is injective: different numbers never print alike. */
  lemma ShowInjective(m: nat, n: nat)
    ensures Show(m) == Show(n) ==> m == n
  {
    if Show(m) == Show(n) {
      ValueOfShow(m);
      ValueOfShow(n);
    }
  }
}
