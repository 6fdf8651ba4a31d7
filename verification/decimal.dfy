/**
 * Decimal text of integers, as both System.Text.Json and JavaScript's
 * `Number.prototype.toString` write them: an optional '-' and the digits
 * without leading zeros. `Parse` reads the JSON integer grammar back.
 */
module Decimal {
  import opened Wrappers

  predicate IsDigit(c: char) { '0' <= c <= '9' }

  function DigitValue(c: char): (d: nat)
    requires IsDigit(c)
    ensures d < 10
  {
    c as int - '0' as int
  }

  function DigitChar(d: nat): (c: char)
    requires d < 10
    ensures IsDigit(c) && DigitValue(c) == d
  {
    ('0' as int + d) as char
  }

  predicate AllDigits(s: string)
  {
    forall i :: 0 <= i < |s| ==> IsDigit(s[i])
  }

  /** A digit string in canonical form: non-empty, no leading zero unless it is "0". */
  predicate Canonical(s: string)
  {
    |s| >= 1 && AllDigits(s) && (s[0] == '0' ==> |s| == 1)
  }

  /** The number a digit string denotes, most significant digit first. */
  function ValueOf(s: string): nat
    requires AllDigits(s)
  {
    if |s| == 0 then 0 else ValueOf(s[..|s| - 1]) * 10 + DigitValue(s[|s| - 1])
  }

  /** Canonical digits of a natural number. */
  function ShowNat(n: nat): (s: string)
    ensures Canonical(s)
    ensures s[0] == '0' <==> n == 0
  {
    if n < 10 then [DigitChar(n)] else ShowNat(n / 10) + [DigitChar(n % 10)]
  }

  /** Decimal text of an integer: a '-' for negative values, then canonical digits. */
  function Show(i: int): (s: string)
    ensures |s| >= 1
    ensures ',' !in s && '.' !in s
    ensures s[0] == '0' <==> i == 0
    ensures i == 0 ==> s == "0"
  {
    if i < 0 then "-" + ShowNat(-i) else ShowNat(i)
  }

  /** A JSON integer: an optional '-' followed by a canonical digit string. */
  function Parse(s: string): (r: Option<int>)
    ensures r.Some? <==> Canonical(s) || (|s| >= 2 && s[0] == '-' && Canonical(s[1..]))
  {
    if |s| >= 1 && s[0] == '-' then
      if Canonical(s[1..]) then Some(0 - ValueOf(s[1..]) as int) else None
    else if Canonical(s) then Some(ValueOf(s))
    else None
  }

  /** The digits printed for `n` denote `n`. */
  lemma {:induction false} ValueOfShowNat(n: nat)
    ensures ValueOf(ShowNat(n)) == n
  {
    if n >= 10 {
      ValueOfShowNat(n / 10);
      var s := ShowNat(n);
      assert s[..|s| - 1] == ShowNat(n / 10);
    }
  }

  /** Reading back the text of an integer gives that integer. */
  lemma ParseShow(i: int)
    ensures Parse(Show(i)) == Some(i)
  {
    if i < 0 {
      var d := ShowNat(-i);
      ValueOfShowNat(-i);
      ParseOfMinus(d);
      assert Show(i) == "-" + d;
    } else {
      var d := ShowNat(i);
      ValueOfShowNat(i);
      ParseOfCanonical(d);
      assert Show(i) == d;
    }
  }

  lemma ParseOfCanonical(d: string)
    requires Canonical(d)
    ensures Parse(d) == Some(ValueOf(d))
  {
    assert IsDigit(d[0]);
  }

  lemma ParseOfMinus(d: string)
    requires Canonical(d)
    ensures Parse("-" + d) == Some(0 - ValueOf(d))
  {
    var s := "-" + d;
    assert s[0] == '-' && s[1..] == d;
  }

  /** `ParseOfMinus` with the digits' value `m` passed in. */
  lemma ParseOfMinusValue(d: string, m: nat)
    requires Canonical(d) && m == ValueOf(d)
    ensures Parse("-" + d) == Some(0 - m)
  {
    ParseOfMinus(d);
  }

  /** Distinct integers have distinct texts. */
  lemma ShowInjective(a: int, b: int)
    requires Show(a) == Show(b)
    ensures a == b
  {
    ParseShow(a);
    ParseShow(b);
  }
}
