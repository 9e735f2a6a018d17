/**
 * A decimal number parser, standing in for Python's `float()` on the
 * cleaned tokens: an optional sign, digits, and at most one '.', with at
 * least one digit somewhere. The value is an exact real.
 */
module Decimal {
  import opened Wrappers

  predicate IsDigit(c: char)
  {
    '0' <= c <= '9'
  }

  predicate AllDigits(s: string)
  {
    forall k :: 0 <= k < |s| ==> IsDigit(s[k])
  }

  function DigitValue(c: char): nat
    requires IsDigit(c)
  {
    (c as int) - ('0' as int)
  }

  /** The value of a string of decimal digits, most significant first. */
  function DigitsValue(ds: string): nat
    requires AllDigits(ds)
    decreases |ds|
  {
    if ds == [] then 0
    else 10 * DigitsValue(ds[..|ds| - 1]) + DigitValue(ds[|ds| - 1])
  }

  function Pow10(n: nat): (p: nat)
    ensures p >= 1
  {
    if n == 0 then 1 else 10 * Pow10(n - 1)
  }

  /** The first '.' at or after k, or |s| when there is none. */
  function DotFrom(s: string, k: nat): (d: nat)
    requires k <= |s|
    ensures k <= d <= |s|
    ensures forall m :: k <= m < d ==> s[m] != '.'
    ensures d < |s| ==> s[d] == '.'
    decreases |s| - k
  {
    if k == |s| || s[k] == '.' then k else DotFrom(s, k + 1)
  }

  /** The numeral without its sign. */
  function Unsigned(s: string): string
  {
    if |s| > 0 && (s[0] == '-' || s[0] == '+') then s[1..] else s
  }

  /** The digits before the '.', and those after it. */
  function WholePart(u: string): string
  {
    u[..DotFrom(u, 0)]
  }

  function FracPart(u: string): string
  {
    var d := DotFrom(u, 0);
    if d < |u| then u[d + 1..] else []
  }

  /** The parsed value of a numeral, or None when it is not one. */
  function Parse(s: string): Option<real>
  {
    var u := Unsigned(s);
    var whole, frac := WholePart(u), FracPart(u);
    if |whole| + |frac| == 0 || !AllDigits(whole) || !AllDigits(frac) then None
    else
      var size := DigitsValue(whole) as real + DigitsValue(frac) as real / Pow10(|frac|) as real;
      Some(if |s| > 0 && s[0] == '-' then -size else size)
  }

  /** The decimal numeral of a natural number. */
  function Show(n: nat): (s: string)
    ensures |s| >= 1
    ensures AllDigits(s)
  {
    var last := [(('0' as int) + n % 10) as char];
    if n < 10 then last else Show(n / 10) + last
  }

  /** A successful parse needs at least one digit. */
  lemma ParseNeedsDigit(s: string)
    requires Parse(s).Some?
    ensures exists k :: 0 <= k < |s| && IsDigit(s[k])
  {
  }

  /** The numeral of n reads back as n. */
  lemma {:induction false} ShowValue(n: nat)
    ensures DigitsValue(Show(n)) == n
  {
    var s := Show(n);
    if n >= 10 {
      ShowValue(n / 10);
      assert s[..|s| - 1] == Show(n / 10);
    }
  }

  /** Parsing the numeral of n, with or without a minus sign, gives n back. */
  lemma ParseShow(n: nat)
    ensures Parse(Show(n)) == Some(n as real)
    ensures Parse("-" + Show(n)) == Some(-(n as real))
  {
    var s := Show(n);
    ShowValue(n);
    assert IsDigit(s[0]);
    assert Unsigned(s) == s;
    assert DotFrom(s, 0) == |s|;
    assert WholePart(s) == s;
    assert FracPart(s) == [];
    var t := "-" + s;
    assert Unsigned(t) == s;
  }

  /** Strings that pass the token normaliser but are no numerals. */
  lemma ParseRejects()
    ensures Parse("") == None
    ensures Parse("-") == None
    ensures Parse("+") == None
    ensures Parse(".") == None
    ensures Parse("--1") == None
    ensures Parse("1.2.3") == None
  {
  }

  /** A whole numeral. */
  lemma ParseWhole()
    ensures Parse("1234") == Some(1234.0)
  {
    assert DotFrom("1234", 0) == 4;
    assert WholePart("1234") == "1234";
    assert "1234"[..3] == "123" && "123"[..2] == "12" && "12"[..1] == "1" && "1"[..0] == "";
    assert DigitsValue("1234") == 1234;
  }

  /** A numeral with a fractional part. */
  lemma ParseFraction()
    ensures Parse("45.67") == Some(45.67)
  {
    assert DotFrom("45.67", 0) == 2;
    assert WholePart("45.67") == "45" && FracPart("45.67") == "67";
    assert "45"[..1] == "4" && "67"[..1] == "6" && "4"[..0] == "" && "6"[..0] == "";
    assert DigitsValue("45") == 45 && DigitsValue("67") == 67;
  }

  /** A negative numeral without anything after its '.', and one with nothing before it. */
  lemma ParseSigned()
    ensures Parse("-5.") == Some(-5.0)
    ensures Parse("+.5") == Some(0.5)
  {
  }
}
