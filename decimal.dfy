/**
 * Decimal text for integers: a stand-in for Python's `int(text)` (used on each
 * input line) and for the `{n}` rendering of an integer inside an f-string
 * (used in the prompt and the victory message).
 *
 * The accepted grammar is an optional `+` or `-` followed by one or more ASCII
 * digits; leading zeros are allowed, as `int()` allows them.
 */
module Decimal {
  import opened Wrappers

  predicate IsDigit(c: char) {
    '0' <= c <= '9'
  }

  predicate AllDigits(s: string) {
    forall i :: 0 <= i < |s| ==> IsDigit(s[i])
  }

  function DigitValue(c: char): (d: nat)
    requires IsDigit(c)
    ensures d < 10
  {
    c as int - '0' as int
  }

  function DigitChar(d: nat): (c: char)
    requires d < 10
    ensures IsDigit(c) && DigitValue(c) == d
  {
    ('0' as int + d) as char
  }

  /** The value of a run of digits, most significant first. */
  function DigitsValue(s: string): nat
    requires AllDigits(s)
    decreases |s|
  {
    if s == [] then 0 else DigitsValue(s[..|s| - 1]) * 10 + DigitValue(s[|s| - 1])
  }

  /** The texts that `ParseInt` accepts. */
  predicate IsIntLiteral(s: string) {
    (|s| > 0 && AllDigits(s)) || (|s| > 1 && (s[0] == '+' || s[0] == '-') && AllDigits(s[1..]))
  }

  /** `int(s)`: `None` where Python raises ValueError. */
  function ParseInt(s: string): (r: Option<int>)
    ensures r.Some? ==> |s| > 0
    ensures r.Some? && s[0] == '-' ==> r.value <= 0
    ensures r.Some? && s[0] != '-' ==> r.value >= 0
  {
    if |s| > 0 && AllDigits(s) then Some(DigitsValue(s) as int)
    else if |s| > 1 && s[0] == '-' && AllDigits(s[1..]) then Some(0 - DigitsValue(s[1..]) as int)
    else if |s| > 1 && s[0] == '+' && AllDigits(s[1..]) then Some(DigitsValue(s[1..]))
    else None
  }

  /** A line is accepted exactly when it is an optionally signed run of digits. */
  lemma ParseIntAccepts(s: string)
    ensures ParseInt(s).Some? <==> IsIntLiteral(s)
  {
  }

  /** Decimal digits of a natural number. */
  function ShowNat(n: nat): string
    decreases n
  {
    if n < 10 then [DigitChar(n)] else ShowNat(n / 10) + [DigitChar(n % 10)]
  }

  /** The digits of `n` are a non-empty run of digits without a leading zero, worth `n`. */
  lemma {:induction false} ShowNatDigits(n: nat)
    ensures |ShowNat(n)| > 0 && AllDigits(ShowNat(n)) && DigitsValue(ShowNat(n)) == n
    ensures |ShowNat(n)| > 1 ==> ShowNat(n)[0] != '0'
    decreases n
  {
    if n >= 10 {
      var prefix := ShowNat(n / 10);
      ShowNatDigits(n / 10);
      var s := prefix + [DigitChar(n % 10)];
      assert s[..|s| - 1] == prefix;
    }
  }

  /** `str(n)`, as an f-string renders an integer: never empty, and a leading `-` exactly for negatives. */
  function Show(n: int): (s: string)
    ensures |s| > 0 && (s[0] == '-' <==> n < 0)
  {
    if n < 0 then "-" + ShowNat(-n)
    else
      ShowNatDigits(n);
      assert IsDigit(ShowNat(n)[0]);
      ShowNat(n)
  }

  /** Parsing the rendering of an integer gives the integer back. */
  lemma ParseShow(n: int)
    ensures ParseInt(Show(n)) == Some(n)
  {
    if n < 0 {
      ShowNatDigits(-n);
      assert Show(n)[1..] == ShowNat(-n);
    } else {
      ShowNatDigits(n);
    }
  }

  /** The middle part of `p + a + q` is `a`. */
  lemma Middle<T>(p: seq<T>, a: seq<T>, q: seq<T>)
    ensures |p + a + q| == |p| + |a| + |q|
    ensures (p + a + q)[|p|..|p| + |a|] == a
  {
    assert forall i :: 0 <= i < |a| ==> (p + a + q)[|p| + i] == a[i];
  }

  /** Drops leading zeros from a run of digits, keeping at least one digit. */
  function StripZeros(d: string): (r: string)
    requires |d| > 0 && AllDigits(d)
    ensures |r| > 0 && AllDigits(r) && DigitsValue(r) == DigitsValue(d)
    ensures |r| > 1 ==> r[0] != '0'
    decreases |d|
  {
    if |d| > 1 && d[0] == '0' then
      LeadingZero(d[1..]);
      assert d == ['0'] + d[1..];
      StripZeros(d[1..])
    else d
  }

  /** A leading zero does not change the value of a run of digits. */
  lemma {:induction false} LeadingZero(d: string)
    requires AllDigits(d)
    ensures AllDigits(['0'] + d) && DigitsValue(['0'] + d) == DigitsValue(d)
    decreases |d|
  {
    var z := ['0'] + d;
    if d != [] {
      assert z[..|z| - 1] == ['0'] + d[..|d| - 1];
      LeadingZero(d[..|d| - 1]);
    }
  }

  /** A run of digits that does not start with `0` is worth more than zero. */
  lemma {:induction false} LeadingNonZero(d: string)
    requires |d| > 0 && AllDigits(d) && d[0] != '0'
    ensures DigitsValue(d) > 0
    decreases |d|
  {
    if |d| > 1 {
      LeadingNonZero(d[..|d| - 1]);
    }
  }

  /** A run of digits without a leading zero is the rendering of its own value. */
  lemma {:induction false} ShowNatOfDigits(d: string)
    requires |d| > 0 && AllDigits(d) && (|d| > 1 ==> d[0] != '0')
    ensures ShowNat(DigitsValue(d)) == d
    decreases |d|
  {
    var n := DigitsValue(d);
    var last := d[|d| - 1];
    assert DigitChar(DigitValue(last)) == last;
    if |d| > 1 {
      var prefix := d[..|d| - 1];
      LeadingNonZero(prefix);
      ShowNatOfDigits(prefix);
      assert n / 10 == DigitsValue(prefix) && n % 10 == DigitValue(last);
      assert prefix + [last] == d;
    }
  }

  /**
   * The text `str()` gives for the value of an accepted line: the line without
   * a `+` sign and without leading zeros, and `0` for a negative zero.
   */
  function Canonical(s: string): string
    requires IsIntLiteral(s)
  {
    if AllDigits(s) then StripZeros(s)
    else if s[0] == '+' then StripZeros(s[1..])
    else if StripZeros(s[1..]) == "0" then "0"
    else "-" + StripZeros(s[1..])
  }

  /**
   * The value of every accepted line: the integer whose rendering is the
   * line's canonical form, e.g. `+5` and `007` give 5 and `-0` gives 0.
   */
  lemma ParseIntValue(s: string)
    requires IsIntLiteral(s)
    ensures ParseInt(s).Some? && Show(ParseInt(s).value) == Canonical(s)
  {
    if AllDigits(s) {
      ShowNatOfDigits(StripZeros(s));
    } else {
      var m := StripZeros(s[1..]);
      ShowNatOfDigits(m);
      if s[0] == '-' && m != "0" {
        assert m[0] != '0';
        LeadingNonZero(m);
      }
    }
  }

  /** A line in canonical form is exactly the rendering of its value. */
  lemma ParseIntCanonical(s: string, n: int)
    requires ParseInt(s) == Some(n)
    requires s[0] != '+' && (s[0] == '-' ==> |s| > 1 && s[1] != '0')
    requires |s| > 1 && s[0] != '-' ==> s[0] != '0'
    ensures Show(n) == s
  {
    ParseIntAccepts(s);
    ParseIntValue(s);
    if !AllDigits(s) {
      assert s[1..][0] == s[1];
    }
  }
}
