/**
 * Decimal text of unsigned integers, as Rust's standard library reads it
 * (`<u8 as FromStr>::from_str`, `<u16 as FromStr>::from_str`) and writes it
 * (`Display` for integers).
 */
module Decimal {
  import opened Wrappers

  predicate IsDigit(c: char) {
    '0' <= c <= '9'
  }

  predicate AllDigits(s: string) {
    forall i :: 0 <= i < |s| ==> IsDigit(s[i])
  }

  function DigitValue(c: char): (d: nat)
    requires IsDigit(c)
    ensures d < 10
  {
    c as int - '0' as int
  }

  function DigitChar(d: nat): (c: char)
    requires d < 10
    ensures IsDigit(c) && DigitValue(c) == d
  {
    ('0' as int + d) as char
  }

  /** The number a string of decimal digits denotes (most significant digit first). */
  function Value(s: string): nat
    requires AllDigits(s)
  {
    if s == [] then 0 else Value(s[..|s| - 1]) * 10 + DigitValue(s[|s| - 1])
  }

  /** The value of a three-digit string, digit by digit. */
  lemma ThreeDigits(s: string)
    requires AllDigits(s) && |s| == 3
    ensures Value(s) == DigitValue(s[0]) * 100 + DigitValue(s[1]) * 10 + DigitValue(s[2])
  {
    assert s[..2][..1] == s[..1] && s[..1][..0] == [];
    var a, b := DigitValue(s[0]), DigitValue(s[1]);
    assert Value(s[..1]) == a;
    assert Value(s[..2]) == a * 10 + b;
    assert s[..3] == s;
  }

  /** The value of a five-digit string, digit by digit. */
  lemma FiveDigits(s: string)
    requires AllDigits(s) && |s| == 5
    ensures Value(s) == DigitValue(s[0]) * 10000 + DigitValue(s[1]) * 1000 + DigitValue(s[2]) * 100
                      + DigitValue(s[3]) * 10 + DigitValue(s[4])
  {
    assert s[..4][..3] == s[..3] && s[..3][..2] == s[..2] && s[..2][..1] == s[..1] && s[..1][..0] == [];
    var a, b, c, d := DigitValue(s[0]), DigitValue(s[1]), DigitValue(s[2]), DigitValue(s[3]);
    assert Value(s[..1]) == a;
    assert Value(s[..2]) == a * 10 + b;
    assert Value(s[..3]) == (a * 10 + b) * 10 + c;
    assert Value(s[..4]) == ((a * 10 + b) * 10 + c) * 10 + d;
    assert s[..5] == s;
  }

  /** The shortest decimal text of `n`: digits only, no leading zero, and it denotes `n`. */
  function Text(n: nat): (s: string)
    ensures |s| > 0 && AllDigits(s) && Value(s) == n
    ensures s[0] == '0' ==> s == "0"
  {
    if n < 10 then [DigitChar(n)]
    else
      var prefix := Text(n / 10);
      assert (prefix + [DigitChar(n % 10)])[..|prefix|] == prefix;
      prefix + [DigitChar(n % 10)]
  }

  /**
   * Rust's unsigned `from_str` with upper bound `max`: an optional single
   * leading `+`, then at least one decimal digit, and a value that fits.
   * A lone `+` or `-` is refused, and so is a leading `-` (it is not a digit
   * of an unsigned type).
   */
  function ParseUnsigned(s: string, max: nat): (r: Option<nat>)
    ensures r.Some? ==> r.value <= max
  {
    if s == [] then None
    else
      var digits := if s[0] == '+' then s[1..] else s;
      if digits == [] || !AllDigits(digits) then None
      else if Value(digits) <= max then Some(Value(digits))
      else None
  }

  /** What `ParseUnsigned` accepts, stated from the outside: exactly `[+]digits` within bounds. */
  lemma ParseUnsignedAccepts(s: string, max: nat, n: nat)
    ensures ParseUnsigned(s, max) == Some(n) <==>
      exists d :: (s == d || s == "+" + d) && d != [] && AllDigits(d) && Value(d) == n && n <= max
  {
    if ParseUnsigned(s, max) == Some(n) {
      var d := if s[0] == '+' then s[1..] else s;
      assert s == d || s == "+" + d;
    }
    if exists d :: (s == d || s == "+" + d) && d != [] && AllDigits(d) && Value(d) == n && n <= max {
      var d :| (s == d || s == "+" + d) && d != [] && AllDigits(d) && Value(d) == n && n <= max;
      if s == "+" + d {
        assert s[1..] == d;
      } else {
        assert s[0] != '+' by { assert IsDigit(d[0]); }
      }
    }
  }

  /** The decimal text of a number within bounds parses back to that number. */
  lemma ParseText(n: nat, max: nat)
    requires n <= max
    ensures ParseUnsigned(Text(n), max) == Some(n)
    ensures ParseUnsigned("+" + Text(n), max) == Some(n)
  {
    var t := Text(n);
    assert t[0] != '+' by { assert IsDigit(t[0]); }
    assert ("+" + t)[1..] == t;
  }

  /** Empty text, a lone sign, a leading `-` and any non-digit are all refused. */
  lemma ParseRejects(s: string, max: nat)
    requires s == [] || s == "+" || s == "-" || (s[0] == '-') || (exists i :: 1 <= i < |s| && !IsDigit(s[i]))
      || (s[0] != '+' && !IsDigit(s[0]))
    ensures ParseUnsigned(s, max) == None
  {
    if s != [] && s[0] == '+' && exists i :: 1 <= i < |s| && !IsDigit(s[i]) {
      var i :| 1 <= i < |s| && !IsDigit(s[i]);
      assert !IsDigit(s[1..][i - 1]);
    } else if s != [] && s[0] != '+' && exists i :: 1 <= i < |s| && !IsDigit(s[i]) {
      var i :| 1 <= i < |s| && !IsDigit(s[i]);
      assert !IsDigit(s[i]);
    } else if s != [] && s[0] == '-' {
      assert !IsDigit(s[0]);
    }
  }

  /** A value above the bound is refused even though every character is a digit. */
  lemma ParseRejectsOverflow(d: string, max: nat)
    requires d != [] && AllDigits(d) && Value(d) > max
    ensures ParseUnsigned(d, max) == None
    ensures ParseUnsigned("+" + d, max) == None
  {
    assert d[0] != '+' by { assert IsDigit(d[0]); }
    assert ("+" + d)[1..] == d;
  }
}
