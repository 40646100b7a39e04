/**
 * Decimal text of a task id: `to_string(int)` on the way out and `stoi`
 * on the way back in.  Integers are unbounded here, so the range check of
 * `stoi` (std::out_of_range) has no counterpart.
 */
module Decimal {
  import opened Wrappers

  predicate IsDigit(c: char) { '0' <= c <= '9' }

  /** The characters `isspace` accepts in the "C" locale. */
  predicate IsSpace(c: char) {
    c == ' ' || c == '\t' || c == '\n' || c == '\U{0B}' || c == '\U{0C}' || c == '\r'
  }

  predicate AllDigits(s: string) { forall i :: 0 <= i < |s| ==> IsDigit(s[i]) }

  function DigitChar(d: nat): (c: char)
    requires d < 10
    ensures IsDigit(c)
  {
    ('0' as int + d) as char
  }

  function DigitValue(c: char): (d: nat)
    requires IsDigit(c)
    ensures d < 10 && DigitChar(d) == c
  {
    c as int - '0' as int
  }

  /** Decimal digits of `n`, most significant first, without leading zeros. */
  function NatToString(n: nat): string
    decreases n
  {
    if n < 10 then [DigitChar(n)] else NatToString(n / 10) + [DigitChar(n % 10)]
  }

  /** `to_string(int)`: a minus sign for negative values, then the digits. */
  function IntToString(n: int): (s: string)
    ensures |s| >= 1 && (s[0] == '-' <==> n < 0)
  {
    var m: nat := if n < 0 then -n else n;
    NatToStringShape(m);
    if n < 0 then "-" + NatToString(m) else NatToString(m)
  }

  /** Value of a string of digits read most significant first. */
  function DigitsValue(d: string): nat
    requires AllDigits(d)
  {
    if d == [] then 0 else 10 * DigitsValue(d[..|d| - 1]) + DigitValue(d[|d| - 1])
  }

  /** The longest prefix of `s` made of digits. */
  function LeadingDigits(s: string): (d: string)
    ensures AllDigits(d)
  {
    if s == [] || !IsDigit(s[0]) then [] else [s[0]] + LeadingDigits(s[1..])
  }

  /** `s` without its leading white space. */
  function SkipSpaces(s: string): string
  {
    if s != [] && IsSpace(s[0]) then SkipSpaces(s[1..]) else s
  }

  /** The value of the digits `u` begins with; None when it begins with none. */
  function ParseDigits(u: string): (r: Option<nat>)
    ensures r.Some? <==> |u| > 0 && IsDigit(u[0])
  {
    var d := LeadingDigits(u);
    if d == [] then None else Some(DigitsValue(d))
  }

  /** `t` begins with a digit, or with a sign followed by a digit. */
  predicate StartsNumber(t: string)
  {
    (|t| > 0 && IsDigit(t[0])) || (|t| > 1 && (t[0] == '-' || t[0] == '+') && IsDigit(t[1]))
  }

  /**
   * `stoi`: skip white space, read an optional sign and then as many digits
   * as there are; whatever follows the digits is ignored.  No digit at all
   * is std::invalid_argument, here None.
   */
  function Stoi(s: string): (r: Option<int>)
    ensures r.Some? <==> StartsNumber(SkipSpaces(s))
    ensures r.Some? && r.value < 0 ==> SkipSpaces(s)[0] == '-'
  {
    var t := SkipSpaces(s);
    if |t| > 0 && t[0] == '-' then
      match ParseDigits(t[1..])
      case None => None
      case Some(v) => Some(-(v as int))
    else if |t| > 0 && t[0] == '+' then
      match ParseDigits(t[1..])
      case None => None
      case Some(v) => Some(v)
    else
      match ParseDigits(t)
      case None => None
      case Some(v) => Some(v)
  }

  /** `NatToString(n)` is a non-empty run of digits with no leading zero. */
  lemma {:induction false} NatToStringShape(n: nat)
    ensures var s := NatToString(n);
      |s| >= 1 && AllDigits(s) && (|s| > 1 ==> s[0] != '0')
    decreases n
  {
    if n >= 10 {
      NatToStringShape(n / 10);
      var s := NatToString(n);
      assert s[0] == NatToString(n / 10)[0];
    }
  }

  /**
   * `IntToString(n)` starts with '-' exactly for negative `n`; every other
   * character is a digit.
   */
  lemma IntToStringShape(n: int)
    ensures var s := IntToString(n);
      |s| >= 1 && (s[0] == '-' <==> n < 0) && (n >= 0 ==> IsDigit(s[0])) &&
      forall i :: 0 < i < |s| ==> IsDigit(s[i])
  {
    if n < 0 {
      NatToStringShape(-n);
    } else {
      NatToStringShape(n);
    }
  }

  /** `LeadingDigits(s)` is a prefix of `s` that no further digit could extend. */
  lemma {:induction false} LeadingDigitsLongest(s: string)
    ensures var d := LeadingDigits(s);
      d <= s && (|d| < |s| ==> !IsDigit(s[|d|]))
  {
    if s != [] && IsDigit(s[0]) {
      LeadingDigitsLongest(s[1..]);
    }
  }

  /**
   * `SkipSpaces(s)` is a suffix of `s` that does not begin with white space,
   * and everything dropped before it is white space.
   */
  lemma {:induction false} SkipSpacesSuffix(s: string)
    ensures var t := SkipSpaces(s);
      |t| <= |s| && t == s[|s| - |t|..] && (t == [] || !IsSpace(t[0])) &&
      forall i :: 0 <= i < |s| - |t| ==> IsSpace(s[i])
  {
    if s != [] && IsSpace(s[0]) {
      SkipSpacesSuffix(s[1..]);
    }
  }

  lemma {:induction false} DigitsValueOfNatToString(n: nat)
    ensures var s := NatToString(n); AllDigits(s) && DigitsValue(s) == n
    decreases n
  {
    var s := NatToString(n);
    NatToStringShape(n);
    if n >= 10 {
      NatToStringShape(n / 10);
      DigitsValueOfNatToString(n / 10);
      assert s[..|s| - 1] == NatToString(n / 10);
    }
  }

  /** `stoi(to_string(n)) == n` for every integer. */
  lemma StoiOfIntToString(n: int)
    ensures Stoi(IntToString(n)) == Some(n)
  {
    StoiIgnoresTail(n, []);
    assert IntToString(n) + [] == IntToString(n);
  }

  /** `stoi` reads `to_string(n)` back as `n` and stops at the first character that is not a digit. */
  lemma StoiIgnoresTail(n: int, tail: string)
    requires tail == [] || !IsDigit(tail[0])
    ensures Stoi(IntToString(n) + tail) == Some(n)
  {
    var m: nat := if n < 0 then -n else n;
    var u := NatToString(m) + tail;
    ParseNatToString(m, tail);
    if n < 0 {
      assert IntToString(n) + tail == ['-'] + u;
      StoiMinus(u, m);
    } else {
      assert IntToString(n) + tail == u;
      StoiUnsigned(u, m);
    }
  }

  /** The digits of `m`, followed by anything that is not a digit, parse back as `m`. */
  lemma ParseNatToString(m: nat, tail: string)
    requires tail == [] || !IsDigit(tail[0])
    ensures var u := NatToString(m) + tail;
      |u| > 0 && IsDigit(u[0]) && ParseDigits(u) == Some(m)
  {
    NatToStringShape(m);
    DigitsValueOfNatToString(m);
    ParseDigitsThen(NatToString(m), tail);
  }

  lemma StoiUnsigned(u: string, v: nat)
    requires |u| > 0 && IsDigit(u[0])
    requires ParseDigits(u) == Some(v)
    ensures Stoi(u) == Some(v)
  {
    NoLeadingSpace(u);
  }

  lemma StoiMinus(u: string, v: nat)
    requires ParseDigits(u) == Some(v)
    ensures Stoi(['-'] + u) == Some(-(v as int))
  {
    var st := ['-'] + u;
    assert st[1..] == u;
    NoLeadingSpace(st);
  }

  lemma NoLeadingSpace(s: string)
    requires s != [] && !IsSpace(s[0])
    ensures SkipSpaces(s) == s
  {
  }

  lemma ParseDigitsThen(digits: string, tail: string)
    requires digits != [] && AllDigits(digits)
    requires tail == [] || !IsDigit(tail[0])
    ensures ParseDigits(digits + tail) == Some(DigitsValue(digits))
  {
    LeadingDigitsOfDigitsThen(digits, tail);
  }

  lemma {:induction false} LeadingDigitsOfDigitsThen(d: string, tail: string)
    requires AllDigits(d)
    requires tail == [] || !IsDigit(tail[0])
    ensures LeadingDigits(d + tail) == d
  {
    if d != [] {
      assert (d + tail)[1..] == d[1..] + tail;
      LeadingDigitsOfDigitsThen(d[1..], tail);
    }
  }
}
