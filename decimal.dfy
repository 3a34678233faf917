/**
 * Decimal text for integers: the model of std::to_string (used to make node
 * labels from item ids) and of std::stoi (used to read labels and input
 * tokens back). Integers are unbounded here; the range check of std::stoi is
 * not modelled.
 */
module Decimal {
  import opened Wrappers

  /** The characters std::isspace accepts in the "C" locale. */
  predicate IsSpace(c: char) {
    c == ' ' || c == '\t' || c == '\n' || c == '\r' || c as int == 11 || c as int == 12
  }

  predicate IsDigit(c: char) {
    '0' <= c <= '9'
  }

  predicate AllDigits(s: string) {
    forall k :: 0 <= k < |s| ==> IsDigit(s[k])
  }

  function DigitChar(d: nat): (c: char)
    requires d < 10
    ensures IsDigit(c) && c as int - '0' as int == d
  {
    ('0' as int + d) as char
  }

  /** The decimal digits of n, most significant first, without leading zeros. */
  function Digits(n: nat): (s: string)
    ensures |s| >= 1 && AllDigits(s)
    decreases n
  {
    if n < 10 then [DigitChar(n)] else Digits(n / 10) + [DigitChar(n % 10)]
  }

  /** std::to_string of an int: a minus sign for negative values, then the digits. */
  function DecimalString(n: int): string {
    if n < 0 then "-" + Digits(-n) else Digits(n)
  }

  /** The text std::to_string writes: a leading minus exactly for negative values, digits everywhere else. */
  lemma DecimalStringShape(n: int)
    ensures var s := DecimalString(n);
      && |s| >= 1 && (s[0] == '-' <==> n < 0)
      && (IsDigit(s[0]) || s[0] == '-')
      && AllDigits(s[1..])
  {
    var d := Digits(if n < 0 then -n else n);
    assert forall k :: 0 <= k < |d| ==> IsDigit(d[k]);
    if n >= 0 {
      assert DecimalString(n)[1..] == d[1..];
    } else {
      assert DecimalString(n)[1..] == d;
    }
  }

  /** The number a run of decimal digits denotes. */
  function Value(s: string): nat
    requires AllDigits(s)
  {
    if s == [] then 0 else Value(s[..|s| - 1]) * 10 + (s[|s| - 1] as int - '0' as int)
  }

  /** Length of the longest prefix of s made of digits. */
  function DigitRun(s: string): (n: nat)
    ensures n <= |s| && AllDigits(s[..n])
    ensures n < |s| ==> !IsDigit(s[n])
  {
    if s == [] || !IsDigit(s[0]) then 0 else 1 + DigitRun(s[1..])
  }

  /** The longest run of digits at the start of s, as a number; None when there is none. */
  function ReadDigits(s: string): Option<nat> {
    var n := DigitRun(s);
    if n == 0 then None else Some(Value(s[..n]))
  }

  /** An optional sign, then ReadDigits. */
  function ReadSigned(t: string): Option<int> {
    if t != [] && t[0] == '-' then
      match ReadDigits(t[1..])
      case None => None
      case Some(v) => Some(-(v as int))
    else if t != [] && t[0] == '+' then ReadDigits(t[1..])
    else ReadDigits(t)
  }

  /**
   * std::stoi in base 10: leading white space is skipped, an optional sign is
   * read, then the longest run of digits; whatever follows is ignored. None is
   * the case where std::stoi throws std::invalid_argument (no digit).
   */
  function StoI(s: string): Option<int> {
    if s != [] && IsSpace(s[0]) then StoI(s[1..]) else ReadSigned(s)
  }

  lemma {:induction false} ValueOfDigits(n: nat)
    ensures Value(Digits(n)) == n
    decreases n
  {
    if n >= 10 {
      ValueOfDigits(n / 10);
      var s := Digits(n);
      assert s[..|s| - 1] == Digits(n / 10);
    }
  }

  lemma {:induction false} DigitRunOfDigits(s: string)
    requires AllDigits(s)
    ensures DigitRun(s) == |s|
  {
    if s != [] {
      DigitRunOfDigits(s[1..]);
    }
  }

  lemma ReadDigitsOfDigits(s: string)
    requires |s| >= 1 && AllDigits(s)
    ensures ReadDigits(s) == Some(Value(s))
  {
    DigitRunOfDigits(s);
    assert s[..|s|] == s;
  }

  /** std::stoi reads a non-empty run of digits as its value. */
  lemma StoIUnsigned(s: string)
    requires |s| >= 1 && AllDigits(s)
    ensures StoI(s) == Some(Value(s))
  {
    assert IsDigit(s[0]);
    ReadDigitsOfDigits(s);
  }

  /** std::stoi reads a minus sign followed by a non-empty run of digits as the negated value. */
  lemma StoINegative(m: string)
    requires |m| >= 2 && m[0] == '-' && AllDigits(m[1..])
    ensures StoI(m) == Some(-(Value(m[1..]) as int))
  {
    ReadDigitsOfDigits(m[1..]);
  }

  lemma DropSign(d: string)
    ensures ("-" + d)[1..] == d
  {
  }

  lemma StoIDecimalNegative(n: int)
    requires n < 0
    ensures StoI(DecimalString(n)) == Some(n)
  {
    ValueOfDigits(-n);
    DropSign(Digits(-n));
    StoINegative(DecimalString(n));
  }

  lemma StoIDecimalNatural(n: int)
    requires n >= 0
    ensures StoI(DecimalString(n)) == Some(n)
  {
    ValueOfDigits(n);
    StoIUnsigned(Digits(n));
  }

  /** Reading back what std::to_string wrote gives the number again. */
  lemma StoIDecimal(n: int)
    ensures StoI(DecimalString(n)) == Some(n)
  {
    if n < 0 {
      StoIDecimalNegative(n);
    } else {
      StoIDecimalNatural(n);
    }
  }

  /** Two items get the same label exactly when they have the same id. */
  lemma DecimalStringInjective(a: int, b: int)
    ensures DecimalString(a) == DecimalString(b) <==> a == b
  {
    StoIDecimal(a);
    StoIDecimal(b);
  }
}
