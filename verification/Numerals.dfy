/** Positional numerals: the strings the formatting code must produce, and the
    parser that reads them back. */
module Numerals {
  import opened Powers

  datatype Option<+T> = None | Some(value: T)

  const HEX_DIGITS: string := "0123456789abcdef"

  /** The numeral of n, most significant digit first. */
  function Numeral(n: nat, base: nat): (s: string)
    requires 2 <= base <= 16
    ensures |s| > 0
  {
    if n < base then [HEX_DIGITS[n]]
    else QuotientShrinks(n, base); Numeral(n / base, base) + [HEX_DIGITS[n % base]]
  }

  lemma QuotientShrinks(n: nat, base: nat)
    requires base >= 2 && n > 0
    ensures n / base < n
  {
    var q := n / base;
    assert n >= q * base;
    MulMono(2, base, q);
  }

  function DigitValue(c: char): (d: Option<nat>) {
    if '0' <= c <= '9' then Some((c - '0') as nat)
    else if 'a' <= c <= 'f' then Some((c - 'a') as nat + 10)
    else None
  }

  lemma DigitOfValue(d: nat)
    requires d < 16
    ensures DigitValue(HEX_DIGITS[d]) == Some(d)
  {
  }

  lemma ValueOfDigit(c: char)
    requires DigitValue(c).Some?
    ensures DigitValue(c).value < 16 && HEX_DIGITS[DigitValue(c).value] == c
  {
  }

  /** Reads a non-empty string of digits of the base. */
  function Parse(s: string, base: nat): (r: Option<nat>) {
    if s == [] then None
    else
      match DigitValue(s[|s| - 1])
      case None => None
      case Some(d) =>
        if d >= base then None
        else if |s| == 1 then Some(d)
        else
          match Parse(s[..|s| - 1], base)
          case None => None
          case Some(high) => Some(high * base + d)
  }

  /** No leading zero, except in "0" itself. */
  predicate Canonical(s: string) {
    |s| == 1 || (|s| > 1 && s[0] != '0')
  }

  /** Printing then parsing gives the value back. */
  lemma {:induction false} ParseNumeral(n: nat, base: nat)
    requires 2 <= base <= 16
    ensures Parse(Numeral(n, base), base) == Some(n)
    decreases n
  {
    if n < base {
      DigitOfValue(n);
    } else {
      QuotientShrinks(n, base);
      var s := Numeral(n / base, base);
      ParseNumeral(n / base, base);
      DigitOfValue(n % base);
      assert (s + [HEX_DIGITS[n % base]])[..|s|] == s;
    }
  }

  lemma {:induction false} NumeralCanonical(n: nat, base: nat)
    requires 2 <= base <= 16
    ensures Canonical(Numeral(n, base))
    ensures n > 0 ==> Numeral(n, base)[0] != '0'
    decreases n
  {
    if n < base {
      DigitOfValue(n);
    } else {
      QuotientShrinks(n, base);
      QuotientPositive(n, base);
      NumeralCanonical(n / base, base);
    }
  }

  lemma QuotientPositive(n: nat, base: nat)
    requires n >= base > 0
    ensures n / base >= 1
  {
    assert n == (n / base) * base + n % base;
  }

  /** A canonical digit string is the numeral of the value it parses to, so
      numerals and canonical digit strings are in bijection. */
  lemma {:induction false} CanonicalIsNumeral(s: string, base: nat)
    requires 2 <= base <= 16 && Canonical(s) && Parse(s, base).Some?
    ensures s == Numeral(Parse(s, base).value, base)
    ensures |s| > 1 ==> Parse(s, base).value >= base
    decreases |s|
  {
    var n := |s| - 1;
    ValueOfDigit(s[n]);
    var d := DigitValue(s[n]).value;
    if |s| > 1 {
      var t := s[..n];
      CanonicalIsNumeral(t, base);
      var high := Parse(t, base).value;
      LeadingDigit(t, base);
      MulMono(1, high, base);
      DivUnique(high * base + d, base, high, d);
      assert s == t + [s[n]];
    }
  }

  lemma LeadingDigit(t: string, base: nat)
    requires 2 <= base <= 16 && |t| > 0 && t[0] != '0' && Parse(t, base).Some?
    requires |t| > 1 ==> Parse(t, base).value >= base
    ensures Parse(t, base).value >= 1
  {
    ValueOfDigit(t[|t| - 1]);
  }

  lemma NumeralInjective(m: nat, n: nat, base: nat)
    requires 2 <= base <= 16 && Numeral(m, base) == Numeral(n, base)
    ensures m == n
  {
    ParseNumeral(m, base);
    ParseNumeral(n, base);
  }

  /** The decimal string of a signed integer. */
  function Decimal(z: int): string {
    if z >= 0 then Numeral(z, 10) else "-" + Numeral(-z, 10)
  }

  lemma {:induction false} NumeralDigits(n: nat, base: nat)
    requires 2 <= base <= 16
    ensures forall i :: 0 <= i < |Numeral(n, base)| ==> DigitValue(Numeral(n, base)[i]).Some?
    decreases n
  {
    if n < base {
      DigitOfValue(n);
    } else {
      QuotientShrinks(n, base);
      NumeralDigits(n / base, base);
      DigitOfValue(n % base);
    }
  }

  lemma DecimalSign(z: int)
    ensures |Decimal(z)| > 0 && (Decimal(z)[0] == '-' <==> z < 0)
  {
    if z >= 0 {
      NumeralDigits(z, 10);
      assert DigitValue(Numeral(z, 10)[0]).Some?;
    }
  }

  /** A decimal string reads back to its integer. */
  lemma DecimalParses(z: int)
    ensures z >= 0 ==> Parse(Decimal(z), 10) == Some(z)
    ensures z < 0 ==> Decimal(z)[0] == '-' && Parse(Decimal(z)[1..], 10) == Some(-z)
  {
    hide Numeral, Parse;
    if z >= 0 {
      ParseNumeral(z, 10);
    } else {
      ParseNumeral(-z, 10);
      assert Decimal(z)[1..] == Numeral(-z, 10);
    }
  }

  /** Comparing decimal strings is comparing integers. */
  lemma DecimalInjective(x: int, y: int)
    ensures Decimal(x) == Decimal(y) <==> x == y
  {
    hide Numeral, Parse;
    DecimalSign(x);
    DecimalSign(y);
    if Decimal(x) == Decimal(y) {
      if x >= 0 && y >= 0 {
        NumeralInjective(x, y, 10);
      } else {
        assert Decimal(x)[1..] == Numeral(-x, 10) && Decimal(y)[1..] == Numeral(-y, 10);
        NumeralInjective(-x, -y, 10);
      }
    }
  }
}
