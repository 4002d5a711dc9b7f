/** The decimal text `ToString()` gives an integral value (Byte through
    UInt64), and the reading of such text back into a number. */
module DecimalText {
  import opened Wrappers

  predicate IsDigit(c: char) {
    '0' <= c <= '9'
  }

  predicate AllDigits(s: string) {
    forall i :: 0 <= i < |s| ==> IsDigit(s[i])
  }

  function DigitChar(d: int): (c: char)
    requires 0 <= d < 10
    ensures IsDigit(c) && c as int - '0' as int == d
  {
    ('0' as int + d) as char
  }

  /** Decimal digits of `n`, most significant first, with no leading zero. */
  function NaturalText(n: nat): (r: string)
    ensures |r| >= 1 && AllDigits(r)
    ensures r[0] == '0' <==> n == 0
  {
    if n < 10 then [DigitChar(n)]
    else NaturalText(n / 10) + [DigitChar(n % 10)]
  }

  /** `ToString()` of an integral value: a minus sign exactly for negative
      values, then the digits of the magnitude. */
  function IntegerText(n: int): (r: string)
    ensures |r| >= 1
    ensures r[0] == '-' <==> n < 0
    ensures n < 0 ==> |r| >= 2 && AllDigits(r[1..])
    ensures n >= 0 ==> AllDigits(r)
    ensures n >= 0 ==> (r[0] == '0' <==> n == 0)
    ensures n < 0 ==> r[1] != '0'
  {
    if n < 0 then "-" + NaturalText(-n) else NaturalText(n)
  }

  /** The number a string of decimal digits denotes. */
  function ParseNatural(s: string): nat
    requires AllDigits(s)
    decreases |s|
  {
    if |s| == 0 then 0
    else 10 * ParseNatural(s[..|s| - 1]) + (s[|s| - 1] as int - '0' as int)
  }

  /** Reads an optionally signed decimal integer; None for anything else. */
  function ParseInteger(s: string): Option<int> {
    if |s| >= 2 && s[0] == '-' && AllDigits(s[1..]) then Some(-(ParseNatural(s[1..]) as int))
    else if |s| >= 1 && AllDigits(s) then Some(ParseNatural(s))
    else None
  }

  lemma {:induction false} NaturalTextRoundTrip(n: nat)
    ensures ParseNatural(NaturalText(n)) == n
    decreases n
  {
    if n >= 10 {
      NaturalTextRoundTrip(n / 10);
      var t := NaturalText(n);
      assert t[..|t| - 1] == NaturalText(n / 10);
    }
  }

  /** Reading back the text of any integer gives that integer. */
  lemma IntegerTextRoundTrip(n: int)
    ensures ParseInteger(IntegerText(n)) == Some(n)
  {
    if n < 0 {
      NaturalTextRoundTrip(-n);
      assert IntegerText(n)[1..] == NaturalText(-n);
    } else {
      NaturalTextRoundTrip(n);
    }
  }

  /** Text in the form `ToString()` writes: an optional minus sign, then
      decimal digits with no leading zero (a lone "0" aside), and never "-0". */
  predicate Canonical(s: string) {
    if |s| >= 1 && s[0] == '-' then |s| >= 2 && AllDigits(s[1..]) && s[1] != '0'
    else |s| >= 1 && AllDigits(s) && (s[0] == '0' ==> |s| == 1)
  }

  /** The text of every integer is canonical. */
  lemma IntegerTextIsCanonical(n: int)
    ensures Canonical(IntegerText(n))
  {
  }

  /** Digits that do not start with '0' denote a positive number. */
  lemma {:induction false} LeadingDigitPositive(s: string)
    requires |s| >= 1 && AllDigits(s) && s[0] != '0'
    ensures ParseNatural(s) >= 1
    decreases |s|
  {
    if |s| > 1 {
      LeadingDigitPositive(s[..|s| - 1]);
    }
  }

  /** Canonical digits are the text of the number they denote. */
  lemma {:induction false} CanonicalNaturalText(s: string)
    requires |s| >= 1 && AllDigits(s) && (s[0] == '0' ==> |s| == 1)
    ensures NaturalText(ParseNatural(s)) == s
    decreases |s|
  {
    var n := ParseNatural(s);
    var last := s[|s| - 1];
    if |s| == 1 {
      assert s[..|s| - 1] == [] && ParseNatural([]) == 0;
      assert n == last as int - '0' as int;
      assert NaturalText(n) == [DigitChar(n)];
    } else {
      var init := s[..|s| - 1];
      CanonicalNaturalText(init);
      LeadingDigitPositive(init);
      assert n / 10 == ParseNatural(init) && n % 10 == last as int - '0' as int;
      assert DigitChar(n % 10) == last;
      assert init + [last] == s;
    }
  }

  /** Canonical text is exactly the text of the integer it reads as, so
      `IntegerText` is the one canonical spelling of each integer. */
  lemma CanonicalIsIntegerText(s: string)
    requires Canonical(s)
    ensures ParseInteger(s).Some? && IntegerText(ParseInteger(s).value) == s
  {
    if s[0] == '-' {
      var digits := s[1..];
      CanonicalNaturalText(digits);
      LeadingDigitPositive(digits);
      assert "-" + digits == s;
    } else {
      CanonicalNaturalText(s);
    }
  }
}
