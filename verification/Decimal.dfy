/** Decimal numerals, as `format!("{}")` writes them and `str::parse::<u64>` reads them. */
module Decimal {
  import opened Prelude

  const U64_MAX: nat := 0xFFFF_FFFF_FFFF_FFFF

  predicate IsDigit(c: char) {
    '0' <= c <= '9'
  }

  function Digit(d: nat): (c: char)
    requires d < 10
    ensures IsDigit(c) && c as int == '0' as int + d
  {
    ('0' as int + d) as char
  }

  function Numeral(n: nat): (s: string)
    ensures s != "" && forall c :: c in s ==> IsDigit(c)
  {
    if n < 10 then [Digit(n)] else Numeral(n / 10) + [Digit(n % 10)]
  }

  /** The value of a run of digits, None for the empty text and for anything else in it. */
  function DigitsValue(s: string): Option<nat> {
    if s == "" || !IsDigit(s[|s| - 1]) then None
    else
      var d := s[|s| - 1] as int - '0' as int;
      if |s| == 1 then Some(d)
      else
        match DigitsValue(s[..|s| - 1])
        case None => None
        case Some(v) => Some(10 * v + d)
  }

  /** `str::parse::<u64>`: an optional plus sign, digits, and no overflow. */
  function ParseU64(s: string): Option<nat> {
    match DigitsValue(if At(s, 0, '+') then s[1..] else s)
    case Some(v) => if v <= U64_MAX then Some(v) else None
    case None => None
  }

  lemma {:induction false} NumeralValue(n: nat)
    ensures DigitsValue(Numeral(n)) == Some(n)
  {
    if n >= 10 {
      NumeralValue(n / 10);
      assert Numeral(n)[..|Numeral(n)| - 1] == Numeral(n / 10);
    }
  }

  /** Every u64 is read back from its numeral. */
  lemma ParseOfNumeral(n: nat)
    requires n <= U64_MAX
    ensures ParseU64(Numeral(n)) == Some(n)
  {
    NumeralValue(n);
    assert Numeral(n)[0] in Numeral(n);
  }

  /** A plus sign before the numeral is accepted, a number beyond 64 bits is not. */
  lemma ParseBounds(n: nat)
    ensures ParseU64("+" + Numeral(n)) == ParseU64(Numeral(n)) == if n <= 18_446_744_073_709_551_615 then Some(n) else None
  {
    NumeralValue(n);
    assert Numeral(n)[0] in Numeral(n);
    assert ("+" + Numeral(n))[1..] == Numeral(n);
  }

  /** What is read as a number is a run of digits, with or without a plus sign. */
  lemma {:induction false} DigitsAlone(s: string)
    ensures DigitsValue(s).Some? <==> s != "" && forall c :: c in s ==> '0' <= c <= '9'
  {
    if |s| == 1 {
      assert s[0] in s && forall c :: c in s ==> c == s[0];
    } else if |s| > 1 {
      var front, last := s[..|s| - 1], s[|s| - 1];
      assert last in s && forall c :: c in s <==> c in front || c == last;
      DigitsAlone(front);
    }
  }
}
