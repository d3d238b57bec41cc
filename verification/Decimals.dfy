/** Decimal numerals as `std::to_chars` writes them and `std::from_chars` reads them. */
module Decimals {

  predicate IsDigit(c: char) {
    '0' <= c <= '9'
  }

  predicate AllDigits(s: string) {
    forall i | 0 <= i < |s| :: IsDigit(s[i])
  }

  /** A nonempty digit string without a leading zero. */
  predicate IsNumeral(s: string) {
    |s| > 0 && AllDigits(s) && (|s| > 1 ==> s[0] != '0')
  }

  function Decimal(n: nat): (text: string)
    ensures IsNumeral(text)
    ensures n > 0 ==> text[0] != '0'
  {
    if n < 10 then [('0' as int + n) as char]
    else Decimal(n / 10) + [('0' as int + n % 10) as char]
  }

  function NumeralValue(s: string): nat
    requires AllDigits(s)
  {
    if s == [] then 0 else NumeralValue(s[..|s| - 1]) * 10 + (s[|s| - 1] as int - '0' as int)
  }

  lemma {:induction false} ValueOfDecimal(n: nat)
    ensures NumeralValue(Decimal(n)) == n
  {
    var text := Decimal(n);
    if n < 10 {
      assert text[..0] == [];
    } else {
      ValueOfDecimal(n / 10);
      assert text[..|text| - 1] == Decimal(n / 10);
    }
  }

  lemma {:induction false} DecimalOfValue(s: string)
    requires IsNumeral(s)
    ensures Decimal(NumeralValue(s)) == s
    ensures s[0] != '0' ==> NumeralValue(s) > 0
  {
    var last := s[|s| - 1] as int - '0' as int;
    if |s| == 1 {
      assert s[..0] == [];
    } else {
      DecimalOfValue(s[..|s| - 1]);
      var n := NumeralValue(s);
      assert n / 10 == NumeralValue(s[..|s| - 1]) && n % 10 == last;
      assert s == s[..|s| - 1] + [s[|s| - 1]];
    }
  }

  /** A signed integer's shortest numeral. */
  function IntegerText(n: int): (text: string)
    ensures |text| > 0 && (IsDigit(text[0]) || text[0] == '-')
    ensures forall i | 0 <= i < |text| :: IsDigit(text[i]) || text[i] == '-'
  {
    if n < 0 then "-" + Decimal(-n) else Decimal(n)
  }
}
