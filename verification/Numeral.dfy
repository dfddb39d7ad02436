/** Numbers in positional notation, most significant digit first. */
module Numeral {
  import Modulo

  const DIGITS: string := "0123456789abcdef"

  /** The value of a digit or letter, upper and lower case alike; 36 for anything else. */
  function DigitValue(c: char): (v: nat)
    ensures v <= 36
  {
    if '0' <= c <= '9' then (c as int) - ('0' as int)
    else if 'a' <= c <= 'z' then (c as int) - ('a' as int) + 10
    else if 'A' <= c <= 'Z' then (c as int) - ('A' as int) + 10
    else 36
  }

  function Value(digits: string, base: int): int {
    if digits == "" then 0
    else Value(digits[..|digits| - 1], base) * base + DigitValue(digits[|digits| - 1])
  }

  function Digits(num: nat, base: nat): (digits: string)
    requires 2 <= base <= 16
    ensures digits != ""
    decreases num
  {
    if num < base then [DIGITS[num]]
    else
      QuotientSmaller(num, base);
      Digits(num / base, base) + [DIGITS[num % base]]
  }

  lemma {:induction false} QuotientSmaller(num: nat, base: nat)
    requires base >= 2
    ensures num > 0 ==> num / base < num
    ensures num >= base ==> num / base > 0
  {
    DivMod(num, base);
    AtLeastDouble(num / base, base);
  }

  lemma {:induction false} DivMod(num: nat, base: nat)
    requires base > 0
    ensures num == (num / base) * base + num % base
  {
  }

  lemma {:induction false} AtLeastDouble(q: nat, base: nat)
    requires base >= 2
    ensures q * base >= 2 * q
  {
    assert q * (base - 2) >= 0;
  }

  lemma {:induction false} ValueSnoc(digits: string, c: char, base: int)
    ensures Value(digits + [c], base) == Value(digits, base) * base + DigitValue(c)
  {
    assert (digits + [c])[..|digits|] == digits;
  }

  lemma {:induction false} ValueNat(digits: string, base: nat)
    ensures Value(digits, base) >= 0
    decreases |digits|
  {
    if digits != "" {
      ValueNat(digits[..|digits| - 1], base);
      Product(Value(digits[..|digits| - 1], base), base);
    }
  }

  /** A digit as printnum writes it. */
  predicate IsDigit(c: char, base: nat) {
    exists d | 0 <= d < 16 :: d < base && c == DIGITS[d]
  }

  /** Digits of the base without a leading zero, other than zero itself. */
  predicate IsNumeral(digits: string, base: nat) {
    && digits != ""
    && (forall i | 0 <= i < |digits| :: IsDigit(digits[i], base))
    && (digits[0] == '0' ==> |digits| == 1)
  }

  lemma {:induction false} DigitChar(d: nat)
    requires d < 16
    ensures DigitValue(DIGITS[d]) == d
    ensures DIGITS[d] == '0' <==> d == 0
  {
  }

  lemma {:induction false} DigitsNumeral(num: nat, base: nat)
    requires 2 <= base <= 16
    ensures IsNumeral(Digits(num, base), base)
    ensures Digits(num, base)[0] == '0' ==> num == 0
    decreases num
  {
    if num < base {
      DigitChar(num);
      assert IsDigit(DIGITS[num], base);
    } else {
      QuotientSmaller(num, base);
      DigitsNumeral(num / base, base);
      assert IsDigit(DIGITS[num % base], base);
    }
  }

  lemma {:induction false} DigitsValue(num: nat, base: nat)
    requires 2 <= base <= 16
    ensures Value(Digits(num, base), base) == num
    decreases num
  {
    if num < base {
      DigitChar(num);
      ValueSnoc("", DIGITS[num], base);
    } else {
      QuotientSmaller(num, base);
      DivMod(num, base);
      DigitsValue(num / base, base);
      DigitChar(num % base);
      ValueSnoc(Digits(num / base, base), DIGITS[num % base], base);
    }
  }

  /** printnum's digits denote the number and have no leading zero ... */
  lemma {:induction false} DigitsDenote(num: nat, base: nat)
    requires 2 <= base <= 16
    ensures IsNumeral(Digits(num, base), base) && Value(Digits(num, base), base) == num
  {
    DigitsNumeral(num, base);
    DigitsValue(num, base);
  }

  /** Letters among the digits are small. */
  lemma {:induction false} DigitsSmall(num: nat, base: nat)
    requires 2 <= base <= 16
    ensures forall c | c in Digits(num, base) :: '0' <= c <= '9' || 'a' <= c <= 'f'
    decreases num
  {
    if num >= base {
      QuotientSmaller(num, base);
      DigitsSmall(num / base, base);
    }
  }

  lemma {:induction false} Product(v: int, base: nat)
    requires v >= 0
    ensures v * base >= 0
    ensures v > 0 ==> v * base >= base
  {
  }

  lemma {:induction false} DigitInBase(c: char, base: nat)
    requires IsDigit(c, base)
    ensures DigitValue(c) < base && DigitValue(c) < 16 && c == DIGITS[DigitValue(c)]
  {
    var d :| 0 <= d < 16 && d < base && c == DIGITS[d];
    DigitChar(d);
  }

  lemma {:induction false} ValuePositive(digits: string, base: nat)
    requires 2 <= base <= 16 && IsNumeral(digits, base)
    ensures Value(digits, base) >= 0 && (digits != "0" ==> Value(digits, base) > 0)
    decreases |digits|
  {
    var n := |digits| - 1;
    DigitInBase(digits[n], base);
    assert Value(digits, base) == Value(digits[..n], base) * base + DigitValue(digits[n]);
    if n > 0 {
      ValuePositive(digits[..n], base);
      Product(Value(digits[..n], base), base);
      assert digits[..n] != "0" by { assert digits[0] == digits[..n][0]; }
    } else {
      assert digits == [digits[0]];
      if digits[0] == '0' { assert digits == "0"; }
    }
  }

  lemma {:induction false} Compose(num: nat, q: nat, base: nat, r: nat)
    requires num == q * base + r && r < base && q > 0
    ensures num >= base && num / base == q && num % base == r
  {
    Modulo.ModUnique(num, base, q, r);
    Product(q, base);
  }

  lemma {:induction false} DigitsSnoc(q: nat, r: nat, base: nat, num: nat)
    requires 2 <= base <= 16 && q > 0 && r < base && num == q * base + r
    ensures Digits(num, base) == Digits(q, base) + [DIGITS[r]]
  {
    Compose(num, q, base, r);
  }

  /** A numeral of several digits is a positive numeral followed by one digit. */
  lemma {:induction false} NumeralFront(digits: string, base: nat)
    requires 2 <= base <= 16 && IsNumeral(digits, base) && |digits| > 1
    ensures var n := |digits| - 1;
      && IsNumeral(digits[..n], base) && Value(digits[..n], base) > 0
      && digits == digits[..n] + [DIGITS[DigitValue(digits[n])]] && DigitValue(digits[n]) < base
  {
    var n := |digits| - 1;
    DigitInBase(digits[n], base);
    assert digits[0] == digits[..n][0];
    ValuePositive(digits[..n], base);
  }

  /** ... and no other numeral denotes it. */
  lemma {:induction false} DigitsUnique(digits: string, base: nat, num: nat)
    requires 2 <= base <= 16 && IsNumeral(digits, base) && Value(digits, base) == num
    ensures digits == Digits(num, base)
    decreases |digits|
  {
    var n := |digits| - 1;
    if n == 0 {
      OneDigit(digits, base);
    } else {
      NumeralFront(digits, base);
      var q, r := Value(digits[..n], base), DigitValue(digits[n]);
      DigitsUnique(digits[..n], base, q);
      DigitsSnoc(q, r, base, num);
    }
  }

  lemma {:induction false} OneDigit(digits: string, base: nat)
    requires 2 <= base <= 16 && IsNumeral(digits, base) && |digits| == 1
    ensures Value(digits, base) >= 0 && digits == Digits(Value(digits, base), base)
  {
    DigitInBase(digits[0], base);
    ValueSnoc("", digits[0], base);
    assert digits == "" + [digits[0]];
  }
}
