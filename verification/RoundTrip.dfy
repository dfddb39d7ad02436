/** Numbers printed by printfmt.c and read back by strtol of string.c. */
module RoundTrip {
  import opened CString
  import opened Numeral
  import opened Format
  import opened NumberLaws
  import opened Wrappers
  import opened Printf
  import opened StrTol

  lemma {:induction false} DigitsReadable(num: nat, base: nat)
    requires 2 <= base <= 16
    ensures forall i | 0 <= i < |Digits(num, base)| :: InBase(Digits(num, base)[i], base)
    ensures Value(Digits(num, base), base) == num
  {
    DigitsDenote(num, base);
    forall i | 0 <= i < |Digits(num, base)|
      ensures InBase(Digits(num, base)[i], base)
    {
      DigitInBase(Digits(num, base)[i], base);
    }
  }

  lemma {:induction false} LeadingZeros(k: nat, digits: string, base: nat)
    ensures Value(Repeat('0', k) + digits, base) == Value(digits, base)
    decreases k + |digits|
  {
    var s := Repeat('0', k) + digits;
    if digits != "" {
      var front, last := digits[..|digits| - 1], digits[|digits| - 1];
      assert s[..|s| - 1] == Repeat('0', k) + front;
      LeadingZeros(k, front, base);
    } else if k > 0 {
      assert s[..|s| - 1] == Repeat('0', k - 1) + "";
      LeadingZeros(k - 1, "", base);
      assert s[|s| - 1] == '0';
      assert Value("", base) == 0;
    }
  }

  /** Zero padding reads as part of the number. */
  lemma {:induction false} ZeroPadded(num: nat, base: nat, width: int)
    requires 2 <= base <= 16
    ensures var field := NumberField(num, base, width, '0');
      (forall i | 0 <= i < |field| :: InBase(field[i], base)) && Value(field, base) == num
  {
    DigitsReadable(num, base);
    var k := |Repeat('0', width - |Digits(num, base)|)|;
    assert Repeat('0', width - |Digits(num, base)|) == Repeat('0', k);
    LeadingZeros(k, Digits(num, base), base);
  }

  lemma {:induction false} NoPrefix(text: string, base: nat)
    requires base != 0 && forall i | 0 <= i < |text| :: InBase(text[i], base)
    requires base <= 16
    ensures Selects(base, "", text + "", base)
  {
    assert text + "" == text;
    if |text| >= 2 {
      assert InBase(text[1], base);
    }
  }

  /** Readable digits behind blanks and a sign give the number they denote. */
  lemma {:induction false} ReadsDigits(blank: string, sign: string, digits: string, base: nat)
    requires forall i | 0 <= i < |blank| :: IsBlank(blank[i])
    requires sign == "" || sign == "-"
    requires digits != "" && forall i | 0 <= i < |digits| :: InBase(digits[i], base)
    requires 0 < base <= 16
    ensures var v := Value(digits, base);
      Parse(blank + (sign + digits), base)
        == Number(if sign == "-" then -v else v, |blank| + |sign| + |digits|)
  {
    NoPrefix(digits, base);
    assert "" + (digits + "") == digits;
    assert InBase(digits[0], base);
    Reads(blank, sign, "", digits, "", base, base);
  }

  /** The whole text reads as this value. */
  predicate ReadsAs(text: string, base: int, value: int) {
    Parse(text, base) == Number(value, |text|)
  }

  lemma {:induction false} ReadsPlain(blank: string, digits: string, base: nat)
    requires forall i | 0 <= i < |blank| :: IsBlank(blank[i])
    requires digits != "" && forall i | 0 <= i < |digits| :: InBase(digits[i], base)
    requires 0 < base <= 16
    ensures ReadsAs(blank + digits, base, Value(digits, base))
  {
    ReadsDigits(blank, "", digits, base);
    EmptyParts(digits);
  }

  lemma {:induction false} ReadsNegative(digits: string, base: nat)
    requires digits != "" && forall i | 0 <= i < |digits| :: InBase(digits[i], base)
    requires 0 < base <= 16
    ensures ReadsAs("-" + digits, base, -Value(digits, base))
  {
    ReadsDigits("", "-", digits, base);
    EmptyParts("-" + digits);
  }

  /** Where the text of a number stops before its end, strtol stops too. */
  lemma {:induction false} StopsAt(sign: string, prefix: string, rest: string, base: int, radix: int)
    requires sign == "" || sign == "-"
    requires rest != "" && !InBase(rest[0], radix) && Selects(base, prefix, "" + rest, radix)
    requires sign == "" ==> prefix != ""
    ensures Parse(sign + (prefix + rest), base) == Number(0, |sign| + |prefix|)
  {
    assert "" + rest == rest;
    var body := prefix + ("" + rest);
    assert sign == "" ==> body[0] == prefix[0];
    Reads("", sign, prefix, "", rest, base, radix);
    assert "" + (sign + body) == sign + (prefix + rest);
    assert Value("", radix) == 0;
  }

  /** How many pad characters stand before a number. */
  function Pads(num: nat, base: nat, width: int): nat
    requires 2 <= base <= 16
  {
    |Repeat(' ', width - |Digits(num, base)|)|
  }

  lemma {:induction false} Unpadded(num: nat, base: nat, width: int, padc: char)
    requires 2 <= base <= 16 && Pads(num, base, width) == 0
    ensures NumberField(num, base, width, padc) == Digits(num, base)
  {
    assert "" + Digits(num, base) == Digits(num, base);
  }

  // ----- A field of printnum -----

  lemma {:induction false} ZerosRead(num: nat, base: nat, width: int)
    requires 2 <= base <= 16
    ensures ReadsAs(NumberField(num, base, width, '0'), base, num)
  {
    var field := NumberField(num, base, width, '0');
    ZeroPadded(num, base, width);
    ReadsPlain("", field, base);
    EmptyParts(field);
  }

  lemma {:induction false} BlanksRead(num: nat, base: nat, width: int)
    requires 2 <= base <= 16
    ensures ReadsAs(NumberField(num, base, width, ' '), base, num)
  {
    var digits := Digits(num, base);
    DigitsReadable(num, base);
    ReadsPlain(Repeat(' ', width - |digits|), digits, base);
  }

  /** One minus sign as padding is taken for the sign. */
  lemma {:induction false} OneMinus(num: nat, base: nat, width: int)
    requires 2 <= base <= 16 && Pads(num, base, width) == 1
    ensures ReadsAs(NumberField(num, base, width, '-'), base, 0 - num)
  {
    var digits := Digits(num, base);
    DigitsReadable(num, base);
    ReadsNegative(digits, base);
    assert Repeat('-', width - |digits|) == "-";
  }

  lemma {:induction false} ManyMinuses(num: nat, base: nat, width: int)
    requires 2 <= base <= 16 && Pads(num, base, width) > 1
    ensures Parse(NumberField(num, base, width, '-'), base) == Number(0, 1)
  {
    var digits := Digits(num, base);
    var rest := Repeat('-', width - |digits| - 1) + digits;
    MinusesSplit(digits, width - |digits|);
    SecondMinus(rest, base);
  }

  lemma {:induction false} MinusesSplit(digits: string, n: int)
    requires n > 1
    ensures var rest := Repeat('-', n - 1) + digits;
      Repeat('-', n) + digits == "-" + rest && rest[0] == '-'
  {
    RepeatMore('-', n);
    Assoc("-", Repeat('-', n - 1), digits);
  }

  lemma {:induction false} SecondMinus(rest: string, base: nat)
    requires 2 <= base <= 16 && rest != "" && rest[0] == '-'
    ensures Parse("-" + rest, base) == Number(0, 1)
  {
    EmptyParts(rest);
    StopsAt("-", "", rest, base, base);
  }

  /** When the text of a number field is the number: zeros and blanks are harmless; minus
      signs are not, except a single one before zero. */
  predicate Harmless(num: nat, base: nat, width: int, padc: char)
    requires 2 <= base <= 16
  {
    var pads := Pads(num, base, width);
    padc != '-' || pads == 0 || (num == 0 && pads == 1)
  }

  lemma {:induction false} NumberParses(num: nat, base: nat, width: int, padc: char)
    requires 2 <= base <= 16 && IsPad(padc)
    ensures ReadsAs(NumberField(num, base, width, padc), base, num) <==> Harmless(num, base, width, padc)
  {
    if padc == '0' {
      ZerosRead(num, base, width);
    } else if padc == ' ' {
      BlanksRead(num, base, width);
    } else if Pads(num, base, width) == 0 {
      Unpadded(num, base, width, padc);
      Unpadded(num, base, width, ' ');
      BlanksRead(num, base, width);
    } else if Pads(num, base, width) == 1 {
      OneMinus(num, base, width);
    } else {
      ManyMinuses(num, base, width);
    }
  }

  predicate NumberReadable(num: nat, base: nat, width: int, padc: char)
    requires 2 <= base <= 16
  {
    num < LONG_LIMIT && Harmless(num, base, width, padc)
  }

  /** strtol gives back what printnum printed, up to its end, just when a long holds the
      number and no padding passes for a sign. */
  lemma {:induction false} NumberRoundTrip(num: nat, base: nat, width: int, padc: char)
    requires 2 <= base <= 16 && IsPad(padc)
    ensures var field := NumberField(num, base, width, padc);
      Returned(field, base) == Some(Number(num, |field|)) <==> NumberReadable(num, base, width, padc)
  {
    NumberParses(num, base, width, padc);
  }

  lemma {:induction false} AnyCaseReads(text: string, digits: string, num: int)
    requires digits != "" && forall i | 0 <= i < |digits| :: InBase(digits[i], 16)
    requires SameButCase(text, digits) && ReadsAs(digits, 16, num)
    ensures ReadsAs(text, 16, num)
  {
    CaseDigitsBare(text, digits);
    CaseDoesNotMatter(text, digits, 16);
  }

  /** A hexadecimal number reads back however its letters are spelled. */
  lemma {:induction false} CapitalsReadBack(num: nat, text: string)
    requires num < 0x8000_0000_0000_0000 && SameButCase(text, Digits(num, 16))
    ensures Returned(text, 16) == Some(Number(num, |text|))
  {
    var digits := Digits(num, 16);
    DigitsReadable(num, 16);
    ReadsAlone(digits, 16, num);
    AnyCaseReads(text, digits, num);
    ReadsWithin(text, 16, num);
  }

  lemma {:induction false} ReadsAlone(digits: string, base: nat, num: int)
    requires digits != "" && forall i | 0 <= i < |digits| :: InBase(digits[i], base)
    requires 0 < base <= 16 && Value(digits, base) == num
    ensures ReadsAs(digits, base, num)
  {
    ReadsPlain("", digits, base);
    EmptyParts(digits);
  }

  lemma {:induction false} ReadsWithin(text: string, base: int, num: int)
    requires ReadsAs(text, base, num) && -LONG_LIMIT < num < LONG_LIMIT
    ensures Returned(text, base) == Some(Number(num, |text|))
  {
  }

  lemma {:induction false} CaseDigitsBare(text: string, digits: string)
    requires SameButCase(text, digits) && digits != "" && forall i | 0 <= i < |digits| :: InBase(digits[i], 16)
    ensures !HexPrefix(Bare(text)) && !HexPrefix(Bare(digits))
  {
    forall i | 0 <= i < |text|
      ensures InBase(text[i], 16)
    {
      assert InBase(digits[i], 16);
    }
    BareDigits(text);
    BareDigits(digits);
  }

  lemma {:induction false} BareDigits(s: string)
    requires s != "" && forall i | 0 <= i < |s| :: InBase(s[i], 16)
    ensures Bare(s) == s && !HexPrefix(s)
  {
    assert InBase(s[0], 16) && s[0..] == s;
    if |s| > 1 {
      assert InBase(s[1], 16);
    }
  }

  // ----- A signed field -----

  /** When a %d field reads back as its value. */
  predicate SignedReadable(value: int, width: int, padc: char) {
    -LONG_LIMIT < value < LONG_LIMIT && SignedHarmless(value, width, padc)
  }

  predicate SignedHarmless(value: int, width: int, padc: char) {
    if value < 0 then padc == '0' || Pads(-value, 10, width) == 0
    else Harmless(value, 10, width, padc)
  }

  /** A minus sign before digits makes them a negative number. */
  lemma {:induction false} NegativeReads(num: nat, width: int, padc: char)
    requires padc == '0' || Pads(num, 10, width) == 0
    ensures ReadsAs("-" + NumberField(num, 10, width, padc), 10, 0 - num)
  {
    var field := NumberField(num, 10, width, padc);
    if padc == '0' {
      ZeroPadded(num, 10, width);
    } else {
      DigitsReadable(num, 10);
      Unpadded(num, 10, width, padc);
    }
    ReadsNegative(field, 10);
  }

  lemma {:induction false} NegativeFails(num: nat, width: int, padc: char)
    requires Pads(num, 10, width) > 0 && (padc == ' ' || padc == '-')
    ensures Parse("-" + NumberField(num, 10, width, padc), 10) == Number(0, 1)
  {
    var field := NumberField(num, 10, width, padc);
    assert field[0] == padc;
    StopsAt("-", "", field, 10, 10);
    EmptyParts(field);
  }

  lemma {:induction false} NegativeParses(num: nat, value: int, width: int, padc: char)
    requires IsPad(padc) && num > 0 && value == 0 - num
    ensures ReadsAs("-" + NumberField(num, 10, width, padc), 10, value)
       <==> padc == '0' || Pads(num, 10, width) == 0
  {
    if padc == '0' || Pads(num, 10, width) == 0 {
      NegativeReads(num, width, padc);
    } else {
      NegativeFails(num, width, padc);
    }
  }

  lemma {:induction false} SignedParses(value: int, width: int, padc: char)
    requires IsPad(padc)
    ensures ReadsAs(SignedField(value, width, padc), 10, value) <==> SignedHarmless(value, width, padc)
  {
    if value < 0 {
      var num := -value;
      assert SignedField(value, width, padc) == "-" + NumberField(num, 10, width, padc);
      NegativeParses(num, value, width, padc);
    } else {
      assert SignedField(value, width, padc) == NumberField(value, 10, width, padc);
      NumberParses(value, 10, width, padc);
    }
  }

  /** A %d field reads back as its value exactly when a long holds the magnitude and no
      padding comes between the sign and the digits or is taken for a sign. */
  lemma {:induction false} SignedRoundTrip(value: int, width: int, padc: char)
    requires IsPad(padc)
    ensures var field := SignedField(value, width, padc);
      Returned(field, 10) == Some(Number(value, |field|)) <==> SignedReadable(value, width, padc)
  {
    SignedParses(value, width, padc);
  }

  // ----- A pointer field -----

  /** When a %p field reads back as the pointer. */
  predicate PointerReadable(w: nat, width: int, padc: char) {
    w < LONG_LIMIT && (padc == '0' || Pads(w, 16, width) == 0)
  }

  lemma {:induction false} PointerReads(w: nat, width: int, padc: char, base: int)
    requires padc == '0' || Pads(w, 16, width) == 0
    requires base == 0 || base == 16
    ensures ReadsAs("0x" + NumberField(w, 16, width, padc), base, w)
  {
    var number := NumberField(w, 16, width, padc);
    if padc == '0' {
      ZeroPadded(w, 16, width);
    } else {
      DigitsReadable(w, 16);
      Unpadded(w, 16, width, padc);
    }
    PrefixedReads(number, w, base);
  }

  lemma {:induction false} PrefixedReads(number: string, w: int, base: int)
    requires number != "" && (forall i | 0 <= i < |number| :: InBase(number[i], 16)) && Value(number, 16) == w
    requires base == 0 || base == 16
    ensures ReadsAs("0x" + number, base, w)
  {
    Reads("", "", "0x", number, "", base, 16);
    EmptyParts(number);
    EmptyParts("0x" + number);
  }

  lemma {:induction false} PointerFails(w: nat, width: int, padc: char, base: int)
    requires Pads(w, 16, width) > 0 && (padc == ' ' || padc == '-')
    requires base == 0 || base == 16
    ensures Parse("0x" + NumberField(w, 16, width, padc), base) == Number(0, 2)
  {
    var number := NumberField(w, 16, width, padc);
    assert number[0] == padc;
    StopsAt("", "0x", number, base, 16);
    EmptyParts("0x" + number);
  }

  /** A %p field reads back, in base 0 or 16, exactly when a long holds the pointer and the
      field is padded with zeros or not at all. */
  lemma {:induction false} PointerRoundTrip(w: nat, width: int, padc: char, base: int)
    requires IsPad(padc) && (base == 0 || base == 16)
    ensures var field := "0x" + NumberField(w, 16, width, padc);
      Returned(field, base) == Some(Number(w, |field|)) <==> PointerReadable(w, width, padc)
  {
    if padc == '0' || Pads(w, 16, width) == 0 {
      PointerReads(w, width, padc, base);
    } else {
      PointerFails(w, width, padc, base);
    }
  }

  // ----- Formatting and reading -----

  predicate Readable(conv: char, cfg: Settings, w: Unsigned64) {
    if conv == 'd' then SignedReadable(Signed(cfg, w), cfg.width, cfg.padc)
    else if conv == 'p' then PointerReadable(w, cfg.width, cfg.padc)
    else NumberReadable(Unsigned(cfg, w), BaseOf(conv), cfg.width, cfg.padc)
  }

  /** Any single number directive, whatever its flags, width, precision and stars: strtol, in
      the base of the directive, gives back the number up to the terminator exactly when
      Readable says so. */
  lemma {:induction false} DirectiveRoundTrip(fmt: CString, flags: seq<Flag>, conv: char, args: seq<Arg>,
                                              cfg: Settings, w: Unsigned64)
    requires NumberDirective(fmt, flags, conv, args, cfg, w)
    ensures var output := Output(fmt, args);
      && output.Some?
      && (Returned(output.value, BaseOf(conv)) == Some(Number(Denoted(conv, cfg, w), |output.value|))
          <==> Readable(conv, cfg, w))
  {
    OneDirective(fmt, flags, conv, args, cfg, Word(w));
    PadsStay(DEFAULTS, flags, args);
    if conv == 'd' {
      SignedRoundTrip(Signed(cfg, w), cfg.width, cfg.padc);
    } else if conv == 'p' {
      PointerRoundTrip(w, cfg.width, cfg.padc, 16);
    } else {
      NumberRoundTrip(Unsigned(cfg, w), BaseOf(conv), cfg.width, cfg.padc);
    }
  }

  lemma {:induction false} FieldHasNoNul(num: nat, base: nat, width: int, padc: char)
    requires 2 <= base <= 16 && IsPad(padc)
    ensures '\0' !in NumberField(num, base, width, padc)
  {
    DigitsReadable(num, base);
    assert DigitValue('\0') == 36;
    var digits := Digits(num, base);
    assert forall i | 0 <= i < |digits| :: InBase(digits[i], base) && digits[i] != '\0';
  }

  lemma {:induction false} OutputHasNoNul(fmt: CString, flags: seq<Flag>, conv: char, args: seq<Arg>,
                                          cfg: Settings, w: Unsigned64)
    requires NumberDirective(fmt, flags, conv, args, cfg, w)
    ensures Output(fmt, args).Some? && '\0' !in Output(fmt, args).value
  {
    OneDirective(fmt, flags, conv, args, cfg, Word(w));
    PadsStay(DEFAULTS, flags, args);
    if conv == 'd' {
      FieldHasNoNul(Magnitude(Signed(cfg, w)), 10, cfg.width, cfg.padc);
    } else if conv == 'p' {
      FieldHasNoNul(w, 16, cfg.width, cfg.padc);
    } else {
      FieldHasNoNul(Unsigned(cfg, w), BaseOf(conv), cfg.width, cfg.padc);
    }
  }

  /** Formats a number into a buffer that has room for it and reads the buffer. */
  method FormatAndRead(str: array<char>, size: nat, fmt: CString, ghost flags: seq<Flag>, conv: char,
                       args: seq<Arg>, ghost cfg: Settings, ghost w: Unsigned64)
    returns (number: Long, endptr: nat)
    requires NumberDirective(fmt, flags, conv, args, cfg, w) && Readable(conv, cfg, w)
    requires size <= str.Length && size <= SIZE_LIMIT
    requires Output(fmt, args).Some? && |Output(fmt, args).value| < size
    modifies str
    ensures number == Denoted(conv, cfg, w)
    ensures endptr == |Output(fmt, args).value| && str[endptr] == '\0'
  {
    var r := VSnprintf(str, size, fmt, args);
    ghost var output := Output(fmt, args).value;
    OutputHasNoNul(fmt, flags, conv, args, cfg, w);
    DirectiveRoundTrip(fmt, flags, conv, args, cfg, w);
    assert output[..r] == output;
    assert str[..r] == output && str[r] == '\0';
    var text: CString := str[..r];
    number, endptr := StrTol.StrTol(text, BaseOf(conv));
  }

  /** The machine word that holds a signed number. */
  function ToWord(value: int): Unsigned64
    requires -LONG_LIMIT < value < LONG_LIMIT
  {
    if value < 0 then value + 0x1_0000_0000_0000_0000 else value
  }

  /** In particular every long above the minimum survives "%ld". */
  lemma {:induction false} LongRoundTrip(fmt: CString, value: int)
    requires fmt == "%ld" && -0x8000_0000_0000_0000 < value < 0x8000_0000_0000_0000
    ensures var output := Output(fmt, [Word(ToWord(value))]);
      output.Some? && Returned(output.value, 10) == Some(Number(value, |output.value|))
  {
    var arg := Word(ToWord(value));
    var cfg := DEFAULTS.(lflag := 1);
    assert [Long][1..] == [];
    assert Configure(DEFAULTS, [Long], [arg]) == Some((cfg, [arg]));
    assert "%" + FlagsSource([Long]) + ['d'] == "%ld";
    assert Signed(cfg, ToWord(value)) == value;
    DirectiveRoundTrip(fmt, [Long], 'd', [arg], cfg, ToWord(value));
  }
}
