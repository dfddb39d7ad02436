/** How the number directives differ from section 7.21.6.1 of ISO/IEC 9899:2011, and exactly
    when they print what it asks for. */
module NumberLaws {
  import opened CString
  import opened Numeral
  import opened Format
  import opened FormatLaws
  import opened Wrappers

  /** A character that printf pads numbers with. */
  predicate IsPad(c: char) { c == ' ' || c == '0' || c == '-' }

  function Magnitude(value: int): nat { if value < 0 then -value else value }

  predicate IsNumeric(conv: char) {
    conv == 'd' || conv == 'u' || conv == 'o' || conv == 'x' || conv == 'p'
  }

  function BaseOf(conv: char): (base: nat)
    ensures 2 <= base <= 16
  {
    if conv == 'o' then 8 else if conv == 'x' || conv == 'p' then 16 else 10
  }

  /** The number that a directive prints. */
  function Denoted(conv: char, cfg: Settings, w: Unsigned64): int {
    if conv == 'd' then Signed(cfg, w) else if conv == 'p' then w else Unsigned(cfg, w)
  }

  /** Flags put in no other pad characters. */
  lemma {:induction false} PadsStay(cfg: Settings, flags: seq<Flag>, args: seq<Arg>)
    requires IsPad(cfg.padc)
    ensures var settled := Configure(cfg, flags, args); settled.Some? ==> IsPad(settled.value.0.padc)
    decreases |flags|
  {
    if flags != [] && Apply(cfg, flags[0], args).Some? {
      var (next, rest) := Apply(cfg, flags[0], args).value;
      PadsStay(next, flags[1..], rest);
    }
  }

  /** fmt is a single number directive with these flags, settings and argument ... */
  predicate NumberCall(fmt: CString, flags: seq<Flag>, conv: char, args: seq<Arg>, cfg: Settings, w: Unsigned64) {
    && fmt == "%" + FlagsSource(flags) + [conv] && Separate(flags) && IsNumeric(conv)
    && Configure(DEFAULTS, flags, args) == Some((cfg, [Word(w)]))
  }

  /** ... and C defines what it prints. */
  predicate NumberDirective(fmt: CString, flags: seq<Flag>, conv: char, args: seq<Arg>,
                            cfg: Settings, w: Unsigned64) {
    NumberCall(fmt, flags, conv, args, cfg, w) && Convert(conv, cfg, Word(w)).Some?
  }

  function DigitsOf(conv: char, cfg: Settings, w: Unsigned64): string {
    Digits(Magnitude(Denoted(conv, cfg, w)), BaseOf(conv))
  }

  /** What stands before the digits: a minus sign, or the "0x" of a pointer. */
  function Lead(conv: char, cfg: Settings, w: Unsigned64): string {
    if conv == 'p' then "0x" else if Denoted(conv, cfg, w) < 0 then "-" else ""
  }

  /** What the loop prints: the lead is put first, and then the digits in their field. */
  function Padded(lead: string, digits: string, width: int, padc: char): string {
    lead + (Repeat(padc, width - |digits|) + digits)
  }

  lemma {:induction false} NumberConverted(conv: char, cfg: Settings, w: Unsigned64)
    requires IsNumeric(conv) && Convert(conv, cfg, Word(w)).Some?
    ensures Convert(conv, cfg, Word(w))
         == Some(Padded(Lead(conv, cfg, w), DigitsOf(conv, cfg, w), cfg.width, cfg.padc))
  {
    if Lead(conv, cfg, w) == "" {
      EmptyParts(NumberField(Magnitude(Denoted(conv, cfg, w)), BaseOf(conv), cfg.width, cfg.padc));
    }
  }

  lemma {:induction false} DirectivePrints(fmt: CString, flags: seq<Flag>, conv: char, args: seq<Arg>,
                                           cfg: Settings, w: Unsigned64)
    requires NumberDirective(fmt, flags, conv, args, cfg, w)
    ensures Output(fmt, args)
         == Some(Padded(Lead(conv, cfg, w), DigitsOf(conv, cfg, w), cfg.width, cfg.padc))
    ensures IsPad(cfg.padc)
  {
    OneDirective(fmt, flags, conv, args, cfg, Word(w));
    NumberConverted(conv, cfg, w);
    PadsStay(DEFAULTS, flags, args);
  }

  // ----- Which number is printed -----

  /** v is the number that a machine word stands for: under a size flag all 64 bits of it,
      without one the low 32, with sign for %d. */
  predicate StandsFor(conv: char, long: bool, w: Unsigned64, v: int) {
    if conv == 'p' then v == w
    else if conv == 'd' && long then
      -0x8000_0000_0000_0000 < v < 0x8000_0000_0000_0000 && (w - v) % 0x1_0000_0000_0000_0000 == 0
    else if conv == 'd' then -0x8000_0000 <= v < 0x8000_0000 && (w - v) % 0x1_0000_0000 == 0
    else if long then v == w
    else 0 <= v < 0x1_0000_0000 && (w - v) % 0x1_0000_0000 == 0
  }

  lemma {:induction false} DenotesIt(conv: char, cfg: Settings, w: Unsigned64, v: int)
    requires IsNumeric(conv) && StandsFor(conv, cfg.lflag > 0, w, v)
    ensures Denoted(conv, cfg, w) == v && Convert(conv, cfg, Word(w)).Some?
  {
  }

  /** The output of any number directive, in full: the sign or "0x", the pad characters, and
      the numeral of the number the argument stands for. */
  lemma {:induction false} NumberPrinted(fmt: CString, flags: seq<Flag>, conv: char, args: seq<Arg>,
                                         cfg: Settings, w: Unsigned64, v: int)
    requires NumberCall(fmt, flags, conv, args, cfg, w) && StandsFor(conv, cfg.lflag > 0, w, v)
    ensures var lead := if conv == 'p' then "0x" else if v < 0 then "-" else "";
      var base := if conv == 'o' then 8 else if conv == 'x' || conv == 'p' then 16 else 10;
      var digits := Digits(if v < 0 then -v else v, base);
      Output(fmt, args) == Some(lead + (Repeat(cfg.padc, cfg.width - |digits|) + digits))
  {
    DenotesIt(conv, cfg, w, v);
    DirectivePrints(fmt, flags, conv, args, cfg, w);
    PartsOf(conv, cfg, w, v);
  }

  lemma {:induction false} PartsOf(conv: char, cfg: Settings, w: Unsigned64, v: int)
    requires IsNumeric(conv) && Denoted(conv, cfg, w) == v && (conv == 'p' ==> v >= 0)
    ensures Lead(conv, cfg, w) == if conv == 'p' then "0x" else if v < 0 then "-" else ""
    ensures DigitsOf(conv, cfg, w)
         == Digits(if v < 0 then -v else v, if conv == 'o' then 8 else if conv == 'x' || conv == 'p' then 16 else 10)
  {
  }

  /** In particular a negative int comes out of %u, %o and %x as 2^32 more. */
  lemma {:induction false} NegativeAsUnsigned(fmt: CString, flags: seq<Flag>, conv: char, args: seq<Arg>,
                                              cfg: Settings, w: Unsigned64, v: int)
    requires NumberCall(fmt, flags, conv, args, cfg, w) && conv != 'd' && conv != 'p' && cfg.lflag == 0
    requires -0x8000_0000 <= v < 0 && (w - v) % 0x1_0000_0000 == 0
    ensures var digits := Digits(v + 0x1_0000_0000, if conv == 'o' then 8 else if conv == 'x' then 16 else 10);
      Output(fmt, args) == Some(Repeat(cfg.padc, cfg.width - |digits|) + digits)
  {
    var u := v + 0x1_0000_0000;
    var digits := Digits(u, if conv == 'o' then 8 else if conv == 'x' then 16 else 10);
    assert (w - u) % 0x1_0000_0000 == 0;
    NumberPrinted(fmt, flags, conv, args, cfg, w, u);
    EmptyParts(Repeat(cfg.padc, cfg.width - |digits|) + digits);
  }

  // ----- What the standard asks for -----

  /** Digits extended with zeros to the precision; zero with precision zero has none. */
  function Extended(digits: string, precision: int): string {
    if precision == 0 && digits == "0" then "" else Repeat('0', precision - |digits|) + digits
  }

  /** Lead and digits in a field of the width, which counts both: on the left under '-',
      behind zeros under '0' unless there is a precision, else behind blanks. */
  function StandardField(lead: string, digits: string, width: int, precision: int, padc: char): string {
    var number := Extended(digits, precision);
    var free := width - |lead| - |number|;
    if padc == '-' then lead + number + Repeat(' ', free)
    else if padc == '0' && precision < 0 then lead + Repeat('0', free) + number
    else Repeat(' ', free) + lead + number
  }

  /** The flag '#' makes the first octal digit a zero, by a larger precision where it needs
      one. */
  function OctalPrecision(digits: string, precision: int): int {
    if digits == "0" then (if precision == 0 then 1 else precision)
    else if precision <= |digits| then |digits| + 1
    else precision
  }

  function StandardOctal(digits: string, width: int, precision: int, padc: char): string {
    if padc == '0' && precision < 0 && digits != "0" then StandardField("", "0" + digits, width, precision, padc)
    else StandardField("", digits, width, OctalPrecision(digits, precision), padc)
  }

  /** The text of a number directive under section 7.21.6.1, a pointer being printed with "0x"
      in front. */
  function Standard(conv: char, cfg: Settings, w: Unsigned64): string {
    var digits := DigitsOf(conv, cfg, w);
    if conv == 'o' && cfg.alt then StandardOctal(digits, cfg.width, cfg.precision, cfg.padc)
    else if conv == 'x' && cfg.alt && digits != "0" then
      StandardField("0x", digits, cfg.width, cfg.precision, cfg.padc)
    else StandardField(Lead(conv, cfg, w), digits, cfg.width, cfg.precision, cfg.padc)
  }

  // ----- When the loop does what is asked for -----

  predicate FieldFits(lead: string, digits: string, width: int, precision: int, padc: char) {
    if precision == 0 && digits == "0" then false
    else if precision > |digits| then padc == '0' && width == precision
    else width <= |digits| || (lead == "" && (padc == ' ' || (padc == '0' && precision < 0)))
  }

  predicate OctalFits(digits: string, width: int, precision: int, padc: char) {
    if padc == '0' && precision < 0 && digits != "0" then width > |digits|
    else FieldFits("", digits, width, OctalPrecision(digits, precision), padc)
  }

  /** A number is printed as the standard asks when it fills its field or nothing stands
      before it and blanks or zeros pad it; when its precision adds no digit, or zeros to the
      width add just as many; and when '#' adds nothing that the padding does not. */
  predicate PrintsStandard(conv: char, cfg: Settings, w: Unsigned64) {
    var digits := DigitsOf(conv, cfg, w);
    if conv == 'o' && cfg.alt then OctalFits(digits, cfg.width, cfg.precision, cfg.padc)
    else (conv == 'x' && cfg.alt ==> digits == "0")
         && FieldFits(Lead(conv, cfg, w), digits, cfg.width, cfg.precision, cfg.padc)
  }

  predicate IsLead(lead: string) { lead == "" || lead == "-" || lead == "0x" }

  /** Digits are neither blanks nor minus signs, nor an x. */
  predicate AreDigits(digits: string) {
    digits != "" && forall i | 0 <= i < |digits| :: digits[i] != ' ' && digits[i] != '-' && digits[i] != 'x'
  }

  lemma {:induction false} DigitsAreDigits(num: nat, base: nat)
    requires 2 <= base <= 16
    ensures AreDigits(Digits(num, base))
  {
    DigitsNumeral(num, base);
    var digits := Digits(num, base);
    forall i | 0 <= i < |digits|
      ensures digits[i] != ' ' && digits[i] != '-' && digits[i] != 'x'
    {
      DigitInBase(digits[i], base);
      assert DigitValue(' ') == 36 && DigitValue('-') == 36 && DigitValue('x') == 33;
    }
  }

  /** Where the parts of a padded number are. */
  lemma {:induction false} PaddedAt(lead: string, digits: string, width: int, padc: char)
    ensures var s, pads := Padded(lead, digits, width, padc), if width > |digits| then width - |digits| else 0;
      && |s| == |lead| + pads + |digits|
      && (forall i | 0 <= i < |lead| :: s[i] == lead[i])
      && (forall i | |lead| <= i < |lead| + pads :: s[i] == padc)
      && (forall i | |lead| + pads <= i < |s| :: s[i] == digits[i - |lead| - pads])
  {
  }

  /** Digits that fill their field are printed without padding. */
  lemma {:induction false} Filled(lead: string, digits: string, width: int, padc: char)
    requires width <= |digits|
    ensures Padded(lead, digits, width, padc) == lead + digits
  {
    EmptyParts(digits);
  }

  lemma {:induction false} FilledField(lead: string, digits: string, width: int, precision: int, padc: char)
    requires width <= |digits| && precision <= |digits| && !(precision == 0 && digits == "0")
    ensures StandardField(lead, digits, width, precision, padc) == lead + digits
  {
    EmptyParts(digits);
    EmptyParts(lead);
    EmptyParts(lead + digits);
  }

  /** A zero without digits is never printed: the last character tells. */
  lemma {:induction false} NoDigits(lead: string, width: int, padc: char)
    requires IsLead(lead)
    ensures Padded(lead, "0", width, padc) != StandardField(lead, "0", width, 0, padc)
  {
    var s, t := Padded(lead, "0", width, padc), StandardField(lead, "0", width, 0, padc);
    assert s[|s| - 1] == '0';
    assert t != "" ==> t[|t| - 1] != '0' by {
      var blanks := Repeat(' ', width - |lead|);
      if padc == '-' {
        EmptyParts(lead);
        LastOf(lead, blanks);
      } else {
        EmptyParts(blanks + lead);
        LastOf(blanks, lead);
      }
    }
  }

  lemma {:induction false} LastOf(a: string, b: string)
    ensures a + b != "" ==> (a + b)[|a + b| - 1] == if b != "" then b[|b| - 1] else a[|a| - 1]
  {
  }

  lemma {:induction false} StandardLength(lead: string, digits: string, width: int, precision: int, padc: char)
    ensures |StandardField(lead, digits, width, precision, padc)|
         == Max(width, |lead| + |Extended(digits, precision)|)
  {
  }

  lemma {:induction false} NotExtended(lead: string, digits: string, width: int, precision: int, padc: char)
    requires precision <= |digits| && !(precision == 0 && digits == "0")
    ensures var free := width - |lead| - |digits|;
      StandardField(lead, digits, width, precision, padc)
        == if padc == '-' then lead + digits + Repeat(' ', free)
           else if padc == '0' && precision < 0 then lead + Repeat('0', free) + digits
           else Repeat(' ', free) + lead + digits
  {
    EmptyParts(digits);
    assert Extended(digits, precision) == digits;
  }

  lemma {:induction false} ShortMinus(lead: string, digits: string, width: int)
    requires AreDigits(digits) && width > |digits|
    ensures Padded(lead, digits, width, '-') != lead + digits + Repeat(' ', width - |lead| - |digits|)
  {
    var s, t := Padded(lead, digits, width, '-'), lead + digits + Repeat(' ', width - |lead| - |digits|);
    PaddedAt(lead, digits, width, '-');
    assert s[|lead|] == '-' && t[|lead|] == digits[0];
  }

  lemma {:induction false} ShortPlain(digits: string, width: int, padc: char)
    requires width > |digits|
    ensures Padded("", digits, width, padc) == "" + Repeat(padc, width - |digits|) + digits
    ensures Padded("", digits, width, padc) == Repeat(padc, width - |digits|) + "" + digits
    ensures padc != ' ' ==> Padded("", digits, width, padc) != Repeat(' ', width - |digits|) + "" + digits
  {
    var pads, blanks := Repeat(padc, width - |digits|), Repeat(' ', width - |digits|);
    EmptyParts(pads);
    EmptyParts(blanks);
    EmptyParts(pads + digits);
    assert (pads + digits)[0] == padc && (blanks + digits)[0] == ' ';
  }

  /** Short digits without a precision that adds to them. */
  lemma {:induction false} ShortField(lead: string, digits: string, width: int, precision: int, padc: char)
    requires IsLead(lead) && IsPad(padc) && AreDigits(digits)
    requires width > |digits| && precision <= |digits| && !(precision == 0 && digits == "0")
    ensures Padded(lead, digits, width, padc) == StandardField(lead, digits, width, precision, padc)
       <==> lead == "" && (padc == ' ' || (padc == '0' && precision < 0))
  {
    NotExtended(lead, digits, width, precision, padc);
    if padc == '-' {
      ShortMinus(lead, digits, width);
    } else if lead == "" {
      ShortPlain(digits, width, padc);
    } else {
      PaddedAt(lead, digits, width, padc);
    }
  }

  /** Digits that the precision extends. */
  lemma {:induction false} ExtendedField(lead: string, digits: string, width: int, precision: int, padc: char)
    requires IsLead(lead) && IsPad(padc) && AreDigits(digits) && precision > |digits|
    ensures Padded(lead, digits, width, padc) == StandardField(lead, digits, width, precision, padc)
       <==> padc == '0' && width == precision
  {
    var s, t := Padded(lead, digits, width, padc), StandardField(lead, digits, width, precision, padc);
    var zeros := Repeat('0', precision - |digits|);
    PaddedAt(lead, digits, width, padc);
    StandardLength(lead, digits, width, precision, padc);
    if |s| == |t| && width > |digits| {
      if padc == '-' {
        assert s[|lead|] == '-' && t[|lead|] == (zeros + digits)[0] == '0';
      } else {
        var free := Repeat(' ', width - |lead| - precision);
        assert t == free + lead + (zeros + digits);
        if padc == ' ' {
          assert t[|t| - |digits| - 1] == zeros[|zeros| - 1];
          assert s[|s| - |digits| - 1] == ' ';
        } else if width > precision {
          assert s[0] == '0' && t[0] == ' ';
        } else {
          EmptyParts(lead);
        }
      }
    }
  }

  /** The field is as the standard has it exactly under the condition. */
  lemma {:induction false} FieldAsStandard(lead: string, digits: string, width: int, precision: int, padc: char)
    requires IsLead(lead) && IsPad(padc) && AreDigits(digits)
    ensures Padded(lead, digits, width, padc) == StandardField(lead, digits, width, precision, padc)
       <==> FieldFits(lead, digits, width, precision, padc)
  {
    if precision == 0 && digits == "0" {
      NoDigits(lead, width, padc);
    } else if precision > |digits| {
      ExtendedField(lead, digits, width, precision, padc);
    } else if width > |digits| {
      ShortField(lead, digits, width, precision, padc);
    } else {
      Filled(lead, digits, width, padc);
      FilledField(lead, digits, width, precision, padc);
    }
  }

  lemma {:induction false} ZeroMoves(m: nat, digits: string)
    ensures Repeat('0', m + 1) + digits == Repeat('0', m) + ("0" + digits)
  {
    assert Repeat('0', m + 1) == Repeat('0', m) + "0";
    Assoc(Repeat('0', m), "0", digits);
  }

  /** A field behind zeros, without lead or precision. */
  lemma {:induction false} ZeroField(number: string, width: int, precision: int)
    requires precision < 0
    ensures StandardField("", number, width, precision, '0') == Repeat('0', width - |number|) + number
    ensures Padded("", number, width, '0') == Repeat('0', width - |number|) + number
  {
    EmptyParts(number);
    EmptyParts(Repeat('0', width - |number|));
    EmptyParts(Repeat('0', width - |number|) + number);
  }

  lemma {:induction false} ZeroFills(digits: string, number: string, width: int)
    requires number == "0" + digits
    ensures Repeat('0', width - |digits|) + digits == Repeat('0', width - |number|) + number <==> width > |digits|
  {
    var m := width - |digits| - 1;
    if m >= 0 {
      ZeroMoves(m, digits);
      assert width - |digits| == m + 1 && width - |number| == m;
    }
  }

  /** A zero put before the digits is one of the zeros that fill the field, if any do. */
  lemma {:induction false} ZeroInFront(digits: string, number: string, width: int, precision: int)
    requires number == "0" + digits && precision < 0
    ensures Padded("", digits, width, '0') == StandardField("", number, width, precision, '0')
       <==> width > |digits|
  {
    ZeroField(digits, width, precision);
    ZeroField(number, width, precision);
    ZeroFills(digits, number, width);
  }

  lemma {:induction false} OctalAsStandard(digits: string, width: int, precision: int, padc: char)
    requires IsPad(padc) && AreDigits(digits)
    ensures Padded("", digits, width, padc) == StandardOctal(digits, width, precision, padc)
       <==> OctalFits(digits, width, precision, padc)
  {
    if padc == '0' && precision < 0 && digits != "0" {
      ZeroInFront(digits, "0" + digits, width, precision);
    } else {
      FieldAsStandard("", digits, width, OctalPrecision(digits, precision), padc);
    }
  }

  /** A prefix that the loop does not print is missed. */
  lemma {:induction false} PrefixMissed(digits: string, width: int, precision: int, padc: char)
    requires IsPad(padc) && AreDigits(digits)
    ensures Padded("", digits, width, padc) != StandardField("0x", digits, width, precision, padc)
  {
    var s, t := Padded("", digits, width, padc), StandardField("0x", digits, width, precision, padc);
    var number := Extended(digits, precision);
    var free := width - 2 - |number|;
    PaddedAt("", digits, width, padc);
    assert 'x' !in s;
    assert 'x' in t by {
      if padc == '-' || (padc == '0' && precision < 0) {
        assert t[1] == 'x';
      } else {
        assert t[|Repeat(' ', free)| + 1] == 'x';
      }
    }
  }

  lemma {:induction false} NumberAsStandard(conv: char, cfg: Settings, w: Unsigned64)
    requires IsNumeric(conv) && IsPad(cfg.padc)
    ensures Padded(Lead(conv, cfg, w), DigitsOf(conv, cfg, w), cfg.width, cfg.padc) == Standard(conv, cfg, w)
       <==> PrintsStandard(conv, cfg, w)
  {
    var digits := DigitsOf(conv, cfg, w);
    DigitsAreDigits(Magnitude(Denoted(conv, cfg, w)), BaseOf(conv));
    if conv == 'o' && cfg.alt {
      OctalAsStandard(digits, cfg.width, cfg.precision, cfg.padc);
    } else if conv == 'x' && cfg.alt && digits != "0" {
      PrefixMissed(digits, cfg.width, cfg.precision, cfg.padc);
    } else {
      FieldAsStandard(Lead(conv, cfg, w), digits, cfg.width, cfg.precision, cfg.padc);
    }
  }

  /** Any single number directive prints what the standard asks for, given the settings it has
      come to, exactly under PrintsStandard. */
  lemma {:induction false} DirectiveAsStandard(fmt: CString, flags: seq<Flag>, conv: char, args: seq<Arg>,
                                               cfg: Settings, w: Unsigned64)
    requires NumberDirective(fmt, flags, conv, args, cfg, w)
    ensures Output(fmt, args) == Some(Standard(conv, cfg, w)) <==> PrintsStandard(conv, cfg, w)
  {
    DirectivePrints(fmt, flags, conv, args, cfg, w);
    NumberAsStandard(conv, cfg, w);
  }

  // ----- The single departures -----

  /** The sign, like the "0x" of a pointer, does not count in the width: the output is longer
      than asked for unless there is none or the digits fill the field. */
  lemma {:induction false} LeadOutsideWidth(fmt: CString, flags: seq<Flag>, conv: char, args: seq<Arg>,
                                            cfg: Settings, w: Unsigned64)
    requires NumberDirective(fmt, flags, conv, args, cfg, w)
    ensures var lead, digits := Lead(conv, cfg, w), DigitsOf(conv, cfg, w);
      && Output(fmt, args).Some?
      && (|Output(fmt, args).value| == Max(cfg.width, |lead| + |digits|) <==> lead == "" || cfg.width <= |digits|)
  {
    DirectivePrints(fmt, flags, conv, args, cfg, w);
    PaddedAt(Lead(conv, cfg, w), DigitsOf(conv, cfg, w), cfg.width, cfg.padc);
  }

  /** The precision of a number and the flag '#' are ignored: directives that differ in
      nothing else print the same. */
  lemma {:induction false} PrecisionIgnored(fmt: CString, flags: seq<Flag>, conv: char, args: seq<Arg>,
                                            cfg: Settings, w: Unsigned64, other: CString, others: seq<Flag>,
                                            given: seq<Arg>, precision: int, alt: bool)
    requires NumberDirective(fmt, flags, conv, args, cfg, w)
    requires NumberDirective(other, others, conv, given, cfg.(precision := precision, alt := alt), w)
    ensures Output(fmt, args) == Output(other, given)
  {
    DirectivePrints(fmt, flags, conv, args, cfg, w);
    DirectivePrints(other, others, conv, given, cfg.(precision := precision, alt := alt), w);
  }

  /** The flag '-' does not move a number to the left of its field unless it fills it; it
      pads with minus signs instead. */
  lemma {:induction false} MinusFlagNotLeft(fmt: CString, flags: seq<Flag>, conv: char, args: seq<Arg>,
                                            cfg: Settings, w: Unsigned64)
    requires NumberDirective(fmt, flags, conv, args, cfg, w) && cfg.padc == '-'
    ensures var lead, digits := Lead(conv, cfg, w), DigitsOf(conv, cfg, w);
      Output(fmt, args) == Some(lead + digits + Repeat(' ', cfg.width - |lead| - |digits|))
      <==> cfg.width <= |digits|
  {
    var lead, digits := Lead(conv, cfg, w), DigitsOf(conv, cfg, w);
    DirectivePrints(fmt, flags, conv, args, cfg, w);
    DigitsAreDigits(Magnitude(Denoted(conv, cfg, w)), BaseOf(conv));
    FieldAsStandard(lead, digits, cfg.width, -1, '-');
    EmptyParts(digits);
  }

  function LongIf(long: bool): seq<Flag> { if long then [Long] else [] }

  lemma {:induction false} PlainSettings(long: bool, args: seq<Arg>)
    ensures Configure(DEFAULTS, LongIf(long), args) == Some((DEFAULTS.(lflag := if long then 1 else 0), args))
    ensures "%" + FlagsSource(LongIf(long)) + ['d'] == if long then "%ld" else "%d"
    ensures Separate(LongIf(long))
  {
    assert [Long][1..] == [];
  }

  lemma {:induction false} NegativeWord(cfg: Settings, num: nat, minus: Unsigned64)
    requires 0 < num < (if cfg.lflag > 0 then 0x8000_0000_0000_0000 else 0x8000_0000)
    requires minus == 0x1_0000_0000_0000_0000 - num
    ensures Signed(cfg, minus) == 0 - num
  {
    assert minus % 0x1_0000_0000 == 0x1_0000_0000 - num || cfg.lflag > 0;
  }

  lemma {:induction false} UnpaddedNegative(num: nat, value: int, width: int, padc: char)
    requires num > 0 && value == 0 - num && width < 0
    ensures SignedField(value, width, padc) == "-" + Digits(num, 10)
  {
    EmptyParts(Digits(num, 10));
  }

  lemma {:induction false} SignedConverted(cfg: Settings, w: Unsigned64, value: int)
    requires value == Signed(cfg, w) && value != -0x8000_0000_0000_0000
    ensures Convert('d', cfg, Word(w)) == Some(SignedField(value, cfg.width, cfg.padc))
  {
  }

  lemma {:induction false} PlainNegative(plain: CString, num: nat, long: bool)
    requires plain == if long then "%ld" else "%d"
    requires 0 < num < (if long then 0x8000_0000_0000_0000 else 0x8000_0000)
    ensures Output(plain, [Word(0x1_0000_0000_0000_0000 - num)]) == Some("-" + Digits(num, 10))
  {
    var minus := 0x1_0000_0000_0000_0000 - num;
    var cfg := DEFAULTS.(lflag := if long then 1 else 0);
    PlainSettings(long, [Word(minus)]);
    NegativeWord(cfg, num, minus);
    SignedConverted(cfg, minus, 0 - num);
    UnpaddedNegative(num, 0 - num, cfg.width, cfg.padc);
    OneDirective(plain, LongIf(long), 'd', [Word(minus)], cfg, Word(minus));
  }

  lemma {:induction false} MinusField(digits: string, width: int)
    requires AreDigits(digits)
    ensures var s := Padded("", digits, width, '-');
      && s != "" && (s[0] == '-' <==> width > |digits|)
      && (width == |digits| + 1 ==> s == "-" + digits)
  {
    PaddedAt("", digits, width, '-');
    if width == |digits| + 1 {
      EmptyParts("-" + digits);
      assert Repeat('-', 1) == "-";
    }
  }

  /** So a number without a sign looks negative exactly when it is narrower than its field,
      and when it is narrower by a single place its output is that of a negative number. */
  lemma {:induction false} MinusFlagLooksNegative(fmt: CString, flags: seq<Flag>, conv: char, args: seq<Arg>,
                                                  cfg: Settings, w: Unsigned64)
    requires NumberDirective(fmt, flags, conv, args, cfg, w) && cfg.padc == '-' && Lead(conv, cfg, w) == ""
    ensures var output, digits := Output(fmt, args), DigitsOf(conv, cfg, w);
      && output.Some? && output.value != ""
      && (output.value[0] == '-' <==> cfg.width > |digits|)
      && (cfg.width == |digits| + 1 ==> output.value == "-" + digits)
  {
    DirectivePrints(fmt, flags, conv, args, cfg, w);
    DigitsAreDigits(Magnitude(Denoted(conv, cfg, w)), BaseOf(conv));
    MinusField(DigitsOf(conv, cfg, w), cfg.width);
  }

  /** Then a positive %d argument is printed just as its negation is without the flag. */
  lemma {:induction false} MinusFlagNegates(fmt: CString, flags: seq<Flag>, args: seq<Arg>, cfg: Settings,
                                            w: Unsigned64, num: nat, plain: CString)
    requires NumberDirective(fmt, flags, 'd', args, cfg, w) && cfg.padc == '-'
    requires num == Signed(cfg, w) > 0 && cfg.width == |Digits(num, 10)| + 1
    requires plain == if cfg.lflag > 0 then "%ld" else "%d"
    ensures Output(fmt, args) == Output(plain, [Word(0x1_0000_0000_0000_0000 - num)])
  {
    MinusFlagLooksNegative(fmt, flags, 'd', args, cfg, w);
    PlainNegative(plain, num, cfg.lflag > 0);
  }

  // ----- Which bases printnum can print in -----

  /** The number printnum is called with at the k-th level of its recursion, the first being
      level 0; the deepest level is one whose number is below the base. */
  function Passed(num: nat, base: nat, k: nat): nat
    requires base > 0
  {
    if k == 0 then num else Passed(num, base, k - 1) / base
  }

  lemma {:induction false} PassedFurther(num: nat, base: nat, k: nat)
    requires base > 0
    ensures Passed(num, base, k + 1) == Passed(num / base, base, k)
  {
    if k > 0 {
      PassedFurther(num, base, k - 1);
    }
  }

  lemma {:induction false} Deepest(num: nat, base: nat) returns (k: nat)
    requires base >= 2
    ensures Passed(num, base, k) < base
    decreases num
  {
    if num < base {
      k := 0;
    } else {
      QuotientSmaller(num, base);
      var j := Deepest(num / base, base);
      PassedFurther(num, base, j);
      k := j + 1;
    }
  }

  lemma {:induction false} NeverSmaller(num: nat, k: nat)
    ensures Passed(num, 1, k) == num
  {
    if k > 0 {
      NeverSmaller(num, k - 1);
    }
  }

  /** The recursion of printnum ends for every number in every base but 1, where it ends only
      for zero. */
  lemma {:induction false} RecursionEnds(num: nat, base: nat)
    requires base > 0
    ensures (exists k: nat :: Passed(num, base, k) < base) <==> base >= 2 || num == 0
  {
    if base >= 2 {
      var k := Deepest(num, base);
    } else if num == 0 {
      assert Passed(num, base, 0) < base;
    } else {
      forall k: nat
        ensures Passed(num, base, k) >= base
      {
        NeverSmaller(num, k);
      }
    }
  }
}
