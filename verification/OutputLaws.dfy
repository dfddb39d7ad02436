/** What whole formats print: any sequence of text and escapes with their arguments, and the
    conversions other than numbers. */
module OutputLaws {
  import opened CString
  import opened Numeral
  import opened Format
  import opened FormatLaws
  import opened Printf
  import opened Wrappers

  // ----- How an escape is written -----

  function PlainText(flags: seq<Flag>): string {
    if flags == [] then ""
    else
      (if flags[0].Minus? then "-" else if flags[0].Zero? then "0" else if flags[0].Alt? then "#" else "l")
      + PlainText(flags[1..])
  }

  function CountText(count: Count): string {
    match count
    case Omitted => ""
    case Written(zeros, n) => Repeat('0', zeros) + (if n == 0 then "" else Digits(n, 10))
    case Starred(w) => "*"
  }

  function PrecisionText(precision: Option<Count>): string {
    if precision.None? then "" else "." + CountText(precision.value)
  }

  function EscapeText(e: Escape): string {
    PlainText(e.flags) + (CountText(e.width) + (PrecisionText(e.precision) + Repeat('l', e.longs)))
  }

  lemma {:induction false} SourceConcat(a: seq<Flag>, b: seq<Flag>)
    ensures FlagsSource(a + b) == FlagsSource(a) + FlagsSource(b)
    decreases |a|
  {
    if a == [] {
      assert a + b == b;
      EmptyParts(FlagsSource(b));
    } else {
      assert (a + b)[1..] == a[1..] + b;
      SourceConcat(a[1..], b);
      Assoc(FlagSource(a[0]), FlagsSource(a[1..]), FlagsSource(b));
    }
  }

  lemma {:induction false} PlainSource(flags: seq<Flag>)
    requires forall flag | flag in flags :: IsPlain(flag)
    ensures FlagsSource(flags) == PlainText(flags)
  {
    if flags != [] {
      assert flags[0] in flags && forall flag | flag in flags[1..] :: flag in flags;
      PlainSource(flags[1..]);
    }
  }

  lemma {:induction false} OneSource(flag: Flag)
    ensures FlagsSource([flag]) == FlagSource(flag)
  {
    EmptyParts(FlagSource(flag));
  }

  lemma {:induction false} ZerosText(n: nat)
    ensures PlainText(ZeroFlags(n)) == Repeat('0', n)
  {
    if n > 0 {
      assert ZeroFlags(n)[1..] == ZeroFlags(n - 1);
      ZerosText(n - 1);
      RepeatMore('0', n);
    }
  }

  lemma {:induction false} LongsText(n: nat)
    ensures PlainText(LongFlags(n)) == Repeat('l', n)
  {
    if n > 0 {
      assert LongFlags(n)[1..] == LongFlags(n - 1);
      LongsText(n - 1);
      RepeatMore('l', n);
    }
  }

  lemma {:induction false} CountSource(count: Count)
    ensures FlagsSource(CountFlags(count)) == CountText(count)
  {
    match count
    case Omitted =>
    case Starred(w) =>
      OneSource(Star);
    case Written(zeros, n) =>
      SourceConcat(ZeroFlags(zeros), if n == 0 then [] else [Width(n)]);
      PlainSource(ZeroFlags(zeros));
      ZerosText(zeros);
      if n > 0 { OneSource(Width(n)); }
  }

  lemma {:induction false} PrecisionSource(precision: Option<Count>)
    ensures FlagsSource(PrecisionFlags(precision)) == PrecisionText(precision)
  {
    if precision.Some? {
      SourceConcat([Dot], CountFlags(precision.value));
      OneSource(Dot);
      CountSource(precision.value);
    }
  }

  /** The characters of an escape in the usual order. */
  lemma {:induction false} EscapeSource(e: Escape)
    requires Usual(e)
    ensures FlagsSource(EscapeFlags(e)) == EscapeText(e)
  {
    var sized := PrecisionFlags(e.precision) + LongFlags(e.longs);
    SourceConcat(e.flags, CountFlags(e.width) + sized);
    SourceConcat(CountFlags(e.width), sized);
    SourceConcat(PrecisionFlags(e.precision), LongFlags(e.longs));
    PlainSource(e.flags);
    CountSource(e.width);
    PrecisionSource(e.precision);
    PlainSource(LongFlags(e.longs));
    LongsText(e.longs);
  }

  // ----- Any sequence of text and escapes -----

  /** Text without '%', an escape that prints '%', one that converts an argument, and one
      that is not recognised. */
  datatype Part =
    | Plain(text: string)
    | Percent(e: Escape)
    | Conversion(e: Escape, conv: char, arg: Arg)
    | Unrecognised(e: Escape, c: char)

  predicate ValidPart(part: Part) {
    match part
    case Plain(text) => '%' !in text
    case Percent(e) => Usual(e)
    case Conversion(e, conv, arg) => Usual(e) && conv in "cesduopx" && Convert(conv, Settled(e), arg).Some?
    case Unrecognised(e, c) => Usual(e) && c !in "cesduopx%" && c !in "-0123456789*.#l"
  }

  function PartText(part: Part): string {
    match part
    case Plain(text) => text
    case Percent(e) => "%" + EscapeText(e) + "%"
    case Conversion(e, conv, arg) => "%" + EscapeText(e) + [conv]
    case Unrecognised(e, c) => "%" + EscapeText(e) + [c]
  }

  function Spelled(parts: seq<Part>): string {
    if parts == [] then "" else PartText(parts[0]) + Spelled(parts[1..])
  }

  /** The arguments of all parts in order, and more behind them. */
  function Supplied(parts: seq<Part>, more: seq<Arg>): seq<Arg> {
    if parts == [] then more
    else
      var rest := Supplied(parts[1..], more);
      match parts[0]
      case Plain(text) => rest
      case Percent(e) => EscapeArgs(e, rest)
      case Conversion(e, conv, arg) => EscapeArgs(e, [arg] + rest)
      case Unrecognised(e, c) => EscapeArgs(e, rest)
  }

  function PartOutput(part: Part): string
    requires ValidPart(part)
  {
    match part
    case Plain(text) => text
    case Percent(e) => "%"
    case Conversion(e, conv, arg) => Convert(conv, Settled(e), arg).value
    case Unrecognised(e, c) => PartText(part)
  }

  function Printed(parts: seq<Part>): string
    requires forall i | 0 <= i < |parts| :: ValidPart(parts[i])
  {
    if parts == [] then "" else PartOutput(parts[0]) + Printed(parts[1..])
  }

  /** One piece, and what the rest emits with the arguments that it leaves. */
  lemma {:induction false} PieceStep(piece: Piece, rest: string, args: seq<Arg>, text: string, left: seq<Arg>)
    requires WellFormed(piece, rest == "") && Emit(piece, args) == Some((text, left))
    ensures EmitAll(Pieces(Source(piece) + rest), args) == Prepend(text, EmitAll(Pieces(rest), left))
  {
    var s := Source(piece) + rest;
    PieceRead(piece, rest, s);
    PiecesCons(s);
    DropFirst(Source(piece), rest);
  }

  lemma {:induction false} TextStep(text: string, rest: string, args: seq<Arg>)
    requires '%' !in text
    ensures EmitAll(Pieces(text + rest), args) == Prepend(text, EmitAll(Pieces(rest), args))
  {
    var s := text + rest;
    assert forall i | 0 <= i < |text| :: s[i] == text[i] && text[i] in text;
    LiteralRun(s, |text|, args);
    DropFirst(text, rest);
    assert s[..|text|] == text;
  }

  lemma {:induction false} PercentStep(e: Escape, rest: string, args: seq<Arg>)
    requires Usual(e)
    ensures EmitAll(Pieces("%" + EscapeText(e) + "%" + rest), EscapeArgs(e, args))
         == Prepend("%", EmitAll(Pieces(rest), args))
  {
    UsualEscape(e, args);
    UsualSeparate(e);
    EscapeSource(e);
    PieceStep(Directive(EscapeFlags(e), '%'), rest, EscapeArgs(e, args), "%", args);
  }

  lemma {:induction false} ConversionStep(e: Escape, conv: char, arg: Arg, rest: string, args: seq<Arg>)
    requires Usual(e) && conv in "cesduopx" && Convert(conv, Settled(e), arg).Some?
    ensures EmitAll(Pieces("%" + EscapeText(e) + [conv] + rest), EscapeArgs(e, [arg] + args))
         == Prepend(Convert(conv, Settled(e), arg).value, EmitAll(Pieces(rest), args))
  {
    UsualEscape(e, [arg] + args);
    UsualSeparate(e);
    EscapeSource(e);
    Conversions(conv);
    assert ([arg] + args)[1..] == args;
    PieceStep(Directive(EscapeFlags(e), conv), rest, EscapeArgs(e, [arg] + args),
              Convert(conv, Settled(e), arg).value, args);
  }

  lemma {:induction false} FlagStarts(c: char)
    ensures StartsFlag(c) ==> c in "-0123456789*.#l"
  {
    var all := "-0123456789*.#l";
    if IsDecimal(c) {
      DecimalIsDigit(c);
      assert all[1 + DigitValue(c)] == c;
    } else if StartsFlag(c) {
      assert c == all[0] || c == all[11] || c == all[12] || c == all[13] || c == all[14];
    }
  }

  lemma {:induction false} Conversions(c: char)
    ensures IsConversion(c) <==> c in "cesduopx%"
  {
    var all := "cesduopx%";
    if IsConversion(c) {
      assert c == all[0] || c == all[1] || c == all[2] || c == all[3] || c == all[4]
          || c == all[5] || c == all[6] || c == all[7] || c == all[8];
    }
  }

  lemma {:induction false} UnrecognisedStep(e: Escape, c: char, rest: string, args: seq<Arg>)
    requires Usual(e) && c !in "cesduopx%" && c !in "-0123456789*.#l"
    ensures EmitAll(Pieces("%" + EscapeText(e) + [c] + rest), EscapeArgs(e, args))
         == Prepend("%" + EscapeText(e) + [c], EmitAll(Pieces(rest), args))
  {
    UsualEscape(e, args);
    UsualSeparate(e);
    EscapeSource(e);
    FlagStarts(c);
    Conversions(c);
    PieceStep(Unknown(EscapeFlags(e), [c]), rest, EscapeArgs(e, args), "%" + EscapeText(e) + [c], args);
  }

  lemma {:induction false} PartsEmitted(parts: seq<Part>, more: seq<Arg>)
    requires forall i | 0 <= i < |parts| :: ValidPart(parts[i])
    ensures EmitAll(Pieces(Spelled(parts)), Supplied(parts, more)) == Some(Printed(parts))
    decreases |parts|
  {
    if parts != [] {
      var rest, args := Spelled(parts[1..]), Supplied(parts[1..], more);
      PartsEmitted(parts[1..], more);
      match parts[0]
      case Plain(text) => TextStep(text, rest, args);
      case Percent(e) => PercentStep(e, rest, args);
      case Conversion(e, conv, arg) => ConversionStep(e, conv, arg, rest, args);
      case Unrecognised(e, c) => UnrecognisedStep(e, c, rest, args);
    }
  }

  /** The output of a format is that of its parts in order: every escape takes its own
      arguments and the next begins with the one behind them. */
  lemma {:induction false} PartsPrinted(fmt: CString, parts: seq<Part>, more: seq<Arg>)
    requires (forall i | 0 <= i < |parts| :: ValidPart(parts[i])) && fmt == Spelled(parts)
    ensures Output(fmt, Supplied(parts, more)) == Some(Printed(parts))
  {
    PartsEmitted(parts, more);
  }

  // ----- Conversions other than numbers -----

  /** When C defines what a conversion makes of an argument. */
  lemma {:induction false} ConversionDefined(conv: char, cfg: Settings, arg: Arg)
    requires conv in "cesduopx"
    ensures Convert(conv, cfg, arg).Some? <==>
      match arg
      case Text(s) => conv == 's'
      case Word(w) =>
        && (conv == 's' ==> w == 0)
        && (conv == 'd' && cfg.lflag > 0 ==> w != 0x8000_0000_0000_0000)
        && (conv == 'e' ==> w % 0x1_0000_0000 != 0x8000_0000)
  {
  }

  /** A format that is one escape, spelled out, prints what its conversion makes of the
      argument. */
  lemma {:induction false} EscapePrinted(fmt: CString, e: Escape, conv: char, arg: Arg, text: string)
    requires Usual(e) && fmt == "%" + EscapeText(e) + [conv] && conv in "cesduopx"
    requires Convert(conv, Settled(e), arg) == Some(text)
    ensures Output(fmt, EscapeArgs(e, [arg])) == Some(text)
  {
    EscapeSource(e);
    Conversions(conv);
    UsualDirective(fmt, e, conv, arg);
  }

  lemma {:induction false} LowByte(w: Unsigned64)
    ensures AsInt(w) % 256 == w % 256
  {
    assert (w % 0x1_0000_0000) % 256 == w % 256;
  }

  lemma {:induction false} CharConverted(cfg: Settings, w: Unsigned64, c: char)
    requires c as int == w % 256
    ensures Convert('c', cfg, Word(w)) == Some([c])
  {
    LowByte(w);
    assert Byte(AsInt(w)) == c;
  }

  lemma {:induction false} CharPrinted(fmt: CString, e: Escape, w: Unsigned64, c: char)
    requires Usual(e) && fmt == "%" + EscapeText(e) + "c" && c as int == w % 256
    ensures Output(fmt, EscapeArgs(e, [Word(w)])) == Some([c])
  {
    CharConverted(Settled(e), w, c);
    EscapePrinted(fmt, e, 'c', Word(w), [c]);
  }

  /** s cut to the precision, as it is or, under '#', with '?' for what is not printable,
      behind the pad characters or before blanks. */
  ghost predicate IsStringField(output: string, s: string, padc: char, width: int, precision: int, alt: bool)
  {
    var n := if 0 <= precision < |s| then precision else |s|;
    var from := if padc == '-' || width < n then 0 else width - n;
    && |output| == (if width > n then width else n)
    && (forall i | 0 <= i < from :: output[i] == padc)
    && (forall i | from <= i < from + n ::
          output[i] == if alt && !(' ' <= s[i - from] <= '~') then '?' else s[i - from])
    && (forall i | from + n <= i < |output| :: output[i] == ' ')
  }

  lemma {:induction false} FieldCharacters(s: string, cfg: Settings)
    ensures IsStringField(StringField(s, cfg), s, cfg.padc, cfg.width, cfg.precision, cfg.alt)
  {
  }

  lemma {:induction false} StringPrinted(fmt: CString, e: Escape, s: CString)
    requires Usual(e) && fmt == "%" + EscapeText(e) + "s"
    ensures var output, cfg := Output(fmt, EscapeArgs(e, [Text(s)])), Settled(e);
      output.Some? && IsStringField(output.value, s, cfg.padc, cfg.width, cfg.precision, Alt in e.flags)
  {
    EscapePrinted(fmt, e, 's', Text(s), StringField(s, Settled(e)));
    FieldCharacters(s, Settled(e));
    SettledAlt(e);
  }

  lemma {:induction false} SettledAlt(e: Escape)
    ensures Settled(e).alt == (Alt in e.flags)
  {
  }

  lemma {:induction false} NullConverted(cfg: Settings) returns (text: string)
    ensures Convert('s', cfg, Word(0)) == Convert('s', cfg, Text("(null)")) == Some(text)
  {
    text := StringField("(null)", cfg);
  }

  /** A null pointer is printed as the text "(null)" would be. */
  lemma {:induction false} NullPrinted(fmt: CString, e: Escape)
    requires Usual(e) && fmt == "%" + EscapeText(e) + "s"
    ensures Output(fmt, EscapeArgs(e, [Word(0)])) == Output(fmt, EscapeArgs(e, [Text("(null)")]))
    ensures Output(fmt, EscapeArgs(e, [Word(0)])).Some?
  {
    var text := NullConverted(Settled(e));
    EscapePrinted(fmt, e, 's', Word(0), text);
    EscapePrinted(fmt, e, 's', Text("(null)"), text);
  }

  /** The messages of the error table. */
  predicate IsMessage(code: int, text: string) {
    || (code == 1 && text == "unspecified error")
    || (code == 2 && text == "bad process")
    || (code == 3 && text == "invalid parameter")
    || (code == 4 && text == "out of memory")
    || (code == 5 && text == "out of processes")
    || (code == 6 && text == "segmentation fault")
    || (code == 8 && text == "invalid elf file")
    || (code == 9 && text == "process is killed")
    || (code == 10 && text == "panic failure")
  }

  lemma {:induction false} ErrorConverted(cfg: Settings, w: Unsigned64, v: int)
    requires -0x8000_0000 < v < 0x8000_0000 && (w - v) % 0x1_0000_0000 == 0
    ensures Convert('e', cfg, Word(w)) == Some(ErrorText(v))
  {
    IntOf(w, v);
  }

  lemma {:induction false} IntOf(w: Unsigned64, v: int)
    requires -0x8000_0000 <= v < 0x8000_0000 && (w - v) % 0x1_0000_0000 == 0
    ensures AsInt(w) == v
  {
  }

  lemma {:induction false} ErrorMessage(v: int)
    ensures var code := if v < 0 then -v else v;
      if 1 <= code <= 6 || 8 <= code <= 10 then IsMessage(code, ErrorText(v))
      else ErrorText(v) == "error " + Digits(code, 10)
  {
  }

  /** An error code of either sign is printed as its message, or as its number if the table
      has none. */
  lemma {:induction false} ErrorPrinted(fmt: CString, e: Escape, w: Unsigned64, v: int)
    requires Usual(e) && fmt == "%" + EscapeText(e) + "e"
    requires -0x8000_0000 < v < 0x8000_0000 && (w - v) % 0x1_0000_0000 == 0
    ensures var code, output := if v < 0 then -v else v, Output(fmt, EscapeArgs(e, [Word(w)]));
      if 1 <= code <= 6 || 8 <= code <= 10 then output.Some? && IsMessage(code, output.value)
      else output == Some("error " + Digits(code, 10))
  {
    ErrorConverted(Settled(e), w, v);
    EscapePrinted(fmt, e, 'e', Word(w), ErrorText(v));
    ErrorMessage(v);
  }
}
