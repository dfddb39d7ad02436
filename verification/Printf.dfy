/** The formatting loop of printfmt.c and its bounded output buffer. */
module Printf {
  import opened CString
  import opened Numeral
  import opened Format
  import opened Wrappers

  /** A sprintbuf: a buffer that keeps as many characters as fit and counts them all. */
  class SprintBuf {
    const str: array<char>
    const ebuf: nat
    var buf: nat
    var cnt: nat
    /** Everything that was put, whether or not it fitted. */
    ghost var text: string
    /** What the array held at first. */
    ghost const before: string

    /** The array holds what was put as far as it fits, and its old contents behind that. */
    ghost predicate Valid()
      reads this, str
    {
      && ebuf < str.Length == |before|
      && cnt == |text| && buf == Min(cnt, ebuf)
      && str[..buf] == text[..buf] && str[buf..] == before[buf..]
    }

    constructor (str: array<char>, size: nat)
      requires 0 < size <= str.Length
      ensures Valid() && text == "" && this.str == str && ebuf == size - 1 && before == str[..]
    {
      this.str, this.ebuf, this.buf, this.cnt := str, size - 1, 0, 0;
      this.text, this.before := "", str[..];
    }

    method Putch(ch: char)
      requires Valid()
      modifies this, str
      ensures Valid() && text == old(text) + [ch]
    {
      cnt := cnt + 1;
      if buf < ebuf {
        str[buf] := ch;
        buf := buf + 1;
      }
      text := text + [ch];
    }
  }

  // ----- Numbers -----

  /** One more digit on the right takes one off the width on its left. */
  lemma {:induction false} FieldSnoc(num: nat, base: nat, width: int, padc: char)
    requires 2 <= base <= 16
    ensures NumberField(num, base, width, padc)
         == (if num >= base then NumberField(num / base, base, width - 1, padc)
             else Repeat(padc, width - 1)) + [DIGITS[num % base]]
  {
    if num >= base {
      QuotientSmaller(num, base);
      var high := Digits(num / base, base);
      assert Digits(num, base) == high + [DIGITS[num % base]];
      var pads := Repeat(padc, width - 1 - |high|);
      assert pads + (high + [DIGITS[num % base]]) == (pads + high) + [DIGITS[num % base]];
    } else {
      SmallMod(num, base);
    }
  }

  lemma {:induction false} PrintStep(num: nat, base: nat, width: int, padc: char, result: nat, mod: nat)
    requires 2 <= base <= 16 && result == num / base && mod == num % base
    ensures mod < 16 && (num >= base ==> result < num)
    ensures NumberField(num, base, width, padc)
         == (if num >= base then NumberField(result, base, width - 1, padc)
             else Repeat(padc, width - 1)) + [DIGITS[mod]]
  {
    FieldSnoc(num, base, width, padc);
    QuotientSmaller(num, base);
  }

  lemma {:induction false} SmallMod(num: nat, base: nat)
    requires num < base
    ensures num % base == num
  {
  }

  /** n copies of a character. */
  method Pad(b: SprintBuf, padc: char, n: int)
    requires b.Valid()
    modifies b, b.str
    ensures b.Valid() && b.text == old(b.text) + Repeat(padc, n)
  {
    var width := n;
    while width > 0
      invariant b.Valid() && b.text + Repeat(padc, width) == old(b.text) + Repeat(padc, n)
    {
      RepeatMore(padc, width);
      b.Putch(padc);
      width := width - 1;
    }
  }

  /** The base whose digits are printed; in base 1 only zero can be, and looks as in any
      other. */
  function DigitBase(base: nat): nat { if base == 1 then 2 else base }

  /** In base 1 the recursion ends for zero only. */
  method PrintNum(b: SprintBuf, num: nat, base: nat, width: int, padc: char)
    requires b.Valid() && 1 <= base <= 16 && (base >= 2 || num == 0)
    modifies b, b.str
    ensures b.Valid() && b.text == old(b.text) + NumberField(num, DigitBase(base), width, padc)
    decreases num
  {
    var result, mod := num / base, num % base;
    PrintStep(num, DigitBase(base), width, padc, num / DigitBase(base), num % DigitBase(base));
    if num >= base {
      PrintNum(b, result, base, width - 1, padc);
    } else {
      Pad(b, padc, width - 1);
    }
    b.Putch(DIGITS[mod]);
  }

  // ----- Strings -----

  method StrNLen(s: CString, len: nat) returns (cnt: nat)
    ensures cnt == Min(|s|, len)
  {
    cnt := 0;
    while cnt < len && At(s, cnt) != '\0'
      invariant cnt <= Min(|s|, len)
    {
      cnt := cnt + 1;
    }
  }

  /** The conversion of an int to size_t. */
  function AsSize(n: int): nat { n % 0x1_0000_0000_0000_0000 }

  predicate IsInt(n: int) { -INT_MAX - 1 <= n <= INT_MAX }

  /** A negative precision becomes a length that no string reaches. */
  lemma {:induction false} PrecisionAsSize(s: CString, precision: int)
    requires IsInt(precision)
    ensures Min(|s|, AsSize(precision)) == Shown(s, precision)
  {
    if precision < 0 {
      assert AsSize(precision) == precision + 0x1_0000_0000_0000_0000;
    }
  }

  /** The middle loop of %s; width counts down with every character. */
  method PrintBody(b: SprintBuf, s: CString, start: int, admitted: int, alt: bool) returns (width: int)
    requires b.Valid()
    modifies b, b.str
    ensures width == start - Shown(s, admitted)
    ensures b.Valid() && b.text == old(b.text) + Body(s, Shown(s, admitted), alt)
  {
    var precision, p := admitted, 0;
    ghost var n := Shown(s, admitted);
    width := start;
    while At(s, p) != '\0' && (precision < 0 || precision > 0)
      invariant p <= n && width == start - p
      invariant if admitted < 0 then precision < 0 else precision == admitted - p
      invariant b.Valid() && b.text == old(b.text) + Body(s, p, alt)
      decreases |s| - p
    {
      BodySnoc(s, p, alt);
      if precision >= 0 {
        precision := precision - 1;
      }
      var ch := At(s, p);
      p := p + 1;
      if alt && (ch < ' ' || ch > '~') {
        b.Putch('?');
      } else {
        b.Putch(ch);
      }
      width := width - 1;
    }
  }

  method PrintString(b: SprintBuf, s: CString, cfg: Settings)
    requires b.Valid() && IsInt(cfg.precision)
    modifies b, b.str
    ensures b.Valid() && b.text == old(b.text) + StringField(s, cfg)
  {
    var width := cfg.width;
    ghost var n := Shown(s, cfg.precision);
    ghost var body := Body(s, n, cfg.alt);
    ghost var lead := if cfg.padc == '-' then "" else Repeat(cfg.padc, width - n);
    PrecisionAsSize(s, cfg.precision);
    if width > 0 && cfg.padc != '-' {
      var len := StrNLen(s, AsSize(cfg.precision));
      width := width - len;
      Pad(b, cfg.padc, width);
      width := Min(width, 0);
    }
    width := PrintBody(b, s, width, cfg.precision, cfg.alt);
    Pad(b, ' ', width);
    Assoc(old(b.text), lead, body);
    Assoc(old(b.text), lead + body, Repeat(' ', width));
  }

  // ----- How the loop moves through the pieces -----

  lemma {:induction false} PrependPrepend(a: string, b: string, more: Option<string>)
    ensures Prepend(a, Prepend(b, more)) == Prepend(a + b, more)
  {
    if more.Some? {
      assert a + (b + more.value) == (a + b) + more.value;
    }
  }

  /** How many error directives there are. */
  ghost function Errors(pieces: seq<Piece>): nat {
    if pieces == [] then 0
    else (if pieces[0].Directive? && pieces[0].conv == 'e' then 1 else 0) + Errors(pieces[1..])
  }

  lemma {:induction false} PiecesCons(s: string)
    requires s != ""
    ensures var (piece, n) := FirstPiece(s);
      Pieces(s) != [] && Pieces(s)[0] == piece && Pieces(s)[1..] == Pieces(s[n..])
  {
  }

  lemma {:induction false} LiteralStep(s: string, args: seq<Arg>)
    requires s != "" && s[0] != '%'
    ensures EmitAll(Pieces(s), args) == Prepend([s[0]], EmitAll(Pieces(s[1..]), args))
    ensures Errors(Pieces(s)) == Errors(Pieces(s[1..]))
  {
    PiecesCons(s);
  }

  /** Text without escapes stands for itself. */
  lemma {:induction false} LiteralRun(s: string, k: nat, args: seq<Arg>)
    requires k <= |s| && forall i | 0 <= i < k :: s[i] != '%'
    ensures EmitAll(Pieces(s), args) == Prepend(s[..k], EmitAll(Pieces(s[k..]), args))
    ensures Errors(Pieces(s)) == Errors(Pieces(s[k..]))
    decreases k
  {
    if k == 0 {
      assert s[0..] == s;
      PrependNothing(EmitAll(Pieces(s), args));
    } else {
      var t := s[1..];
      HeadTail(s, k);
      LiteralStep(s, args);
      LiteralRun(t, k - 1, args);
      PrependPrepend([s[0]], t[..k - 1], EmitAll(Pieces(s[k..]), args));
    }
  }

  lemma {:induction false} HeadTail(s: string, k: nat)
    requires 0 < k <= |s|
    ensures [s[0]] + s[1..][..k - 1] == s[..k] && s[1..][k - 1..] == s[k..]
  {
  }

  lemma {:induction false} PrependNothing(more: Option<string>)
    ensures Prepend("", more) == more
  {
    if more.Some? {
      assert "" + more.value == more.value;
    }
  }

  lemma {:induction false} FlagsPlain(s: string, i: nat)
    requires i < Flags(s).1
    ensures s[i] != '%'
    decreases |s|
  {
    var (flag, n) := FirstFlag(s).value;
    if i >= n {
      FlagsPlain(s[n..], i - n);
    } else if i > 0 {
      DecimalRunDigits(s, i);
    }
  }

  /** An escape that is not recognised holds no '%' besides the first. */
  lemma {:induction false} UnknownPlain(s: string, i: nat)
    requires s != "" && s[0] == '%' && FirstPiece(s).0.Unknown? && 0 < i < FirstPiece(s).1
    ensures s[i] != '%'
  {
    if i - 1 < Flags(s[1..]).1 {
      FlagsPlain(s[1..], i - 1);
    }
  }

  lemma {:induction false} UnknownTailPlain(s: string)
    requires s != "" && s[0] == '%' && FirstPiece(s).0.Unknown?
    ensures forall i | 0 <= i < FirstPiece(s).1 - 1 :: s[1..][i] != '%'
  {
    forall i | 0 <= i < FirstPiece(s).1 - 1
      ensures s[1..][i] != '%'
    {
      UnknownPlain(s, i + 1);
    }
  }

  /** An escape that is not recognised is reproduced as it is written; only the arguments
      of its flags are gone. */
  lemma {:induction false} UnknownVerbatim(s: string, args: seq<Arg>, cfg: Settings, rest: seq<Arg>)
    requires s != "" && s[0] == '%' && FirstPiece(s).0.Unknown?
    requires Configure(DEFAULTS, Flags(s[1..]).0, args) == Some((cfg, rest))
    ensures EmitAll(Pieces(s), args) == Prepend(s[..FirstPiece(s).1], EmitAll(Pieces(s[FirstPiece(s).1..]), rest))
    ensures Errors(Pieces(s)) == Errors(Pieces(s[FirstPiece(s).1..]))
  {
    PiecesCons(s);
    PieceWritten(s);
  }

  /** So printing the '%' and scanning on right behind it yields the same. */
  lemma {:induction false} UnknownRewound(s: string, args: seq<Arg>, cfg: Settings, rest: seq<Arg>)
    requires s != "" && s[0] == '%' && FirstPiece(s).0.Unknown?
    requires Configure(DEFAULTS, Flags(s[1..]).0, args) == Some((cfg, rest))
    ensures EmitAll(Pieces(s), args) == Prepend("%", EmitAll(Pieces(s[1..]), rest))
    ensures Errors(Pieces(s)) == Errors(Pieces(s[1..]))
  {
    var n := FirstPiece(s).1;
    UnknownVerbatim(s, args, cfg, rest);
    var t := s[1..];
    UnknownTailPlain(s);
    LiteralRun(t, n - 1, rest);
    HeadTail(s, n);
    PrependPrepend("%", t[..n - 1], EmitAll(Pieces(s[n..]), rest));
  }

  // ----- The loop -----

  /** Copies characters up to the next '%' or the terminator; i is then just past it. */
  method CopyLiterals(b: SprintBuf, fmt: CString, start: nat) returns (i: nat, escape: bool)
    requires b.Valid() && start <= |fmt|
    modifies b, b.str
    ensures b.Valid()
    ensures start < i <= |fmt| + 1 && At(fmt, i - 1) == if escape then '%' else '\0'
    ensures forall k | start <= k < i - 1 :: fmt[k] != '%'
    ensures b.text == old(b.text) + fmt[start..i - 1]
  {
    i := start;
    var ch := At(fmt, i);
    i := i + 1;
    while ch != '%'
      invariant start < i <= |fmt| + 1 && ch == At(fmt, i - 1)
      invariant forall k | start <= k < i - 1 :: fmt[k] != '%'
      invariant b.Valid()
      invariant b.text == old(b.text) + fmt[start..i - 1]
      decreases |fmt| + 1 - i
    {
      if ch == '\0' {
        return i, false;
      }
      assert fmt[start..i] == fmt[start..i - 1] + [ch];
      b.Putch(ch);
      ch := At(fmt, i);
      i := i + 1;
    }
    return i, true;
  }

  // ----- Reading the flags of an escape -----

  lemma {:induction false} DecimalStep(s: string, k: nat)
    requires k < |s|
    ensures DecimalRun(s[k..]) == if IsDecimal(s[k]) then 1 + DecimalRun(s[k + 1..]) else 0
    ensures Value(s[..k + 1], 10) == Value(s[..k], 10) * 10 + DigitValue(s[k])
  {
    assert s[k..][1..] == s[k + 1..];
    assert s[..k + 1] == s[..k] + [s[k]];
    ValueSnoc(s[..k], s[k], 10);
  }

  /** The inner loop for a width or precision, from its first digit. */
  method ReadNumber(fmt: CString, start: nat) returns (n: nat, i: nat)
    requires start < |fmt| && IsDecimal(fmt[start])
    ensures i == start + DecimalRun(fmt[start..]) <= |fmt|
    ensures n == Value(fmt[start..][..i - start], 10)
  {
    ghost var s := fmt[start..];
    i, n := start, 0;
    while '0' <= At(fmt, i) <= '9'
      invariant start <= i <= |fmt|
      invariant DecimalRun(s) == i - start + DecimalRun(s[i - start..])
      invariant n == Value(s[..i - start], 10)
      decreases |fmt| - i
    {
      DecimalStep(s, i - start);
      n := n * 10 + ((At(fmt, i) as int) - ('0' as int));
      i := i + 1;
    }
    assert DecimalRun(s[i - start..]) == 0;
  }

  /** One flag on the way through an escape. */
  lemma {:induction false} FlagStep(s: string, flag: Flag, n: nat, cfg: Settings, args: seq<Arg>)
    requires FirstFlag(s) == Some((flag, n))
    ensures Flags(s).1 == n + Flags(s[n..]).1
    ensures Configure(cfg, Flags(s).0, args)
         == match Apply(cfg, flag, args)
            case None => None
            case Some((next, rest)) => Configure(next, Flags(s[n..]).0, rest)
  {
    assert Flags(s).0[1..] == Flags(s[n..]).0;
  }

  /** The cases of the switch that go back to reswitch. */
  method ReadFlag(fmt: CString, start: nat, before: Settings, args: seq<Arg>)
    returns (again: bool, i: nat, cfg: Settings, ap: seq<Arg>)
    requires start <= |fmt| && IsInt(before.precision)
    requires var first := FirstFlag(fmt[start..]); first.Some? ==> Apply(before, first.value.0, args).Some?
    ensures again <==> FirstFlag(fmt[start..]).Some?
    ensures again ==>
              var (flag, n) := FirstFlag(fmt[start..]).value;
              Apply(before, flag, args) == Some((cfg, ap)) && i == start + n
    ensures !again ==> i == start && cfg == before && ap == args
    ensures IsInt(cfg.precision)
  {
    again, i, cfg, ap := true, start, before, args;
    ghost var s := fmt[start..];
    var ch := At(fmt, i);
    if ch == '-' {
      i, cfg := i + 1, cfg.(padc := '-');
    } else if ch == '0' {
      i, cfg := i + 1, cfg.(padc := '0');
    } else if '1' <= ch <= '9' {
      var n;
      n, i := ReadNumber(fmt, i);
      cfg := WithNumber(cfg, n);
    } else if ch == '*' {
      var n := AsInt(ap[0].w);
      i, cfg, ap := i + 1, WithNumber(cfg, n), ap[1..];
    } else if ch == '.' {
      i := i + 1;
      if cfg.width < 0 {
        cfg := cfg.(width := 0);
      }
    } else if ch == '#' {
      i, cfg := i + 1, cfg.(alt := true);
    } else if ch == 'l' {
      i, cfg := i + 1, cfg.(lflag := cfg.lflag + 1);
    } else {
      again := false;
    }
  }

  /** Reading on at i with these settings and arguments amounts to reading all flags from
      start on with the given arguments. */
  ghost predicate Reading(fmt: string, start: nat, args: seq<Arg>, i: nat, cfg: Settings, ap: seq<Arg>) {
    && start <= i <= |fmt|
    && start + Flags(fmt[start..]).1 == i + Flags(fmt[i..]).1
    && Configure(DEFAULTS, Flags(fmt[start..]).0, args) == Configure(cfg, Flags(fmt[i..]).0, ap)
  }

  lemma {:induction false} ReadingStep(fmt: string, start: nat, args: seq<Arg>, i: nat, cfg: Settings, ap: seq<Arg>)
    requires Reading(fmt, start, args, i, cfg, ap) && FirstFlag(fmt[i..]).Some?
    requires Configure(DEFAULTS, Flags(fmt[start..]).0, args).Some?
    ensures var (flag, n) := FirstFlag(fmt[i..]).value;
      var applied := Apply(cfg, flag, ap);
      applied.Some? && Reading(fmt, start, args, i + n, applied.value.0, applied.value.1)
  {
    var s := fmt[i..];
    var (flag, n) := FirstFlag(s).value;
    FlagStep(s, flag, n, cfg, ap);
    DropSum(fmt, i, n);
  }

  lemma {:induction false} ReadingDone(fmt: string, start: nat, args: seq<Arg>, i: nat, cfg: Settings, ap: seq<Arg>)
    requires Reading(fmt, start, args, i, cfg, ap) && FirstFlag(fmt[i..]).None?
    ensures i == start + Flags(fmt[start..]).1
    ensures Configure(DEFAULTS, Flags(fmt[start..]).0, args) == Some((cfg, ap))
  {
  }

  /** The reswitch loop: reads all flags and applies them. */
  method ReadFlags(fmt: CString, start: nat, args: seq<Arg>)
    returns (i: nat, cfg: Settings, ap: seq<Arg>)
    requires start <= |fmt| && Configure(DEFAULTS, Flags(fmt[start..]).0, args).Some?
    ensures i == start + Flags(fmt[start..]).1 <= |fmt|
    ensures Configure(DEFAULTS, Flags(fmt[start..]).0, args) == Some((cfg, ap))
    ensures IsInt(cfg.precision)
  {
    i, cfg, ap := start, DEFAULTS, args;
    var again := true;
    while again
      invariant Reading(fmt, start, args, i, cfg, ap) && IsInt(cfg.precision)
      invariant !again ==> FirstFlag(fmt[i..]).None?
      decreases |fmt| - i, again
    {
      if FirstFlag(fmt[i..]).Some? {
        ReadingStep(fmt, start, args, i, cfg, ap);
      }
      again, i, cfg, ap := ReadFlag(fmt, i, cfg, ap);
    }
    ReadingDone(fmt, start, args, i, cfg, ap);
  }

  // ----- Conversions -----

  lemma {:induction false} DirectivePiece(s: string, n: nat)
    requires |s| > 1 + n && s[0] == '%' && n == Flags(s[1..]).1 && IsConversion(s[1 + n])
    ensures FirstPiece(s) == (Directive(Flags(s[1..]).0, s[1 + n]), 2 + n)
  {
  }

  /** What s emits is the text that was taken, and what the tail emits with the arguments
      that were left. */
  ghost predicate Emits(s: string, args: seq<Arg>, taken: Option<(string, seq<Arg>)>, tail: string) {
    taken.Some? && EmitAll(Pieces(s), args) == Prepend(taken.value.0, EmitAll(Pieces(tail), taken.value.1))
  }

  /** A directive emits its conversion of the next argument and takes it. */
  lemma {:induction false} DirectiveEmits(s: string, n: nat, args: seq<Arg>, cfg: Settings, rest: seq<Arg>)
    requires |s| > 1 + n && s[0] == '%' && n == Flags(s[1..]).1 && IsConversion(s[1 + n])
    requires EmitAll(Pieces(s), args).Some?
    requires Configure(DEFAULTS, Flags(s[1..]).0, args) == Some((cfg, rest))
    ensures Emits(s, args, Take(s[1 + n], cfg, rest), s[2 + n..])
    ensures Errors(Pieces(s)) == (if s[1 + n] == 'e' then 1 else 0) + Errors(Pieces(s[2 + n..]))
  {
    DirectivePiece(s, n);
    PiecesCons(s);
  }

  lemma {:induction false} ConfigureSome(s: string, args: seq<Arg>)
    requires s != "" && s[0] == '%' && EmitAll(Pieces(s), args).Some?
    ensures Configure(DEFAULTS, Flags(s[1..]).0, args).Some?
  {
    PiecesCons(s);
  }

  lemma {:induction false} StringDirective(fmt: CString, text: CString)
    requires fmt == "%s"
    ensures Output(fmt, [Text(text)]) == Some(text)
    ensures Errors(Pieces(fmt)) == 0
  {
    assert StringField(text, DEFAULTS) == text;
    OneDirective(fmt, [], 's', [Text(text)], DEFAULTS, Text(text));
  }

  lemma {:induction false} DecimalDefault(err: Unsigned64)
    requires err <= INT_MAX
    ensures Convert('d', DEFAULTS, Word(err)) == Some(Digits(err, 10))
  {
    assert AsInt(err) == err;
    assert "" + Digits(err, 10) == Digits(err, 10);
  }

  lemma {:induction false} ErrorDirective(fmt: CString, err: Unsigned64)
    requires fmt == "error %d" && err <= INT_MAX
    ensures Output(fmt, [Word(err)]) == Some("error " + Digits(err, 10))
    ensures Errors(Pieces(fmt)) == 0
  {
    assert fmt[6..] == "%d" && fmt[..6] == "error ";
    DecimalDefault(err);
    OneDirective("%d", [], 'd', [Word(err)], DEFAULTS, Word(err));
    LiteralRun(fmt, 6, [Word(err)]);
  }

  method PrintError(b: SprintBuf, value: int)
    requires b.Valid() && -INT_MAX <= value <= INT_MAX
    modifies b, b.str
    ensures b.Valid() && b.text == old(b.text) + ErrorText(value)
    decreases 1, 0
  {
    var err := value;
    if err < 0 {
      err := -err;
    }
    if err > 24 || ErrorString(err).None? {
      var fmt := "error %d";
      ErrorDirective(fmt, err);
      VPrintFmt(b, fmt, [Word(err)]);
    } else {
      var fmt, p := "%s", ErrorString(err).value;
      StringDirective(fmt, p);
      VPrintFmt(b, fmt, [Text(p)]);
    }
  }

  method PrintSigned(b: SprintBuf, value: int, width: int, padc: char)
    requires b.Valid()
    modifies b, b.str
    ensures b.Valid() && b.text == old(b.text) + SignedField(value, width, padc)
  {
    if value < 0 {
      b.Putch('-');
      PrintNum(b, -value, 10, width, padc);
      Assoc(old(b.text), "-", NumberField(-value, 10, width, padc));
    } else {
      PrintNum(b, value, 10, width, padc);
    }
  }

  /** The cases of the switch that take an argument and print it. */
  method ConvertArg(b: SprintBuf, conv: char, cfg: Settings, arg: Arg)
    requires b.Valid() && Convert(conv, cfg, arg).Some? && IsInt(cfg.precision)
    modifies b, b.str
    ensures b.Valid() && b.text == old(b.text) + Convert(conv, cfg, arg).value
    decreases if conv == 'e' then 1 else 0, 1
  {
    if conv == 's' {
      PrintString(b, if arg.Text? then arg.s else "(null)", cfg);
      return;
    }
    var unsigned := Unsigned(cfg, arg.w);
    if conv == 'c' {
      b.Putch(Byte(AsInt(arg.w)));
    } else if conv == 'e' {
      PrintError(b, AsInt(arg.w));
    } else if conv == 'd' {
      PrintSigned(b, Signed(cfg, arg.w), cfg.width, cfg.padc);
    } else if conv == 'u' {
      PrintNum(b, unsigned, 10, cfg.width, cfg.padc);
    } else if conv == 'o' {
      PrintNum(b, unsigned, 8, cfg.width, cfg.padc);
    } else if conv == 'p' {
      b.Putch('0');
      b.Putch('x');
      PrintNum(b, arg.w, 16, cfg.width, cfg.padc);
    } else {
      PrintNum(b, unsigned, 16, cfg.width, cfg.padc);
    }
  }

  /** What is left to emit at position i, behind the text put so far. */
  ghost function Whole(text: string, fmt: string, i: nat, args: seq<Arg>): Option<string>
    requires i <= |fmt|
  {
    Prepend(text, EmitAll(Pieces(fmt[i..]), args))
  }

  ghost function ErrorsFrom(fmt: string, i: nat): nat
    requires i <= |fmt|
  {
    Errors(Pieces(fmt[i..]))
  }

  lemma {:induction false} WholeLiterals(text: string, fmt: string, i: nat, j: nat, args: seq<Arg>)
    requires i <= j <= |fmt| && forall k | i <= k < j :: fmt[k] != '%'
    ensures Whole(text, fmt, i, args) == Whole(text + fmt[i..j], fmt, j, args)
    ensures ErrorsFrom(fmt, i) == ErrorsFrom(fmt, j)
  {
    var s := fmt[i..];
    assert s[..j - i] == fmt[i..j] && s[j - i..] == fmt[j..];
    LiteralRun(s, j - i, args);
    PrependPrepend(text, fmt[i..j], EmitAll(Pieces(fmt[j..]), args));
  }

  lemma {:induction false} WholeEnd(text: string, fmt: string, args: seq<Arg>)
    ensures Whole(text, fmt, |fmt|, args) == Some(text)
  {
    assert fmt[|fmt|..] == "" && text + "" == text;
  }

  lemma {:induction false} WholeStart(text: string, fmt: CString, args: seq<Arg>)
    ensures Whole(text, fmt, 0, args) == Prepend(text, Output(fmt, args))
    ensures ErrorsFrom(fmt, 0) == Errors(Pieces(fmt))
  {
    assert fmt[0..] == fmt;
  }

  /** What the flags behind the '%' at position i amount to. */
  ghost predicate AtEscape(fmt: string, i: nat, args: seq<Arg>, j: nat, cfg: Settings, rest: seq<Arg>) {
    && i < j <= |fmt| && fmt[i] == '%'
    && j == i + 1 + Flags(fmt[i + 1..]).1
    && Configure(DEFAULTS, Flags(fmt[i + 1..]).0, args) == Some((cfg, rest))
  }

  lemma {:induction false} Slices(fmt: string, i: nat, n: nat, j: nat, next: nat, s: string)
    requires j == i + 1 + n && next == j + 1 <= |fmt| && s == fmt[i..]
    ensures |s| > 1 + n && s[0] == fmt[i] && s[1..] == fmt[i + 1..]
    ensures s[1 + n] == fmt[j] && s[2 + n..] == fmt[next..]
  {
  }

  /** A conversion behind the flags at position i: it can be taken, and what is emitted from
      i on is its text and what is emitted behind it. */
  lemma {:induction false} DirectiveTaken(fmt: string, i: nat, args: seq<Arg>, j: nat, cfg: Settings,
                                          rest: seq<Arg>, next: nat)
    requires AtEscape(fmt, i, args, j, cfg, rest) && next == j + 1 <= |fmt| && IsConversion(fmt[j])
    requires EmitAll(Pieces(fmt[i..]), args).Some?
    ensures Emits(fmt[i..], args, Take(fmt[j], cfg, rest), fmt[next..])
    ensures ErrorsFrom(fmt, i) == (if fmt[j] == 'e' then 1 else 0) + ErrorsFrom(fmt, next)
  {
    var s, n := fmt[i..], Flags(fmt[i + 1..]).1;
    Slices(fmt, i, n, j, next, s);
    DirectiveEmits(s, n, args, cfg, rest);
  }

  lemma {:induction false} WholeDirective(text: string, fmt: string, escape: nat, args: seq<Arg>, j: nat,
                                          cfg: Settings, rest: seq<Arg>, more: string, now: string,
                                          i: nat, ap: seq<Arg>)
    requires AtEscape(fmt, escape, args, j, cfg, rest) && i == j + 1 <= |fmt| && IsConversion(fmt[j])
    requires Whole(text, fmt, escape, args).Some? && Take(fmt[j], cfg, rest) == Some((more, ap))
    requires now == text + more
    ensures Whole(now, fmt, i, ap) == Whole(text, fmt, escape, args)
    ensures ErrorsFrom(fmt, i) <= ErrorsFrom(fmt, escape)
  {
    DirectiveTaken(fmt, escape, args, j, cfg, rest, i);
    PrependPrepend(text, more, EmitAll(Pieces(fmt[i..]), ap));
  }

  lemma {:induction false} WholeUnknown(text: string, fmt: string, escape: nat, args: seq<Arg>, j: nat,
                                        cfg: Settings, rest: seq<Arg>, now: string, i: nat)
    requires AtEscape(fmt, escape, args, j, cfg, rest) && i == escape + 1
    requires (j < |fmt| ==> !IsConversion(fmt[j])) && now == text + "%"
    ensures Whole(now, fmt, i, rest) == Whole(text, fmt, escape, args)
    ensures ErrorsFrom(fmt, i) == ErrorsFrom(fmt, escape)
  {
    var s := fmt[escape..];
    assert s[1..] == fmt[i..] && (j < |fmt| ==> s[j - escape] == fmt[j]);
    UnknownRewound(s, args, cfg, rest);
    PrependPrepend(text, "%", EmitAll(Pieces(fmt[i..]), rest));
  }

  /** Moves back to just behind the last '%' before position start. */
  method Rewind(fmt: CString, start: nat, ghost escape: nat) returns (i: nat)
    requires escape < start <= |fmt| && fmt[escape] == '%' && forall k | escape < k < start :: fmt[k] != '%'
    ensures i == escape + 1
  {
    i := start;
    while fmt[i - 1] != '%'
      invariant escape < i <= start
      decreases i
    {
      i := i - 1;
    }
  }

  /** A conversion character: print what it takes. */
  method PrintDirective(b: SprintBuf, ch: char, cfg: Settings, rest: seq<Arg>) returns (ap: seq<Arg>)
    requires b.Valid() && Take(ch, cfg, rest).Some? && IsInt(cfg.precision)
    modifies b, b.str
    ensures b.Valid()
    ensures b.text == old(b.text) + Take(ch, cfg, rest).value.0 && ap == Take(ch, cfg, rest).value.1
    decreases if ch == 'e' then 1 else 0, 2
  {
    ap := rest;
    if ch == '%' {
      b.Putch(ch);
    } else {
      ConvertArg(b, ch, cfg, rest[0]);
      ap := rest[1..];
    }
  }

  /** The flags behind a '%' can be applied when the whole output is defined; no other '%'
      is among them. */
  lemma {:induction false} FlagsDefined(fmt: string, i: nat, args: seq<Arg>)
    requires i < |fmt| && fmt[i] == '%' && EmitAll(Pieces(fmt[i..]), args).Some?
    ensures Configure(DEFAULTS, Flags(fmt[i + 1..]).0, args).Some?
    ensures forall k | i < k < i + 1 + Flags(fmt[i + 1..]).1 :: fmt[k] != '%'
  {
    var t := fmt[i + 1..];
    assert fmt[i..][1..] == t;
    ConfigureSome(fmt[i..], args);
    forall k | i < k < i + 1 + Flags(t).1
      ensures fmt[k] != '%'
    {
      FlagsPlain(t, k - i - 1);
    }
  }

  /** The cases of the switch that end an escape.  A conversion is printed and i is behind
      it; otherwise a '%' is printed and i moves back to just behind the one at `escape`. */
  method PrintConversion(b: SprintBuf, fmt: CString, ghost escape: nat, j: nat, cfg: Settings, rest: seq<Arg>)
    returns (ghost more: string, i: nat, ap: seq<Arg>)
    requires b.Valid() && IsInt(cfg.precision)
    requires escape < j <= |fmt| && fmt[escape] == '%' && forall k | escape < k < j :: fmt[k] != '%'
    requires IsConversion(At(fmt, j)) ==> Take(At(fmt, j), cfg, rest).Some?
    modifies b, b.str
    ensures b.Valid() && b.text == old(b.text) + more
    ensures IsConversion(At(fmt, j)) ==> Take(At(fmt, j), cfg, rest) == Some((more, ap)) && i == j + 1
    ensures !IsConversion(At(fmt, j)) ==> more == "%" && ap == rest && i == escape + 1
    decreases if At(fmt, j) == 'e' then 1 else 0, 3
  {
    var ch := At(fmt, j);
    i := j + 1;
    if IsConversion(ch) {
      more := Take(ch, cfg, rest).value.0;
      ap := PrintDirective(b, ch, cfg, rest);
    } else {
      more, ap := "%", rest;
      b.Putch('%');
      i := Rewind(fmt, i - 1, escape);
    }
  }

  /** One escape, from just behind its '%'. */
  method PrintEscape(b: SprintBuf, fmt: CString, start: nat, args: seq<Arg>)
    returns (i: nat, ap: seq<Arg>)
    requires b.Valid() && 0 < start <= |fmt| && fmt[start - 1] == '%'
    requires Whole(b.text, fmt, start - 1, args).Some?
    modifies b, b.str
    ensures b.Valid()
    ensures start <= i <= |fmt|
    ensures Whole(b.text, fmt, i, ap) == Whole(old(b.text), fmt, start - 1, args)
    ensures ErrorsFrom(fmt, i) <= ErrorsFrom(fmt, start - 1)
    decreases ErrorsFrom(fmt, start - 1), 4
  {
    ghost var escape, text := start - 1, b.text;
    FlagsDefined(fmt, escape, args);
    var j, cfg, rest := ReadFlags(fmt, start, args);
    if IsConversion(At(fmt, j)) {
      DirectiveTaken(fmt, escape, args, j, cfg, rest, j + 1);
    }
    ghost var more;
    more, i, ap := PrintConversion(b, fmt, escape, j, cfg, rest);
    if IsConversion(At(fmt, j)) {
      WholeDirective(text, fmt, escape, args, j, cfg, rest, more, b.text, i, ap);
    } else {
      WholeUnknown(text, fmt, escape, args, j, cfg, rest, b.text, i);
    }
  }

  /** The text up to the next escape, and what is then left to emit. */
  method CopyText(b: SprintBuf, fmt: CString, start: nat, ghost args: seq<Arg>) returns (i: nat, escape: bool)
    requires b.Valid() && start <= |fmt|
    modifies b, b.str
    ensures b.Valid()
    ensures escape ==>
              && start < i <= |fmt| && fmt[i - 1] == '%'
              && Whole(b.text, fmt, i - 1, args) == Whole(old(b.text), fmt, start, args)
              && ErrorsFrom(fmt, i - 1) == ErrorsFrom(fmt, start)
    ensures !escape ==> Some(b.text) == Whole(old(b.text), fmt, start, args)
  {
    i, escape := CopyLiterals(b, fmt, start);
    WholeLiterals(old(b.text), fmt, start, i - 1, args);
    if !escape {
      WholeEnd(b.text, fmt, args);
    }
  }

  method VPrintFmt(b: SprintBuf, fmt: CString, args: seq<Arg>)
    requires b.Valid() && Output(fmt, args).Some?
    modifies b, b.str
    ensures b.Valid() && b.text == old(b.text) + Output(fmt, args).value
    decreases Errors(Pieces(fmt)), 5
  {
    var i, ap := 0, args;
    WholeStart(b.text, fmt, args);
    ghost var goal := old(b.text) + Output(fmt, args).value;
    while true
      invariant b.Valid() && i <= |fmt|
      invariant Whole(b.text, fmt, i, ap) == Some(goal)
      invariant ErrorsFrom(fmt, i) <= Errors(Pieces(fmt))
      decreases |fmt| - i
    {
      var escape;
      i, escape := CopyText(b, fmt, i, ap);
      if !escape {
        return;
      }
      i, ap := PrintEscape(b, fmt, i, ap);
    }
  }

  // ----- The bounded buffer -----

  const E_INVAL: int := 3

  /** The result is the length of the whole output; the buffer gets as much of it as fits
      before a NUL, and nothing behind the NUL is written. */
  method VSnprintf(str: array?<char>, size: nat, fmt: CString, args: seq<Arg>) returns (r: int)
    requires str != null ==> size <= str.Length
    requires str != null && size > 0 ==> Output(fmt, args).Some?
    modifies str
    ensures str == null || size == 0 ==> r == -3
    ensures str != null && size == 0 ==> str[..] == old(str[..])
    ensures str != null && size > 0 ==>
              var output := Output(fmt, args).value;
              var k := Min(|output|, size - 1);
              r == |output| && str[..] == output[..k] + ['\0'] + old(str[k + 1..])
  {
    if str == null || size == 0 {
      return -E_INVAL;
    }
    var b := new SprintBuf(str, size);
    VPrintFmt(b, fmt, args);
    ghost var output, k, held := b.text, b.buf, str[..];
    assert output == Output(fmt, args).value && held[..k] == str[..k] && held[k..] == str[k..];
    Terminated(held, output, b.before, k);
    b.str[b.buf] := '\0';
    assert str[..] == held[k := '\0'];
    return b.cnt;
  }

  lemma {:induction false} Terminated(held: string, output: string, before: string, k: nat)
    requires k < |held| == |before| && k <= |output|
    requires held[..k] == output[..k] && held[k..] == before[k..]
    ensures held[k := '\0'] == output[..k] + ['\0'] + before[k + 1..]
  {
    assert held[k + 1..] == held[k..][1..] && before[k + 1..] == before[k..][1..];
    assert held[k := '\0'] == held[..k] + ['\0'] + held[k + 1..];
  }
}
