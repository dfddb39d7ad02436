/** The layout of fields, and how flags settle width and precision. */
module FormatLaws {
  import opened CString
  import opened Numeral
  import opened Format
  import opened Wrappers

  /** field is num written in the base, without leading zeros, behind just as many pad
      characters as the width asks for; k is their number. */
  ghost predicate IsNumberField(field: string, k: nat, num: nat, base: nat, width: int, padc: char) {
    && k <= |field|
    && (forall i | 0 <= i < k :: field[i] == padc)
    && IsNumeral(field[k..], base) && Value(field[k..], base) == num
    && k == (if width > |field[k..]| then width - |field[k..]| else 0)
  }

  lemma {:induction false} FieldLaidOut(num: nat, base: nat, width: int, padc: char, k: nat)
    requires 2 <= base <= 16 && k == |Repeat(padc, width - |Digits(num, base)|)|
    ensures IsNumberField(NumberField(num, base, width, padc), k, num, base, width, padc)
  {
    var digits := Digits(num, base);
    DigitsDenote(num, base);
    DropFirst(Repeat(padc, width - |digits|), digits);
  }

  lemma {:induction false} RepeatUnique(s: string, c: char, n: int)
    requires |s| == (if n > 0 then n else 0) && forall i | 0 <= i < |s| :: s[i] == c
    ensures s == Repeat(c, n)
  {
  }

  lemma {:induction false} OnlyLayout(field: string, num: nat, base: nat, width: int, padc: char, k: nat)
    requires 2 <= base <= 16 && IsNumberField(field, k, num, base, width, padc)
    ensures field == NumberField(num, base, width, padc)
  {
    DigitsUnique(field[k..], base, num);
    RepeatUnique(field[..k], padc, width - |Digits(num, base)|);
    TakeDrop(field, k);
  }

  lemma {:induction false} TakeDrop(s: string, k: nat)
    requires k <= |s|
    ensures s == s[..k] + s[k..]
  {
  }

  /** printnum emits the one text that is a number field. */
  lemma {:induction false} NumberFieldLayout(field: string, num: nat, base: nat, width: int, padc: char)
    requires 2 <= base <= 16
    ensures field == NumberField(num, base, width, padc)
       <==> exists k: nat :: IsNumberField(field, k, num, base, width, padc)
  {
    FieldLaidOut(num, base, width, padc, |Repeat(padc, width - |Digits(num, base)|)|);
    if k: nat :| IsNumberField(field, k, num, base, width, padc) {
      OnlyLayout(field, num, base, width, padc, k);
    }
  }

  function Max(a: int, b: int): int { if a >= b then a else b }

  /** Where the text of a string field starts. */
  function Offset(cfg: Settings, n: nat): nat {
    if cfg.padc == '-' || cfg.width < n then 0 else cfg.width - n
  }

  /** A string field has the width or is as long as its text, which is the first n
      characters; the rest is padding on one side. */
  lemma {:induction false} StringFieldLayout(s: string, cfg: Settings)
    ensures var n, field := Shown(s, cfg.precision), StringField(s, cfg);
      var from := Offset(cfg, n);
      && |field| == Max(cfg.width, n) && from + n <= |field|
      && field[..from] == Repeat(cfg.padc, from)
      && field[from..from + n] == seq(n, i requires 0 <= i < n => Visible(s[i], cfg.alt))
      && field[from + n..] == Repeat(' ', |field| - from - n)
      && (cfg.padc != '-' ==> from + n == |field|)
  {
    var n := Shown(s, cfg.precision);
    var lead := if cfg.padc == '-' then "" else Repeat(cfg.padc, cfg.width - n);
    var trail := if cfg.padc == '-' then Repeat(' ', cfg.width - n) else "";
    Parts(lead, Body(s, n, cfg.alt), trail);
  }

  lemma {:induction false} Parts(lead: string, body: string, trail: string)
    ensures var field, n := lead + body + trail, |lead| + |body|;
      field[..|lead|] == lead && field[|lead|..n] == body && field[n..] == trail
  {
  }

  // ----- Width and precision -----

  predicate IsPlain(flag: Flag) {
    flag.Minus? || flag.Zero? || flag.Alt? || flag.Long?
  }

  /** The last of '-' and '0' decides on the pad character. */
  function PadOf(flags: seq<Flag>, padc: char): char {
    if flags == [] then padc
    else PadOf(flags[1..], if flags[0].Minus? then '-' else if flags[0].Zero? then '0' else padc)
  }

  function Longs(flags: seq<Flag>): nat {
    if flags == [] then 0 else (if flags[0].Long? then 1 else 0) + Longs(flags[1..])
  }

  /** Flags without numbers, in whatever order, only choose padding, size and form. */
  lemma {:induction false} PlainFlags(cfg: Settings, flags: seq<Flag>, more: seq<Flag>, args: seq<Arg>)
    requires forall flag | flag in flags :: IsPlain(flag)
    ensures Configure(cfg, flags + more, args)
         == Configure(cfg.(padc := PadOf(flags, cfg.padc), lflag := cfg.lflag + Longs(flags),
                           alt := cfg.alt || Alt in flags), more, args)
    decreases |flags|
  {
    if flags == [] {
      assert flags + more == more;
    } else {
      assert flags[0] in flags;
      assert (flags + more)[0] == flags[0] && (flags + more)[1..] == flags[1..] + more;
      var next := Apply(cfg, flags[0], args).value.0;
      PlainFlags(next, flags[1..], more, args);
      assert Alt in flags <==> flags[0] == Alt || Alt in flags[1..];
    }
  }

  lemma {:induction false} ConfigureCons(cfg: Settings, flag: Flag, more: seq<Flag>, args: seq<Arg>)
    requires Apply(cfg, flag, args).Some?
    ensures Configure(cfg, [flag] + more, args)
         == Configure(Apply(cfg, flag, args).value.0, more, Apply(cfg, flag, args).value.1)
  {
    assert ([flag] + more)[1..] == more;
  }

  lemma {:induction false} OnlyLongs(cfg: Settings, longs: seq<Flag>, args: seq<Arg>)
    requires forall flag | flag in longs :: flag.Long?
    ensures Configure(cfg, longs, args) == Some((cfg.(lflag := cfg.lflag + |longs|), args))
    decreases |longs|
  {
    if longs != [] {
      assert longs[0] in longs;
      OnlyLongs(cfg.(lflag := cfg.lflag + 1), longs[1..], args);
    }
  }

  /** A width or precision as it is given in an escape: not at all, in decimal with any number
      of leading zeros (n is zero when there are only zeros), or by '*' from an argument. */
  datatype Count = Omitted | Written(zeros: nat, n: nat) | Starred(w: Unsigned64)

  predicate Fits(count: Count) {
    count.Written? ==> count.zeros + count.n > 0 && count.n <= INT_MAX - 48
  }

  function ZeroFlags(n: nat): seq<Flag> { seq(n, _ => Zero) }

  /** The loop knows no zero in front but the flag. */
  function CountFlags(count: Count): seq<Flag> {
    match count
    case Omitted => []
    case Written(zeros, n) => ZeroFlags(zeros) + if n == 0 then [] else [Width(n)]
    case Starred(w) => [Star]
  }

  function CountArgs(count: Count): seq<Arg> {
    if count.Starred? then [Word(count.w)] else []
  }

  function Given(count: Count): int {
    match count
    case Omitted => -1
    case Written(zeros, n) => n
    case Starred(w) => AsInt(w)
  }

  /** An escape in the usual order: plain flags, width, precision behind a dot if there is
      one, size. */
  datatype Escape = Escape(flags: seq<Flag>, width: Count, precision: Option<Count>, longs: nat)

  /** A width has no leading zeros; they would be flags. */
  predicate Usual(e: Escape) {
    && (forall flag | flag in e.flags :: IsPlain(flag))
    && Fits(e.width) && (e.width.Written? ==> e.width.zeros == 0)
    && (e.precision.Some? ==> Fits(e.precision.value))
  }

  function PrecisionFlags(precision: Option<Count>): seq<Flag> {
    if precision.None? then [] else [Dot] + CountFlags(precision.value)
  }

  function PrecisionArgs(precision: Option<Count>): seq<Arg> {
    if precision.None? then [] else CountArgs(precision.value)
  }

  function LongFlags(n: nat): seq<Flag> { seq(n, _ => Long) }

  function EscapeFlags(e: Escape): seq<Flag> {
    e.flags + (CountFlags(e.width) + (PrecisionFlags(e.precision) + LongFlags(e.longs)))
  }

  function EscapeArgs(e: Escape, args: seq<Arg>): seq<Arg> {
    CountArgs(e.width) + (PrecisionArgs(e.precision) + args)
  }

  /** What stands behind a dot names no number but zero. */
  predicate NamesNone(count: Count) {
    count.Omitted? || (count.Written? && count.n == 0)
  }

  /** The settings when the width has been read. */
  function AfterWidth(e: Escape): Settings {
    Settings(PadOf(e.flags, ' '), Given(e.width), -1, Longs(e.flags), Alt in e.flags)
  }

  /** A dot without a width makes the width zero.  A number behind it is the precision, but
      its leading zeros are flags '0', and if it is nothing else it sets none. */
  function AfterPrecision(cfg: Settings, precision: Option<Count>): Settings {
    match precision
    case None => cfg
    case Some(count) =>
      var dotted := if cfg.width < 0 then cfg.(width := 0) else cfg;
      var padded := if count.Written? && count.zeros > 0 then dotted.(padc := '0') else dotted;
      if NamesNone(count) then padded else padded.(precision := Given(count))
  }

  function Settled(e: Escape): Settings {
    var cfg := AfterPrecision(AfterWidth(e), e.precision);
    cfg.(lflag := cfg.lflag + e.longs)
  }

  /** What one count does to the settings, wherever it stands. */
  function Counted(cfg: Settings, count: Count): Settings {
    match count
    case Omitted => cfg
    case Written(zeros, n) =>
      var padded := if zeros > 0 then cfg.(padc := '0') else cfg;
      if n == 0 then padded else WithNumber(padded, n)
    case Starred(w) => WithNumber(cfg, AsInt(w))
  }

  lemma {:induction false} ZerosRead(cfg: Settings, n: nat, more: seq<Flag>, args: seq<Arg>)
    ensures Configure(cfg, ZeroFlags(n) + more, args)
         == Configure(if n > 0 then cfg.(padc := '0') else cfg, more, args)
    decreases n
  {
    if n == 0 {
      assert ZeroFlags(0) + more == more;
    } else {
      assert ZeroFlags(n) + more == [Zero] + (ZeroFlags(n - 1) + more);
      ConfigureCons(cfg, Zero, ZeroFlags(n - 1) + more, args);
      ZerosRead(cfg.(padc := '0'), n - 1, more, args);
    }
  }

  lemma {:induction false} WrittenRead(cfg: Settings, zeros: nat, n: nat, more: seq<Flag>, args: seq<Arg>)
    requires Fits(Written(zeros, n))
    ensures Configure(cfg, CountFlags(Written(zeros, n)) + more, args)
         == Configure(Counted(cfg, Written(zeros, n)), more, args)
  {
    var number := if n == 0 then [] else [Width(n)];
    var padded := if zeros > 0 then cfg.(padc := '0') else cfg;
    assert (ZeroFlags(zeros) + number) + more == ZeroFlags(zeros) + (number + more);
    ZerosRead(cfg, zeros, number + more, args);
    if n == 0 {
      assert number + more == more;
    } else {
      ConfigureCons(padded, Width(n), more, args);
    }
  }

  lemma {:induction false} CountRead(cfg: Settings, count: Count, more: seq<Flag>, args: seq<Arg>)
    requires Fits(count)
    ensures Configure(cfg, CountFlags(count) + more, CountArgs(count) + args)
         == Configure(Counted(cfg, count), more, args)
  {
    assert [] + args == args;
    match count
    case Omitted =>
      assert [] + more == more;
    case Written(zeros, n) =>
      WrittenRead(cfg, zeros, n, more, args);
    case Starred(w) =>
      ConfigureCons(cfg, Star, more, [Word(w)] + args);
      assert ([Word(w)] + args)[1..] == args;
  }

  lemma {:induction false} PrecisionRead(cfg: Settings, precision: Option<Count>, more: seq<Flag>, args: seq<Arg>)
    requires precision.Some? ==> Fits(precision.value)
    ensures Configure(cfg, PrecisionFlags(precision) + more, PrecisionArgs(precision) + args)
         == Configure(AfterPrecision(cfg, precision), more, args)
  {
    match precision
    case None =>
      assert [] + more == more && [] + args == args;
    case Some(count) =>
      var dotted := if cfg.width < 0 then cfg.(width := 0) else cfg;
      assert [Dot] + CountFlags(count) + more == [Dot] + (CountFlags(count) + more);
      ConfigureCons(cfg, Dot, CountFlags(count) + more, CountArgs(count) + args);
      CountRead(dotted, count, more, args);
  }

  /** Every escape in the usual order settles padding, width, precision, size and form as
      Settled says, and takes just the arguments of its stars. */
  lemma {:induction false} UsualEscape(e: Escape, args: seq<Arg>)
    requires Usual(e)
    ensures Configure(DEFAULTS, EscapeFlags(e), EscapeArgs(e, args)) == Some((Settled(e), args))
  {
    var longs := LongFlags(e.longs);
    var sized := PrecisionFlags(e.precision) + longs;
    var given := PrecisionArgs(e.precision) + args;
    PlainFlags(DEFAULTS, e.flags, CountFlags(e.width) + sized, EscapeArgs(e, args));
    CountRead(AfterWidth(e).(width := -1), e.width, sized, given);
    PrecisionRead(AfterWidth(e), e.precision, longs, args);
    OnlyLongs(AfterPrecision(AfterWidth(e), e.precision), longs, args);
  }

  /** Numbers without a dot between them: the second is the precision, unless the first came
      from a negative argument; then it is the width after all. */
  lemma {:induction false} TwoNumbers(w: Unsigned64, n: nat, args: seq<Arg>)
    requires n <= INT_MAX - 48
    ensures Configure(DEFAULTS, [Star, Width(n)], [Word(w)] + args)
         == Some((if AsInt(w) < 0 then Settings(' ', n, -1, 0, false) else Settings(' ', AsInt(w), n, 0, false), args))
  {
    var cfg := DEFAULTS.(width := AsInt(w));
    assert [Star] + [Width(n)] == [Star, Width(n)] && [Width(n)] + [] == [Width(n)];
    assert ([Word(w)] + args)[1..] == args;
    ConfigureCons(DEFAULTS, Star, [Width(n)], [Word(w)] + args);
    ConfigureCons(cfg, Width(n), [], args);
  }

  /** What section 7.21.6.1 of ISO/IEC 9899:2011 makes of a precision: a dot alone means
      zero.  (There a negative one counts as omitted, and so it does here.) */
  function Meant(precision: Option<Count>): int {
    match precision
    case None => -1
    case Some(count) => if count.Omitted? then 0 else Given(count)
  }

  /** The precision is the one meant unless it is a written zero or a dot alone; the padding
      is the one of the flags unless the precision has a leading zero. */
  lemma {:induction false} PrecisionAsMeant(e: Escape, args: seq<Arg>)
    requires Usual(e)
    ensures var settled := Configure(DEFAULTS, EscapeFlags(e), EscapeArgs(e, args));
      && settled.Some?
      && (settled.value.0.precision == Meant(e.precision)
          <==> !(e.precision.Some? && NamesNone(e.precision.value)))
      && (settled.value.0.padc == PadOf(e.flags, ' ')
          <==> PadOf(e.flags, ' ') == '0'
               || !(e.precision.Some? && e.precision.value.Written? && e.precision.value.zeros > 0))
  {
    UsualEscape(e, args);
  }

  lemma {:induction false} LongsSeparate(n: nat)
    ensures Separate(LongFlags(n))
    ensures n > 0 ==> LongFlags(n)[0] == Long
  {
    if n > 0 {
      LongsSeparate(n - 1);
      assert LongFlags(n)[1..] == LongFlags(n - 1);
    }
  }

  lemma {:induction false} WidthSeparate(n: nat, more: seq<Flag>)
    requires Separate(more) && (more != [] ==> !more[0].Width? && !more[0].Zero?)
    ensures Separate((if n == 0 then [] else [Width(n)]) + more)
  {
    if n == 0 {
      assert [] + more == more;
    } else {
      assert ([Width(n)] + more)[1..] == more;
    }
  }

  lemma {:induction false} CountSeparate(count: Count, more: seq<Flag>)
    requires Separate(more) && (more != [] ==> !more[0].Width? && !more[0].Zero?)
    ensures Separate(CountFlags(count) + more)
  {
    var all := CountFlags(count) + more;
    match count
    case Omitted =>
      assert all == more;
    case Starred(w) =>
      assert all[1..] == more;
    case Written(zeros, n) =>
      var rest := (if n == 0 then [] else [Width(n)]) + more;
      WidthSeparate(n, more);
      assert all == ZeroFlags(zeros) + rest;
      PlainSeparate(ZeroFlags(zeros), rest);
  }

  lemma {:induction false} PlainSeparate(flags: seq<Flag>, more: seq<Flag>)
    requires Separate(more) && forall flag | flag in flags :: IsPlain(flag)
    ensures Separate(flags + more)
  {
    if flags == [] {
      assert flags + more == more;
    } else {
      assert flags[0] in flags && (flags + more)[1..] == flags[1..] + more;
      PlainSeparate(flags[1..], more);
    }
  }

  lemma {:induction false} UsualSeparate(e: Escape)
    requires Usual(e)
    ensures Separate(EscapeFlags(e))
  {
    var longs := LongFlags(e.longs);
    var sized := PrecisionFlags(e.precision) + longs;
    LongsSeparate(e.longs);
    if e.precision.None? {
      assert sized == longs;
    } else {
      CountSeparate(e.precision.value, longs);
      assert sized[1..] == CountFlags(e.precision.value) + longs;
    }
    CountSeparate(e.width, sized);
    PlainSeparate(e.flags, CountFlags(e.width) + sized);
  }

  /** A format that is one escape in the usual order converts its argument by the settings
      of that escape. */
  lemma {:induction false} UsualDirective(fmt: CString, e: Escape, conv: char, arg: Arg)
    requires Usual(e) && fmt == "%" + FlagsSource(EscapeFlags(e)) + [conv]
    requires IsConversion(conv) && conv != '%' && Convert(conv, Settled(e), arg).Some?
    ensures Output(fmt, EscapeArgs(e, [arg])) == Convert(conv, Settled(e), arg)
  {
    UsualEscape(e, [arg]);
    UsualSeparate(e);
    OneDirective(fmt, EscapeFlags(e), conv, EscapeArgs(e, [arg]), Settled(e), arg);
  }

  /** The whole of s stands at position `from` of a field of the given length. */
  ghost predicate ShowsAll(field: string, s: string, from: nat, length: int, alt: bool) {
    && |field| == length && from + |s| <= |field|
    && field[from..from + |s|] == Body(s, |s|, alt)
  }

  lemma {:induction false} FieldShowsAll(s: string, cfg: Settings)
    requires cfg.precision < 0
    ensures ShowsAll(StringField(s, cfg), s, Offset(cfg, |s|), Max(cfg.width, |s|), cfg.alt)
  {
    StringFieldLayout(s, cfg);
  }

  lemma {:induction false} ZeroSettled(e: Escape, n: nat)
    requires e.precision.Some? && NamesNone(e.precision.value)
    ensures Settled(e).precision < 0 && Max(Settled(e).width, n) == Max(Given(e.width), n)
    ensures Settled(e).alt == (Alt in e.flags)
  {
  }

  /** A precision of zero, written or left out behind its dot, cuts off nothing: the whole
      string stands in the field, however wide. */
  lemma {:induction false} ZeroPrecisionShowsAll(fmt: CString, e: Escape, s: CString)
    requires Usual(e) && fmt == "%" + FlagsSource(EscapeFlags(e)) + "s"
    requires e.precision.Some? && NamesNone(e.precision.value)
    ensures var output := Output(fmt, EscapeArgs(e, [Text(s)]));
      output.Some?
      && ShowsAll(output.value, s, Offset(Settled(e), |s|), Max(Given(e.width), |s|), Alt in e.flags)
  {
    ZeroSettled(e, |s|);
    FieldShowsAll(s, Settled(e));
    UsualDirective(fmt, e, 's', Text(s));
  }

  /** The shortest such formats print the string as it is. */
  lemma {:induction false} ZeroPrecisionPlain(fmt: CString, s: CString)
    requires fmt == "%.0s" || fmt == "%.s"
    ensures Output(fmt, [Text(s)]) == Some(s)
  {
    var count := if fmt == "%.0s" then Written(1, 0) else Omitted;
    var e := Escape([], Omitted, Some(count), 0);
    DottedFlags(count, [Text(s)]);
    ZeroPrecisionShowsAll(fmt, e, s);
    AllShown(Output(fmt, [Text(s)]).value, s);
  }

  lemma {:induction false} AllShown(text: string, s: string)
    requires |text| == |s| && text[0..|s|] == Body(s, |s|, false)
    ensures text == s
  {
    assert Body(s, |s|, false) == s && text == text[0..|s|];
  }

  lemma {:induction false} DottedFlags(count: Count, args: seq<Arg>)
    requires count == Written(1, 0) || count == Omitted
    ensures var e := Escape([], Omitted, Some(count), 0);
      && "%" + FlagsSource(EscapeFlags(e)) + "s" == (if count == Omitted then "%.s" else "%.0s")
      && EscapeArgs(e, args) == args
  {
    var e := Escape([], Omitted, Some(count), 0);
    assert EscapeFlags(e) == [Dot] + CountFlags(count);
    assert ZeroFlags(1) + [] == [Zero] && [Dot] + [Zero] == [Dot, Zero];
    assert [Dot, Zero][1..] == [Zero] && [Zero][1..] == [] && [Dot][1..] == [];
  }
}
