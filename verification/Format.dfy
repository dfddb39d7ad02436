/** What a format string means: its parse into pieces, and the text each piece stands for.
    Printf proves that the formatting loop emits exactly this.

    A result of None stands for a call that C leaves undefined: an argument that is
    missing or of the wrong kind, or a number that overflows its type. */
module Format {
  import opened CString
  import opened Numeral
  import opened Wrappers

  // ----- Pieces -----

  /** What may stand between '%' and the conversion; Width is a number, whichever of width
      and precision it turns out to set. */
  datatype Flag = Minus | Zero | Width(n: nat) | Star | Dot | Alt | Long

  /** A character that stands for itself, an escape with its conversion, or an escape that
      is not recognised, with the character that follows its flags if there is one. */
  datatype Piece =
    | Literal(c: char)
    | Directive(flags: seq<Flag>, conv: char)
    | Unknown(flags: seq<Flag>, tail: string)

  predicate IsConversion(c: char) {
    c == 'c' || c == 'e' || c == 's' || c == 'd' || c == 'u' || c == 'o' || c == 'p' || c == 'x' || c == '%'
  }

  predicate IsDecimal(c: char) { '0' <= c <= '9' }

  /** How many decimal digits s starts with. */
  function DecimalRun(s: string): (n: nat)
    ensures n <= |s|
    ensures s != "" && IsDecimal(s[0]) ==> n > 0
  {
    if s != "" && IsDecimal(s[0]) then 1 + DecimalRun(s[1..]) else 0
  }

  predicate StartsFlag(c: char) {
    c == '-' || IsDecimal(c) || c == '*' || c == '.' || c == '#' || c == 'l'
  }

  /** The flag that s starts with and its length, if there is one. */
  function FirstFlag(s: string): (r: Option<(Flag, nat)>)
    ensures r.Some? <==> s != "" && StartsFlag(s[0])
    ensures r.Some? ==> 0 < r.value.1 <= |s|
  {
    if s == "" then None
    else if s[0] == '-' then Some((Minus, 1))
    else if s[0] == '0' then Some((Zero, 1))
    else if '1' <= s[0] <= '9' then
      var n := DecimalRun(s);
      ValueNat(s[..n], 10);
      Some((Width(Value(s[..n], 10)), n))
    else if s[0] == '*' then Some((Star, 1))
    else if s[0] == '.' then Some((Dot, 1))
    else if s[0] == '#' then Some((Alt, 1))
    else if s[0] == 'l' then Some((Long, 1))
    else None
  }

  /** All flags that s starts with, and how many characters they take. */
  function Flags(s: string): (r: (seq<Flag>, nat))
    ensures r.1 <= |s|
  {
    match FirstFlag(s)
    case None => ([], 0)
    case Some((flag, n)) =>
      var (more, k) := Flags(s[n..]);
      ([flag] + more, n + k)
  }

  /** The piece that a non-empty s starts with, and its length. */
  function FirstPiece(s: string): (r: (Piece, nat))
    requires s != ""
    ensures 0 < r.1 <= |s|
  {
    if s[0] != '%' then (Literal(s[0]), 1)
    else
      var (flags, n) := Flags(s[1..]);
      if 1 + n == |s| then (Unknown(flags, ""), 1 + n)
      else if IsConversion(s[1 + n]) then (Directive(flags, s[1 + n]), 2 + n)
      else (Unknown(flags, [s[1 + n]]), 2 + n)
  }

  function Pieces(s: string): seq<Piece> {
    if s == "" then []
    else
      var (piece, n) := FirstPiece(s);
      [piece] + Pieces(s[n..])
  }

  // ----- Arguments -----

  const INT_MAX: int := 0x7FFF_FFFF

  type Unsigned64 = w: nat | w < 0x1_0000_0000_0000_0000

  /** A variable argument: a machine word, or a pointer to a string. */
  datatype Arg = Word(w: Unsigned64) | Text(s: CString)

  function AsUnsigned(w: Unsigned64): nat { w % 0x1_0000_0000 }

  function AsInt(w: Unsigned64): int {
    var low := AsUnsigned(w);
    if low > INT_MAX then low - 0x1_0000_0000 else low
  }

  function AsLong(w: Unsigned64): int {
    if w >= 0x8000_0000_0000_0000 then w - 0x1_0000_0000_0000_0000 else w
  }

  /** The argument of a number directive, unsigned and signed: an int unless a size flag
      asks for a long. */
  function Unsigned(cfg: Settings, w: Unsigned64): nat {
    if cfg.lflag > 0 then w else AsUnsigned(w)
  }

  function Signed(cfg: Settings, w: Unsigned64): int {
    if cfg.lflag > 0 then AsLong(w) else AsInt(w)
  }

  function Byte(value: int): char { (value % 0x100) as char }

  /** The settings in force while an escape is read. */
  datatype Settings = Settings(padc: char, width: int, precision: int, lflag: nat, alt: bool)

  const DEFAULTS: Settings := Settings(' ', -1, -1, 0, false)

  /** A number is the width unless there is one already; then it is the precision. */
  function WithNumber(cfg: Settings, n: int): Settings {
    if cfg.width < 0 then cfg.(width := n, precision := -1) else cfg.(precision := n)
  }

  /** The effect of one flag, and how many arguments it takes. */
  function Apply(cfg: Settings, flag: Flag, args: seq<Arg>): Option<(Settings, seq<Arg>)> {
    match flag
    case Minus => Some((cfg.(padc := '-'), args))
    case Zero => Some((cfg.(padc := '0'), args))
    case Width(n) =>
      // the last digit is added before '0' is subtracted
      if n + 48 > INT_MAX then None else Some((WithNumber(cfg, n), args))
    case Star =>
      if args == [] || !args[0].Word? then None
      else Some((WithNumber(cfg, AsInt(args[0].w)), args[1..]))
    case Dot => Some((if cfg.width < 0 then cfg.(width := 0) else cfg, args))
    case Alt => Some((cfg.(alt := true), args))
    case Long => Some((cfg.(lflag := cfg.lflag + 1), args))
  }

  function Configure(cfg: Settings, flags: seq<Flag>, args: seq<Arg>): Option<(Settings, seq<Arg>)>
    decreases |flags|
  {
    if flags == [] then Some((cfg, args))
    else
      match Apply(cfg, flags[0], args)
      case None => None
      case Some((next, rest)) => Configure(next, flags[1..], rest)
  }

  // ----- Output -----

  /** A number in a field: right-aligned after the pad characters; a longer number is kept. */
  function NumberField(num: nat, base: nat, width: int, padc: char): string
    requires 2 <= base <= 16
  {
    var digits := Digits(num, base);
    Repeat(padc, width - |digits|) + digits
  }

  function Min(a: int, b: int): int { if a <= b then a else b }

  /** How many characters of s the precision admits. */
  function Shown(s: string, precision: int): (n: nat)
    ensures n <= |s|
  {
    if precision < 0 then |s| else Min(|s|, precision)
  }

  function Visible(c: char, alt: bool): char {
    if alt && (c < ' ' || c > '~') then '?' else c
  }

  function Body(s: string, n: nat, alt: bool): string
    requires n <= |s|
  {
    seq(n, i requires 0 <= i < n => Visible(s[i], alt))
  }

  lemma {:induction false} BodySnoc(s: string, n: nat, alt: bool)
    requires n < |s|
    ensures Body(s, n + 1, alt) == Body(s, n, alt) + [Visible(s[n], alt)]
  {
  }

  /** A string in a field: on the right after the pad characters, or on the left of blanks. */
  function StringField(s: string, cfg: Settings): string {
    var n := Shown(s, cfg.precision);
    var lead := if cfg.padc == '-' then "" else Repeat(cfg.padc, cfg.width - n);
    var trail := if cfg.padc == '-' then Repeat(' ', cfg.width - n) else "";
    lead + Body(s, n, cfg.alt) + trail
  }

  function ErrorString(err: int): Option<CString> {
    if err == 1 then Some("unspecified error")
    else if err == 2 then Some("bad process")
    else if err == 3 then Some("invalid parameter")
    else if err == 4 then Some("out of memory")
    else if err == 5 then Some("out of processes")
    else if err == 6 then Some("segmentation fault")
    else if err == 8 then Some("invalid elf file")
    else if err == 9 then Some("process is killed")
    else if err == 10 then Some("panic failure")
    else None
  }

  /** The text for an error code of either sign. */
  function ErrorText(err: int): string {
    var code := if err < 0 then -err else err;
    match ErrorString(code)
    case Some(text) => text
    case None => "error " + Digits(code, 10)
  }

  function SignedField(value: int, width: int, padc: char): string {
    if value < 0 then "-" + NumberField(-value, 10, width, padc)
    else NumberField(value, 10, width, padc)
  }

  /** The text of a directive whose argument is arg. */
  function Convert(conv: char, cfg: Settings, arg: Arg): Option<string> {
    match arg
    case Text(s) =>
      if conv == 's' then Some(StringField(s, cfg)) else None
    case Word(w) =>
      var unsigned, signed := Unsigned(cfg, w), Signed(cfg, w);
      if conv == 'c' then Some([Byte(AsInt(w))])
      else if conv == 'e' then (if AsInt(w) == -INT_MAX - 1 then None else Some(ErrorText(AsInt(w))))
      else if conv == 's' then (if w == 0 then Some(StringField("(null)", cfg)) else None)
      else if conv == 'd' then
        (if signed == -0x8000_0000_0000_0000 then None else Some(SignedField(signed, cfg.width, cfg.padc)))
      else if conv == 'u' then Some(NumberField(unsigned, 10, cfg.width, cfg.padc))
      else if conv == 'o' then Some(NumberField(unsigned, 8, cfg.width, cfg.padc))
      else if conv == 'x' then Some(NumberField(unsigned, 16, cfg.width, cfg.padc))
      else if conv == 'p' then Some("0x" + NumberField(w, 16, cfg.width, cfg.padc))
      else None
  }

  /** The text of a conversion and the arguments it leaves. */
  function Take(conv: char, cfg: Settings, args: seq<Arg>): Option<(string, seq<Arg>)> {
    if conv == '%' then Some(("%", args))
    else if args == [] then None
    else
      match Convert(conv, cfg, args[0])
      case None => None
      case Some(text) => Some((text, args[1..]))
  }

  /** The text of a piece and the arguments it leaves. */
  function Emit(piece: Piece, args: seq<Arg>): Option<(string, seq<Arg>)> {
    match piece
    case Literal(c) => Some(([c], args))
    case Unknown(flags, tail) =>
      (match Configure(DEFAULTS, flags, args)
       case None => None
       case Some((cfg, rest)) => Some((Source(piece), rest)))
    case Directive(flags, conv) =>
      match Configure(DEFAULTS, flags, args)
      case None => None
      case Some((cfg, rest)) => Take(conv, cfg, rest)
  }

  function Prepend(text: string, more: Option<string>): Option<string> {
    match more
    case None => None
    case Some(s) => Some(text + s)
  }

  function EmitAll(pieces: seq<Piece>, args: seq<Arg>): Option<string>
    decreases |pieces|
  {
    if pieces == [] then Some("")
    else
      match Emit(pieces[0], args)
      case None => None
      case Some((text, rest)) => Prepend(text, EmitAll(pieces[1..], rest))
  }

  /** The output of a format with its arguments. */
  function Output(fmt: CString, args: seq<Arg>): Option<string> {
    EmitAll(Pieces(fmt), args)
  }

  // ----- Source text -----

  function FlagSource(flag: Flag): (s: string)
    ensures s != ""
  {
    match flag
    case Minus => "-"
    case Zero => "0"
    case Width(n) => Digits(n, 10)
    case Star => "*"
    case Dot => "."
    case Alt => "#"
    case Long => "l"
  }

  function FlagsSource(flags: seq<Flag>): string {
    if flags == [] then "" else FlagSource(flags[0]) + FlagsSource(flags[1..])
  }

  /** A piece as it is written in a format. */
  function Source(piece: Piece): string {
    match piece
    case Literal(c) => [c]
    case Directive(flags, conv) => "%" + FlagsSource(flags) + [conv]
    case Unknown(flags, tail) => "%" + FlagsSource(flags) + tail
  }

  function SourceAll(pieces: seq<Piece>): string {
    if pieces == [] then "" else Source(pieces[0]) + SourceAll(pieces[1..])
  }

  // ----- Parsing and writing are inverse -----

  lemma {:induction false} DecimalIsDigit(c: char)
    requires IsDecimal(c)
    ensures IsDigit(c, 10) && DIGITS[DigitValue(c)] == c && DigitValue(c) < 10
  {
    var d := DigitValue(c);
    assert d < 10;
    if d == 0 {} else if d == 1 {} else if d == 2 {} else if d == 3 {} else if d == 4 {}
    else if d == 5 {} else if d == 6 {} else if d == 7 {} else if d == 8 {} else {}
    assert c == DIGITS[d];
  }

  lemma {:induction false} DecimalRunDigits(s: string, i: nat)
    requires i < DecimalRun(s)
    ensures IsDecimal(s[i])
  {
    if i > 0 {
      DecimalRunDigits(s[1..], i - 1);
    }
  }

  lemma {:induction false} FlagWritten(s: string)
    requires FirstFlag(s).Some?
    ensures FlagSource(FirstFlag(s).value.0) == s[..FirstFlag(s).value.1]
  {
    if '1' <= s[0] <= '9' {
      var digits := s[..DecimalRun(s)];
      forall i | 0 <= i < |digits|
        ensures IsDigit(digits[i], 10)
      {
        DecimalRunDigits(s, i);
        DecimalIsDigit(digits[i]);
      }
      ValueNat(digits, 10);
      DigitsUnique(digits, 10, Value(digits, 10));
    }
  }

  lemma {:induction false} TakeTake(s: string, n: nat, k: nat)
    requires n + k <= |s|
    ensures s[..n + k] == s[..n] + s[n..][..k]
  {
  }

  lemma {:induction false} DropFirst(a: string, b: string)
    ensures (a + b)[|a|..] == b
  {
  }

  lemma {:induction false} FlagsSourceCons(flag: Flag, more: seq<Flag>)
    ensures FlagsSource([flag] + more) == FlagSource(flag) + FlagsSource(more)
  {
    assert ([flag] + more)[1..] == more;
  }

  lemma {:induction false} FlagsWritten(s: string)
    ensures FlagsSource(Flags(s).0) == s[..Flags(s).1]
    decreases |s|
  {
    if FirstFlag(s).Some? {
      var (flag, n) := FirstFlag(s).value;
      var (more, k) := Flags(s[n..]);
      FlagWritten(s);
      FlagsWritten(s[n..]);
      FlagsSourceCons(flag, more);
      TakeTake(s, n, k);
    }
  }

  lemma {:induction false} PieceWritten(s: string)
    requires s != ""
    ensures Source(FirstPiece(s).0) == s[..FirstPiece(s).1]
  {
    if s[0] == '%' {
      FlagsWritten(s[1..]);
      TakeEscape(s, Flags(s[1..]).1);
    }
  }

  lemma {:induction false} TakeEscape(s: string, n: nat)
    requires 1 + n <= |s| && s[0] == '%'
    ensures "%" + s[1..][..n] + "" == s[..1 + n]
    ensures 1 + n < |s| ==> "%" + s[1..][..n] + [s[1 + n]] == s[..2 + n]
  {
  }

  lemma {:induction false} SourceAllCons(piece: Piece, more: seq<Piece>, s: string, n: nat)
    requires n <= |s| && Source(piece) == s[..n] && SourceAll(more) == s[n..]
    ensures SourceAll([piece] + more) == s
  {
    assert ([piece] + more)[1..] == more;
    assert s == s[..n] + s[n..];
  }

  /** The parse accounts for every character of the format, in order. */
  lemma {:induction false} PiecesWritten(s: string)
    ensures SourceAll(Pieces(s)) == s
    decreases |s|
  {
    if s != "" {
      var (piece, n) := FirstPiece(s);
      PieceWritten(s);
      PiecesWritten(s[n..]);
      SourceAllCons(piece, Pieces(s[n..]), s, n);
    }
  }

  /** Numbers are positive and do not run into a following digit. */
  predicate Separate(flags: seq<Flag>) {
    flags == [] ||
    (&& (flags[0].Width? ==> flags[0].n > 0 && (|flags| > 1 ==> !flags[1].Width? && !flags[1].Zero?))
     && Separate(flags[1..]))
  }

  predicate WellFormed(piece: Piece, last: bool) {
    match piece
    case Literal(c) => c != '%'
    case Directive(flags, conv) => Separate(flags) && IsConversion(conv)
    case Unknown(flags, tail) =>
      Separate(flags) &&
      if tail == "" then last
      else |tail| == 1 && !IsConversion(tail[0]) && !StartsFlag(tail[0])
  }

  predicate AllWellFormed(pieces: seq<Piece>) {
    pieces == [] || (WellFormed(pieces[0], |pieces| == 1) && AllWellFormed(pieces[1..]))
  }

  lemma {:induction false} DecimalRunOf(digits: string, rest: string)
    requires forall i | 0 <= i < |digits| :: IsDecimal(digits[i])
    requires rest != "" ==> !IsDecimal(rest[0])
    ensures DecimalRun(digits + rest) == |digits|
  {
    if digits == "" {
      assert digits + rest == rest;
    } else {
      assert (digits + rest)[1..] == digits[1..] + rest;
      DecimalRunOf(digits[1..], rest);
    }
  }

  lemma {:induction false} DecimalDigits(n: nat)
    ensures forall i | 0 <= i < |Digits(n, 10)| :: IsDecimal(Digits(n, 10)[i])
    ensures n > 0 ==> Digits(n, 10)[0] != '0'
  {
    DigitsNumeral(n, 10);
    forall i | 0 <= i < |Digits(n, 10)|
      ensures IsDecimal(Digits(n, 10)[i])
    {
      DigitInBase(Digits(n, 10)[i], 10);
    }
  }

  lemma {:induction false} FlagRead(flag: Flag, rest: string, s: string)
    requires flag.Width? ==> flag.n > 0 && (rest != "" ==> !IsDecimal(rest[0]))
    requires s == FlagSource(flag) + rest
    ensures FirstFlag(s) == Some((flag, |FlagSource(flag)|))
  {
    if flag.Width? {
      WidthRead(flag.n, Digits(flag.n, 10), rest, s);
    } else {
      assert s[0] == FlagSource(flag)[0];
    }
  }

  lemma {:induction false} WidthRead(n: nat, digits: string, rest: string, s: string)
    requires n > 0 && digits == Digits(n, 10) && s == digits + rest
    requires rest != "" ==> !IsDecimal(rest[0])
    ensures FirstFlag(s) == Some((Width(n), |digits|))
  {
    DecimalDigits(n);
    DigitsValue(n, 10);
    DecimalRunOf(digits, rest);
    assert s[0] == digits[0] && s[..|digits|] == digits;
  }

  /** s is read as these flags and then something else, which starts at position n. */
  predicate ReadAs(s: string, flags: seq<Flag>, n: nat) {
    Flags(s) == (flags, n)
  }

  lemma {:induction false} NoFlags(s: string)
    requires s != "" ==> !StartsFlag(s[0])
    ensures ReadAs(s, [], 0)
  {
  }

  lemma {:induction false} FlagsCons(s: string, flag: Flag, n: nat, after: string, more: seq<Flag>, k: nat)
    requires FirstFlag(s) == Some((flag, n)) && s[n..] == after && ReadAs(after, more, k)
    ensures ReadAs(s, [flag] + more, n + k)
  {
  }

  lemma {:induction false} FlagsRead(flags: seq<Flag>, source: string, rest: string)
    requires Separate(flags) && (rest != "" ==> !StartsFlag(rest[0])) && source == FlagsSource(flags)
    ensures ReadAs(source + rest, flags, |source|)
  {
    if flags == [] {
      assert source + rest == rest;
      NoFlags(rest);
    } else {
      var more := flags[1..];
      FlagsRead(more, FlagsSource(more), rest);
      NoDigitAfter(flags, rest);
      FlagAhead(flags[0], FlagSource(flags[0]), more, FlagsSource(more), rest);
      assert [flags[0]] + more == flags;
    }
  }

  lemma {:induction false} FlagAhead(flag: Flag, source: string, more: seq<Flag>, tail: string, rest: string)
    requires var after := tail + rest;
      flag.Width? ==> flag.n > 0 && (after != "" ==> !IsDecimal(after[0]))
    requires source == FlagSource(flag) && ReadAs(tail + rest, more, |tail|)
    ensures ReadAs(source + tail + rest, [flag] + more, |source + tail|)
  {
    Assoc(source, tail, rest);
    FlagBefore(flag, source, tail + rest, more, |tail|, source + tail + rest);
  }

  lemma {:induction false} FlagBefore(flag: Flag, source: string, after: string, more: seq<Flag>, k: nat, s: string)
    requires flag.Width? ==> flag.n > 0 && (after != "" ==> !IsDecimal(after[0]))
    requires source == FlagSource(flag) && s == source + after && ReadAs(after, more, k)
    ensures ReadAs(s, [flag] + more, |source| + k)
  {
    FlagRead(flag, after, s);
    DropFirst(source, after);
    FlagsCons(s, flag, |source|, after, more, k);
  }

  lemma {:induction false} NoDigitAfter(flags: seq<Flag>, rest: string)
    requires flags != [] && Separate(flags) && (rest != "" ==> !StartsFlag(rest[0]))
    ensures var after := FlagsSource(flags[1..]) + rest;
      flags[0].Width? && after != "" ==> !IsDecimal(after[0])
  {
    if |flags| > 1 {
      assert (FlagsSource(flags[1..]) + rest)[0] == FlagSource(flags[1])[0];
    } else {
      assert FlagsSource(flags[1..]) + rest == rest;
    }
  }

  lemma {:induction false} EscapeSlices(source: string, tail: string, rest: string, s: string)
    requires s == ("%" + source + tail) + rest && |tail| <= 1 && (tail == "" ==> rest == "")
    ensures s != "" && s[0] == '%' && s[1..] == source + (tail + rest)
    ensures if tail == "" then |s| == 1 + |source| else |s| > 1 + |source| && s[1 + |source|] == tail[0]
  {
    Assoc("%" + source, tail, rest);
    Assoc("%", source, tail + rest);
  }

  /** What an escape with these flags and this tail is. */
  function EscapeWith(flags: seq<Flag>, tail: string): Piece {
    if tail != "" && IsConversion(tail[0]) then Directive(flags, tail[0]) else Unknown(flags, tail)
  }

  lemma {:induction false} EscapePiece(s: string, flags: seq<Flag>, n: nat, tail: string)
    requires s != "" && s[0] == '%' && ReadAs(s[1..], flags, n) && |tail| <= 1
    requires if tail == "" then |s| == 1 + n else |s| > 1 + n && s[1 + n] == tail[0]
    ensures FirstPiece(s) == (EscapeWith(flags, tail), 1 + n + |tail|)
  {
    assert tail != "" ==> tail == [tail[0]];
  }

  /** An escape ends where its flags end and tail follows. */
  lemma {:induction false} EscapeRead(flags: seq<Flag>, source: string, tail: string, rest: string, s: string)
    requires |tail| <= 1 && (tail == "" ==> rest == "")
    requires ReadAs(source + (tail + rest), flags, |source|) && s == ("%" + source + tail) + rest
    ensures s != "" && FirstPiece(s) == (EscapeWith(flags, tail), |"%" + source + tail|)
  {
    EscapeSlices(source, tail, rest, s);
    EscapePiece(s, flags, |source|, tail);
  }

  lemma {:induction false} EscapeFlagsRead(flags: seq<Flag>, tail: string, rest: string)
    requires Separate(flags) && (tail == "" ==> rest == "") && (tail != "" ==> !StartsFlag(tail[0]))
    ensures ReadAs(FlagsSource(flags) + (tail + rest), flags, |FlagsSource(flags)|)
  {
    assert tail != "" ==> (tail + rest)[0] == tail[0];
    FlagsRead(flags, FlagsSource(flags), tail + rest);
  }

  lemma {:induction false} TailRead(flags: seq<Flag>, tail: string, rest: string, s: string)
    requires Separate(flags) && |tail| <= 1 && (tail == "" ==> rest == "") && (tail != "" ==> !StartsFlag(tail[0]))
    requires s == ("%" + FlagsSource(flags) + tail) + rest
    ensures s != "" && FirstPiece(s) == (EscapeWith(flags, tail), |"%" + FlagsSource(flags) + tail|)
  {
    EscapeFlagsRead(flags, tail, rest);
    EscapeRead(flags, FlagsSource(flags), tail, rest, s);
  }

  lemma {:induction false} PieceRead(piece: Piece, rest: string, s: string)
    requires WellFormed(piece, rest == "") && s == Source(piece) + rest
    ensures s != "" && FirstPiece(s) == (piece, |Source(piece)|)
  {
    match piece
    case Literal(c) =>
      assert s[0] == c;
    case Directive(flags, conv) =>
      TailRead(flags, [conv], rest, s);
    case Unknown(flags, tail) =>
      TailRead(flags, tail, rest, s);
  }

  /** A format written from well-formed pieces is read as those pieces. */
  lemma {:induction false} PiecesRead(pieces: seq<Piece>)
    requires AllWellFormed(pieces)
    ensures Pieces(SourceAll(pieces)) == pieces
  {
    if pieces != [] {
      var rest := SourceAll(pieces[1..]);
      assert |pieces| > 1 ==> rest != "" by {
        if |pieces| > 1 { assert Source(pieces[1]) != ""; }
      }
      PieceRead(pieces[0], rest, Source(pieces[0]) + rest);
      DropFirst(Source(pieces[0]), rest);
      PiecesRead(pieces[1..]);
    }
  }

  lemma {:induction false} DecimalRunEnds(s: string)
    ensures DecimalRun(s) < |s| ==> !IsDecimal(s[DecimalRun(s)])
  {
    if s != "" && IsDecimal(s[0]) {
      DecimalRunEnds(s[1..]);
    }
  }

  /** A number that is read is positive and takes all its digits. */
  lemma {:induction false} NumberRead(s: string)
    requires FirstFlag(s).Some? && FirstFlag(s).value.0.Width?
    ensures var (flag, n) := FirstFlag(s).value;
      flag.n > 0 && (n < |s| ==> !IsDecimal(s[n]))
  {
    var (flag, n) := FirstFlag(s).value;
    FlagWritten(s);
    DecimalRunEnds(s);
    assert Digits(0, 10) == "0" && s[..n][0] == s[0];
  }

  lemma {:induction false} FlagsSeparate(s: string)
    ensures Separate(Flags(s).0)
    ensures Flags(s).1 < |s| ==> !StartsFlag(s[Flags(s).1])
    decreases |s|
  {
    if FirstFlag(s).Some? {
      var (flag, n) := FirstFlag(s).value;
      FlagsSeparate(s[n..]);
      var (more, k) := Flags(s[n..]);
      assert n + k < |s| ==> s[n..][k] == s[n + k];
      if flag.Width? {
        NumberRead(s);
        assert more != [] ==> s[n..] != "" && s[n..][0] == s[n];
      }
      assert Flags(s).0[1..] == more;
    }
  }

  lemma {:induction false} PieceWellFormed(s: string)
    requires s != ""
    ensures WellFormed(FirstPiece(s).0, FirstPiece(s).1 == |s|)
  {
    if s[0] == '%' {
      FlagsSeparate(s[1..]);
      var k := Flags(s[1..]).1;
      assert 1 + k < |s| ==> s[1..][k] == s[1 + k];
    }
  }

  /** Every format is parsed into well-formed pieces; so, by PiecesWritten and PiecesRead,
      formats and lists of well-formed pieces correspond one to one. */
  lemma {:induction false} PiecesWellFormed(s: string)
    ensures AllWellFormed(Pieces(s))
    decreases |s|
  {
    if s != "" {
      var (piece, n) := FirstPiece(s);
      PieceWellFormed(s);
      PiecesWellFormed(s[n..]);
      assert Pieces(s) == [piece] + Pieces(s[n..]) && Pieces(s)[1..] == Pieces(s[n..]);
      assert n == |s| ==> s[n..] == "";
    }
  }

  /** A format that is a single directive puts the conversion of its argument. */
  lemma {:induction false} OneDirective(fmt: string, flags: seq<Flag>, conv: char, args: seq<Arg>,
                                        cfg: Settings, arg: Arg)
    requires fmt == "%" + FlagsSource(flags) + [conv] && Separate(flags)
    requires IsConversion(conv) && conv != '%' && Convert(conv, cfg, arg).Some?
    requires Configure(DEFAULTS, flags, args) == Some((cfg, [arg]))
    ensures Pieces(fmt) == [Directive(flags, conv)]
    ensures EmitAll(Pieces(fmt), args) == Convert(conv, cfg, arg)
  {
    var pieces := [Directive(flags, conv)];
    assert pieces[1..] == [] && [arg][1..] == [];
    assert SourceAll(pieces) == fmt + "" == fmt;
    PiecesRead(pieces);
    var text := Convert(conv, cfg, arg).value;
    assert text + "" == text;
  }
}
