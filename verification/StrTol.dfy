/** strtol of string.c. */
module StrTol {
  import opened CString
  import opened Numeral
  import opened Wrappers

  const LONG_LIMIT: int := 0x8000_0000_0000_0000

  type Long = n: int | -LONG_LIMIT <= n < LONG_LIMIT

  predicate IsBlank(c: char) { c == ' ' || c == '\t' }

  predicate InBase(c: char, base: int) {
    DigitValue(c) < 36 && DigitValue(c) < base
  }

  /** How many blanks s starts with. */
  function Blanks(s: string): (n: nat)
    ensures n <= |s|
  {
    if s != "" && IsBlank(s[0]) then 1 + Blanks(s[1..]) else 0
  }

  /** How many digits of the base s starts with. */
  function Run(s: string, base: int): (n: nat)
    ensures n <= |s|
  {
    if s != "" && InBase(s[0], base) then 1 + Run(s[1..], base) else 0
  }

  function SignLength(s: string): (n: nat)
    ensures n <= |s|
  {
    if s != "" && (s[0] == '+' || s[0] == '-') then 1 else 0
  }

  predicate IsMinus(s: string) { s != "" && s[0] == '-' }

  predicate HexPrefix(s: string) {
    |s| >= 2 && s[0] == '0' && s[1] == 'x'
  }

  /** The length of the base prefix and the base that is then in force. */
  function Prefix(s: string, base: int): (r: (nat, int))
    ensures r.0 <= |s|
  {
    if (base == 0 || base == 16) && HexPrefix(s) then (2, 16)
    else if base == 0 && s != "" && s[0] == '0' then (1, 8)
    else if base == 0 then (0, 10)
    else (0, base)
  }

  datatype Number = Number(value: int, end: nat)

  /** The run of digits that text starts with, as a number. */
  function ParseDigits(text: string, radix: int): Number {
    var n := Run(text, radix);
    Number(Value(text[..n], radix), n)
  }

  function ParseUnsigned(text: string, base: int): Number {
    var (skip, radix) := Prefix(text, base);
    var number := ParseDigits(text[skip..], radix);
    Number(number.value, skip + number.end)
  }

  function ParseSigned(text: string, base: int): Number {
    var skip := SignLength(text);
    var number := ParseUnsigned(text[skip..], base);
    Number(if IsMinus(text) then -number.value else number.value, skip + number.end)
  }

  function Parse(s: string, base: int): Number {
    var skip := Blanks(s);
    var number := ParseSigned(s[skip..], base);
    Number(number.value, skip + number.end)
  }

  /** What a call of strtol returns: the digits are added up in a long, whatever the sign, so
      a number it cannot hold is an overflow, which C leaves undefined. */
  function Returned(s: string, base: int): (r: Option<Number>)
    ensures r.Some? ==> -LONG_LIMIT < r.value.value < LONG_LIMIT
  {
    var number := Parse(s, base);
    if -LONG_LIMIT < number.value < LONG_LIMIT then Some(number) else None
  }

  /** Reading one more digit never makes the number smaller. */
  lemma {:induction false} ValueGrows(text: string, k: nat, n: nat, radix: nat)
    requires k <= n <= |text| && radix > 0
    ensures Value(text[..k], radix) <= Value(text[..n], radix)
    decreases n
  {
    if k < n {
      ValueGrows(text, k, n - 1, radix);
      assert text[..n][..n - 1] == text[..n - 1];
      ValueNat(text[..n - 1], radix);
      Times(Value(text[..n - 1], radix), radix);
    }
  }

  lemma {:induction false} Times(v: nat, radix: nat)
    requires radix > 0
    ensures v <= v * radix
  {
  }

  /** The first k characters of the text belong to its run of digits. */
  predicate InRun(text: string, k: nat, radix: int) {
    k <= |text| && Run(text, radix) == k + Run(text[k..], radix)
  }

  /** One turn of the last loop: the digit c at position k belongs to the run. */
  lemma {:induction false} DigitRead(text: string, k: nat, radix: int)
    requires k < |text| && InBase(text[k], radix) && InRun(text, k, radix)
    ensures InRun(text, k + 1, radix)
    ensures Value(text[..k + 1], radix) == Value(text[..k], radix) * radix + DigitValue(text[k])
    ensures 0 <= Value(text[..k + 1], radix) <= ParseDigits(text, radix).value
  {
    ValueNat(text[..k + 1], radix);
    assert text[k..][1..] == text[k + 1..];
    assert text[..k + 1] == text[..k] + [text[k]];
    ValueSnoc(text[..k], text[k], radix);
    ValueGrows(text, k + 1, Run(text, radix), radix);
  }

  lemma {:induction false} RunEnds(text: string, k: nat, radix: int)
    requires k <= |text| && (k < |text| ==> !InBase(text[k], radix))
    requires InRun(text, k, radix)
    ensures Run(text, radix) == k
  {
  }

  /** The last loop of strtol: read digits from position i on.  When the whole number fits
      a long, so does every value on the way. */
  method ScanDigits(s: CString, start: nat, radix: int) returns (val: Long, i: nat)
    requires start <= |s| && ParseDigits(s[start..], radix).value < LONG_LIMIT
    ensures i >= start && Number(val, i - start) == ParseDigits(s[start..], radix)
    ensures val >= 0
  {
    ghost var text := s[start..];
    i, val := start, 0;
    while true
      invariant start <= i <= |s| && InRun(text, i - start, radix)
      invariant 0 <= val == Value(text[..i - start], radix)
      decreases |s| - i
    {
      var dig;
      var c := At(s, i);
      if '0' <= c <= '9' {
        dig := (c as int) - ('0' as int);
      } else if 'a' <= c <= 'z' {
        dig := (c as int) - ('a' as int) + 10;
      } else if 'A' <= c <= 'Z' {
        dig := (c as int) - ('A' as int) + 10;
      } else {
        break;
      }
      if dig >= radix {
        break;
      }
      DigitRead(text, i - start, radix);
      i, val := i + 1, val * radix + dig;
    }
    RunEnds(text, i - start, radix);
  }

  method SkipBlanks(s: CString) returns (i: nat)
    ensures i == Blanks(s)
  {
    i := 0;
    while At(s, i) == ' ' || At(s, i) == '\t'
      invariant i <= |s| && Blanks(s) == i + Blanks(s[i..])
      decreases |s| - i
    {
      assert s[i..][1..] == s[i + 1..];
      i := i + 1;
    }
  }

  method SkipSign(s: CString, start: nat) returns (i: nat, neg: bool)
    requires start <= |s|
    ensures i == start + SignLength(s[start..])
    ensures neg <==> IsMinus(s[start..])
  {
    i, neg := start, false;
    if At(s, i) == '+' {
      i := i + 1;
    } else if At(s, i) == '-' {
      i, neg := i + 1, true;
    }
  }

  method SkipPrefix(s: CString, start: nat, base: int) returns (i: nat, radix: int)
    requires start <= |s|
    ensures i == start + Prefix(s[start..], base).0 && radix == Prefix(s[start..], base).1
  {
    i, radix := start, base;
    if (base == 0 || base == 16) && At(s, i) == '0' && At(s, i + 1) == 'x' {
      i, radix := i + 2, 16;
    } else if base == 0 && At(s, i) == '0' {
      i, radix := i + 1, 8;
    } else if base == 0 {
      radix := 10;
    }
  }

  lemma {:induction false} ParseInStages(s: string, base: int, start: nat, unsigned: nat, digits: nat)
    requires start == Blanks(s)
    requires unsigned == start + SignLength(s[start..])
    requires digits == unsigned + Prefix(s[unsigned..], base).0
    ensures var number := ParseDigits(s[digits..], Prefix(s[unsigned..], base).1);
      Parse(s, base) == Number(if IsMinus(s[start..]) then -number.value else number.value, digits + number.end)
  {
    DropDrop(s, start, unsigned);
    DropDrop(s, unsigned, digits);
  }

  lemma {:induction false} DropDrop(s: string, i: nat, j: nat)
    requires i <= j <= |s|
    ensures s[i..][j - i..] == s[j..]
  {
  }

  lemma {:induction false} ReturnedInStages(s: string, base: int, start: nat, unsigned: nat, neg: bool,
                                            digits: nat, radix: int)
    requires Returned(s, base).Some?
    requires start == Blanks(s) && unsigned == start + SignLength(s[start..]) && (neg <==> IsMinus(s[start..]))
    requires digits == unsigned + Prefix(s[unsigned..], base).0 && radix == Prefix(s[unsigned..], base).1
    ensures var number := ParseDigits(s[digits..], radix);
      && number.value < LONG_LIMIT
      && Returned(s, base) == Some(Number(if neg then -number.value else number.value, digits + number.end))
  {
    ParseInStages(s, base, start, unsigned, digits);
  }

  method StrTol(s: CString, base: int) returns (result: Long, endptr: nat)
    requires Returned(s, base).Some?
    ensures Returned(s, base) == Some(Number(result, endptr))
  {
    var start := SkipBlanks(s);
    var unsigned, neg := SkipSign(s, start);
    var digits, radix := SkipPrefix(s, unsigned, base);
    ReturnedInStages(s, base, start, unsigned, neg, digits, radix);
    var val, end := ScanDigits(s, digits, radix);
    result, endptr := if neg then -val else val, end;
  }

  // ----- What strtol reads -----

  lemma {:induction false} BlanksOf(blank: string, rest: string)
    requires forall i | 0 <= i < |blank| :: IsBlank(blank[i])
    requires rest != "" ==> !IsBlank(rest[0])
    ensures Blanks(blank + rest) == |blank|
  {
    if blank == "" {
      assert blank + rest == rest;
    } else {
      assert (blank + rest)[1..] == blank[1..] + rest;
      BlanksOf(blank[1..], rest);
    }
  }

  lemma {:induction false} RunOf(digits: string, rest: string, base: int)
    requires forall i | 0 <= i < |digits| :: InBase(digits[i], base)
    requires rest != "" ==> !InBase(rest[0], base)
    ensures Run(digits + rest, base) == |digits|
  {
    if digits == "" {
      assert digits + rest == rest;
    } else {
      assert (digits + rest)[1..] == digits[1..] + rest;
      RunOf(digits[1..], rest, base);
    }
  }

  /** The text after the sign selects radix: a prefix where the base allows one, and none
      that could be taken for one. */
  predicate Selects(base: int, prefix: string, text: string, radix: int) {
    || (prefix == "0x" && (base == 0 || base == 16) && radix == 16)
    || (prefix == "0" && base == 0 && !HexPrefix("0" + text) && radix == 8)
    || (prefix == "" && base == 0 && !(text != "" && text[0] == '0') && radix == 10)
    || (prefix == "" && base != 0 && !(base == 16 && HexPrefix(text)) && radix == base)
  }

  lemma {:induction false} ReadsUnsigned(prefix: string, digits: string, rest: string, base: int, radix: int)
    requires Selects(base, prefix, digits + rest, radix)
    requires forall i | 0 <= i < |digits| :: InBase(digits[i], radix)
    requires rest != "" ==> !InBase(rest[0], radix)
    ensures ParseUnsigned(prefix + (digits + rest), base)
         == Number(Value(digits, radix), |prefix| + |digits|)
  {
    var text := digits + rest;
    var body := prefix + text;
    assert Prefix(body, base) == (|prefix|, radix) by {
      if prefix == "" {
        assert body == text;
      } else {
        assert body[0] == prefix[0];
      }
    }
    assert body[|prefix|..] == text;
    RunOf(digits, rest, radix);
    assert text[..|digits|] == digits;
  }

  lemma {:induction false} ReadsSigned(sign: string, body: string, base: int)
    requires sign == "" || sign == "+" || sign == "-"
    requires sign == "" && body != "" ==> body[0] != '+' && body[0] != '-'
    ensures var number := ParseUnsigned(body, base);
      ParseSigned(sign + body, base)
        == Number(if sign == "-" then -number.value else number.value, |sign| + number.end)
  {
    var signed := sign + body;
    assert signed[|sign|..] == body;
    if sign == "" {
      assert signed == body;
    } else {
      assert signed[0] == sign[0];
    }
  }

  lemma {:induction false} ReadsBlank(blank: string, signed: string, base: int)
    requires forall i | 0 <= i < |blank| :: IsBlank(blank[i])
    requires signed != "" ==> !IsBlank(signed[0])
    ensures var number := ParseSigned(signed, base);
      Parse(blank + signed, base) == Number(number.value, |blank| + number.end)
  {
    BlanksOf(blank, signed);
    assert (blank + signed)[|blank|..] == signed;
  }

  lemma {:induction false} NoBlankFirst(sign: string, body: string)
    requires sign == "" || sign == "+" || sign == "-"
    requires sign == "" && body != "" ==> !IsBlank(body[0])
    ensures sign + body != "" ==> !IsBlank((sign + body)[0])
  {
    if sign == "" {
      assert sign + body == body;
    } else {
      assert (sign + body)[0] == sign[0];
    }
  }

  lemma {:induction false} ReadsBehind(blank: string, sign: string, body: string, base: int)
    requires forall i | 0 <= i < |blank| :: IsBlank(blank[i])
    requires sign == "" || sign == "+" || sign == "-"
    requires sign == "" && body != "" ==> !IsBlank(body[0]) && body[0] != '+' && body[0] != '-'
    ensures var number := ParseUnsigned(body, base);
      Parse(blank + (sign + body), base)
        == Number(if sign == "-" then -number.value else number.value, |blank| + |sign| + number.end)
  {
    NoBlankFirst(sign, body);
    ReadsSigned(sign, body, base);
    ReadsBlank(blank, sign + body, base);
  }

  /** Whatever is written as blanks, an optional sign, an optional prefix and digits of the
      base is read as just that number, up to the first character that is no digit. */
  lemma {:induction false} Reads(blank: string, sign: string, prefix: string, digits: string, rest: string,
              base: int, radix: int)
    requires forall i | 0 <= i < |blank| :: IsBlank(blank[i])
    requires sign == "" || sign == "+" || sign == "-"
    requires Selects(base, prefix, digits + rest, radix)
    requires forall i | 0 <= i < |digits| :: InBase(digits[i], radix)
    requires rest != "" ==> !InBase(rest[0], radix)
    requires var body := prefix + (digits + rest);
      sign == "" && body != "" ==> !IsBlank(body[0]) && body[0] != '+' && body[0] != '-'
    ensures Parse(blank + (sign + (prefix + (digits + rest))), base)
         == Number(if sign == "-" then -Value(digits, radix) else Value(digits, radix),
                   |blank| + |sign| + |prefix| + |digits|)
  {
    ReadsUnsigned(prefix, digits, rest, base, radix);
    ReadsBehind(blank, sign, prefix + (digits + rest), base);
  }

  lemma {:induction false} BlanksMaximal(s: string)
    ensures forall i | 0 <= i < Blanks(s) :: IsBlank(s[i])
    ensures Blanks(s) < |s| ==> !IsBlank(s[Blanks(s)])
  {
    if s != "" && IsBlank(s[0]) {
      BlanksMaximal(s[1..]);
      assert forall i | 1 <= i < Blanks(s) :: s[i] == s[1..][i - 1];
    }
  }

  lemma {:induction false} RunMaximal(s: string, base: int)
    ensures forall i | 0 <= i < Run(s, base) :: InBase(s[i], base)
    ensures Run(s, base) < |s| ==> !InBase(s[Run(s, base)], base)
  {
    if s != "" && InBase(s[0], base) {
      RunMaximal(s[1..], base);
      assert forall i | 1 <= i < Run(s, base) :: s[i] == s[1..][i - 1];
    }
  }

  /** Prefix, digits and the rest of a text behind its sign. */
  ghost predicate IsUnsigned(text: string, prefix: string, digits: string, rest: string, base: int, radix: int) {
    && text == prefix + (digits + rest)
    && Selects(base, prefix, digits + rest, radix)
    && (forall i | 0 <= i < |digits| :: InBase(digits[i], radix))
    && (rest != "" ==> !InBase(rest[0], radix))
  }

  lemma {:induction false} UnsignedParts(text: string, base: int)
    returns (prefix: string, digits: string, rest: string, radix: int)
    ensures IsUnsigned(text, prefix, digits, rest, base, radix)
  {
    var skip := Prefix(text, base).0;
    radix := Prefix(text, base).1;
    prefix := text[..skip];
    var tail := text[skip..];
    PrefixSelects(text, base);
    RunMaximal(tail, radix);
    var n := Run(tail, radix);
    digits, rest := tail[..n], tail[n..];
    Rejoin(tail, n);
    Rejoin(text, skip);
    assert forall i | 0 <= i < n :: digits[i] == tail[i];
  }

  lemma {:induction false} Rejoin(s: string, n: nat)
    requires n <= |s|
    ensures s[..n] + s[n..] == s
  {
  }

  lemma {:induction false} PrefixSelects(text: string, base: int)
    ensures var (skip, radix) := Prefix(text, base);
      Selects(base, text[..skip], text[skip..], radix)
  {
    var skip := Prefix(text, base).0;
    if skip == 2 {
      assert text[..2] == "0x";
    } else if skip == 1 {
      assert text[..1] == "0" && "0" + text[1..] == text;
    } else {
      assert text[..0] == "" && text[0..] == text;
    }
  }

  lemma {:induction false} SignedParts(signed: string) returns (sign: string, text: string)
    ensures signed == sign + text && (sign == "" || sign == "+" || sign == "-")
    ensures sign == "" && text != "" ==> text[0] != '+' && text[0] != '-'
    ensures sign == "" ==> text == signed
  {
    sign, text := signed[..SignLength(signed)], signed[SignLength(signed)..];
    if sign != "" {
      assert sign == [signed[0]];
    }
  }

  /** Every text has the parts that Reads is about, so Reads says what strtol makes of any
      input. */
  lemma {:induction false} EveryTextHasParts(s: string, base: int)
    returns (blank: string, sign: string, prefix: string, digits: string, rest: string, radix: int)
    ensures s == blank + (sign + (prefix + (digits + rest)))
    ensures IsUnsigned(prefix + (digits + rest), prefix, digits, rest, base, radix)
    ensures forall i | 0 <= i < |blank| :: IsBlank(blank[i])
    ensures sign == "" || sign == "+" || sign == "-"
    ensures var body := prefix + (digits + rest);
      sign == "" && body != "" ==> !IsBlank(body[0]) && body[0] != '+' && body[0] != '-'
  {
    BlanksMaximal(s);
    blank := s[..Blanks(s)];
    var text;
    sign, text := SignedParts(s[Blanks(s)..]);
    prefix, digits, rest, radix := UnsignedParts(text, base);
  }

  // ----- The documented prefix -----

  /** What is left of a text behind its blanks and its sign. */
  function Bare(s: string): string {
    var signed := s[Blanks(s)..];
    signed[SignLength(signed)..]
  }

  predicate CapitalHex(s: string) {
    |s| >= 2 && s[0] == '0' && s[1] == 'X'
  }

  /** The prefix as it is documented: in base 16 "0X" is one too. */
  function DocumentedPrefix(s: string, base: int): (r: (nat, int))
    ensures r.0 <= |s|
  {
    if base == 16 && CapitalHex(s) then (2, 16) else Prefix(s, base)
  }

  function DocumentedUnsigned(text: string, base: int): Number {
    var (skip, radix) := DocumentedPrefix(text, base);
    var number := ParseDigits(text[skip..], radix);
    Number(number.value, skip + number.end)
  }

  /** The number as it is documented to be read. */
  function Documented(s: string, base: int): Number {
    var number := DocumentedUnsigned(Bare(s), base);
    Number(if IsMinus(s[Blanks(s)..]) then -number.value else number.value, |s| - |Bare(s)| + number.end)
  }

  lemma {:induction false} ParseBare(s: string, base: int)
    ensures var number := ParseUnsigned(Bare(s), base);
      Parse(s, base) == Number(if IsMinus(s[Blanks(s)..]) then -number.value else number.value,
                               |s| - |Bare(s)| + number.end)
  {
  }

  lemma {:induction false} CapitalDigits(text: string, base: int)
    requires CapitalHex(text) && (base == 0 || base == 16)
    ensures ParseUnsigned(text, base) == Number(0, 1)
  {
    var rest := text[1..];
    assert DigitValue('0') == 0 && DigitValue('X') == 33 && rest[0] == 'X';
    if base == 0 {
      NoRun(rest, 8);
    } else {
      assert text[0..] == text;
      ZeroRun(text, 16);
    }
  }

  lemma {:induction false} NoRun(s: string, base: int)
    requires s == "" || !InBase(s[0], base)
    ensures ParseDigits(s, base) == Number(0, 0)
  {
    assert s[..0] == "";
  }

  lemma {:induction false} ZeroRun(s: string, base: int)
    requires s != "" && s[0] == '0' && base > 0 && (|s| > 1 ==> !InBase(s[1], base))
    ensures ParseDigits(s, base) == Number(0, 1)
  {
    var rest := s[1..];
    NoRun(rest, base);
    assert DigitValue('0') == 0 && Run(rest, base) == 0;
    assert s[..1] == "" + ['0'];
    ValueSnoc("", '0', base);
  }

  /** Of a text whose number starts with "0X", strtol reads just the zero and stops at the X,
      though base 16 is documented to accept it ... */
  lemma {:induction false} CapitalPrefix(s: string, base: int)
    requires CapitalHex(Bare(s)) && (base == 0 || base == 16)
    ensures Returned(s, base) == Some(Number(0, |s| - |Bare(s)| + 1))
  {
    ParseBare(s, base);
    CapitalDigits(Bare(s), base);
  }

  /** ... and it reads every other text as documented. */
  lemma {:induction false} ReadsAsDocumented(s: string, base: int)
    ensures Parse(s, base) == Documented(s, base) <==> !(base == 16 && CapitalHex(Bare(s)))
  {
    ParseBare(s, base);
    if base == 16 && CapitalHex(Bare(s)) {
      CapitalDigits(Bare(s), base);
    }
  }

  // ----- Which characters are read -----

  const SMALL: string := "0123456789abcdefghijklmnopqrstuvwxyz"
  const CAPITAL: string := "0123456789ABCDEFGHIJKLMNOPQRSTUVWXYZ"

  lemma {:induction false} SmallCode(d: nat)
    requires d < 36
    ensures SMALL[d] as int == if d < 10 then 48 + d else 87 + d
  {
  }

  lemma {:induction false} CapitalCode(d: nat)
    requires d < 36
    ensures CAPITAL[d] as int == if d < 10 then 48 + d else 55 + d
  {
  }

  lemma {:induction false} CodeValue(c: char, d: nat)
    requires d < 36
    requires c as int == (if d < 10 then 48 + d else 87 + d) || c as int == (if d < 10 then 48 + d else 55 + d)
    ensures DigitValue(c) == d
  {
  }

  lemma {:induction false} DigitValues(d: nat)
    requires d < 36
    ensures DigitValue(SMALL[d]) == d && DigitValue(CAPITAL[d]) == d
  {
    SmallCode(d);
    CodeValue(SMALL[d], d);
    CapitalCode(d);
    CodeValue(CAPITAL[d], d);
  }

  lemma {:induction false} OnlyDigits(c: char)
    ensures DigitValue(c) < 36 ==> c in SMALL || c in CAPITAL
  {
    if DigitValue(c) < 10 {
      assert c == SMALL[DigitValue(c)];
    } else if DigitValue(c) < 36 {
      assert c == SMALL[DigitValue(c)] || c == CAPITAL[DigitValue(c)];
    }
  }

  /** Digits and letters, small or capital, are read as their value ... */
  lemma {:induction false} CharacterRead(d: nat, base: int, s: string)
    requires d < base <= 36 && (s == [SMALL[d]] || s == [CAPITAL[d]])
    ensures Parse(s, base) == Number(d, 1)
  {
    DigitValues(d);
    assert InBase(s[0], base) && !IsBlank(s[0]) && SignLength(s) == 0 && Prefix(s, base) == (0, base);
    assert s[0..] == s && s[1..] == "" && s[..1] == s;
    assert Run(s, base) == 1;
    ValueSnoc("", s[0], base);
    assert "" + [s[0]] == s;
  }

  /** ... and at anything else but blanks, tabs and signs nothing is read. */
  lemma {:induction false} NothingRead(c: char, rest: string, base: int)
    requires c !in SMALL && c !in CAPITAL && c != ' ' && c != '\t' && c != '+' && c != '-'
    ensures Parse([c] + rest, base) == Number(0, 0)
  {
    var s := [c] + rest;
    OnlyDigits(c);
    assert '0' in SMALL by { assert SMALL[0] == '0'; }
    assert s[0] == c && s[0..] == s && s[..0] == "";
  }

  lemma {:induction false} BlanksBefore(blank: string, s: string)
    requires forall c | c in blank :: c == ' ' || c == '\t'
    ensures Blanks(blank + s) == |blank| + Blanks(s)
  {
    if blank == "" {
      assert blank + s == s;
    } else {
      assert blank[0] in blank && forall c | c in blank[1..] :: c in blank;
      assert (blank + s)[1..] == blank[1..] + s;
      BlanksBefore(blank[1..], s);
    }
  }

  /** Blanks and tabs in front only move the end. */
  lemma {:induction false} BlanksSkipped(blank: string, s: string, base: int)
    requires forall c | c in blank :: c == ' ' || c == '\t'
    ensures Parse(blank + s, base) == Number(Parse(s, base).value, |blank| + Parse(s, base).end)
  {
    BlanksBefore(blank, s);
    DropBehind(blank, s, Blanks(s));
    SameBehind(blank + s, s, base);
  }

  lemma {:induction false} SameBehind(t: string, s: string, base: int)
    requires t[Blanks(t)..] == s[Blanks(s)..]
    ensures Parse(t, base) == Number(Parse(s, base).value, Blanks(t) - Blanks(s) + Parse(s, base).end)
  {
  }

  lemma {:induction false} DropBehind(a: string, b: string, n: nat)
    requires n <= |b|
    ensures (a + b)[|a| + n..] == b[n..]
  {
  }

  predicate OtherCase(c: char, d: char) {
    || ('a' <= c <= 'z' && 'A' <= d <= 'Z' && c as int - 'a' as int == d as int - 'A' as int)
    || ('A' <= c <= 'Z' && 'a' <= d <= 'z' && c as int - 'A' as int == d as int - 'a' as int)
  }

  /** The same text but for the case of its letters. */
  predicate SameButCase(s: string, t: string) {
    |s| == |t| && forall i | 0 <= i < |s| :: s[i] == t[i] || OtherCase(s[i], t[i])
  }

  lemma {:induction false} CaseTail(s: string, t: string, k: nat)
    requires SameButCase(s, t) && k <= |s|
    ensures SameButCase(s[k..], t[k..]) && SameButCase(s[..k], t[..k])
  {
  }

  lemma {:induction false} CaseBlanks(s: string, t: string)
    requires SameButCase(s, t)
    ensures Blanks(s) == Blanks(t)
  {
    if s != "" && IsBlank(s[0]) {
      CaseTail(s, t, 1);
      CaseBlanks(s[1..], t[1..]);
    }
  }

  lemma {:induction false} CaseRun(s: string, t: string, base: int)
    requires SameButCase(s, t)
    ensures Run(s, base) == Run(t, base)
  {
    if s != "" && InBase(s[0], base) {
      CaseTail(s, t, 1);
      CaseRun(s[1..], t[1..], base);
    }
  }

  lemma {:induction false} CaseValue(s: string, t: string, base: int)
    requires SameButCase(s, t)
    ensures Value(s, base) == Value(t, base)
    decreases |s|
  {
    if s != "" {
      CaseTail(s, t, |s| - 1);
      CaseValue(s[..|s| - 1], t[..|s| - 1], base);
    }
  }

  lemma {:induction false} CaseDigits(s: string, t: string, base: int)
    requires SameButCase(s, t)
    ensures ParseDigits(s, base) == ParseDigits(t, base)
  {
    CaseRun(s, t, base);
    CaseTail(s, t, Run(s, base));
    CaseValue(s[..Run(s, base)], t[..Run(s, base)], base);
  }

  lemma {:induction false} CaseUnsigned(s: string, t: string, base: int)
    requires SameButCase(s, t) && (base == 0 || base == 16 ==> (HexPrefix(s) <==> HexPrefix(t)))
    ensures ParseUnsigned(s, base) == ParseUnsigned(t, base)
  {
    var (skip, radix) := Prefix(s, base);
    assert Prefix(t, base) == (skip, radix);
    CaseTail(s, t, skip);
    CaseDigits(s[skip..], t[skip..], radix);
  }

  /** The case of letters does not matter, but for the x of a prefix. */
  lemma {:induction false} CaseDoesNotMatter(s: string, t: string, base: int)
    requires SameButCase(s, t) && (base == 0 || base == 16 ==> (HexPrefix(Bare(s)) <==> HexPrefix(Bare(t))))
    ensures Parse(s, base) == Parse(t, base)
  {
    var k := Blanks(s);
    CaseBlanks(s, t);
    CaseTail(s, t, k);
    CaseTail(s[k..], t[k..], SignLength(s[k..]));
    ParseBare(s, base);
    ParseBare(t, base);
    CaseUnsigned(Bare(s), Bare(t), base);
  }
}
