/** The line editor of readline.c.  Keys are what getchar returns: a byte, or a negative
    number when there is no more input. */
module ReadLine {
  import opened Wrappers

  const BUFSIZE: nat := 1024
  const BACKSPACE: Key := 8

  type Key = k: int | k < 0x100

  predicate IsNewline(k: Key) { k == '\n' as int || k == '\r' as int }

  predicate EndsLine(k: Key) { k < 0 || IsNewline(k) }

  predicate Inserts(line: string, k: Key) {
    k >= ' ' as int && |line| < BUFSIZE - 1
  }

  predicate Erases(line: string, k: Key) {
    k == BACKSPACE && |line| > 0
  }

  /** The line after one more key: a stack of characters with a bound. */
  function Edit(line: string, k: Key): string {
    if Inserts(line, k) then line + [k as char]
    else if Erases(line, k) then line[..|line| - 1]
    else line
  }

  function EditAll(line: string, keys: seq<Key>): string
    decreases |keys|
  {
    if keys == [] then line else EditAll(Edit(line, keys[0]), keys[1..])
  }

  /** What is shown for a key: itself if it has an effect. */
  function Echo(line: string, k: Key): seq<Key> {
    if Inserts(line, k) || Erases(line, k) then [k] else []
  }

  function Shown(line: string, keys: seq<Key>): seq<Key>
    decreases |keys|
  {
    if keys == [] then [] else Echo(line, keys[0]) + Shown(Edit(line, keys[0]), keys[1..])
  }

  /** How many keys come before the one that ends the line. */
  function Typed(keys: seq<Key>): (n: nat)
    ensures n <= |keys|
    ensures forall i | 0 <= i < n :: !EndsLine(keys[i])
    ensures n < |keys| ==> EndsLine(keys[n])
  {
    if keys == [] || EndsLine(keys[0]) then 0 else 1 + Typed(keys[1..])
  }

  function GetChar(keys: seq<Key>, i: nat): Key {
    if i < |keys| then keys[i] else -1
  }

  /** Reads and edits a line.  On a newline the buffer holds the edited line and a NUL; on a
      negative key there is no line.  Every effective key and the newline are echoed. */
  method ReadLine(buf: array<char>, keys: seq<Key>) returns (line: Option<nat>, echo: seq<Key>)
    requires buf.Length == BUFSIZE
    modifies buf
    ensures var n := Typed(keys);
      var text := EditAll("", keys[..n]);
      if GetChar(keys, n) < 0 then line == None && echo == Shown("", keys[..n])
      else
        && line == Some(|text|) && |text| < BUFSIZE
        && buf[..|text|] == text && buf[|text|] == '\0'
        && echo == Shown("", keys[..n]) + [keys[n]]
  {
    var i, k := 0, 0;
    echo := [];
    assert keys[..0] == [];
    while true
      invariant k <= |keys| && Typed(keys) >= k
      invariant i < BUFSIZE && buf[..i] == EditAll("", keys[..k])
      invariant echo == Shown("", keys[..k])
      decreases |keys| - k
    {
      TypedFrom(keys, k);
      var c := GetChar(keys, k);
      if c < 0 {
        return None, echo;
      }
      EditLast("", keys, k);
      k := k + 1;
      if c >= ' ' as int && i < BUFSIZE - 1 {
        echo := echo + [c];
        buf[i] := c as char;
        i := i + 1;
      } else if c == BACKSPACE && i > 0 {
        echo := echo + [c];
        i := i - 1;
      } else if c == '\n' as int || c == '\r' as int {
        echo := echo + [c];
        buf[i] := '\0';
        return Some(i), echo;
      }
    }
  }

  /** Editing by one more key, from the other end. */
  lemma {:induction false} EditLast(line: string, keys: seq<Key>, k: nat)
    requires k < |keys|
    ensures EditAll(line, keys[..k + 1]) == Edit(EditAll(line, keys[..k]), keys[k])
    ensures Shown(line, keys[..k + 1]) == Shown(line, keys[..k]) + Echo(EditAll(line, keys[..k]), keys[k])
    decreases k
  {
    TakeTail(keys, k + 1);
    if k == 0 {
      assert keys[..0] == [];
    } else {
      var next := Edit(line, keys[0]);
      TakeTail(keys, k);
      EditLast(next, keys[1..], k - 1);
      Assoc(Echo(line, keys[0]), Shown(next, keys[1..][..k - 1]), Echo(EditAll(line, keys[..k]), keys[k]));
    }
  }

  lemma {:induction false} TakeTail(keys: seq<Key>, k: nat)
    requires 0 < k <= |keys|
    ensures keys[..k] != [] && keys[..k][0] == keys[0] && keys[..k][1..] == keys[1..][..k - 1]
  {
  }

  lemma {:induction false} Assoc(a: seq<Key>, b: seq<Key>, c: seq<Key>)
    ensures (a + b) + c == a + (b + c)
  {
  }

  lemma {:induction false} TypedFrom(keys: seq<Key>, k: nat)
    requires k <= Typed(keys)
    ensures if k < |keys| && !EndsLine(keys[k]) then Typed(keys) > k else Typed(keys) == k
  {
  }

  // ----- What editing amounts to -----

  /** Feeding the editor its own echo gives the same line. */
  lemma {:induction false} EchoReplays(line: string, keys: seq<Key>)
    ensures EditAll(line, Shown(line, keys)) == EditAll(line, keys)
    decreases |keys|
  {
    if keys != [] {
      var k := keys[0];
      var next, later := Edit(line, k), Shown(Edit(line, k), keys[1..]);
      EchoReplays(next, keys[1..]);
      if Inserts(line, k) || Erases(line, k) {
        assert Shown(line, keys) == [k] + later;
        assert ([k] + later)[1..] == later;
      } else {
        assert Shown(line, keys) == later;
      }
    }
  }

  lemma {:induction false} EditConcat(line: string, a: seq<Key>, b: seq<Key>)
    ensures EditAll(line, a + b) == EditAll(EditAll(line, a), b)
    decreases |a|
  {
    if a == [] {
      assert a + b == b;
    } else {
      assert (a + b)[1..] == a[1..] + b;
      EditConcat(Edit(line, a[0]), a[1..], b);
    }
  }

  /** Backspaces take back exactly what was typed last, as long as it fitted: typing a text
      and erasing it leaves the line as it was, whatever comes before and after. */
  lemma {:induction false} EraseUndoes(line: string, text: seq<Key>, erase: seq<Key>)
    requires |line| + |text| < BUFSIZE && |erase| == |text|
    requires forall k | k in text :: k >= ' ' as int
    requires forall k | k in erase :: k == 8
    ensures EditAll(line, text + erase) == line
    decreases |text|
  {
    if text == [] {
      assert text + erase == [];
    } else {
      var n := |text| - 1;
      var c := text[0];
      var middle := text[1..] + erase[..n];
      assert c in text && erase[n] in erase;
      assert text + erase == [c] + (middle + [erase[n]]);
      var typed := line + [c as char];
      EditConcat(line, [c], middle + [erase[n]]);
      assert EditAll(line, [c]) == typed by { assert [c][1..] == []; }
      EditConcat(typed, middle, [erase[n]]);
      assert forall k | k in text[1..] :: k in text;
      assert forall k | k in erase[..n] :: k in erase;
      EraseUndoes(typed, text[1..], erase[..n]);
      assert EditAll(typed, [erase[n]]) == line by { assert [erase[n]][1..] == []; }
    }
  }

  lemma {:induction false} EditFits(line: string, k: Key)
    requires |line| < BUFSIZE && forall c | c in line :: c >= ' '
    ensures |Edit(line, k)| < BUFSIZE && forall c | c in Edit(line, k) :: c >= ' '
  {
    forall c | c in Edit(line, k)
      ensures c >= ' '
    {
      assert c in line || (Inserts(line, k) && c == k as char);
    }
  }

  /** No sequence of keys overfills the buffer, and only printable characters stay. */
  lemma {:induction false} LineFits(line: string, keys: seq<Key>)
    requires |line| < BUFSIZE && forall c | c in line :: c >= ' '
    ensures |EditAll(line, keys)| < BUFSIZE
    ensures forall c | c in EditAll(line, keys) :: c >= ' '
    decreases |keys|
  {
    if keys != [] {
      EditFits(line, keys[0]);
      LineFits(Edit(line, keys[0]), keys[1..]);
    }
  }

  // ----- What the single keys do -----

  function CharsOf(text: seq<Key>): string
    requires forall i | 0 <= i < |text| :: text[i] >= 0
  {
    seq(|text|, i requires 0 <= i < |text| => text[i] as char)
  }

  function Min(a: int, b: int): int { if a <= b then a else b }

  /** One printable key. */
  lemma {:induction false} TypedKey(line: string, k: Key)
    requires |line| <= 1023 && k >= 32
    ensures Edit(line, k) == (if |line| < 1023 then line + [k as char] else line)
    ensures Echo(line, k) == (if |line| < 1023 then [k] else [])
  {
  }

  /** Printable keys put in their own characters until 1023 are held; the others are dropped,
      and just those that are put in are shown. */
  lemma {:induction false} TypedText(line: string, text: seq<Key>)
    requires |line| <= 1023 && forall i | 0 <= i < |text| :: text[i] >= 32
    ensures var n := Min(|text|, 1023 - |line|);
      EditAll(line, text) == line + CharsOf(text)[..n] && Shown(line, text) == text[..n]
    decreases |text|
  {
    if text != [] {
      var next, later := Edit(line, text[0]), text[1..];
      TypedKey(line, text[0]);
      TypedText(next, later);
      if |line| < 1023 {
        TypedFirst(line, text, Min(|later|, 1022 - |line|));
      } else {
        NothingTyped(line, text);
      }
    }
  }

  lemma {:induction false} NothingTyped(line: string, text: seq<Key>)
    requires forall i | 0 <= i < |text| :: text[i] >= 0
    ensures line + CharsOf(text)[..0] == line && text[..0] == []
  {
  }

  lemma {:induction false} TypedFirst(line: string, text: seq<Key>, n: nat)
    requires text != [] && (forall i | 0 <= i < |text| :: text[i] >= 0) && n < |text|
    ensures line + [text[0] as char] + CharsOf(text[1..])[..n] == line + CharsOf(text)[..n + 1]
    ensures [text[0]] + text[1..][..n] == text[..n + 1]
  {
  }

  /** Other keys than printable ones and backspace neither change the line nor are shown. */
  lemma {:induction false} ControlsIgnored(line: string, keys: seq<Key>)
    requires forall k | k in keys :: k < 32 && k != 8
    ensures EditAll(line, keys) == line && Shown(line, keys) == []
    decreases |keys|
  {
    if keys != [] {
      assert keys[0] in keys && forall k | k in keys[1..] :: k in keys;
      ControlsIgnored(line, keys[1..]);
    }
  }

  /** Every key that is shown has changed the line. */
  lemma {:induction false} EchoIsEffective(line: string, keys: seq<Key>, i: nat)
    requires i < |Shown(line, keys)|
    ensures EditAll(line, Shown(line, keys)[..i]) != EditAll(line, Shown(line, keys)[..i + 1])
    decreases |keys|
  {
    var shown, next := Shown(line, keys), Edit(line, keys[0]);
    var later := Shown(next, keys[1..]);
    if Echo(line, keys[0]) == [] {
      assert shown == later;
      EchoIsEffective(next, keys[1..], i);
    } else {
      assert shown == [keys[0]] + later;
      TakeTail(shown, i + 1);
      assert shown[1..] == later;
      if i == 0 {
        assert shown[..0] == [] && later[..0] == [];
      } else {
        TakeTail(shown, i);
        EchoIsEffective(next, keys[1..], i - 1);
      }
    }
  }

  lemma {:induction false} TypedUpTo(text: seq<Key>, newline: Key, rest: seq<Key>)
    requires (forall i | 0 <= i < |text| :: text[i] >= 32) && (newline == 10 || newline == 13)
    ensures Typed(text + [newline] + rest) == |text|
    decreases |text|
  {
    var keys := text + [newline] + rest;
    if text == [] {
      assert keys[0] == newline;
    } else {
      assert keys[0] == text[0] && keys[1..] == text[1..] + [newline] + rest;
      TypedUpTo(text[1..], newline, rest);
    }
  }

  /** A text typed up to a newline or carriage return is the line, as far as it fits. */
  method ReadTyped(buf: array<char>, text: seq<Key>, newline: Key, rest: seq<Key>)
    returns (n: nat, echo: seq<Key>)
    requires buf.Length == 1024
    requires (forall i | 0 <= i < |text| :: text[i] >= 32) && (newline == 10 || newline == 13)
    modifies buf
    ensures n == Min(|text|, 1023)
    ensures buf[..n] == CharsOf(text)[..n] && buf[n] == '\0'
    ensures echo == text[..n] + [newline]
  {
    var keys := text + [newline] + rest;
    TypedUpTo(text, newline, rest);
    TypedText("", text);
    assert keys[..|text|] == text && keys[|text|] == newline;
    var line;
    line, echo := ReadLine(buf, keys);
    n := line.value;
    assert "" + CharsOf(text)[..n] == CharsOf(text)[..n];
  }
}
