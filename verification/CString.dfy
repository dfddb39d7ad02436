/** NUL-terminated strings: the characters before the terminator, which At supplies. */
module CString {

  /** No object fills more than half of the address space. */
  const SIZE_LIMIT: nat := 0x8000_0000_0000_0000

  type CString = s: string | '\0' !in s && |s| < SIZE_LIMIT

  /** What a pointer i characters into the string reads. */
  function At(s: CString, i: nat): char {
    if i < |s| then s[i] else '\0'
  }

  function Repeat(c: char, n: int): (s: string)
    ensures |s| == if n > 0 then n else 0
    ensures forall i | 0 <= i < |s| :: s[i] == c
  {
    if n <= 0 then "" else seq(n, _ => c)
  }

  lemma {:induction false} RepeatMore(c: char, n: int)
    requires n > 0
    ensures Repeat(c, n) == [c] + Repeat(c, n - 1)
  {
  }

  lemma {:induction false} DropSum(s: string, i: nat, n: nat)
    requires i + n <= |s|
    ensures s[i..][n..] == s[i + n..]
  {
  }

  lemma {:induction false} EmptyParts(text: string)
    ensures "" + text == text && text + "" == text
  {
  }

  lemma {:induction false} Assoc(a: string, b: string, c: string)
    ensures (a + b) + c == a + (b + c)
  {
  }
}
