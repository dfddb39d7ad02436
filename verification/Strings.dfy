/** Comparison and copying from string.c. */
module Strings {
  import opened CString

  // ----- Order -----

  /** a comes before b: at the first position where they differ - the end of a counting as
      the smallest character - a has the smaller one. */
  ghost predicate Before(a: CString, b: CString) {
    exists k: nat :: DiffersAt(a, b, k) && At(a, k) < At(b, k)
  }

  ghost predicate Agree(a: CString, b: CString, k: nat) {
    k <= |a| && k <= |b| && forall i | 0 <= i < k :: a[i] == b[i]
  }

  ghost predicate DiffersAt(a: CString, b: CString, k: nat) {
    Agree(a, b, k) && At(a, k) != At(b, k)
  }

  lemma {:induction false} FirstDifference(a: CString, b: CString, j: nat, k: nat)
    requires DiffersAt(a, b, j) && DiffersAt(a, b, k)
    ensures j == k
  {
    assert j < k ==> At(a, j) == At(b, j);
    assert k < j ==> At(a, k) == At(b, k);
  }

  function Prefix(s: CString, n: nat): CString {
    if n < |s| then s[..n] else s
  }

  function Code(c: char): int { c as int }

  /** The result is negative, zero or positive just as s1 is before, equal to or behind s2. */
  method StrCmp(s1: CString, s2: CString) returns (r: int)
    ensures r < 0 <==> Before(s1, s2)
    ensures r == 0 <==> s1 == s2
    ensures r > 0 <==> Before(s2, s1)
  {
    var i := 0;
    while At(s1, i) != '\0' && At(s1, i) == At(s2, i)
      invariant Agree(s1, s2, i)
      decreases |s1| - i
    {
      i := i + 1;
    }
    r := Code(At(s1, i)) - Code(At(s2, i));
    Decided(s1, s2, i);
  }

  lemma {:induction false} Decided(a: CString, b: CString, i: nat)
    requires Agree(a, b, i)
    requires At(a, i) == '\0' || At(a, i) != At(b, i)
    ensures At(a, i) < At(b, i) <==> Before(a, b)
    ensures At(a, i) == At(b, i) <==> a == b
    ensures At(a, i) > At(b, i) <==> Before(b, a)
  {
    if At(a, i) == At(b, i) {
      assert i == |a| && i == |b|;
      assert a == b;
    } else {
      assert DiffersAt(a, b, i) && DiffersAt(b, a, i);
      forall k | DiffersAt(a, b, k)
        ensures k == i
      {
        FirstDifference(a, b, i, k);
      }
      forall k | DiffersAt(b, a, k)
        ensures k == i
      {
        FirstDifference(b, a, i, k);
      }
    }
  }

  /** The same for the first n characters. */
  method StrNCmp(s1: CString, s2: CString, n: nat) returns (r: int)
    ensures r < 0 <==> Before(Prefix(s1, n), Prefix(s2, n))
    ensures r == 0 <==> Prefix(s1, n) == Prefix(s2, n)
    ensures r > 0 <==> Before(Prefix(s2, n), Prefix(s1, n))
  {
    var i, left := 0, n;
    ghost var a, b := Prefix(s1, n), Prefix(s2, n);
    while left > 0 && At(s1, i) != '\0' && At(s1, i) == At(s2, i)
      invariant i + left == n && Agree(a, b, i)
      decreases left
    {
      i, left := i + 1, left - 1;
    }
    r := if left == 0 then 0 else Code(At(s1, i)) - Code(At(s2, i));
    Decided(a, b, i);
  }

  /** Before is a strict order; by StrCmp any two different strings are ordered. */
  lemma {:induction false} BeforeTransitive(a: CString, b: CString, c: CString)
    requires Before(a, b) && Before(b, c)
    ensures Before(a, c) && !Before(c, a)
  {
    var j: nat :| DiffersAt(a, b, j) && At(a, j) < At(b, j);
    var k: nat :| DiffersAt(b, c, k) && At(b, k) < At(c, k);
    var m := if j < k then j else k;
    assert m < j ==> At(a, m) == At(b, m);
    assert m < k ==> At(b, m) == At(c, m);
    assert DiffersAt(a, c, m) && At(a, m) < At(c, m);
    forall l | DiffersAt(c, a, l)
      ensures l == m
    {
      FirstDifference(c, a, m, l);
    }
  }

  /** Strings that differ first in c and d are in the order of c and d ... */
  lemma {:induction false} FirstDifferenceDecides(a: CString, b: CString, p: string, c: char, d: char,
                                                  x: string, y: string)
    requires a == p + [c] + x && b == p + [d] + y && c != d
    ensures Before(a, b) <==> c < d
  {
    assert forall i | 0 <= i < |p| :: a[i] == p[i] && b[i] == p[i];
    assert DiffersAt(a, b, |p|);
    forall k | DiffersAt(a, b, k)
      ensures k == |p|
    {
      FirstDifference(a, b, |p|, k);
    }
  }

  /** ... and a string comes before those that it only starts. */
  lemma {:induction false} PrefixIsBefore(a: CString, b: CString, c: char, x: string)
    requires b == a + [c] + x
    ensures Before(a, b) && !Before(b, a)
  {
    assert c in b;
    assert DiffersAt(a, b, |a|) && At(a, |a|) < At(b, |a|);
    forall k | DiffersAt(b, a, k)
      ensures k == |a|
    {
      FirstDifference(b, a, |a|, k);
    }
  }

  // ----- memmove -----

  /** Copies n bytes within one memory, whichever way source and destination overlap:
      afterwards the destination holds what the source held before, and no other byte has
      changed. */
  method MemMove(mem: array<char>, dst: nat, src: nat, n: nat)
    requires dst + n <= mem.Length && src + n <= mem.Length
    modifies mem
    ensures mem[..] == old(mem[..dst]) + old(mem[src..src + n]) + old(mem[dst + n..])
  {
    var s, d, left := src, dst, n;
    if s < d && s + n > d {
      s, d := s + n, d + n;
      while left > 0
        invariant 0 <= left <= n && s == src + left && d == dst + left
        invariant forall i | d <= i < dst + n :: mem[i] == old(mem[i - dst + src])
        invariant forall i | 0 <= i < d || dst + n <= i < mem.Length :: mem[i] == old(mem[i])
      {
        left := left - 1;
        d, s := d - 1, s - 1;
        mem[d] := mem[s];
      }
    } else {
      while left > 0
        invariant 0 <= left <= n && s == src + (n - left) && d == dst + (n - left)
        invariant forall i | dst <= i < d :: mem[i] == old(mem[i - dst + src])
        invariant forall i | 0 <= i < dst || d <= i < mem.Length :: mem[i] == old(mem[i])
      {
        left := left - 1;
        mem[d] := mem[s];
        d, s := d + 1, s + 1;
      }
    }
    Moved(old(mem[..]), mem[..], dst, src, n);
  }

  lemma {:induction false} Moved(before: seq<char>, after: seq<char>, dst: nat, src: nat, n: nat)
    requires |after| == |before| && dst + n <= |before| && src + n <= |before|
    requires forall i | dst <= i < dst + n :: after[i] == before[i - dst + src]
    requires forall i | 0 <= i < dst || dst + n <= i < |before| :: after[i] == before[i]
    ensures after == before[..dst] + before[src..src + n] + before[dst + n..]
  {
    assert after[..dst] == before[..dst];
    assert after[dst..dst + n] == before[src..src + n];
    assert after[dst + n..] == before[dst + n..];
    Pieces(after, dst, dst + n);
  }

  lemma {:induction false} Pieces(s: seq<char>, i: nat, j: nat)
    requires i <= j <= |s|
    ensures s == s[..i] + s[i..j] + s[j..]
  {
  }
}
