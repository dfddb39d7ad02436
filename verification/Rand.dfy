/** The pseudo-random generator of rand.c: a linear congruential generator on 48 bits. */
module Rand {
  import opened Modulo
  import opened PowersOfTwo

  const MULTIPLIER: nat := 0x5DEECE66D
  const INCREMENT: nat := 0xB
  const STATES: nat := 0x1_0000_0000_0000
  const WORD: nat := 0x1_0000_0000_0000_0000
  const RAND_MAX: nat := 2147483647

  /** The next state: unsigned 64-bit arithmetic, masked to the low 48 bits. */
  function Next(state: nat): (next: nat)
    ensures next < STATES
  {
    ((state * MULTIPLIER + INCREMENT) % WORD) % STATES
  }

  /** do_div does not parenthesise its divisor, so dividing by RAND_MAX + 1 takes the
      remainder by RAND_MAX and then adds 1. */
  function Output(state: nat): nat {
    (state / 0x1000) % RAND_MAX + 1
  }

  /** One step of the recurrence modulo 2^48. */
  ghost predicate Recurs(before: nat, next: nat, k: nat) {
    before * 0x5DEECE66D + 0xB == k * 0x1_0000_0000_0000 + next && next < 0x1_0000_0000_0000
  }

  lemma {:induction false} NextRecurs(state: nat) returns (k: nat)
    ensures Recurs(state, Next(state), k)
  {
    var u := state * 0x5DEECE66D + 0xB;
    k := u / WORD * 0x1_0000 + (u % WORD) / STATES;
  }

  /** r is drawn from the bits of the state above the low twelve: their remainder by
      2^31 - 1, and 1 more. */
  ghost predicate Draws(state: nat, r: nat, q: nat, low: nat) {
    state == (q * 2147483647 + (r - 1)) * 0x1000 + low && low < 0x1000 && 1 <= r <= 2147483647
  }

  /** What is returned is determined by the state: no other r is drawn from it. */
  lemma {:induction false} OutputDraws(state: nat) returns (q: nat, low: nat)
    ensures Draws(state, Output(state), q, low)
    ensures forall r, p, l :: Draws(state, r, p, l) ==> r == Output(state)
  {
    var high := state / 0x1000;
    q, low := high / RAND_MAX, state % 0x1000;
    assert high == q * RAND_MAX + high % RAND_MAX;
    forall r: nat, p: nat, l: nat | Draws(state, r, p, l)
      ensures r == Output(state)
    {
      ModUnique(state, 0x1000, p * RAND_MAX + (r - 1), l);
      ModUnique(high, RAND_MAX, p, r - 1);
    }
  }

  class Generator {
    var next: nat

    ghost predicate Valid()
      reads this
    {
      next < STATES
    }

    constructor ()
      ensures Valid() && next == 1
    {
      next := 1;
    }

    method Rand() returns (r: nat)
      requires Valid()
      modifies this
      ensures Valid() && next == Next(old(next)) && r == Output(next)
      ensures exists k: nat :: Recurs(old(next), next, k)
      ensures exists q: nat, low: nat :: Draws(next, r, q, low)
    {
      ghost var k := NextRecurs(next);
      next := ((next * MULTIPLIER + INCREMENT) % WORD) % STATES;
      var result := next / 0x1000;
      r := result % RAND_MAX + 1;
      ghost var q, low := OutputDraws(next);
    }

    method Seed(seed: nat)
      requires seed < 0x1_0000_0000
      modifies this
      ensures Valid() && next == seed
    {
      next := seed;
    }
  }

  /** The state after n calls. */
  function After(n: nat, state: nat): nat {
    if n == 0 then state else Next(After(n - 1, state))
  }

  // ----- Arithmetic of the unbounded recurrence -----

  function Power(a: nat, n: nat): nat {
    if n == 0 then 1 else a * Power(a, n - 1)
  }

  /** 1 + a + ... + a^(n-1) */
  function Geometric(a: nat, n: nat): nat {
    if n == 0 then 0 else a * Geometric(a, n - 1) + 1
  }

  lemma {:induction false} GeometricSum(a: nat, m: nat, n: nat)
    ensures Geometric(a, m + n) == Power(a, m) * Geometric(a, n) + Geometric(a, m)
  {
    if m > 0 {
      GeometricSum(a, m - 1, n);
      var p, g, h := Power(a, m - 1), Geometric(a, n), Geometric(a, m - 1);
      Distribute(a, p, g, h);
      assert m + n - 1 == m - 1 + n;
    }
  }

  lemma {:induction false} Distribute(a: nat, p: nat, g: nat, h: nat)
    ensures a * (p * g + h) == (a * p) * g + a * h
  {
  }

  lemma {:induction false} ProductMod4(a: nat, p: nat)
    requires a % 4 == 1 && p % 4 == 1
    ensures (a * p) % 4 == 1
  {
    var b, q := a / 4, p / 4;
    assert a * p == 4 * (b * p + q) + 1 by {
      assert (4 * b + 1) * p == 4 * (b * p) + p;
    }
  }

  lemma {:induction false} PowerMod4(a: nat, n: nat)
    requires a % 4 == 1
    ensures Power(a, n) % 4 == 1
  {
    if n > 0 {
      PowerMod4(a, n - 1);
      ProductMod4(a, Power(a, n - 1));
    }
  }

  lemma {:induction false} OddTimes(a: nat, g: nat)
    requires a % 2 == 1
    ensures (a * g) % 2 == g % 2
  {
    var b := a / 2;
    assert a * g == 2 * (b * g) + g by {
      assert a == 2 * b + 1;
    }
  }

  lemma {:induction false} NextParity(g: nat, p: nat, n: nat)
    requires p % 2 == g % 2 && g % 2 == n % 2
    ensures (p + 1) % 2 == (n + 1) % 2
  {
  }

  lemma {:induction false} GeometricParity(a: nat, n: nat)
    requires a % 2 == 1
    ensures Geometric(a, n) % 2 == n % 2
  {
    if n > 0 {
      GeometricParity(a, n - 1);
      var g := Geometric(a, n - 1);
      OddTimes(a, g);
      NextParity(g, a * g, n - 1);
    }
  }

  lemma {:induction false} HalfOfSuccessor(p: nat, q: nat, g: nat)
    requires p == 2 * q - 1
    ensures p * g + g == 2 * (g * q)
  {
  }

  lemma {:induction false} PowerSuccessor(a: nat, m: nat) returns (q: nat)
    requires a % 4 == 1
    ensures q % 2 == 1 && Power(a, m) == 2 * q - 1
  {
    PowerMod4(a, m);
    q := 2 * (Power(a, m) / 4) + 1;
  }

  /** Doubling the number of terms multiplies the sum by twice an odd number. */
  lemma {:induction false} GeometricDouble(a: nat, m: nat) returns (q: nat)
    requires a % 4 == 1
    ensures q % 2 == 1 && Geometric(a, m + m) == 2 * (Geometric(a, m) * q)
  {
    q := PowerSuccessor(a, m);
    GeometricSum(a, m, m);
    HalfOfSuccessor(Power(a, m), q, Geometric(a, m));
  }

  lemma {:induction false} GeometricEven(a: nat, k: nat, m: nat)
    requires a % 4 == 1 && k > 0
    ensures Divides2(k, Geometric(a, m + m)) <==> Divides2(k - 1, Geometric(a, m))
  {
    var q := GeometricDouble(a, m);
    DivideTwice(k, Geometric(a, m) * q);
    OddFactor(k - 1, Geometric(a, m), q);
  }

  /** The sum has exactly as many factors two as its number of terms. */
  lemma {:induction false} GeometricValuation(a: nat, k: nat, n: nat)
    requires a % 4 == 1
    ensures Divides2(k, Geometric(a, n)) <==> Divides2(k, n)
    decreases k
  {
    if k > 0 {
      GeometricParity(a, n);
      if n % 2 == 0 {
        var m := n / 2;
        assert n == m + m;
        GeometricEven(a, k, m);
        GeometricValuation(a, k - 1, m);
      }
    }
  }

  /** n steps of the recurrence without any reduction. */
  function Unreduced(n: nat, x: nat): nat {
    if n == 0 then x else Unreduced(n - 1, x) * MULTIPLIER + INCREMENT
  }

  function Drift(x: nat): nat { (MULTIPLIER - 1) * x + INCREMENT }

  lemma {:induction false} UnreducedClosed(n: nat, x: nat)
    ensures Unreduced(n, x) == x + Geometric(MULTIPLIER, n) * Drift(x)
  {
    if n > 0 {
      UnreducedClosed(n - 1, x);
      var g, d := Geometric(MULTIPLIER, n - 1), Drift(x);
      assert (x + g * d) * MULTIPLIER + INCREMENT == x + MULTIPLIER * (g * d) + d;
      Distribute(d, MULTIPLIER, g, 1);
    }
  }

  lemma {:induction false} ScaleRemainder(u: nat, r: nat, q: nat)
    requires u == r + q * STATES
    ensures u * MULTIPLIER + INCREMENT == r * MULTIPLIER + INCREMENT + (q * MULTIPLIER) * STATES
  {
  }

  lemma {:induction false} AfterIsReduced(n: nat, x: nat)
    requires x < STATES
    ensures After(n, x) == Unreduced(n, x) % STATES
  {
    if n > 0 {
      AfterIsReduced(n - 1, x);
      var u := Unreduced(n - 1, x);
      Pow2Values();
      ModPow2((u % STATES) * MULTIPLIER + INCREMENT, 48, 64);
      var q := u / STATES;
      ScaleRemainder(u, u % STATES, q);
      ModShift((u % STATES) * MULTIPLIER + INCREMENT, q * MULTIPLIER, STATES);
    }
  }

  // ----- The period -----

  lemma {:induction false} DriftOdd(x: nat)
    ensures Drift(x) % 2 == 1
  {
    assert Drift(x) == 2 * (0x2EF767336 * x + 5) + 1;
  }

  /** The low k bits of the state come back to their start value after exactly the
      multiples of 2^k calls. */
  lemma {:induction false} LowBitsPeriod(k: nat, n: nat, x: nat)
    requires k <= 48 && x < STATES
    ensures After(n, x) % Pow2(k) == x % Pow2(k) <==> n % Pow2(k) == 0
  {
    var u := Unreduced(n, x);
    AfterModulo(k, n, x);
    ModEqual(u, x, Pow2(k));
    UnreducedClosed(n, x);
    DriftOdd(x);
    OddFactor(k, Geometric(MULTIPLIER, n), Drift(x));
    GeometricValuation(MULTIPLIER, k, n);
    Divides2Mod(k, u - x);
    Divides2Mod(k, n);
  }

  lemma {:induction false} AfterModulo(k: nat, n: nat, x: nat)
    requires k <= 48 && x < STATES
    ensures After(n, x) % Pow2(k) == Unreduced(n, x) % Pow2(k)
  {
    Pow2Values();
    AfterIsReduced(n, x);
    ModPow2(Unreduced(n, x), k, 48);
  }

  lemma {:induction false} AfterAfter(m: nat, n: nat, x: nat)
    ensures After(n, After(m, x)) == After(m + n, x)
  {
    if n > 0 {
      AfterAfter(m, n - 1, x);
    }
  }

  lemma {:induction false} AfterInRange(n: nat, x: nat)
    requires x < STATES
    ensures After(n, x) < STATES
  {
    if n > 0 {
      assert Next(After(n - 1, x)) < STATES;
    }
  }

  /** The state as a whole comes back after exactly the multiples of 2^48 calls. */
  lemma {:induction false} FullPeriod(n: nat, x: nat)
    requires x < STATES
    ensures After(n, x) == x <==> n % STATES == 0
  {
    Pow2Values();
    LowBitsPeriod(48, n, x);
    AfterInRange(n, x);
    ModUnique(x, STATES, 0, x);
    ModUnique(After(n, x), STATES, 0, After(n, x));
  }

  lemma {:induction false} NoRepeat(i: nat, j: nat, x: nat)
    requires x < STATES && i < j < STATES
    ensures After(i, x) != After(j, x)
  {
    AfterInRange(i, x);
    AfterAfter(i, j - i, x);
    FullPeriod(j - i, After(i, x));
    ModUnique(j - i, STATES, 0, j - i);
  }

  lemma {:induction false} Reaches(x: nat, y: nat) returns (n: nat)
    requires x < STATES && y < STATES
    ensures n < STATES && After(n, x) == y
  {
    var f := (i: int) => if i >= 0 then After(i, x) else 0;
    var states := Range(0, STATES);
    forall i | i in states
      ensures f(i) in states
    {
      AfterInRange(i, x);
    }
    forall i, j | i in states && j in states && f(i) == f(j)
      ensures i == j
    {
      if i < j { NoRepeat(i, j, x); }
      if j < i { NoRepeat(j, i, x); }
    }
    Pigeonhole(f, states, y);
    n :| n in states && f(n) == y;
  }

  /** Within one period every state is visited, and only once. */
  lemma {:induction false} VisitsEveryStateOnce(x: nat, y: nat)
    requires x < STATES && y < STATES
    ensures exists n: nat :: n < STATES && After(n, x) == y
    ensures forall i: nat, j: nat | i < j < STATES :: After(i, x) != After(j, x)
  {
    var n := Reaches(x, y);
    forall i: nat, j: nat | i < j < STATES
      ensures After(i, x) != After(j, x)
    {
      NoRepeat(i, j, x);
    }
  }

  lemma {:induction false} OutputOf(v: nat)
    requires 1 <= v <= RAND_MAX
    ensures Output((v - 1) * 0x1000) == v
  {
    ModUnique((v - 1) * 0x1000, 0x1000, v - 1, 0);
    ModUnique(v - 1, RAND_MAX, 0, v - 1);
  }

  lemma {:induction false} ReachesOutput(x: nat, v: nat) returns (n: nat)
    requires x < STATES && 1 <= v <= RAND_MAX
    ensures n > 0 && Output(After(n, x)) == v
  {
    var y := (v - 1) * 0x1000;
    AfterInRange(1, x);
    var m := Reaches(After(1, x), y);
    AfterAfter(1, m, x);
    OutputOf(v);
    n := 1 + m;
  }

  /** The remainder by RAND_MAX + 1 that the call spells out is never what is returned. */
  lemma {:induction false} NeverAsWritten(state: nat)
    requires state < STATES
    ensures Output(state) != (state / 0x1000) % (RAND_MAX + 1)
  {
    var y := state / 0x1000;
    var a, b := y / (RAND_MAX + 1), y % (RAND_MAX + 1);
    assert y == a * RAND_MAX + (a + b) && a < 32;
    if a + b < RAND_MAX {
      ModUnique(y, RAND_MAX, a, a + b);
    } else {
      ModUnique(y, RAND_MAX, a + 1, a + b - RAND_MAX);
    }
  }

  /** From any state, the values that rand ever returns are exactly 1 .. RAND_MAX; in
      particular never 0, which its documentation allows. */
  lemma {:induction false} OutputsExactly(x: nat, v: nat)
    requires x < STATES
    ensures (exists n: nat :: n > 0 && Output(After(n, x)) == v) <==> 1 <= v <= RAND_MAX
  {
    if 1 <= v <= RAND_MAX {
      var n := ReachesOutput(x, v);
    }
  }
}
