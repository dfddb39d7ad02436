/** Remainders by a variable divisor, which the solver does not reason about alone. */
module Modulo {

  /** The remainder is the only number in range that differs by a multiple. */
  lemma {:induction false} ModUnique(n: int, m: int, q: int, r: int)
    requires m > 0 && n == q * m + r && 0 <= r < m
    ensures n % m == r && n / m == q
  {
    var q' := n / m;
    assert (q - q') * m == n % m - r by {
      assert q * m + r == q' * m + n % m;
    }
    SmallMultiple(q - q', m);
  }

  lemma {:induction false} SmallMultiple(d: int, m: int)
    requires m > 0 && -m < d * m < m
    ensures d == 0
  {
    assert d >= 1 ==> d * m >= m;
    assert d <= -1 ==> d * m <= -m;
  }

  lemma {:induction false} ModShift(n: int, q: int, m: int)
    requires m > 0
    ensures (n + q * m) % m == n % m
  {
    ModUnique(n + q * m, m, n / m + q, n % m);
  }

  lemma {:induction false} ModEqual(x: int, y: int, m: int)
    requires m > 0
    ensures x % m == y % m <==> (x - y) % m == 0
  {
    if x % m == y % m {
      ModUnique(x - y, m, x / m - y / m, 0);
    }
    if (x - y) % m == 0 {
      assert x == y + ((x - y) / m) * m;
      ModShift(y, (x - y) / m, m);
    }
  }

  lemma {:induction false} ModMod(n: int, p: int, q: int)
    requires p > 0 && q > 0
    ensures (n % (p * q)) % p == n % p
  {
    var w := n / (p * q);
    assert n == n % (p * q) + (w * q) * p;
    ModShift(n % (p * q), w * q, p);
  }
}
