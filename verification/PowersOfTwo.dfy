/** Divisibility by powers of two, and counting by injective functions. */
module PowersOfTwo {
  import opened Modulo

  function Pow2(k: nat): (p: nat)
    ensures p >= 1
  {
    if k == 0 then 1 else 2 * Pow2(k - 1)
  }

  /** 2^k divides n. */
  predicate Divides2(k: nat, n: int) {
    k == 0 || (n % 2 == 0 && Divides2(k - 1, n / 2))
  }

  lemma {:induction false} Pow2Sum(j: nat, k: nat)
    ensures Pow2(j + k) == Pow2(j) * Pow2(k)
  {
    if j > 0 {
      Pow2Sum(j - 1, k);
      Double(Pow2(j - 1), Pow2(k));
      assert j + k - 1 == j - 1 + k;
    }
  }

  lemma {:induction false} Double(p: nat, q: nat)
    ensures 2 * (p * q) == (2 * p) * q
  {
  }

  lemma {:induction false} Pow2Eight()
    ensures Pow2(4) == 0x10 && Pow2(8) == 0x100
  {
    assert Pow2(2) == 4;
    assert Pow2(4) == 2 * Pow2(3) && Pow2(3) == 2 * Pow2(2);
    Pow2Sum(4, 4);
  }

  lemma {:induction false} Pow2Values()
    ensures Pow2(8) == 0x100 && Pow2(12) == 0x1000 && Pow2(16) == 0x1_0000
    ensures Pow2(32) == 0x1_0000_0000 && Pow2(48) == 0x1_0000_0000_0000
    ensures Pow2(64) == 0x1_0000_0000_0000_0000
  {
    Pow2Eight();
    Pow2Sum(8, 4);
    Pow2Sum(8, 8);
    Pow2Sum(16, 16);
    Pow2Sum(32, 16);
    Pow2Sum(32, 32);
  }

  lemma {:induction false} ModPow2(n: int, k: nat, l: nat)
    requires k <= l
    ensures (n % Pow2(l)) % Pow2(k) == n % Pow2(k)
  {
    Pow2Sum(k, l - k);
    ModMod(n, Pow2(k), Pow2(l - k));
  }

  lemma {:induction false} HalfMod(n: int, p: int)
    requires p > 0
    ensures n % (2 * p) == 2 * ((n / 2) % p) + n % 2
  {
    var q, r := (n / 2) / p, (n / 2) % p;
    assert n / 2 == q * p + r;
    ModUnique(n, 2 * p, q, 2 * r + n % 2);
  }

  lemma {:induction false} Divides2Mod(k: nat, n: int)
    ensures Divides2(k, n) <==> n % Pow2(k) == 0
  {
    if k > 0 {
      Divides2Mod(k - 1, n / 2);
      HalfMod(n, Pow2(k - 1));
    }
  }

  lemma {:induction false} DivideTwice(k: nat, x: int)
    requires k > 0
    ensures Divides2(k, 2 * x) <==> Divides2(k - 1, x)
  {
    assert (2 * x) / 2 == x;
  }

  /** An odd factor does not change the divisibility by a power of two. */
  lemma {:induction false} OddFactor(k: nat, u: int, d: int)
    requires d % 2 == 1
    ensures Divides2(k, u * d) <==> Divides2(k, u)
  {
    if k > 0 {
      OddParity(u, d);
      if u % 2 == 0 {
        OddFactor(k - 1, u / 2, d);
      }
    }
  }

  lemma {:induction false} OddParity(u: int, d: int)
    requires d % 2 == 1
    ensures (u * d) % 2 == u % 2
    ensures u % 2 == 0 ==> (u * d) / 2 == (u / 2) * d
  {
    var v, e := u / 2, d / 2;
    if u % 2 == 0 {
      assert u * d == 2 * (v * d);
    } else {
      assert u * d == 2 * (v * d + e) + 1 by {
        assert u * d == (2 * v + 1) * d == 2 * (v * d) + d;
      }
    }
  }

  // ----- Counting -----

  function Range(lo: int, hi: int): (s: set<int>)
    requires lo <= hi
    ensures |s| == hi - lo
    ensures forall i :: i in s <==> lo <= i < hi
    decreases hi - lo
  {
    if lo == hi then {} else Range(lo, hi - 1) + {hi - 1}
  }

  ghost function Image(f: int -> int, s: set<int>): set<int> {
    set i | i in s :: f(i)
  }

  ghost predicate InjectiveOn(f: int -> int, s: set<int>) {
    forall i, j | i in s && j in s && f(i) == f(j) :: i == j
  }

  lemma {:induction false} Member<T>(s: set<T>) returns (x: T)
    requires s != {}
    ensures x in s
  {
    x :| x in s;
  }

  /** An injective function does not change the number of elements. */
  lemma {:induction false} ImageSize(f: int -> int, s: set<int>)
    requires InjectiveOn(f, s)
    ensures |Image(f, s)| == |s|
    decreases |s|
  {
    if s != {} {
      var x := Member(s);
      var s' := s - {x};
      ImageSize(f, s');
      assert Image(f, s) == Image(f, s') + {f(x)};
      assert f(x) !in Image(f, s');
    } else {
      assert Image(f, s) == {};
    }
  }

  lemma {:induction false} SubsetOfSameSize(a: set<int>, b: set<int>)
    requires a <= b && |a| == |b|
    ensures a == b
  {
    assert b == a + (b - a);
    assert |b - a| == 0;
  }

  /** An injective function of a finite set into itself reaches everything. */
  lemma {:induction false} Pigeonhole(f: int -> int, s: set<int>, y: int)
    requires InjectiveOn(f, s) && (forall i | i in s :: f(i) in s) && y in s
    ensures exists i :: i in s && f(i) == y
  {
    ImageSize(f, s);
    SubsetOfSameSize(Image(f, s), s);
    assert y in Image(f, s);
  }
}
