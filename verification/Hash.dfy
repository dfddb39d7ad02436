/** The multiplicative hash of hash.c. */
module Hash {
  import opened Modulo
  import opened PowersOfTwo

  const GOLDEN_RATIO_PRIME_32: nat := 0x9e370001
  const WORDS: nat := 0x1_0000_0000

  /** The product truncated to 32 bits, of which the highest `bits` are kept. */
  function Hash32(val: nat, bits: nat): nat
    requires val < WORDS && 1 <= bits <= 32
  {
    ShiftRight(Times(val, GOLDEN_RATIO_PRIME_32, WORDS), 32 - bits)
  }

  function ShiftRight(word: nat, n: nat): nat {
    Over(word, Pow2(n))
  }

  function Over(y: nat, s: nat): nat
    requires s > 0
  {
    y / s
  }

  function Times(x: nat, g: nat, m: nat): (p: nat)
    requires m > 0
    ensures p < m
  {
    (x * g) % m
  }

  /** Multiplying by g modulo m is undone by multiplying by an inverse of g. */
  lemma {:induction false} TimesInverse(x: nat, g: nat, i: nat, t: nat, m: nat)
    requires x < m && g * i == t * m + 1
    ensures Times(Times(x, g, m), i, m) == x
  {
    var q, r := (x * g) / m, (x * g) % m;
    assert x * g == q * m + r;
    assert r * i == x + (x * t - q * i) * m by {
      calc {
        r * i;
        (x * g - q * m) * i;
        (x * g) * i - (q * m) * i;
        { assert (x * g) * i == x * (g * i); assert (q * m) * i == (q * i) * m; }
        x * (g * i) - (q * i) * m;
        { assert x * (t * m + 1) == (x * t) * m + x; }
        (x * t) * m + x - (q * i) * m;
        { assert (x * t - q * i) * m == (x * t) * m - (q * i) * m; }
        x + (x * t - q * i) * m;
      }
    }
    ModUnique(r * i, m, x * t - q * i, x);
  }

  lemma {:induction false} Quotient(y: nat, s: nat, h: nat)
    requires s > 0
    ensures y / s == h <==> h * s <= y < h * s + s
  {
    assert y == (y / s) * s + y % s;
    if h * s <= y < h * s + s {
      ModUnique(y, s, h, y - h * s);
    }
  }

  function BlockIndex(v: nat, g: nat, m: nat, s: nat): nat
    requires m > 0 && s > 0
  {
    Over(Times(v, g, m), s)
  }

  /** The residues whose product with g lies in the h-th block of s residues. */
  ghost function BlockOf(g: nat, m: nat, s: nat, h: nat): set<int>
    requires m > 0 && s > 0
  {
    set v | v in Range(0, m) && BlockIndex(v, g, m, s) == h
  }

  lemma {:induction false} InImage(f: int -> int, s: set<int>, i: int)
    requires i in s
    ensures f(i) in Image(f, s)
  {
  }

  lemma {:induction false} InBlock(v: nat, g: nat, m: nat, s: nat, h: nat, block: set<int>)
    requires v < m && s > 0 && block == Range(h * s, h * s + s)
    ensures v in BlockOf(g, m, s, h) <==> Times(v, g, m) in block
  {
    Quotient(Times(v, g, m), s, h);
  }

  /** As multiplication by an invertible g permutes the residues, a block of s residues is
      hit by exactly s residues. */
  lemma {:induction false} BlockSize(g: nat, i: nat, t: nat, m: nat, s: nat, h: nat, block: set<int>)
    requires m > 0 && s > 0 && g * i == t * m + 1
    requires block == Range(h * s, h * s + s) && block <= Range(0, m)
    ensures |BlockOf(g, m, s, h)| == |block|
  {
    var back := (y: int) => if y >= 0 then Times(y, i, m) else 0;
    forall v | v in BlockOf(g, m, s, h)
      ensures v in Image(back, block)
    {
      InBlock(v, g, m, s, h, block);
      TimesInverse(v, g, i, t, m);
      InImage(back, block, Times(v, g, m));
    }
    forall y | y in block
      ensures back(y) in BlockOf(g, m, s, h) && Times(back(y), g, m) == y
    {
      TimesInverse(y, i, g, t, m);
      InBlock(back(y), g, m, s, h, block);
    }
    assert BlockOf(g, m, s, h) == Image(back, block);
    assert InjectiveOn(back, block);
    ImageSize(back, block);
  }

  ghost function Preimages(h: nat, bits: nat): set<int>
    requires 1 <= bits <= 32
  {
    set v | v in Range(0, WORDS) && Hash32(v, bits) == h
  }

  lemma {:induction false} Partition(bits: nat)
    requires bits <= 32
    ensures Pow2(bits) * Pow2(32 - bits) == WORDS
  {
    Pow2Sum(bits, 32 - bits);
    Pow2Values();
  }

  lemma {:induction false} QuotientBound(y: nat, s: nat, n: nat)
    requires s > 0 && y < n * s
    ensures y / s < n
  {
    var q := y / s;
    assert y == q * s + y % s;
    assert q >= n ==> q * s >= n * s;
  }

  /** No hash value has more than `bits` bits. */
  lemma {:induction false} HashInRange(val: nat, bits: nat)
    requires val < WORDS && 1 <= bits <= 32
    ensures Hash32(val, bits) < Pow2(bits)
  {
    Partition(bits);
    QuotientBound(Times(val, GOLDEN_RATIO_PRIME_32, WORDS), Pow2(32 - bits), Pow2(bits));
  }

  /** The hash is made of the bits of the product with 0x9e370001 below 2^32, of which it
      keeps the highest: above them the product has some multiple of 2^32, below them what is
      shifted out. */
  lemma {:induction false} HashOfProduct(val: nat, bits: nat) returns (above: nat, below: nat)
    requires val < WORDS && 1 <= bits <= 32
    ensures val * 0x9e370001 == above * 0x1_0000_0000 + (Hash32(val, bits) * Pow2(32 - bits) + below)
    ensures Hash32(val, bits) < Pow2(bits) && below < Pow2(32 - bits)
  {
    var kept := Times(val, GOLDEN_RATIO_PRIME_32, WORDS);
    HashInRange(val, bits);
    above, below := (val * 0x9e370001) / WORDS, kept % Pow2(32 - bits);
    Split(kept, Pow2(32 - bits));
  }

  lemma {:induction false} Split(y: nat, s: nat)
    requires s > 0
    ensures y == Over(y, s) * s + y % s
  {
  }

  /** Each of the 2^bits values is the hash of exactly 2^(32 - bits) of the 32-bit inputs. */
  lemma {:induction false} PerfectlyBalanced(h: nat, bits: nat)
    requires 1 <= bits <= 32 && h < Pow2(bits)
    ensures |Preimages(h, bits)| == Pow2(32 - bits)
  {
    var s := Pow2(32 - bits);
    Partition(bits);
    BlockFits(h, s, Pow2(bits));
    BlockSize(GOLDEN_RATIO_PRIME_32, 0x61c90001, 1013911600, WORDS, s, h, Range(h * s, h * s + s));
    PreimagesAreBlock(h, bits);
  }

  lemma {:induction false} BlockFits(h: nat, s: nat, n: nat)
    requires h < n
    ensures 0 <= h * s && h * s + s <= n * s
  {
    assert (h + 1) * s <= n * s;
  }

  lemma {:induction false} HashIsBlock(v: nat, bits: nat)
    requires v < WORDS && 1 <= bits <= 32
    ensures Hash32(v, bits) == BlockIndex(v, GOLDEN_RATIO_PRIME_32, WORDS, Pow2(32 - bits))
  {
  }

  lemma {:induction false} PreimagesAreBlock(h: nat, bits: nat)
    requires 1 <= bits <= 32
    ensures Preimages(h, bits) == BlockOf(GOLDEN_RATIO_PRIME_32, WORDS, Pow2(32 - bits), h)
  {
    forall v | v in Range(0, WORDS)
      ensures v in Preimages(h, bits) <==> v in BlockOf(GOLDEN_RATIO_PRIME_32, WORDS, Pow2(32 - bits), h)
    {
      HashIsBlock(v, bits);
    }
  }
}
