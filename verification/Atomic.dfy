/** The bit operations of atomic.h, and any interleaving of them by any number of threads.
    Each operation is one atomic memory operation, so an interleaving is a sequence of
    them.  A machine word is the sequence of its bits, lowest first. */
module Atomic {

  const BITS_PER_LONG: nat := 64

  type Bits64 = w: seq<bool> | |w| == BITS_PER_LONG witness seq(BITS_PER_LONG, _ => false)

  function Combine(op: (bool, bool) -> bool, a: Bits64, b: Bits64): Bits64 {
    seq(BITS_PER_LONG, i requires 0 <= i < BITS_PER_LONG => op(a[i], b[i]))
  }

  function Not(a: Bits64): Bits64 {
    seq(BITS_PER_LONG, i requires 0 <= i < BITS_PER_LONG => !a[i])
  }

  function And(a: Bits64, b: Bits64): Bits64 { Combine((x, y) => x && y, a, b) }
  function Or(a: Bits64, b: Bits64): Bits64 { Combine((x, y) => x || y, a, b) }
  function Xor(a: Bits64, b: Bits64): Bits64 { Combine((x, y) => x != y, a, b) }

  predicate NonZero(a: Bits64) { exists i | 0 <= i < BITS_PER_LONG :: a[i] }

  function ShiftRight(a: Bits64, n: nat): Bits64
    requires n < BITS_PER_LONG
  {
    a[n..] + seq(n, _ => false)
  }

  function BitMask(nr: nat): Bits64 {
    seq(BITS_PER_LONG, i => i == nr % BITS_PER_LONG)
  }

  function BitWord(nr: nat): nat {
    nr / BITS_PER_LONG
  }

  // ----- Bitmaps -----

  predicate InRange(words: seq<Bits64>, nr: nat) {
    BitWord(nr) < |words|
  }

  predicate Bit(words: seq<Bits64>, nr: nat)
    requires InRange(words, nr)
  {
    words[BitWord(nr)][nr % BITS_PER_LONG]
  }

  /** The bits that are set. */
  ghost function BitsOf(words: seq<Bits64>): set<nat> {
    set nr: nat | nr < BITS_PER_LONG * |words| && Bit(words, nr)
  }

  datatype Kind = Set | Clear | Change | TestAndSet | TestAndClear

  /** The read-modify-write of each operation: or, and with the complement, exclusive or. */
  function Update(kind: Kind, word: Bits64, mask: Bits64): Bits64 {
    match kind
    case Set => Or(word, mask)
    case Clear => And(word, Not(mask))
    case Change => Xor(word, mask)
    case TestAndSet => Or(word, mask)
    case TestAndClear => And(word, Not(mask))
  }

  predicate NewBit(kind: Kind, bit: bool) {
    match kind
    case Set => true
    case Clear => false
    case Change => !bit
    case TestAndSet => true
    case TestAndClear => false
  }

  ghost function After(bits: set<nat>, kind: Kind, nr: nat): set<nat> {
    if NewBit(kind, nr in bits) then bits + {nr} else bits - {nr}
  }

  lemma {:induction false} UpdateBits(kind: Kind, words: seq<Bits64>, nr: nat)
    requires InRange(words, nr)
    ensures BitsOf(words[BitWord(nr) := Update(kind, words[BitWord(nr)], BitMask(nr))])
         == After(BitsOf(words), kind, nr)
    ensures NonZero(And(words[BitWord(nr)], BitMask(nr))) <==> nr in BitsOf(words)
  {
    var word := words[BitWord(nr)];
    var place := nr % BITS_PER_LONG;
    var after := words[BitWord(nr) := Update(kind, word, BitMask(nr))];
    forall k: nat | k < BITS_PER_LONG * |words|
      ensures Bit(after, k) == if k == nr then NewBit(kind, Bit(words, k)) else Bit(words, k)
    {
    }
    assert And(word, BitMask(nr))[place] == word[place];
  }

  /** Any of set_bit, clear_bit, change_bit, test_and_set_bit and test_and_clear_bit: it
      changes bit nr of the map as its kind says and no other, and reports the old bit. */
  method Amo(kind: Kind, nr: nat, addr: array<Bits64>) returns (oldBit: bool)
    requires InRange(addr[..], nr)
    modifies addr
    ensures oldBit <==> nr in old(BitsOf(addr[..]))
    ensures BitsOf(addr[..]) == After(old(BitsOf(addr[..])), kind, nr)
  {
    UpdateBits(kind, addr[..], nr);
    var mask := BitMask(nr);
    var res := addr[BitWord(nr)];
    addr[BitWord(nr)] := Update(kind, res, mask);
    assert addr[..] == old(addr[..])[BitWord(nr) := Update(kind, res, mask)];
    oldBit := NonZero(And(res, mask));
  }

  /** test_bit looks only at the first word, so it is right for the bits of that word. */
  method TestBit(nr: nat, addr: array<Bits64>) returns (bit: bool)
    requires nr < BITS_PER_LONG && addr.Length > 0
    ensures bit <==> nr in BitsOf(addr[..])
  {
    bit := ShiftRight(addr[0], nr)[0];
    assert addr[..][0] == addr[0] && nr < BITS_PER_LONG * |addr[..]|;
  }

  // ----- What the operations and the bitmap are -----

  lemma {:induction false} Operations(bits: set<nat>, n: nat)
    ensures After(bits, Set, n) == After(bits, TestAndSet, n) == bits + {n}
    ensures After(bits, Clear, n) == After(bits, TestAndClear, n) == bits - {n}
    ensures After(bits, Change, n) == (if n in bits then bits - {n} else bits + {n})
    ensures After(After(bits, Change, n), Change, n) == bits
  {
  }

  function Shifted(bits: set<nat>): set<nat> { set k | k in bits :: k + 64 }

  /** A word holds bits 0 to 63, lowest first; the words of a bitmap follow one another. */
  lemma {:induction false} BitsOfWords(word: Bits64, words: seq<Bits64>)
    ensures BitsOf([word] + words) == (set k: nat | k < 64 && word[k]) + Shifted(BitsOf(words))
  {
    var all := [word] + words;
    forall k: nat
      ensures k in BitsOf(all) <==> (k < 64 && word[k]) || (k >= 64 && k - 64 in BitsOf(words))
    {
      if 64 <= k < 64 * |all| {
        assert k / 64 == (k - 64) / 64 + 1 && k % 64 == (k - 64) % 64;
        assert Bit(all, k) == Bit(words, k - 64);
      }
    }
    forall k: nat
      ensures k in Shifted(BitsOf(words)) <==> k >= 64 && k - 64 in BitsOf(words)
    {
      if k >= 64 && k - 64 in BitsOf(words) { assert (k - 64) + 64 == k; }
    }
  }

  // ----- Interleavings -----

  datatype Event = Event(thread: nat, kind: Kind, nr: nat)

  /** The bits after a run, latest event last. */
  ghost function Run(bits: set<nat>, events: seq<Event>): set<nat> {
    if events == [] then bits
    else
      var e := events[|events| - 1];
      After(Run(bits, events[..|events| - 1]), e.kind, e.nr)
  }

  /** What the k-th event of a run finds in its bit. */
  ghost predicate Found(bits: set<nat>, events: seq<Event>, k: nat)
    requires k < |events|
  {
    events[k].nr in Run(bits, events[..k])
  }

  /** Any interleaving on real words is a run of the bits, and every thread is told what its
      event found. */
  method Interleave(events: seq<Event>, addr: array<Bits64>) returns (results: seq<bool>)
    requires forall e | e in events :: InRange(addr[..], e.nr)
    modifies addr
    ensures BitsOf(addr[..]) == Run(old(BitsOf(addr[..])), events)
    ensures |results| == |events|
    ensures forall k | 0 <= k < |events| :: results[k] <==> Found(old(BitsOf(addr[..])), events, k)
  {
    ghost var bits := BitsOf(addr[..]);
    results := [];
    for k := 0 to |events|
      invariant BitsOf(addr[..]) == Run(bits, events[..k])
      invariant |results| == k
      invariant forall j | 0 <= j < k :: results[j] <==> Found(bits, events, j)
    {
      assert events[..k + 1][..k] == events[..k] && events[k] in events;
      var oldBit := Amo(events[k].kind, events[k].nr, addr);
      results := results + [oldBit];
    }
    assert events[..|events|] == events;
  }

  // ----- Independence -----

  /** The events on one bit. */
  function On(events: seq<Event>, n: nat): seq<Event> {
    if events == [] then []
    else
      var rest := On(events[..|events| - 1], n);
      var e := events[|events| - 1];
      if e.nr == n then rest + [e] else rest
  }

  /** A bit goes through a run as if only its own events had taken place. */
  lemma {:induction false} OtherBitsDoNotMatter(bits: set<nat>, events: seq<Event>, n: nat)
    ensures n in Run(bits, events) <==> n in Run(bits, On(events, n))
    decreases |events|
  {
    if events != [] {
      var rest := events[..|events| - 1];
      var e := events[|events| - 1];
      OtherBitsDoNotMatter(bits, rest, n);
      if e.nr == n {
        assert On(events, n)[..|On(events, n)| - 1] == On(rest, n);
      }
    }
  }

  // ----- Conservation -----

  /** How many events of a kind on bit n found the bit in the given state. */
  ghost function Count(bits: set<nat>, events: seq<Event>, n: nat, kind: Kind, found: bool): nat
    decreases |events|
  {
    if events == [] then 0
    else
      var rest := events[..|events| - 1];
      var e := events[|events| - 1];
      Count(bits, rest, n, kind, found)
      + (if e.nr == n && e.kind == kind && (n in Run(bits, rest)) == found then 1 else 0)
  }

  function Indicator(b: bool): int { if b then 1 else 0 }

  predicate OnlyTestAnd(events: seq<Event>, n: nat) {
    forall e | e in events && e.nr == n :: e.kind == TestAndSet || e.kind == TestAndClear
  }

  /** However threads interleave: the sets that found the bit clear, less the clears that
      found it set, are the change of the bit. */
  lemma {:induction false} Conservation(bits: set<nat>, events: seq<Event>, n: nat)
    requires OnlyTestAnd(events, n)
    ensures Count(bits, events, n, TestAndSet, false) - Count(bits, events, n, TestAndClear, true)
         == Indicator(n in Run(bits, events)) - Indicator(n in bits)
    decreases |events|
  {
    if events != [] {
      var rest := events[..|events| - 1];
      assert events[|events| - 1] in events;
      assert OnlyTestAnd(rest, n) by {
        assert forall e | e in rest :: e in events;
      }
      Conservation(bits, rest, n);
    }
  }

  // ----- Locks -----

  /** How often a thread took the lock - found it free when setting - less how often it gave
      it back. */
  ghost function Held(bits: set<nat>, events: seq<Event>, n: nat, t: nat): int
    decreases |events|
  {
    if events == [] then 0
    else
      var rest := events[..|events| - 1];
      var e := events[|events| - 1];
      var before := Held(bits, rest, n, t);
      if e.nr != n || e.thread != t then before
      else if e.kind == TestAndSet && n !in Run(bits, rest) then before + 1
      else if e.kind == Clear || e.kind == TestAndClear then before - 1
      else before
  }

  /** Threads take the lock with test_and_set_bit, and only its holder clears it. */
  ghost predicate Disciplined(bits: set<nat>, events: seq<Event>, n: nat)
    decreases |events|
  {
    events == [] ||
    (var rest := events[..|events| - 1];
     var e := events[|events| - 1];
     && Disciplined(bits, rest, n)
     && (e.nr == n ==>
           || e.kind == TestAndSet
           || ((e.kind == Clear || e.kind == TestAndClear) && Held(bits, rest, n, e.thread) > 0)))
  }

  /** Nobody holds the lock while the bit is clear; while it is set exactly one thread does. */
  ghost predicate OneOwner(bits: set<nat>, events: seq<Event>, n: nat) {
    if n in Run(bits, events)
    then exists t: nat :: Owns(bits, events, n, t)
    else forall u: nat :: Held(bits, events, n, u) == 0
  }

  ghost predicate Owns(bits: set<nat>, events: seq<Event>, n: nat, t: nat) {
    forall u: nat :: Held(bits, events, n, u) == if u == t then 1 else 0
  }

  lemma {:induction false} LockStep(bits: set<nat>, events: seq<Event>, n: nat)
    requires n !in bits && events != [] && Disciplined(bits, events, n)
    requires OneOwner(bits, events[..|events| - 1], n)
    ensures OneOwner(bits, events, n)
  {
    var rest := events[..|events| - 1];
    var e := events[|events| - 1];
    if n in Run(bits, rest) {
      var t: nat :| Owns(bits, rest, n, t);
      if n in Run(bits, events) {
        assert Owns(bits, events, n, t);
      }
    } else if n in Run(bits, events) {
      assert Owns(bits, events, n, e.thread);
    }
  }

  /** A test-and-set bit is a lock: over any interleaving in which only holders clear it, at
      most one thread holds it at any time, and the bit says whether one does. */
  lemma {:induction false} MutualExclusion(bits: set<nat>, events: seq<Event>, n: nat)
    requires n !in bits && Disciplined(bits, events, n)
    ensures OneOwner(bits, events, n)
    ensures forall t: nat, u: nat |
              Held(bits, events, n, t) > 0 && Held(bits, events, n, u) > 0 :: t == u
    decreases |events|
  {
    if events != [] {
      MutualExclusion(bits, events[..|events| - 1], n);
      LockStep(bits, events, n);
    }
    if n in Run(bits, events) {
      var t: nat :| Owns(bits, events, n, t);
    }
  }
}
