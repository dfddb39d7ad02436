/** The circular lists of list.h as values: a world is a set of rings, a ring the sequence
    of its members in the order of their next links, read from any one of them.  List ties
    the linked entries to these worlds. */
module RingWorld {

  type Ring<T> = seq<T>
  type World<T(==)> = set<seq<T>>

  function Succ(i: nat, n: nat): (j: nat)
    requires i < n
    ensures j < n
  {
    if i + 1 == n then 0 else i + 1
  }

  function Pred(i: nat, n: nat): (j: nat)
    requires i < n
    ensures j < n
  {
    if i == 0 then n - 1 else i - 1
  }

  ghost predicate NoRepeats<T>(s: seq<T>) {
    forall i, j | 0 <= i < j < |s| :: s[i] != s[j]
  }

  ghost function Members<T>(w: World<T>): set<T> {
    set s, x | s in w && x in s :: x
  }

  /** Rings are non-empty and no entry occurs twice, neither in one ring nor in two. */
  ghost predicate Apart<T>(w: World<T>) {
    && (forall s | s in w :: s != [] && NoRepeats(s))
    && (forall s, t, x | s in w && t in w && x in s && x in t :: s == t)
  }

  ghost function RingOf<T>(w: World<T>, x: T): (s: Ring<T>)
    requires x in Members(w)
    ensures s in w && x in s
  {
    var s :| s in w && x in s;
    s
  }

  ghost function IndexOf<T>(s: Ring<T>, x: T): (i: nat)
    requires x in s
    ensures i < |s| && s[i] == x
  {
    var i :| 0 <= i < |s| && s[i] == x;
    i
  }

  function InsertAfter<T>(s: Ring<T>, j: nat, x: T): Ring<T>
    requires j < |s|
  {
    s[..j + 1] + [x] + s[j + 1..]
  }

  function Delete<T>(s: Ring<T>, i: nat): Ring<T>
    requires i < |s|
  {
    s[..i] + s[i + 1..]
  }

  // ----- Operations -----

  datatype Op<T> =
    | Init(elm: T)
    | AddAfter(at: T, elm: T)
    | AddBefore(at: T, elm: T)
    | Del(elm: T)
    | DelInit(elm: T)

  /** An entry can be initialised or inserted when it is in no ring or is one by itself;
      only members can be inserted next to or deleted. */
  ghost predicate Legal<T>(w: World<T>, op: Op<T>) {
    match op
    case Init(x) => Free(w, x)
    case AddAfter(at, x) => Free(w, x) && at in Members(w) && at != x
    case AddBefore(at, x) => Free(w, x) && at in Members(w) && at != x
    case Del(x) => x in Members(w)
    case DelInit(x) => x in Members(w)
  }

  ghost predicate Free<T>(w: World<T>, x: T) {
    x in Members(w) ==> [x] in w
  }

  ghost function Exchange<T>(w: World<T>, s: Ring<T>, t: Ring<T>): World<T> {
    w - {s} + {t}
  }

  ghost function Insert<T>(w: World<T>, s: Ring<T>, j: nat, x: T): World<T>
    requires j < |s|
  {
    Exchange(w - {[x]}, s, InsertAfter(s, j, x))
  }

  /** Deleting an entry that is alone leaves it linked to itself. */
  ghost function Apply<T>(w: World<T>, op: Op<T>): World<T>
    requires Legal(w, op)
  {
    match op
    case Init(x) => w + {[x]}
    case AddAfter(at, x) =>
      var s := RingOf(w, at);
      Insert(w, s, IndexOf(s, at), x)
    case AddBefore(at, x) =>
      var s := RingOf(w, at);
      Insert(w, s, Pred(IndexOf(s, at), |s|), x)
    case Del(x) =>
      var s := RingOf(w, x);
      if |s| == 1 then w else Exchange(w, s, Delete(s, IndexOf(s, x)))
    case DelInit(x) =>
      var s := RingOf(w, x);
      if |s| == 1 then w else Exchange(w, s, Delete(s, IndexOf(s, x))) + {[x]}
  }

  lemma {:induction false} InsertAfterMembers<T>(s: Ring<T>, j: nat, x: T)
    requires j < |s| && NoRepeats(s) && x !in s
    ensures NoRepeats(InsertAfter(s, j, x))
    ensures forall y :: y in InsertAfter(s, j, x) <==> y in s || y == x
  {
    assert s == s[..j + 1] + s[j + 1..];
  }

  lemma {:induction false} DeleteMembers<T>(s: Ring<T>, i: nat)
    requires i < |s| && NoRepeats(s)
    ensures NoRepeats(Delete(s, i))
    ensures forall y :: y in Delete(s, i) <==> y in s && y != s[i]
  {
    assert s == s[..i] + [s[i]] + s[i + 1..];
  }

  /** The neighbours of each position after an insertion. */
  lemma {:induction false} InsertSteps<T>(s: Ring<T>, j: nat, x: T, k: nat)
    requires j < |s| && k <= |s|
    ensures var n, t := |s|, InsertAfter(s, j, x);
      var i := if k <= j then k else k - 1;
      && t[k] == (if k == j + 1 then x else s[i])
      && t[Succ(k, n + 1)] == (if k == j then x else s[Succ(i, n)])
      && t[Pred(k, n + 1)] == (if k == j + 1 then s[j] else if i == Succ(j, n) then x else s[Pred(i, n)])
  {
    var n := |s|;
    InsertedAt(s, j, x, k);
    InsertedAt(s, j, x, Succ(k, n + 1));
    InsertedAt(s, j, x, Pred(k, n + 1));
  }

  lemma {:induction false} InsertedAt<T>(s: Ring<T>, j: nat, x: T, k: nat)
    requires j < |s| && k <= |s|
    ensures InsertAfter(s, j, x)[k] == if k <= j then s[k] else if k == j + 1 then x else s[k - 1]
  {
  }

  /** The neighbours of each position after a deletion. */
  lemma {:induction false} DeleteSteps<T>(s: Ring<T>, i: nat, k: nat)
    requires i < |s| && |s| > 1 && k < |s| - 1
    ensures var n, t := |s|, Delete(s, i);
      var o := if k < i then k else k + 1;
      && t[k] == s[o] && o != i
      && t[Succ(k, n - 1)] == (if o == Pred(i, n) then s[Succ(i, n)] else s[Succ(o, n)])
      && t[Pred(k, n - 1)] == (if o == Succ(i, n) then s[Pred(i, n)] else s[Pred(o, n)])
  {
    var n := |s|;
    DeletedAt(s, i, k);
    DeletedAt(s, i, Succ(k, n - 1));
    DeletedAt(s, i, Pred(k, n - 1));
  }

  lemma {:induction false} DeletedAt<T>(s: Ring<T>, i: nat, k: nat)
    requires i < |s| && k < |s| - 1
    ensures Delete(s, i)[k] == if k < i then s[k] else s[k + 1]
  {
  }

  /** Replacing a ring by one over other entries keeps the rings apart as long as the new
      entries are in no other ring. */
  lemma {:induction false} ExchangeApart<T>(w: World<T>, s: Ring<T>, t: Ring<T>)
    requires Apart(w) && s in w && t != [] && NoRepeats(t)
    requires forall r, y | r in w && y in r && y in t :: r == s
    ensures Apart(Exchange(w, s, t))
    ensures Members(Exchange(w, s, t)) == (Members(w) - set y | y in s) + set y | y in t
  {
  }

  lemma {:induction false} DropAlone<T>(w: World<T>, x: T)
    requires Apart(w) && Free(w, x)
    ensures Apart(w - {[x]}) && Members(w - {[x]}) == Members(w) - {x}
  {
    assert x in [x];
    forall y | y in Members(w) && y != x
      ensures y in Members(w - {[x]})
    {
      var s :| s in w && y in s;
      assert s != [x];
    }
  }

  lemma {:induction false} AddAlone<T>(w: World<T>, x: T)
    requires Apart(w) && Free(w, x)
    ensures Apart(w + {[x]}) && Members(w + {[x]}) == Members(w) + {x}
  {
    assert x in [x];
    forall y | y in Members(w) + {x}
      ensures y in Members(w + {[x]})
    {
      if y in Members(w) {
        var s :| s in w && y in s;
      }
    }
  }

  lemma {:induction false} InsertApart<T>(w: World<T>, s: Ring<T>, j: nat, x: T)
    requires Apart(w) && Free(w, x) && s in w && x !in s && j < |s|
    ensures Apart(Insert(w, s, j, x)) && Members(Insert(w, s, j, x)) == Members(w) + {x}
  {
    var v := w - {[x]};
    DropAlone(w, x);
    InsertAfterMembers(s, j, x);
    assert x in [x];
    assert x !in Members(v);
    ExchangeApart(v, s, InsertAfter(s, j, x));
  }

  lemma {:induction false} NotInRing<T>(w: World<T>, at: T, x: T)
    requires Apart(w) && Free(w, x) && at in Members(w) && at != x
    ensures x !in RingOf(w, at)
  {
    assert x in [x];
  }

  lemma {:induction false} DeleteApart<T>(w: World<T>, s: Ring<T>, i: nat)
    requires Apart(w) && s in w && i < |s| && |s| > 1
    ensures Apart(Exchange(w, s, Delete(s, i)))
    ensures Members(Exchange(w, s, Delete(s, i))) == Members(w) - {s[i]}
  {
    DeleteMembers(s, i);
    ExchangeApart(w, s, Delete(s, i));
  }

  ghost function Gained<T>(w: World<T>, op: Op<T>): set<T>
    requires Legal(w, op)
  {
    match op
    case Init(x) => {x}
    case AddAfter(at, x) => {x}
    case AddBefore(at, x) => {x}
    case Del(x) => {}
    case DelInit(x) => {}
  }

  ghost function Lost<T>(w: World<T>, op: Op<T>): set<T>
    requires Legal(w, op)
  {
    if op.Del? && [op.elm] !in w then {op.elm} else {}
  }

  /** Every operation keeps the rings apart and adds or drops at most its own entry. */
  lemma {:induction false} ApplyApart<T>(w: World<T>, op: Op<T>)
    requires Apart(w) && Legal(w, op)
    ensures Apart(Apply(w, op))
    ensures Members(Apply(w, op)) == Members(w) + Gained(w, op) - Lost(w, op)
  {
    match op
    case Init(x) =>
      AddAlone(w, x);
    case AddAfter(at, x) =>
      NotInRing(w, at, x);
      InsertApart(w, RingOf(w, at), IndexOf(RingOf(w, at), at), x);
    case AddBefore(at, x) =>
      NotInRing(w, at, x);
      var s := RingOf(w, at);
      InsertApart(w, s, Pred(IndexOf(s, at), |s|), x);
    case Del(x) =>
      DeletedFrom(w, x);
    case DelInit(x) =>
      DeletedFrom(w, x);
      var s := RingOf(w, x);
      if |s| > 1 {
        var v := Exchange(w, s, Delete(s, IndexOf(s, x)));
        AddAlone(v, x);
      }
  }

  lemma {:induction false} DeletedFrom<T>(w: World<T>, x: T)
    requires Apart(w) && x in Members(w)
    ensures var s := RingOf(w, x);
      if |s| == 1 then s == [x] && [x] in w
      else
        && [x] !in w
        && Apart(Exchange(w, s, Delete(s, IndexOf(s, x))))
        && Members(Exchange(w, s, Delete(s, IndexOf(s, x)))) == Members(w) - {x}
  {
    var s := RingOf(w, x);
    if |s| > 1 {
      DeleteApart(w, s, IndexOf(s, x));
      assert x in [x];
    }
  }

  // ----- Operations that undo or follow each other -----

  lemma {:induction false} At<T>(w: World<T>, s: Ring<T>, i: nat)
    requires Apart(w) && s in w && i < |s|
    ensures s[i] in Members(w) && RingOf(w, s[i]) == s && IndexOf(s, s[i]) == i
  {
    assert s[i] in s;
  }

  lemma {:induction false} DeleteInserted<T>(w: World<T>, s: Ring<T>, j: nat, x: T)
    requires Apart(w) && Free(w, x) && s in w && j < |s| && x !in s
    ensures var v := Insert(w, s, j, x); Legal(v, Del(x)) && Apply(v, Del(x)) == w - {[x]}
  {
    var t, v := InsertAfter(s, j, x), Insert(w, s, j, x);
    assert x in [x] && x in t;
    InsertApart(w, s, j, x);
    At(v, t, j + 1);
    assert Delete(t, j + 1) == s;
    assert t !in w - {[x]};
  }

  /** Deleting an entry just inserted restores the other rings, wherever it was inserted; an
      entry that was initialised, and so a ring by itself, is then in no ring. */
  lemma {:induction false} InsertThenDelete<T>(w: World<T>, at: T, x: T)
    requires Apart(w) && Free(w, x) && at in Members(w) && at != x
    ensures var v := Apply(w, AddAfter(at, x)); Legal(v, Del(x)) && Apply(v, Del(x)) == w - {[x]}
    ensures var v := Apply(w, AddBefore(at, x)); Legal(v, Del(x)) && Apply(v, Del(x)) == w - {[x]}
  {
    var s := RingOf(w, at);
    NotInRing(w, at, x);
    DeleteInserted(w, s, IndexOf(s, at), x);
    DeleteInserted(w, s, Pred(IndexOf(s, at), |s|), x);
  }

  /** What is left of the ring s when its i-th entry moves away. */
  ghost function Left<T>(s: Ring<T>, i: nat): World<T>
    requires i < |s|
  {
    if |s| == 1 then {} else {Delete(s, i)}
  }

  lemma {:induction false} TakenOut<T>(w: World<T>, x: T, t: Ring<T>)
    requires Apart(w) && x in Members(w) && t in w && t != RingOf(w, x)
    ensures var s, v := RingOf(w, x), Apply(w, DelInit(x));
      Apart(v) && [x] in v && t in v && v - {[x]} - {t} == w - {s, t} + Left(s, IndexOf(s, x))
  {
    var s := RingOf(w, x);
    ApplyApart(w, DelInit(x));
    DeletedFrom(w, x);
    assert x in [x];
    if |s| > 1 {
      DeleteMembers(s, IndexOf(s, x));
      var y := Delete(s, IndexOf(s, x))[0];
      assert y in s && y in Delete(s, IndexOf(s, x));
    }
  }

  /** Deleting with re-initialisation and then inserting elsewhere moves exactly that entry:
      its ring loses it, the other ring gains it after or before `at`, and both keep the order
      of their other entries. */
  lemma {:induction false} Transfer<T>(w: World<T>, x: T, at: T)
    requires Apart(w) && x in Members(w) && at in Members(w) && at !in RingOf(w, x)
    ensures var s, t := RingOf(w, x), RingOf(w, at);
      var v, rest := Apply(w, DelInit(x)), w - {s, t} + Left(s, IndexOf(s, x));
      && Legal(v, AddAfter(at, x))
      && Apply(v, AddAfter(at, x)) == rest + {InsertAfter(t, IndexOf(t, at), x)}
      && Legal(v, AddBefore(at, x))
      && Apply(v, AddBefore(at, x)) == rest + {InsertAfter(t, Pred(IndexOf(t, at), |t|), x)}
  {
    var t := RingOf(w, at);
    TakenOut(w, x, t);
    At(Apply(w, DelInit(x)), t, IndexOf(t, at));
  }

  // ----- Queues and stacks -----

  /** What a client does with a list through its head: add an entry, or take out the entry
      next to the head unless the list is empty. */
  datatype Call<T> = Put(x: T) | Take

  function Puts<T>(calls: seq<Call<T>>): seq<T> {
    if calls == [] then [] else Added(calls[0]) + Puts(calls[1..])
  }

  function Added<T>(call: Call<T>): seq<T> {
    if call.Put? then [call.x] else []
  }

  ghost predicate HasList<T>(w: World<T>, head: T, q: seq<T>) {
    [head] + q in w
  }

  ghost predicate CanPut<T>(w: World<T>, head: T, x: T) {
    head in Members(w) && Free(w, x) && x != head
  }

  /** One call on the list of `head`, as operations on the world; entries are put in before
      the head (fifo) or after it. */
  ghost function Serve<T>(w: World<T>, head: T, call: Call<T>, fifo: bool): (r: (World<T>, seq<T>))
    requires call.Put? ==> CanPut(w, head, call.x)
    requires head in Members(w)
  {
    match call
    case Put(x) => (Apply(w, if fifo then AddBefore(head, x) else AddAfter(head, x)), [])
    case Take =>
      var s := RingOf(w, head);
      var first := s[Succ(IndexOf(s, head), |s|)];
      if first == head then (w, [])
      else
        assert first in s;
        (Apply(w, Del(first)), [first])
  }

  lemma {:induction false} PutBefore<T>(w: World<T>, head: T, q: seq<T>, x: T)
    requires Apart(w) && HasList(w, head, q) && CanPut(w, head, x)
    ensures var v := Serve(w, head, Put(x), true).0; Apart(v) && HasList(v, head, q + [x])
  {
    var s := [head] + q;
    ApplyApart(w, AddBefore(head, x));
    At(w, s, 0);
    assert InsertAfter(s, |s| - 1, x) == [head] + (q + [x]);
  }

  lemma {:induction false} PutAfter<T>(w: World<T>, head: T, q: seq<T>, x: T)
    requires Apart(w) && HasList(w, head, q) && CanPut(w, head, x)
    ensures var v := Serve(w, head, Put(x), false).0; Apart(v) && HasList(v, head, [x] + q)
  {
    var s := [head] + q;
    ApplyApart(w, AddAfter(head, x));
    At(w, s, 0);
    assert InsertAfter(s, 0, x) == [head] + ([x] + q);
  }

  lemma {:induction false} TakeFirst<T>(w: World<T>, head: T, q: seq<T>, fifo: bool)
    requires Apart(w) && HasList(w, head, q) && head in Members(w)
    ensures var (v, served) := Serve(w, head, Take, fifo);
      && Apart(v)
      && if q == [] then v == w && served == []
         else served == [q[0]] && HasList(v, head, q[1..])
  {
    var s := [head] + q;
    At(w, s, 0);
    if q != [] {
      At(w, s, 1);
      assert s[0] != s[1];
      ApplyApart(w, Del(q[0]));
      assert Delete(s, 1) == [head] + q[1..];
    }
  }

  /** Every put of the run finds its entry free. */
  ghost predicate CanServe<T>(w: World<T>, head: T, calls: seq<Call<T>>, fifo: bool)
    decreases |calls|
  {
    calls == [] ||
    (&& head in Members(w)
     && (calls[0].Put? ==> CanPut(w, head, calls[0].x))
     && CanServe(Serve(w, head, calls[0], fifo).0, head, calls[1..], fifo))
  }

  /** The world after a run of calls and the entries taken out, in order. */
  ghost function ServeAll<T>(w: World<T>, head: T, calls: seq<Call<T>>, fifo: bool): (r: (World<T>, seq<T>))
    requires CanServe(w, head, calls, fifo)
    decreases |calls|
  {
    if calls == [] then (w, [])
    else
      var (v, first) := Serve(w, head, calls[0], fifo);
      var (u, later) := ServeAll(v, head, calls[1..], fifo);
      (u, first + later)
  }

  lemma {:induction false} FifoStep<T>(w: World<T>, head: T, q: seq<T>, call: Call<T>) returns (rest: seq<T>)
    requires Apart(w) && HasList(w, head, q) && head in Members(w)
    requires call.Put? ==> CanPut(w, head, call.x)
    ensures var (v, served) := Serve(w, head, call, true);
      Apart(v) && HasList(v, head, rest) && served + rest == q + Added(call)
  {
    match call
    case Put(x) =>
      PutBefore(w, head, q, x);
      rest := q + [x];
    case Take =>
      TakeFirst(w, head, q, true);
      rest := if q == [] then [] else q[1..];
  }

  /** Adding before the head and taking from behind it is a queue: over any run, what was
      taken followed by what is left is what was there followed by what was added. */
  lemma {:induction false} FifoRun<T>(w: World<T>, head: T, q: seq<T>, calls: seq<Call<T>>) returns (rest: seq<T>)
    requires Apart(w) && HasList(w, head, q) && CanServe(w, head, calls, true)
    ensures var (v, served) := ServeAll(w, head, calls, true);
      Apart(v) && HasList(v, head, rest) && served + rest == q + Puts(calls)
    decreases |calls|
  {
    if calls == [] {
      rest := q;
    } else {
      var (v, first) := Serve(w, head, calls[0], true);
      var tail := FifoStep(w, head, q, calls[0]);
      rest := FifoRun(v, head, tail, calls[1..]);
      Regroup(first, ServeAll(v, head, calls[1..], true).1, rest, tail, Puts(calls[1..]), q, Added(calls[0]));
    }
  }

  lemma {:induction false} Regroup<T>(first: seq<T>, later: seq<T>, rest: seq<T>, tail: seq<T>, more: seq<T>,
                                      q: seq<T>, added: seq<T>)
    requires later + rest == tail + more && first + tail == q + added
    ensures (first + later) + rest == q + (added + more)
  {
    assert (first + later) + rest == first + (later + rest);
    assert first + (tail + more) == (first + tail) + more;
    assert (q + added) + more == q + (added + more);
  }

  /** The entries that a stack gives out over a run of calls, and what is left on it. */
  function StackRun<T>(stack: seq<T>, calls: seq<Call<T>>): (r: (seq<T>, seq<T>))
    decreases |calls|
  {
    if calls == [] then ([], stack)
    else
      match calls[0]
      case Put(x) => StackRun([x] + stack, calls[1..])
      case Take =>
        if stack == [] then StackRun([], calls[1..])
        else
          var (served, left) := StackRun(stack[1..], calls[1..]);
          ([stack[0]] + served, left)
  }

  /** Adding after the head and taking from behind it is a stack: over any run, entries are
      given out and left just as by a stack. */
  lemma {:induction false} LifoRun<T>(w: World<T>, head: T, q: seq<T>, calls: seq<Call<T>>)
    requires Apart(w) && HasList(w, head, q) && CanServe(w, head, calls, false)
    ensures var (v, served) := ServeAll(w, head, calls, false);
      Apart(v) && served == StackRun(q, calls).0 && HasList(v, head, StackRun(q, calls).1)
    decreases |calls|
  {
    if calls != [] {
      var v := Serve(w, head, calls[0], false).0;
      match calls[0]
      case Put(x) =>
        PutAfter(w, head, q, x);
        LifoRun(v, head, [x] + q, calls[1..]);
      case Take =>
        TakeFirst(w, head, q, false);
        LifoRun(v, head, if q == [] then [] else q[1..], calls[1..]);
    }
  }

  function Reverse<T>(xs: seq<T>): (r: seq<T>)
    ensures |r| == |xs|
  {
    if xs == [] then [] else Reverse(xs[1..]) + [xs[0]]
  }

  function PutEach<T>(xs: seq<T>): seq<Call<T>> {
    seq(|xs|, i requires 0 <= i < |xs| => Put(xs[i]))
  }

  function Takes<T>(n: nat): seq<Call<T>> {
    seq(n, _ => Take)
  }

  lemma {:induction false} StackPuts<T>(q: seq<T>, xs: seq<T>, more: seq<Call<T>>)
    ensures StackRun(q, PutEach(xs) + more) == StackRun(Reverse(xs) + q, more)
    decreases |xs|
  {
    if xs == [] {
      assert PutEach(xs) + more == more && Reverse(xs) + q == q;
    } else {
      assert (PutEach(xs) + more)[1..] == PutEach(xs[1..]) + more;
      StackPuts([xs[0]] + q, xs[1..], more);
      assert Reverse(xs) + q == Reverse(xs[1..]) + ([xs[0]] + q);
    }
  }

  lemma {:induction false} StackTakes<T>(xs: seq<T>, q: seq<T>)
    ensures StackRun(xs + q, Takes(|xs|)) == (xs, q)
    decreases |xs|
  {
    if xs == [] {
      assert xs + q == q && Takes<T>(0) == [];
    } else {
      assert (xs + q)[1..] == xs[1..] + q && [xs[0]] + xs[1..] == xs;
      assert Takes<T>(|xs|)[1..] == Takes(|xs[1..]|);
      StackTakes(xs[1..], q);
    }
  }

  /** In particular, what is put in one after the other and taken out again comes out in the
      opposite order and leaves the list as it was. */
  lemma {:induction false} PutsThenTakes<T>(w: World<T>, head: T, q: seq<T>, xs: seq<T>)
    requires Apart(w) && HasList(w, head, q) && CanServe(w, head, PutEach(xs) + Takes(|xs|), false)
    ensures var (v, served) := ServeAll(w, head, PutEach(xs) + Takes(|xs|), false);
      HasList(v, head, q) && served == Reverse(xs)
  {
    LifoRun(w, head, q, PutEach(xs) + Takes(|xs|));
    StackPuts(q, xs, Takes(|xs|));
    StackTakes(Reverse(xs), q);
  }
}
