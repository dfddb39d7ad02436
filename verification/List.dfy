/** The linked entries of list.h.  Every operation takes the world of rings around it as a
    ghost argument and is proved to turn the links of that world into the links of the
    world that RingWorld computes; entries of no ring may hold anything. */
module List {
  import Modulo
  import opened RingWorld

  class Entry {
    var prev: Entry?
    var next: Entry?
  }

  /** next and prev step through s cyclically, in opposite directions. */
  ghost predicate IsRing(s: Ring<Entry>)
    reads s
  {
    && s != [] && NoRepeats(s)
    && (forall i {:trigger s[i].next} | 0 <= i < |s| :: s[i].next == s[Succ(i, |s|)])
    && (forall i {:trigger s[i].prev} | 0 <= i < |s| :: s[i].prev == s[Pred(i, |s|)])
  }

  ghost predicate Linked(w: World<Entry>)
    reads Members(w)
  {
    Apart(w) && forall s | s in w :: MembersOf(w, s); IsRing(s)
  }

  lemma {:induction false} MembersOf<T>(w: World<T>, s: Ring<T>)
    requires s in w
    ensures forall x | x in s :: x in Members(w)
  {
  }

  method Init(elm: Entry, ghost w: World<Entry>)
    requires Linked(w) && Legal(w, Op.Init(elm))
    modifies elm
    ensures elm.prev == elm.next == elm
    ensures Linked(Apply(w, Op.Init(elm)))
  {
    elm.prev, elm.next := elm, elm;
    ApplyApart(w, Op.Init(elm));
    assert IsRing([elm]);
    forall t | t in w && t != [elm]
      ensures IsRing(t)
    {
      assert elm in [elm] && elm !in t;
    }
  }

  /** Insert between two known consecutive entries. */
  method AddBetween(elm: Entry, prev: Entry, next: Entry, ghost s: Ring<Entry>, ghost j: nat)
    requires IsRing(s) && j < |s| && elm !in s && prev == s[j] && next == s[Succ(j, |s|)]
    modifies elm, prev`next, next`prev
    ensures IsRing(InsertAfter(s, j, elm))
  {
    next.prev := elm;
    prev.next := elm;
    elm.next := next;
    elm.prev := prev;
    forall i | 0 <= i < |s|
      ensures s[i].next == if i == j then elm else s[Succ(i, |s|)]
      ensures s[i].prev == if i == Succ(j, |s|) then elm else s[Pred(i, |s|)]
    {
      Same(s, i, j);
      Same(s, i, Succ(j, |s|));
    }
    InsertedRing(s, j, elm);
  }

  lemma {:induction false} InsertedRing(s: Ring<Entry>, j: nat, elm: Entry)
    requires NoRepeats(s) && j < |s| && elm !in s && elm.prev == s[j] && elm.next == s[Succ(j, |s|)]
    requires forall i {:trigger s[i].next} | 0 <= i < |s| ::
               s[i].next == if i == j then elm else s[Succ(i, |s|)]
    requires forall i {:trigger s[i].prev} | 0 <= i < |s| ::
               s[i].prev == if i == Succ(j, |s|) then elm else s[Pred(i, |s|)]
    ensures IsRing(InsertAfter(s, j, elm))
  {
    var n, t := |s|, InsertAfter(s, j, elm);
    InsertAfterMembers(s, j, elm);
    forall k | 0 <= k <= n
      ensures t[k].next == t[Succ(k, n + 1)] && t[k].prev == t[Pred(k, n + 1)]
    {
      InsertSteps(s, j, elm, k);
    }
  }

  /** Delete an entry by making its neighbours point to each other. */
  method DelBetween(prev: Entry, next: Entry, ghost s: Ring<Entry>, ghost i: nat)
    requires IsRing(s) && i < |s| && prev == s[Pred(i, |s|)] && next == s[Succ(i, |s|)]
    modifies prev`next, next`prev
    ensures if |s| == 1 then IsRing(s) else IsRing(Delete(s, i))
  {
    prev.next := next;
    next.prev := prev;
    if |s| > 1 {
      forall k | 0 <= k < |s|
        ensures s[k].next == if k == Pred(i, |s|) then next else s[Succ(k, |s|)]
        ensures s[k].prev == if k == Succ(i, |s|) then prev else s[Pred(k, |s|)]
      {
        Same(s, k, Pred(i, |s|));
        Same(s, k, Succ(i, |s|));
      }
      DeletedRing(s, i);
    }
  }

  lemma {:induction false} Same<T>(s: Ring<T>, i: nat, j: nat)
    requires NoRepeats(s) && i < |s| && j < |s|
    ensures s[i] == s[j] <==> i == j
  {
  }

  lemma {:induction false} DeletedRing(s: Ring<Entry>, i: nat)
    requires NoRepeats(s) && |s| > 1 && i < |s|
    requires forall k {:trigger s[k].next} | 0 <= k < |s| ::
               s[k].next == if k == Pred(i, |s|) then s[Succ(i, |s|)] else s[Succ(k, |s|)]
    requires forall k {:trigger s[k].prev} | 0 <= k < |s| ::
               s[k].prev == if k == Succ(i, |s|) then s[Pred(i, |s|)] else s[Pred(k, |s|)]
    ensures IsRing(Delete(s, i))
  {
    var n, t := |s|, Delete(s, i);
    DeleteMembers(s, i);
    forall k | 0 <= k < n - 1
      ensures t[k].next == t[Succ(k, n - 1)] && t[k].prev == t[Pred(k, n - 1)]
    {
      DeleteSteps(s, i, k);
    }
  }

  /** list_add is this operation under another name. */
  method AddAfter(at: Entry, elm: Entry, ghost w: World<Entry>)
    requires Linked(w) && Legal(w, Op.AddAfter(at, elm))
    modifies elm, at`next, at.next`prev
    ensures Linked(Apply(w, Op.AddAfter(at, elm)))
  {
    ghost var s := RingOf(w, at);
    ghost var j := IndexOf(s, at);
    NotInRing(w, at, elm);
    ApplyApart(w, Op.AddAfter(at, elm));
    assert IsRing(s) && at.next == s[Succ(j, |s|)];
    AddBetween(elm, at, at.next, s, j);
    forall t | t in w && t != s && t != [elm]
      ensures IsRing(t)
    {
      assert elm in [elm] && at in s && s[Succ(j, |s|)] in s;
      assert elm !in t && at !in t && s[Succ(j, |s|)] !in t;
    }
  }

  method AddBefore(at: Entry, elm: Entry, ghost w: World<Entry>)
    requires Linked(w) && Legal(w, Op.AddBefore(at, elm))
    modifies elm, at`prev, at.prev`next
    ensures Linked(Apply(w, Op.AddBefore(at, elm)))
  {
    ghost var s := RingOf(w, at);
    ghost var i := IndexOf(s, at);
    ghost var j := Pred(i, |s|);
    NotInRing(w, at, elm);
    ApplyApart(w, Op.AddBefore(at, elm));
    assert IsRing(s) && at.prev == s[j] && Succ(j, |s|) == i;
    AddBetween(elm, at.prev, at, s, j);
    forall t | t in w && t != s && t != [elm]
      ensures IsRing(t)
    {
      assert elm in [elm] && at in s && s[j] in s;
      assert elm !in t && at !in t && s[j] !in t;
    }
  }

  /** The deleted entry keeps its own links. */
  method Del(elm: Entry, ghost w: World<Entry>)
    requires Linked(w) && Legal(w, Op.Del(elm))
    modifies elm.prev`next, elm.next`prev
    ensures Linked(Apply(w, Op.Del(elm)))
    ensures elm.prev == old(elm.prev) && elm.next == old(elm.next)
  {
    ghost var s := RingOf(w, elm);
    ghost var i := IndexOf(s, elm);
    ApplyApart(w, Op.Del(elm));
    assert IsRing(s) && elm.prev == s[Pred(i, |s|)] && elm.next == s[Succ(i, |s|)];
    DelBetween(elm.prev, elm.next, s, i);
    forall t | t in w && t != s
      ensures IsRing(t)
    {
      assert s[Pred(i, |s|)] in s && s[Succ(i, |s|)] in s;
      assert s[Pred(i, |s|)] !in t && s[Succ(i, |s|)] !in t;
    }
  }

  method DelInit(elm: Entry, ghost w: World<Entry>)
    requires Linked(w) && Legal(w, Op.DelInit(elm))
    modifies elm, elm.prev`next, elm.next`prev
    ensures elm.prev == elm.next == elm
    ensures Linked(Apply(w, Op.DelInit(elm)))
  {
    DeletedFrom(w, elm);
    Del(elm, w);
    Init(elm, Apply(w, Op.Del(elm)));
  }

  /** True exactly when the entry is alone in its ring. */
  method Empty(list: Entry, ghost w: World<Entry>) returns (empty: bool)
    requires Linked(w) && list in Members(w)
    ensures empty <==> [list] in w
  {
    ghost var s := RingOf(w, list);
    ghost var i := IndexOf(s, list);
    assert IsRing(s) && list.next == s[Succ(i, |s|)];
    Same(s, i, Succ(i, |s|));
    assert list in [list];
    assert |s| == 1 ==> s == [list];
    empty := list.next == list;
  }

  method Next(elm: Entry, ghost w: World<Entry>) returns (next: Entry)
    requires Linked(w) && elm in Members(w)
    ensures var s := RingOf(w, elm); next == s[Succ(IndexOf(s, elm), |s|)]
  {
    ghost var s := RingOf(w, elm);
    assert IsRing(s) && elm == s[IndexOf(s, elm)];
    next := elm.next;
  }

  method Prev(elm: Entry, ghost w: World<Entry>) returns (prev: Entry)
    requires Linked(w) && elm in Members(w)
    ensures var s := RingOf(w, elm); prev == s[Pred(IndexOf(s, elm), |s|)]
  {
    ghost var s := RingOf(w, elm);
    assert IsRing(s) && elm == s[IndexOf(s, elm)];
    prev := elm.prev;
  }

  // ----- Walking a ring -----

  /** Following the next links k times. */
  ghost function Walk(s: Ring<Entry>, x: Entry, k: nat): Entry
    requires IsRing(s) && x in s
    reads s
  {
    if k == 0 then x
    else
      assert s[IndexOf(s, x)] == x;
      Walk(s, x.next, k - 1)
  }

  /** The next links run through the ring in one single cycle: the k-th step from position
      i is at position i + k modulo the size, so the first |s| steps meet every member
      exactly once and the next one is back at the start. */
  lemma {:induction false} SingleCycle(s: Ring<Entry>, i: nat, k: nat)
    requires IsRing(s) && i < |s|
    ensures Walk(s, s[i], k) == s[(i + k) % |s|]
    decreases k
  {
    var n := |s|;
    if k == 0 {
      Modulo.ModUnique(i, n, 0, i);
    } else {
      var j := Succ(i, n);
      assert s[i].next == s[j];
      SingleCycle(s, j, k - 1);
      assert Walk(s, s[i], k) == Walk(s, s[j], k - 1);
      if i + 1 == n {
        Modulo.ModShift(k - 1, 1, n);
        assert (i + k) % n == (k - 1) % n;
      }
    }
  }

  // ----- Whole runs -----

  ghost predicate LegalRun(w: World<Entry>, ops: seq<Op<Entry>>)
    decreases |ops|
  {
    ops == [] || (Legal(w, ops[0]) && LegalRun(Apply(w, ops[0]), ops[1..]))
  }

  ghost function RunWorld(w: World<Entry>, ops: seq<Op<Entry>>): World<Entry>
    requires LegalRun(w, ops)
    decreases |ops|
  {
    if ops == [] then w else RunWorld(Apply(w, ops[0]), ops[1..])
  }

  lemma {:induction false} Neighbours(w: World<Entry>, x: Entry)
    requires Linked(w) && x in Members(w)
    ensures x.next in Members(w) && x.prev in Members(w)
  {
    var s := RingOf(w, x);
    var i := IndexOf(s, x);
    assert IsRing(s);
    assert s[i].next in s && s[i].prev in s;
  }

  method Perform(op: Op<Entry>, ghost w: World<Entry>)
    requires Linked(w) && Legal(w, op)
    modifies Members(w), op.elm
    ensures Linked(Apply(w, op))
  {
    if op.AddAfter? || op.AddBefore? { Neighbours(w, op.at); }
    if op.Del? || op.DelInit? { Neighbours(w, op.elm); }
    match op
    case Init(x) => Init(x, w);
    case AddAfter(at, x) => AddAfter(at, x, w);
    case AddBefore(at, x) => AddBefore(at, x, w);
    case Del(x) => Del(x, w);
    case DelInit(x) => DelInit(x, w);
  }

  /** Any legal run of list operations over any number of disjoint rings leaves every entry
      linked into exactly the rings that RingWorld computes. */
  method Run(ops: seq<Op<Entry>>, ghost w: World<Entry>)
    requires Linked(w) && LegalRun(w, ops)
    modifies Members(w), set op | op in ops :: op.elm
    ensures Linked(RunWorld(w, ops))
  {
    ghost var v := w;
    for k := 0 to |ops|
      invariant Linked(v) && LegalRun(v, ops[k..]) && RunWorld(v, ops[k..]) == RunWorld(w, ops)
      invariant Members(v) <= Members(w) + set op | op in ops :: op.elm
    {
      assert ops[k..][0] == ops[k] && ops[k..][1..] == ops[k + 1..];
      assert ops[k] in ops;
      ApplyApart(v, ops[k]);
      Perform(ops[k], v);
      v := Apply(v, ops[k]);
    }
  }

  // ----- Queues and stacks -----

  /** The entries that a client puts in. */
  ghost function PutIn(calls: seq<Call<Entry>>): set<Entry> {
    set call | call in calls && call.Put? :: call.x
  }

  lemma {:induction false} ServeMembers(w: World<Entry>, head: Entry, call: Call<Entry>, fifo: bool)
    requires Apart(w) && head in Members(w) && (call.Put? ==> CanPut(w, head, call.x))
    ensures Members(Serve(w, head, call, fifo).0) <= Members(w) + (if call.Put? then {call.x} else {})
  {
    match call
    case Put(x) =>
      ApplyApart(w, if fifo then Op.AddBefore(head, x) else Op.AddAfter(head, x));
    case Take =>
      var s := RingOf(w, head);
      var first := s[Succ(IndexOf(s, head), |s|)];
      if first != head {
        assert first in s;
        ApplyApart(w, Op.Del(first));
      }
  }

  /** One call of a client on the list of head: list_add_before or list_add, or list_del of
      the entry behind the head unless that is the head itself. */
  method ServeCall(head: Entry, call: Call<Entry>, fifo: bool, ghost w: World<Entry>)
    returns (served: seq<Entry>)
    requires Linked(w) && head in Members(w) && (call.Put? ==> CanPut(w, head, call.x))
    modifies Members(w), if call.Put? then {call.x} else {}
    ensures Linked(Serve(w, head, call, fifo).0) && served == Serve(w, head, call, fifo).1
  {
    served := [];
    match call
    case Put(x) =>
      Neighbours(w, head);
      if fifo {
        AddBefore(head, x, w);
      } else {
        AddAfter(head, x, w);
      }
    case Take =>
      var first := Next(head, w);
      if first != head {
        Neighbours(w, head);
        Neighbours(w, first);
        Del(first, w);
        served := [first];
      }
  }

  /** After k calls the world is v and these entries have been given out. */
  ghost predicate Serving(w: World<Entry>, v: World<Entry>, head: Entry, calls: seq<Call<Entry>>, k: nat,
                          fifo: bool, served: seq<Entry>)
    requires CanServe(w, head, calls, fifo)
  {
    && k <= |calls| && CanServe(v, head, calls[k..], fifo)
    && var (u, later) := ServeAll(v, head, calls[k..], fifo);
       ServeAll(w, head, calls, fifo) == (u, served + later)
  }

  lemma {:induction false} ServingStart(w: World<Entry>, head: Entry, calls: seq<Call<Entry>>, fifo: bool)
    requires CanServe(w, head, calls, fifo)
    ensures Serving(w, w, head, calls, 0, fifo, [])
  {
    assert calls[0..] == calls;
    var served := ServeAll(w, head, calls, fifo).1;
    assert [] + served == served;
  }

  lemma {:induction false} ServingStep(w: World<Entry>, v: World<Entry>, head: Entry, calls: seq<Call<Entry>>, k: nat,
                                       fifo: bool, served: seq<Entry>)
    requires CanServe(w, head, calls, fifo) && k < |calls| && Serving(w, v, head, calls, k, fifo, served)
    ensures head in Members(v) && (calls[k].Put? ==> CanPut(v, head, calls[k].x))
    ensures var (next, first) := Serve(v, head, calls[k], fifo);
      Serving(w, next, head, calls, k + 1, fifo, served + first)
  {
    assert calls[k..][0] == calls[k] && calls[k..][1..] == calls[k + 1..];
    var (next, first) := Serve(v, head, calls[k], fifo);
    var later := ServeAll(next, head, calls[k + 1..], fifo).1;
    assert served + (first + later) == (served + first) + later;
  }

  lemma {:induction false} ServingDone(w: World<Entry>, v: World<Entry>, head: Entry, calls: seq<Call<Entry>>,
                                       fifo: bool, served: seq<Entry>)
    requires CanServe(w, head, calls, fifo) && Serving(w, v, head, calls, |calls|, fifo, served)
    ensures ServeAll(w, head, calls, fifo) == (v, served)
  {
    assert calls[|calls|..] == [] && served + [] == served;
  }

  /** A list used through its head as a queue or as a stack: over any run of calls the linked
      entries are given out, and left in the list, just as by a queue or a stack. */
  method ServeRun(head: Entry, calls: seq<Call<Entry>>, fifo: bool, ghost w: World<Entry>, ghost q: seq<Entry>)
    returns (served: seq<Entry>, ghost left: seq<Entry>)
    requires Linked(w) && HasList(w, head, q) && CanServe(w, head, calls, fifo)
    modifies Members(w), PutIn(calls)
    ensures Linked(ServeAll(w, head, calls, fifo).0) && HasList(ServeAll(w, head, calls, fifo).0, head, left)
    ensures if fifo then served + left == q + Puts(calls) else (served, left) == StackRun(q, calls)
  {
    ghost var v := w;
    served := [];
    ServingStart(w, head, calls, fifo);
    for k := 0 to |calls|
      invariant Linked(v) && Serving(w, v, head, calls, k, fifo, served)
      invariant Members(v) <= Members(w) + PutIn(calls)
    {
      assert calls[k] in calls;
      ServingStep(w, v, head, calls, k, fifo, served);
      ServeMembers(v, head, calls[k], fifo);
      ghost var next := Serve(v, head, calls[k], fifo).0;
      var first := ServeCall(head, calls[k], fifo, v);
      served := served + first;
      v := next;
    }
    ServingDone(w, v, head, calls, fifo, served);
    if fifo {
      left := FifoRun(w, head, q, calls);
    } else {
      LifoRun(w, head, q, calls);
      left := StackRun(q, calls).1;
    }
  }
}
