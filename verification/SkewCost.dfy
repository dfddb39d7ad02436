/** The amortised cost of the skew heap, and whole runs of inserts and removals.  The
    unit of cost is a call of merge in which both arguments are non-empty. */
module SkewCost {
  import opened PowersOfTwo
  import opened SkewTree

  function BitLength(n: nat): nat {
    if n == 0 then 0 else 1 + BitLength(n / 2)
  }

  function Steps<T>(a: Tree<T>, b: Tree<T>, comp: (T, T) -> int): nat
    decreases a, b
  {
    if a.Leaf? || b.Leaf? then 0
    else if comp(a.elem, b.elem) == -1 then 1 + Steps(a.right, b, comp)
    else 1 + Steps(a, b.right, comp)
  }

  function RemoveSteps<T(==)>(t: Tree<T>, x: T, comp: (T, T) -> int): nat
    requires x in Nodes(t)
  {
    var s := Subtree(t, x);
    Steps(s.left, s.right, comp)
  }

  /** 1 for a node whose right subtree is the larger one. */
  ghost function Heavy<T>(t: Tree<T>): nat {
    if t.Node? && Size(t.right) > Size(t.left) then 1 else 0
  }

  /** The potential: how many nodes are heavy on the right. */
  ghost function Potential<T>(t: Tree<T>): nat {
    match t
    case Leaf => 0
    case Node(l, x, r) => Heavy(t) + Potential(l) + Potential(r)
  }

  lemma {:induction false} BitLengthIs(n: nat)
    requires n > 0
    ensures BitLength(n) > 0 && Pow2(BitLength(n) - 1) <= n < Pow2(BitLength(n))
  {
    if n > 1 {
      BitLengthIs(n / 2);
    }
  }

  /** What skew_heap_init makes of an entry. */
  function Single<T>(x: T): Tree<T> { Node(Leaf, x, Leaf) }

  ghost function Rank<T>(t: Tree<T>): nat { BitLength(Size(t)) }

  /** Along two right spines, the smaller head first and the second one's at a tie, until one
      spine is used up. */
  function Woven<T>(xs: seq<T>, ys: seq<T>, comp: (T, T) -> int): seq<T>
    decreases |xs| + |ys|
  {
    if xs == [] || ys == [] then []
    else if comp(xs[0], ys[0]) == -1 then [xs[0]] + Woven(xs[1..], ys, comp)
    else [ys[0]] + Woven(xs, ys[1..], comp)
  }

  /** A merge weaves the right spines into the left spine of the result, one element a
      step. */
  lemma {:induction false} MergeWeaves<T>(a: Tree<T>, b: Tree<T>, comp: (T, T) -> int)
    ensures var woven := Woven(RightSpine(a), RightSpine(b), comp);
      woven <= LeftSpine(Merge(a, b, comp)) && |woven| == Steps(a, b, comp)
    decreases a, b
  {
    if a.Node? && b.Node? {
      if comp(a.elem, b.elem) == -1 {
        MergeWeaves(a.right, b, comp);
      } else {
        MergeWeaves(a, b.right, comp);
      }
    }
  }

  lemma {:induction false} BitLengthMonotone(m: nat, n: nat)
    requires m <= n
    ensures BitLength(m) <= BitLength(n)
  {
    if m > 0 {
      BitLengthMonotone(m / 2, n / 2);
    }
  }

  /** A subtree of no more than half the other nodes has a smaller rank. */
  lemma {:induction false} LighterRank(part: nat, whole: nat)
    requires 2 * part + 1 <= whole
    ensures BitLength(part) + 1 <= BitLength(whole)
  {
    BitLengthMonotone(part, whole / 2);
  }

  /** Each step of a merge descends a right spine and swaps.  A heavy node pays for its
      step by becoming light; a light one by the rank it loses on the way down. */
  lemma {:induction false} MergeCost<T>(a: Tree<T>, b: Tree<T>, comp: (T, T) -> int)
    ensures Steps(a, b, comp) + Potential(Merge(a, b, comp))
         <= Potential(a) + Potential(b) + 2 * (Rank(a) + Rank(b))
    decreases a, b
  {
    if a.Node? && b.Node? {
      if comp(a.elem, b.elem) == -1 {
        MergeCost(a.right, b, comp);
        MergeNodes(a.right, b, comp);
        SpineRank(a);
      } else {
        MergeCost(a, b.right, comp);
        MergeNodes(a, b.right, comp);
        SpineRank(b);
      }
    }
  }

  lemma {:induction false} SpineRank<T>(t: Tree<T>)
    requires t.Node?
    ensures Rank(t.right) + 1 <= Rank(t) + Heavy(t)
    ensures Rank(t.right) <= Rank(t)
  {
    BitLengthMonotone(Size(t.right), Size(t));
    if Heavy(t) == 0 {
      LighterRank(Size(t.right), Size(t));
    }
  }

  /** Removing x merges its two subtrees; besides, an ancestor may turn heavy when its
      left subtree shrinks, but then its two subtrees were equally large, so this
      happens at most once per rank. */
  lemma {:induction false} RemoveCost<T>(t: Tree<T>, x: T, comp: (T, T) -> int)
    requires x in Nodes(t) && Distinct(t)
    ensures RemoveSteps(t, x, comp) + Potential(Remove(t, x, comp)) <= Potential(t) + 4 * Rank(t)
  {
    if t.elem == x {
      MergeCost(t.left, t.right, comp);
      BitLengthMonotone(Size(t.left), Size(t));
      BitLengthMonotone(Size(t.right), Size(t));
    } else {
      var child := if x in Nodes(t.left) then t.left else t.right;
      RemoveCost(child, x, comp);
      RemoveNodes(child, x, comp);
      BitLengthMonotone(Size(child), Size(t));
      if x in Nodes(t.left) && Size(t.left) == Size(t.right) {
        LighterRank(Size(t.left), Size(t));
      }
    }
  }

  lemma {:induction false} InsertCost<T>(t: Tree<T>, x: T, comp: (T, T) -> int)
    ensures Steps(t, Single(x), comp) + Potential(Merge(t, Single(x), comp))
         <= Potential(t) + 4 * BitLength(Size(t) + 1)
  {
    var b := Single(x);
    MergeCost(t, b, comp);
    assert Size(b) == 1 && Size(b.left) == 0;
    assert Potential(b) == 0;
    assert BitLength(1) == 1 + BitLength(0);
    BitLengthMonotone(Size(t), Size(t) + 1);
    BitLengthMonotone(1, Size(t) + 1);
  }

  // ----- Whole runs -----

  datatype Op<T> = Insert(x: T) | Delete(x: T)

  /** What is in the heap after a run: everything inserted and not removed since. */
  function Content<T(==)>(ops: seq<Op<T>>): set<T> {
    if ops == [] then {}
    else
      var before := Content(ops[..|ops| - 1]);
      match ops[|ops| - 1]
      case Insert(x) => before + {x}
      case Delete(x) => before - {x}
  }

  /** Only elements outside the heap are inserted, only members are removed. */
  predicate Legal<T(==)>(ops: seq<Op<T>>) {
    ops != [] ==>
      var front := ops[..|ops| - 1];
      && Legal(front)
      && match ops[|ops| - 1]
         case Insert(x) => x !in Content(front)
         case Delete(x) => x in Content(front)
  }

  /** The largest number of elements held at any time. */
  function Peak<T(==)>(ops: seq<Op<T>>): nat {
    if ops == [] then 0
    else
      var before := Peak(ops[..|ops| - 1]);
      var now := |Content(ops)|;
      if now > before then now else before
  }

  /** One operation; removing what is not there is outside the source's contract and
      changes nothing here. */
  function Apply<T(==)>(t: Tree<T>, op: Op<T>, comp: (T, T) -> int): Tree<T> {
    match op
    case Insert(x) => Merge(t, Single(x), comp)
    case Delete(x) => if x in Nodes(t) then Remove(t, x, comp) else t
  }

  function ApplySteps<T(==)>(t: Tree<T>, op: Op<T>, comp: (T, T) -> int): nat {
    match op
    case Insert(x) => Steps(t, Single(x), comp)
    case Delete(x) => if x in Nodes(t) then RemoveSteps(t, x, comp) else 0
  }

  /** The heap after a run from the empty one.  Every operation brings its own comparator:
      comps(k) is the order by which the k-th operation compares. */
  function After<T(==)>(ops: seq<Op<T>>, comps: nat -> (T, T) -> int): Tree<T> {
    if ops == [] then Leaf
    else Apply(After(ops[..|ops| - 1], comps), ops[|ops| - 1], comps(|ops| - 1))
  }

  function TotalSteps<T(==)>(ops: seq<Op<T>>, comps: nat -> (T, T) -> int): nat {
    if ops == [] then 0
    else
      var front := ops[..|ops| - 1];
      TotalSteps(front, comps) + ApplySteps(After(front, comps), ops[|ops| - 1], comps(|front|))
  }

  function Involved<T(==)>(ops: seq<Op<T>>): set<T> {
    set op | op in ops :: op.x
  }

  lemma {:induction false} SizeIsCardinality<T>(t: Tree<T>)
    requires Distinct(t)
    ensures Size(t) == |Nodes(t)|
  {
    if t.Node? {
      SizeIsCardinality(t.left);
      SizeIsCardinality(t.right);
      assert |Nodes(t)| == |Nodes(t.left)| + 1 + |Nodes(t.right)|;
    }
  }

  lemma {:induction false} ApplyNodes<T>(t: Tree<T>, op: Op<T>, comp: (T, T) -> int)
    requires Distinct(t) && (op.Insert? <==> op.x !in Nodes(t))
    ensures Nodes(Apply(t, op, comp)) == if op.Insert? then Nodes(t) + {op.x} else Nodes(t) - {op.x}
    ensures Distinct(Apply(t, op, comp))
    ensures Size(Apply(t, op, comp)) == if op.Insert? then Size(t) + 1 else Size(t) - 1
  {
    match op
    case Insert(x) =>
      var b := Single(x);
      assert Nodes(b) == {x} && Distinct(b) && Size(b) == 1;
      MergeNodes(t, b, comp);
    case Delete(x) =>
      RemoveNodes(t, x, comp);
  }

  /** A run holds exactly what was inserted and not removed, each element once. */
  lemma {:induction false} RunContent<T>(ops: seq<Op<T>>, comps: nat -> (T, T) -> int)
    requires Legal(ops)
    ensures Nodes(After(ops, comps)) == Content(ops)
    ensures Distinct(After(ops, comps))
    ensures Size(After(ops, comps)) == |Content(ops)|
  {
    if ops != [] {
      var front := ops[..|ops| - 1];
      RunContent(front, comps);
      ApplyNodes(After(front, comps), ops[|ops| - 1], comps(|front|));
    }
    SizeIsCardinality(After(ops, comps));
  }

  lemma {:induction false} ApplyOrdered<T>(t: Tree<T>, op: Op<T>, comp: (T, T) -> int, s: set<T>)
    requires Nodes(t) <= s && op.x in s && Comparator(comp, s) && HeapOrdered(t, comp)
    ensures HeapOrdered(Apply(t, op, comp), comp)
  {
    match op
    case Insert(x) =>
      assert Nodes(Single(x)) == {x} && HeapOrdered(Single(x), comp);
      MergeOrdered(t, Single(x), comp, s);
    case Delete(x) =>
      if x in Nodes(t) {
        RemoveOrdered(t, x, comp, s);
      }
  }

  /** Two comparators have the same "less" on the elements of s. */
  ghost predicate Agree<T>(c: (T, T) -> int, d: (T, T) -> int, s: set<T>) {
    forall x, y | x in s && y in s :: AtMost(c, x, y) <==> AtMost(d, x, y)
  }

  /** What a client owes over a run: each operation compares by a strict weak order on the
      elements then in play, and from one operation to the next the order changes on no
      element that stays in the heap.  Keys of elements outside the heap may change at any
      time; comps(|ops|) is the order in force after the run. */
  ghost predicate Steady<T>(ops: seq<Op<T>>, comps: nat -> (T, T) -> int) {
    ops != [] ==>
      var front, last := ops[..|ops| - 1], ops[|ops| - 1];
      && Steady(front, comps)
      && Comparator(comps(|front|), Content(front) + {last.x})
      && Agree(comps(|front|), comps(|ops|), Content(ops))
  }

  /** One comparator for the whole run, a strict weak order on all entries involved, is
      steady. */
  lemma {:induction false} FixedIsSteady<T>(ops: seq<Op<T>>, comp: (T, T) -> int, s: set<T>)
    requires Comparator(comp, s) && forall i | 0 <= i < |ops| :: ops[i].x in s
    ensures Steady(ops, _ => comp) && Content(ops) <= s
  {
    if ops != [] {
      var front, last := ops[..|ops| - 1], ops[|ops| - 1];
      FixedIsSteady(front, comp, s);
      ComparatorWithin(comp, s, Content(front) + {last.x});
    }
  }

  lemma {:induction false} OrderedAgree<T>(t: Tree<T>, c: (T, T) -> int, d: (T, T) -> int, s: set<T>)
    requires Nodes(t) <= s && Agree(c, d, s) && HeapOrdered(t, c)
    ensures HeapOrdered(t, d)
  {
    if t.Node? {
      OrderedAgree(t.left, c, d, s);
      OrderedAgree(t.right, c, d, s);
    }
  }

  lemma {:induction false} ComparatorAgree<T>(c: (T, T) -> int, d: (T, T) -> int, s: set<T>)
    requires Comparator(c, s) && Agree(c, d, s)
    ensures Comparator(d, s)
  {
  }

  lemma {:induction false} ComparatorWithin<T>(c: (T, T) -> int, s: set<T>, part: set<T>)
    requires Comparator(c, s) && part <= s
    ensures Comparator(c, part)
  {
  }

  /** The heap is ordered by the comparator in force. */
  lemma {:induction false} RunOrdered<T>(ops: seq<Op<T>>, comps: nat -> (T, T) -> int)
    requires Legal(ops) && Steady(ops, comps)
    ensures Comparator(comps(|ops|), Content(ops))
    ensures HeapOrdered(After(ops, comps), comps(|ops|))
  {
    if ops != [] {
      var front, last := ops[..|ops| - 1], ops[|ops| - 1];
      var comp, s := comps(|front|), Content(front) + {last.x};
      RunOrdered(front, comps);
      RunContent(front, comps);
      RunContent(ops, comps);
      ApplyOrdered(After(front, comps), last, comp, s);
      OrderedAgree(After(ops, comps), comp, comps(|ops|), Content(ops));
      ComparatorWithin(comp, s, Content(ops));
      ComparatorAgree(comp, comps(|ops|), Content(ops));
    }
  }

  /** A run refines a priority queue: the heap holds exactly the live elements, each
      once, is heap ordered, and its root is at most every one of them. */
  lemma {:induction false} RunIsPriorityQueue<T>(ops: seq<Op<T>>, comps: nat -> (T, T) -> int)
    requires Legal(ops) && Steady(ops, comps)
    ensures Nodes(After(ops, comps)) == Content(ops) && Distinct(After(ops, comps))
    ensures HeapOrdered(After(ops, comps), comps(|ops|))
    ensures forall x | x in Content(ops) ::
              After(ops, comps).Node? && AtMost(comps(|ops|), After(ops, comps).elem, x)
  {
    RunContent(ops, comps);
    RunOrdered(ops, comps);
    forall x | x in Content(ops)
      ensures After(ops, comps).Node? && AtMost(comps(|ops|), After(ops, comps).elem, x)
    {
      RootIsMinimal(After(ops, comps), comps(|ops|), Content(ops), x);
    }
  }

  lemma {:induction false} DisjointUnion<T>(a: set<T>, x: T, b: set<T>)
    requires x !in a && x !in b && a !! b
    ensures multiset(a + {x} + b) == multiset(a) + multiset{x} + multiset(b)
  {
  }

  lemma {:induction false} DistinctElems<T>(t: Tree<T>)
    requires Distinct(t)
    ensures Elems(t) == multiset(Nodes(t))
  {
    if t.Node? {
      DistinctElems(t.left);
      DistinctElems(t.right);
      DisjointUnion(Nodes(t.left), t.elem, Nodes(t.right));
    }
  }

  /** After any run, removing the root until nothing is left yields the live elements in
      ascending order, each exactly once. */
  lemma {:induction false} RunThenDrain<T>(ops: seq<Op<T>>, comps: nat -> (T, T) -> int)
    requires Legal(ops) && Steady(ops, comps)
    ensures multiset(Drain(After(ops, comps), comps(|ops|))) == multiset(Content(ops))
    ensures Ascending(comps(|ops|), Drain(After(ops, comps), comps(|ops|)))
  {
    RunContent(ops, comps);
    RunOrdered(ops, comps);
    DrainSorts(After(ops, comps), comps(|ops|), Content(ops));
    DistinctElems(After(ops, comps));
  }

  lemma {:induction false} ApplyCost<T>(t: Tree<T>, op: Op<T>, comp: (T, T) -> int, n: nat)
    requires Distinct(t) && (op.Insert? <==> op.x !in Nodes(t))
    requires Size(t) <= n && (op.Insert? ==> Size(t) < n)
    ensures ApplySteps(t, op, comp) + Potential(Apply(t, op, comp)) <= Potential(t) + 4 * BitLength(n)
  {
    match op
    case Insert(x) =>
      InsertCost(t, x, comp);
      BitLengthMonotone(Size(t) + 1, n);
    case Delete(x) =>
      RemoveCost(t, x, comp);
      BitLengthMonotone(Size(t), n);
  }

  /** Of two entries that are not less than each other, the new one comes out on top. */
  lemma {:induction false} InsertTop<T>(t: Tree<T>, x: T, comp: (T, T) -> int)
    ensures var u := Apply(t, Insert(x), comp);
      u.Node? && u.elem == (if t.Node? && comp(t.elem, x) == -1 then t.elem else x)
  {
  }

  /** After the root is removed, the right child is on top unless the left one is less. */
  lemma {:induction false} DeleteTop<T>(t: Tree<T>, comp: (T, T) -> int)
    requires t.Node?
    ensures var u := Apply(t, Delete(t.elem), comp);
      if t.left.Leaf? then u == t.right
      else if t.right.Leaf? then u == t.left
      else u.Node? && u.elem == (if comp(t.left.elem, t.right.elem) == -1 then t.left.elem else t.right.elem)
  {
  }

  lemma {:induction false} PeakReached<T>(ops: seq<Op<T>>) returns (k: nat)
    ensures k <= |ops| && |Content(ops[..k])| == Peak(ops)
  {
    if ops == [] {
      k := 0;
    } else {
      var front := ops[..|ops| - 1];
      if |Content(ops)| > Peak(front) {
        k := |ops|;
        assert ops[..k] == ops;
      } else {
        k := PeakReached(front);
        assert front[..k] == ops[..k];
      }
    }
  }

  lemma {:induction false} PeakCovers<T>(ops: seq<Op<T>>, k: nat)
    requires k <= |ops|
    ensures |Content(ops[..k])| <= Peak(ops)
  {
    if k < |ops| {
      var front := ops[..|ops| - 1];
      assert front[..k] == ops[..k];
      PeakCovers(front, k);
    } else {
      assert ops[..k] == ops;
    }
  }

  lemma {:induction false} Distribute(m: nat, k: nat)
    ensures (m + 1) * k == m * k + k
  {
  }

  lemma {:induction false} CostWithin<T>(ops: seq<Op<T>>, comps: nat -> (T, T) -> int, n: nat)
    requires Legal(ops) && Peak(ops) <= n
    ensures TotalSteps(ops, comps) + Potential(After(ops, comps)) <= 4 * (|ops| * BitLength(n))
  {
    if ops == [] {
      assert Potential(After(ops, comps)) == 0;
    } else {
      var front := ops[..|ops| - 1];
      CostWithin(front, comps, n);
      RunContent(front, comps);
      RunContent(ops, comps);
      PeakCovers(ops, |front|);
      PeakCovers(ops, |ops|);
      assert ops[..|ops|] == ops;
      ApplyCost(After(front, comps), ops[|ops| - 1], comps(|front|), n);
      Distribute(|front|, BitLength(n));
    }
  }

  /** The amortised bound: m operations on a heap that never holds more than N elements
      take at most 4 * m * bitlength(N) merge steps, whatever the comparators answer. */
  lemma {:induction false} AmortisedBound<T>(ops: seq<Op<T>>, comps: nat -> (T, T) -> int)
    requires Legal(ops)
    ensures TotalSteps(ops, comps) <= 4 * (|ops| * BitLength(Peak(ops)))
  {
    CostWithin(ops, comps, Peak(ops));
  }

  // ----- Prefixes of a run -----

  lemma {:induction false} LegalUpTo<T>(ops: seq<Op<T>>, k: nat)
    requires k <= |ops| && Legal(ops)
    ensures Legal(ops[..k])
  {
    if k == |ops| {
      assert ops[..k] == ops;
    } else {
      var front := ops[..|ops| - 1];
      assert front[..k] == ops[..k];
      LegalUpTo(front, k);
    }
  }

  lemma {:induction false} ContentInvolved<T>(ops: seq<Op<T>>, k: nat)
    requires k <= |ops|
    ensures Content(ops[..k]) <= Involved(ops)
  {
    if k > 0 {
      ContentInvolved(ops, k - 1);
      assert ops[..k][..k - 1] == ops[..k - 1];
      assert ops[k - 1] in ops;
    }
  }

  /** The k-th operation of a legal run is performed on the heap that the run before it
      leaves, where it is enabled. */
  lemma {:induction false} RunStep<T>(ops: seq<Op<T>>, k: nat, comps: nat -> (T, T) -> int)
    requires k < |ops| && Legal(ops)
    ensures var t := After(ops[..k], comps);
      && Nodes(t) <= Involved(ops) && ops[k].x in Involved(ops)
      && (ops[k].Insert? <==> ops[k].x !in Nodes(t))
      && After(ops[..k + 1], comps) == Apply(t, ops[k], comps(k))
      && TotalSteps(ops[..k + 1], comps) == TotalSteps(ops[..k], comps) + ApplySteps(t, ops[k], comps(k))
  {
    var next := ops[..k + 1];
    assert next[..k] == ops[..k] && next[k] == ops[k] && ops[k] in ops;
    LegalUpTo(ops, k);
    LegalUpTo(ops, k + 1);
    ContentInvolved(ops, k);
    RunContent(ops[..k], comps);
  }
}
