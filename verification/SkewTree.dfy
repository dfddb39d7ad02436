/** The skew heap of skew_heap.h as a value: a binary tree, its merge, the removal of
    an arbitrary element, and what these keep.  SkewHeap ties the linked entries to
    these trees; SkewCost bounds the work.

    A comparator answers -1 for "less" and anything else for "not less"; no other
    answer is looked at. */
module SkewTree {

  datatype Tree<T> = Leaf | Node(left: Tree<T>, elem: T, right: Tree<T>)

  predicate AtMost<T>(comp: (T, T) -> int, x: T, y: T) {
    comp(y, x) != -1
  }

  /** No two elements are each less than the other. */
  ghost predicate Asymmetric<T>(comp: (T, T) -> int, s: set<T>) {
    forall x, y | x in s && y in s :: AtMost(comp, x, y) || AtMost(comp, y, x)
  }

  /** What a caller owes: on the elements in play, "less" is asymmetric and its
      complement is transitive (a strict weak order). */
  ghost predicate Comparator<T>(comp: (T, T) -> int, s: set<T>) {
    && Asymmetric(comp, s)
    && (forall x, y, z | x in s && y in s && z in s ::
          AtMost(comp, x, y) && AtMost(comp, y, z) ==> AtMost(comp, x, z))
  }

  function Nodes<T(==)>(t: Tree<T>): set<T> {
    match t
    case Leaf => {}
    case Node(l, x, r) => Nodes(l) + {x} + Nodes(r)
  }

  ghost function Elems<T>(t: Tree<T>): multiset<T> {
    match t
    case Leaf => multiset{}
    case Node(l, x, r) => Elems(l) + multiset{x} + Elems(r)
  }

  function Size<T>(t: Tree<T>): nat {
    match t
    case Leaf => 0
    case Node(l, x, r) => Size(l) + 1 + Size(r)
  }

  /** No element occurs twice. */
  predicate Distinct<T(==)>(t: Tree<T>) {
    match t
    case Leaf => true
    case Node(l, x, r) =>
      x !in Nodes(l) && x !in Nodes(r) && Nodes(l) !! Nodes(r) && Distinct(l) && Distinct(r)
  }

  /** Each element is at most the roots of its two subtrees. */
  predicate HeapOrdered<T>(t: Tree<T>, comp: (T, T) -> int) {
    match t
    case Leaf => true
    case Node(l, x, r) =>
      && (l.Node? ==> AtMost(comp, x, l.elem)) && HeapOrdered(l, comp)
      && (r.Node? ==> AtMost(comp, x, r.elem)) && HeapOrdered(r, comp)
  }

  function Merge<T>(a: Tree<T>, b: Tree<T>, comp: (T, T) -> int): Tree<T>
    decreases a, b
  {
    if a.Leaf? then b
    else if b.Leaf? then a
    else if comp(a.elem, b.elem) == -1 then Node(Merge(a.right, b, comp), a.elem, a.left)
    else Node(Merge(a, b.right, comp), b.elem, b.left)
  }

  /** The elements met on the way down to the right, and to the left. */
  function RightSpine<T>(t: Tree<T>): seq<T> {
    if t.Leaf? then [] else [t.elem] + RightSpine(t.right)
  }

  function LeftSpine<T>(t: Tree<T>): seq<T> {
    if t.Leaf? then [] else [t.elem] + LeftSpine(t.left)
  }

  /** The subtree rooted at x. */
  function Subtree<T(==)>(t: Tree<T>, x: T): (s: Tree<T>)
    requires x in Nodes(t)
    ensures s.Node? && s.elem == x && Nodes(s) <= Nodes(t)
    ensures Distinct(t) && x != t.elem ==> t.elem !in Nodes(s)
  {
    if t.elem == x then t
    else if x in Nodes(t.left) then Subtree(t.left, x)
    else Subtree(t.right, x)
  }

  /** The element whose child x is. */
  function ParentOf<T(==)>(t: Tree<T>, x: T): (p: T)
    requires x in Nodes(t) && x != t.elem
    ensures p in Nodes(t)
  {
    var child := if x in Nodes(t.left) then t.left else t.right;
    assert x in Nodes(child);
    if child.elem == x then t.elem else ParentOf(child, x)
  }

  /** t with the subtree rooted at x replaced by s. */
  function Replace<T(==)>(t: Tree<T>, x: T, s: Tree<T>): Tree<T>
    requires x in Nodes(t)
  {
    if t.elem == x then s
    else if x in Nodes(t.left) then Node(Replace(t.left, x, s), t.elem, t.right)
    else Node(t.left, t.elem, Replace(t.right, x, s))
  }

  function Remove<T(==)>(t: Tree<T>, x: T, comp: (T, T) -> int): Tree<T>
    requires x in Nodes(t)
  {
    var s := Subtree(t, x);
    Replace(t, x, Merge(s.left, s.right, comp))
  }

  // ----- Merge -----

  /** Merging neither loses nor duplicates an element. */
  lemma {:induction false} MergeConserves<T>(a: Tree<T>, b: Tree<T>, comp: (T, T) -> int)
    ensures Elems(Merge(a, b, comp)) == Elems(a) + Elems(b)
    decreases a, b
  {
    if a.Node? && b.Node? {
      if comp(a.elem, b.elem) == -1 {
        MergeConserves(a.right, b, comp);
      } else {
        MergeConserves(a, b.right, comp);
      }
    }
  }

  lemma {:induction false} MergeNodes<T>(a: Tree<T>, b: Tree<T>, comp: (T, T) -> int)
    ensures Nodes(Merge(a, b, comp)) == Nodes(a) + Nodes(b)
    ensures Size(Merge(a, b, comp)) == Size(a) + Size(b)
    ensures Distinct(a) && Distinct(b) && Nodes(a) !! Nodes(b) ==> Distinct(Merge(a, b, comp))
    decreases a, b
  {
    if a.Node? && b.Node? {
      if comp(a.elem, b.elem) == -1 {
        MergeNodes(a.right, b, comp);
      } else {
        MergeNodes(a, b.right, comp);
      }
    }
  }

  /** Merging keeps the heap order; only the asymmetry of "less" is needed. */
  lemma {:induction false} MergeOrdered<T>(a: Tree<T>, b: Tree<T>, comp: (T, T) -> int, s: set<T>)
    requires Nodes(a) <= s && Nodes(b) <= s && Asymmetric(comp, s)
    requires HeapOrdered(a, comp) && HeapOrdered(b, comp)
    ensures HeapOrdered(Merge(a, b, comp), comp)
    decreases a, b
  {
    if a.Node? && b.Node? {
      assert AtMost(comp, a.elem, b.elem) || AtMost(comp, b.elem, a.elem);
      if comp(a.elem, b.elem) == -1 {
        MergeOrdered(a.right, b, comp, s);
      } else {
        MergeOrdered(a, b.right, comp, s);
      }
    }
  }

  /** The root is at most every element. */
  lemma {:induction false} RootIsMinimal<T>(t: Tree<T>, comp: (T, T) -> int, s: set<T>, x: T)
    requires t.Node? && x in Nodes(t) && Nodes(t) <= s && Comparator(comp, s) && HeapOrdered(t, comp)
    ensures AtMost(comp, t.elem, x)
  {
    if x == t.elem {
      assert AtMost(comp, x, x) || AtMost(comp, x, x);
    } else {
      var child := if x in Nodes(t.left) then t.left else t.right;
      RootIsMinimal(child, comp, s, x);
      assert AtMost(comp, t.elem, child.elem) && AtMost(comp, child.elem, x);
    }
  }

  // ----- Remove -----

  /** Replacing a subtree by a tree over the same elements without its root takes out
      exactly that root. */
  lemma {:induction false} ReplaceNodes<T>(t: Tree<T>, x: T, m: Tree<T>)
    requires x in Nodes(t) && Distinct(t)
    requires Distinct(m) && Nodes(m) == Nodes(Subtree(t, x)) - {x} && Size(m) + 1 == Size(Subtree(t, x))
    ensures Nodes(Replace(t, x, m)) == Nodes(t) - {x}
    ensures Size(Replace(t, x, m)) + 1 == Size(t)
    ensures Distinct(Replace(t, x, m))
  {
    if t.elem != x {
      if x in Nodes(t.left) {
        ReplaceNodes(t.left, x, m);
      } else {
        ReplaceNodes(t.right, x, m);
      }
    }
  }

  lemma {:induction false} SubtreeDistinct<T>(t: Tree<T>, x: T)
    requires x in Nodes(t) && Distinct(t)
    ensures Distinct(Subtree(t, x))
  {
    if t.elem != x {
      SubtreeDistinct(if x in Nodes(t.left) then t.left else t.right, x);
    }
  }

  /** Removal takes out x and nothing else. */
  lemma {:induction false} RemoveNodes<T>(t: Tree<T>, x: T, comp: (T, T) -> int)
    requires x in Nodes(t) && Distinct(t)
    ensures Nodes(Remove(t, x, comp)) == Nodes(t) - {x}
    ensures Size(Remove(t, x, comp)) + 1 == Size(t)
    ensures Distinct(Remove(t, x, comp))
  {
    var s := Subtree(t, x);
    SubtreeDistinct(t, x);
    MergeNodes(s.left, s.right, comp);
    ReplaceNodes(t, x, Merge(s.left, s.right, comp));
  }

  /** Replacing a subtree by an ordered tree whose root is not above x's place keeps the
      order of all ancestors: by transitivity, the parent of x is at most the new root. */
  lemma {:induction false} ReplaceOrdered<T>(t: Tree<T>, x: T, m: Tree<T>, comp: (T, T) -> int, s: set<T>)
    requires x in Nodes(t) && Nodes(t) <= s && Nodes(m) <= s && Comparator(comp, s)
    requires HeapOrdered(t, comp) && HeapOrdered(m, comp) && (m.Node? ==> AtMost(comp, x, m.elem))
    ensures HeapOrdered(Subtree(t, x), comp)
    ensures HeapOrdered(Replace(t, x, m), comp)
    ensures Replace(t, x, m).Node? && t.elem != x ==> Replace(t, x, m).elem == t.elem
  {
    if t.elem != x {
      var child := if x in Nodes(t.left) then t.left else t.right;
      ReplaceOrdered(child, x, m, comp, s);
      if child.elem == x && m.Node? {
        assert AtMost(comp, t.elem, x) && AtMost(comp, x, m.elem);
        assert m.elem in s;
      }
    }
  }

  /** Removing an arbitrary element keeps the heap order. */
  lemma {:induction false} RemoveOrdered<T>(t: Tree<T>, x: T, comp: (T, T) -> int, s: set<T>)
    requires x in Nodes(t) && Nodes(t) <= s && Comparator(comp, s) && HeapOrdered(t, comp)
    ensures HeapOrdered(Remove(t, x, comp), comp)
  {
    var b := Subtree(t, x);
    ReplaceOrdered(t, x, Leaf, comp, s);
    MergeOrdered(b.left, b.right, comp, s);
    MergeNodes(b.left, b.right, comp);
    ReplaceOrdered(t, x, Merge(b.left, b.right, comp), comp, s);
  }

  /** The parent of x holds x as a direct child, and replacing below the parent is
      replacing in the whole. */
  lemma {:induction false} ParentChild<T>(t: Tree<T>, x: T, m: Tree<T>)
    requires x in Nodes(t) && Distinct(t) && x != t.elem
    ensures var up := Subtree(t, ParentOf(t, x));
      && (up.left == Subtree(t, x) || up.right == Subtree(t, x))
      && x in Nodes(up) && x != up.elem
      && Replace(t, x, m) == Replace(t, up.elem, Replace(up, x, m))
  {
    var child := if x in Nodes(t.left) then t.left else t.right;
    if child.elem != x {
      ParentChild(child, x, m);
    }
  }

  // ----- Taking the root out repeatedly -----

  /** The elements in the order in which removing the root again and again yields them. */
  function Drain<T(==)>(t: Tree<T>, comp: (T, T) -> int): seq<T>
    decreases Size(t)
  {
    if t.Leaf? then []
    else
      MergeNodes(t.left, t.right, comp);
      [t.elem] + Drain(Remove(t, t.elem, comp), comp)
  }

  lemma {:induction false} DrainNext<T>(t: Tree<T>, comp: (T, T) -> int, out: seq<T>)
    requires t.Node?
    ensures out + Drain(t, comp) == out + [t.elem] + Drain(Remove(t, t.elem, comp), comp)
  {
    var rest := Drain(Remove(t, t.elem, comp), comp);
    assert out + ([t.elem] + rest) == out + [t.elem] + rest;
  }

  ghost predicate Ascending<T>(comp: (T, T) -> int, xs: seq<T>) {
    forall i, j | 0 <= i < j < |xs| :: AtMost(comp, xs[i], xs[j])
  }

  /** Draining yields every element, whatever the comparator answers ... */
  lemma {:induction false} DrainConserves<T>(t: Tree<T>, comp: (T, T) -> int)
    ensures multiset(Drain(t, comp)) == Elems(t)
    decreases Size(t)
  {
    if t.Node? {
      MergeNodes(t.left, t.right, comp);
      MergeConserves(t.left, t.right, comp);
      DrainConserves(Merge(t.left, t.right, comp), comp);
    }
  }

  /** ... and is a sort: a permutation of the elements, in ascending order. */
  lemma {:induction false} DrainSorts<T>(t: Tree<T>, comp: (T, T) -> int, s: set<T>)
    requires Nodes(t) <= s && Comparator(comp, s) && HeapOrdered(t, comp)
    ensures multiset(Drain(t, comp)) == Elems(t)
    ensures Ascending(comp, Drain(t, comp))
    decreases Size(t)
  {
    DrainConserves(t, comp);
    if t.Node? {
      var m := Merge(t.left, t.right, comp);
      MergeNodes(t.left, t.right, comp);
      MergeOrdered(t.left, t.right, comp, s);
      DrainSorts(m, comp, s);
      RootBelow(t, m, comp, s, Drain(m, comp));
      AscendingCons(comp, t.elem, Drain(m, comp));
    }
  }

  lemma {:induction false} RootBelow<T>(t: Tree<T>, m: Tree<T>, comp: (T, T) -> int, s: set<T>, d: seq<T>)
    requires t.Node? && Nodes(t) <= s && Comparator(comp, s) && HeapOrdered(t, comp)
    requires multiset(d) == Elems(m) && Nodes(m) <= Nodes(t)
    ensures forall y | y in d :: AtMost(comp, t.elem, y)
  {
    forall y | y in d
      ensures AtMost(comp, t.elem, y)
    {
      assert y in multiset(d);
      ElemsAreNodes(m, y);
      RootIsMinimal(t, comp, s, y);
    }
  }

  lemma {:induction false} AscendingCons<T>(comp: (T, T) -> int, x: T, d: seq<T>)
    requires Ascending(comp, d) && forall y | y in d :: AtMost(comp, x, y)
    ensures Ascending(comp, [x] + d)
  {
  }

  lemma {:induction false} ElemsAreNodes<T>(t: Tree<T>, x: T)
    ensures x in Elems(t) <==> x in Nodes(t)
  {
    if t.Node? {
      ElemsAreNodes(t.left, x);
      ElemsAreNodes(t.right, x);
    }
  }
}
