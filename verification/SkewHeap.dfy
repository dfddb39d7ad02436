/** The linked skew heap: entries with parent, left and right links, rewritten in place.
    Each method takes the tree that the links denote as a ghost argument and is proved to
    leave the links of the tree that SkewTree computes. */
module SkewHeap {
  import opened SkewTree
  import opened SkewCost

  class Entry {
    var parent: Entry?
    var left: Entry?
    var right: Entry?
  }

  type Heap = Tree<Entry>

  ghost function RootOf(t: Heap): Entry? {
    if t.Leaf? then null else t.elem
  }

  /** r is the root of links that spell out t; every child points back to its parent.
      The root's own parent link is not looked at. */
  ghost predicate Linked(r: Entry?, t: Heap)
    reads Nodes(t)
  {
    match t
    case Leaf => r == null
    case Node(l, x, rr) =>
      && r == x
      && Linked(x.left, l) && (l.Node? ==> l.elem.parent == x)
      && Linked(x.right, rr) && (rr.Node? ==> rr.elem.parent == x)
  }

  /** A whole heap: linked, without sharing, its root without a parent. */
  ghost predicate IsHeap(r: Entry?, t: Heap)
    reads Nodes(t)
  {
    Linked(r, t) && Distinct(t) && (r != null ==> r.parent == null)
  }

  method Init(a: Entry)
    modifies a
    ensures a.parent == null && a.left == null && a.right == null
    ensures IsHeap(a, Single(a))
  {
    a.left, a.right, a.parent := null, null, null;
    assert Linked(a.left, Leaf) && Linked(a.right, Leaf);
  }

  /** The rewriting that both branches of a merge end with: x gets the merged heap l on
      its left and its former left heap r on its right. */
  method Graft(x: Entry, l: Entry?, r: Entry?, ghost tl: Heap, ghost tr: Heap)
    requires Linked(l, tl) && Linked(r, tr) && Distinct(Node(tl, x, tr))
    requires r != null ==> r.parent == x
    modifies x, l
    ensures Linked(x, Node(tl, x, tr))
    ensures x.parent == old(x.parent)
  {
    x.left := l;
    x.right := r;
    if l != null { l.parent := x; }
  }

  method Merge(a: Entry?, b: Entry?, comp: (Entry, Entry) -> int, ghost ta: Heap, ghost tb: Heap)
    returns (root: Entry?, ghost steps: nat)
    requires Linked(a, ta) && Distinct(ta) && Linked(b, tb) && Distinct(tb) && Nodes(ta) !! Nodes(tb)
    modifies Nodes(ta) + Nodes(tb)
    ensures Linked(root, SkewTree.Merge(ta, tb, comp))
    ensures Distinct(SkewTree.Merge(ta, tb, comp))
    ensures Nodes(SkewTree.Merge(ta, tb, comp)) == Nodes(ta) + Nodes(tb)
    ensures root != null ==> root.parent == old(root.parent)
    ensures steps == Steps(ta, tb, comp)
    decreases ta, tb
  {
    ghost var m := SkewTree.Merge(ta, tb, comp);
    MergeNodes(ta, tb, comp);
    steps := 0;
    if a == null {
      return b, 0;
    } else if b == null {
      return a, 0;
    }
    var l, r;
    if comp(a, b) == -1 {
      r := a.left;
      assert allocated(Nodes(ta.left));
      l, steps := Merge(a.right, b, comp, ta.right, tb);
      Graft(a, l, r, m.left, m.right);
      return a, steps + 1;
    } else {
      r := b.left;
      assert allocated(Nodes(tb.left));
      l, steps := Merge(a, b.right, comp, ta, tb.right);
      Graft(b, l, r, m.left, m.right);
      return b, steps + 1;
    }
  }

  method Insert(a: Entry?, b: Entry, comp: (Entry, Entry) -> int, ghost ta: Heap)
    returns (root: Entry, ghost steps: nat)
    requires IsHeap(a, ta) && b !in Nodes(ta)
    modifies Nodes(ta), b
    ensures IsHeap(root, Apply(ta, Op.Insert(b), comp))
    ensures steps == ApplySteps(ta, Op.Insert(b), comp)
  {
    assert allocated(Nodes(ta));
    Init(b);
    root, steps := Merge(a, b, comp, ta, Single(b));
  }

  /** The links of t around the subtree rooted at x: as in t for every member outside that
      subtree.  Nothing inside the subtree is looked at. */
  ghost predicate Around(t: Heap, x: Entry)
    requires x in Nodes(t) && Distinct(t)
    reads Nodes(t) - Nodes(Subtree(t, x))
  {
    t.elem == x ||
    var (child, other) := if x in Nodes(t.left) then (t.left, t.right) else (t.right, t.left);
    && t.elem.left == RootOf(t.left) && t.elem.right == RootOf(t.right)
    && Linked(RootOf(other), other) && (other.Node? ==> other.elem.parent == t.elem)
    && (child.elem != x ==>
          child.elem.parent == t.elem)
    && Around(child, x)
  }

  /** Linked trees take apart at any member ... */
  lemma {:induction false} Split(t: Heap, x: Entry)
    requires x in Nodes(t) && Distinct(t) && Linked(t.elem, t)
    ensures Linked(x, Subtree(t, x)) && Around(t, x)
    ensures x != t.elem ==> x.parent == ParentOf(t, x)
  {
    if x != t.elem {
      Split(if x in Nodes(t.left) then t.left else t.right, x);
    }
  }

  /** ... and go together again around any linked tree whose root takes the same place. */
  lemma {:induction false} Plug(t: Heap, x: Entry, s: Heap)
    requires x in Nodes(t) && Distinct(t) && Around(t, x)
    requires s.Node? && s.elem == x && Linked(x, s) && (x != t.elem ==> x.parent == ParentOf(t, x))
    ensures Linked(t.elem, Replace(t, x, s))
  {
    if x != t.elem {
      Plug(if x in Nodes(t.left) then t.left else t.right, x, s);
    }
  }

  /** Everything outside the subtree of b is linked as in t, including the sibling of b
      and the place of b's parent; where that parent points for b is left open. */
  ghost predicate Open(t: Heap, b: Entry)
    requires b in Nodes(t) && Distinct(t) && b != t.elem
    reads Nodes(t) - Nodes(Subtree(t, b))
  {
    var p := ParentOf(t, b);
    var up := Subtree(t, p);
    ParentChild(t, b, Leaf);
    SubtreeDistinct(t, p);
    && Around(t, p) && (p != t.elem ==> p.parent == ParentOf(t, p))
    && if b in Nodes(up.left)
       then Linked(p.right, up.right) && (up.right.Node? ==> up.right.elem.parent == p)
       else Linked(p.left, up.left) && (up.left.Node? ==> up.left.elem.parent == p)
  }

  lemma {:induction false} Unhook(t: Heap, b: Entry)
    requires b in Nodes(t) && Distinct(t) && b != t.elem && Linked(t.elem, t)
    ensures Open(t, b) && b.parent == ParentOf(t, b)
    ensures b.parent !in Nodes(Subtree(t, b))
    ensures b.parent.left == b <==> b in Nodes(Subtree(t, b.parent).left)
  {
    var p := ParentOf(t, b);
    Split(t, p);
    Split(t, b);
    SubtreeDistinct(t, p);
    ParentChild(t, b, Leaf);
  }

  lemma {:induction false} Rejoin(t: Heap, b: Entry, m: Heap)
    requires b in Nodes(t) && Distinct(t) && b != t.elem && Open(t, b)
    requires var p := ParentOf(t, b);
      && Linked(RootOf(m), m) && (m.Node? ==> m.elem.parent == p)
      && RootOf(m) == if b in Nodes(Subtree(t, p).left) then p.left else p.right
    ensures Linked(t.elem, Replace(t, b, m))
  {
    ParentChild(t, b, m);
    var up := Subtree(t, ParentOf(t, b));
    SubtreeDistinct(t, up.elem);
    Plug(t, up.elem, Replace(up, b, m));
  }

  /** The last part of a removal: hang rep where b hung. */
  method Redirect(p: Entry, b: Entry, rep: Entry?, ghost t: Heap, ghost m: Heap)
    requires b in Nodes(t) && Distinct(t) && b != t.elem && p == ParentOf(t, b) && Open(t, b)
    requires p.left == b <==> b in Nodes(Subtree(t, p).left)
    requires Linked(rep, m) && p !in Nodes(m) && (rep != null ==> rep.parent == p)
    modifies p`left, p`right
    ensures Linked(t.elem, Replace(t, b, m))
  {
    assert allocated(Nodes(t)) && allocated(Nodes(m));
    SubtreeDistinct(t, p);
    if p.left == b {
      p.left := rep;
    } else {
      p.right := rep;
    }
    Rejoin(t, b, m);
  }

  /** The first part of a removal: merge the two subtrees of b into one for b's parent. */
  method MergeBelow(b: Entry, comp: (Entry, Entry) -> int, ghost sub: Heap)
    returns (rep: Entry?, ghost steps: nat)
    requires Linked(b, sub) && sub.Node? && Distinct(sub)
    modifies Nodes(sub) - {b}
    ensures Linked(rep, SkewTree.Merge(sub.left, sub.right, comp))
    ensures rep != null ==> rep.parent == b.parent
    ensures steps == Steps(sub.left, sub.right, comp)
  {
    MergeNodes(sub.left, sub.right, comp);
    var p := b.parent;
    rep, steps := Merge(b.left, b.right, comp, sub.left, sub.right);
    if rep != null { rep.parent := p; }
  }

  /** Takes b out of the heap with root a and returns the new root.  The links of b itself
      are left as they were. */
  method Remove(a: Entry, b: Entry, comp: (Entry, Entry) -> int, ghost ta: Heap)
    returns (root: Entry?, ghost steps: nat)
    requires IsHeap(a, ta) && b in Nodes(ta)
    modifies Nodes(ta) - {b}
    ensures IsHeap(root, SkewTree.Remove(ta, b, comp))
    ensures steps == RemoveSteps(ta, b, comp)
  {
    ghost var sub := Subtree(ta, b);
    ghost var m := SkewTree.Merge(sub.left, sub.right, comp);
    SubtreeDistinct(ta, b);
    MergeNodes(sub.left, sub.right, comp);
    RemoveNodes(ta, b, comp);
    Split(ta, b);
    assert allocated(Nodes(ta));
    if b != ta.elem { Unhook(ta, b); }
    var p := b.parent;
    var rep;
    rep, steps := MergeBelow(b, comp, sub);
    if p != null {
      assert Open(ta, b);
      Redirect(p, b, rep, ta, m);
      return a, steps;
    } else {
      return rep, steps;
    }
  }

  method Perform(a: Entry?, op: Op<Entry>, comp: (Entry, Entry) -> int, ghost ta: Heap)
    returns (root: Entry?, ghost steps: nat)
    requires IsHeap(a, ta) && (op.Insert? <==> op.x !in Nodes(ta))
    modifies Nodes(ta), op.x
    ensures IsHeap(root, Apply(ta, op, comp))
    ensures steps == ApplySteps(ta, op, comp)
  {
    match op
    case Insert(x) => root, steps := Insert(a, x, comp, ta);
    case Delete(x) => root, steps := Remove(a, x, comp, ta);
  }

  /** Any client: a legal run of inserts and removals on entries, starting from the empty
      heap.  The links spell out the tree of SkewCost.After, so the heap holds exactly the
      live entries; the root is a minimum by the order in force, as long as entries keep
      their keys while they are in the heap; and the work stays within the amortised bound. */
  method Run(ops: seq<Op<Entry>>, comps: nat -> (Entry, Entry) -> int)
    returns (root: Entry?, ghost steps: nat)
    requires Legal(ops)
    modifies Involved(ops)
    ensures IsHeap(root, After(ops, comps)) && Nodes(After(ops, comps)) == Content(ops)
    ensures Steady(ops, comps) ==>
              forall x | x in Content(ops) :: root != null && AtMost<Entry>(comps(|ops|), root, x)
    ensures steps <= 4 * (|ops| * BitLength(Peak(ops)))
  {
    root, steps := null, 0;
    for k := 0 to |ops|
      invariant IsHeap(root, After(ops[..k], comps))
      invariant steps == TotalSteps(ops[..k], comps)
    {
      RunStep(ops, k, comps);
      ghost var more;
      root, more := Perform(root, ops[k], comps(k), After(ops[..k], comps));
      steps := steps + more;
    }
    assert ops[..|ops|] == ops;
    RunContent(ops, comps);
    AmortisedBound(ops, comps);
    if Steady(ops, comps) {
      RunIsPriorityQueue(ops, comps);
    }
  }

  /** Removing the root until the heap is empty. */
  method DrainAll(a: Entry?, comp: (Entry, Entry) -> int, ghost ta: Heap) returns (out: seq<Entry>)
    requires IsHeap(a, ta)
    modifies Nodes(ta)
    ensures out == Drain(ta, comp)
  {
    ghost var t := ta;
    var root := a;
    out := [];
    while root != null
      invariant IsHeap(root, t) && Nodes(t) <= Nodes(ta)
      invariant out + Drain(t, comp) == Drain(ta, comp)
      decreases Size(t)
    {
      ghost var next: Heap := SkewTree.Remove(t, t.elem, comp);
      RemoveNodes(t, t.elem, comp);
      DrainNext(t, comp, out);
      out := out + [root];
      ghost var steps;
      root, steps := Remove(root, root, comp, t);
      t := next;
    }
  }

  /** A client that runs and then takes everything out gets the live entries, each exactly
      once, in ascending order when the run is steady. */
  method RunAndDrain(ops: seq<Op<Entry>>, comps: nat -> (Entry, Entry) -> int) returns (out: seq<Entry>)
    requires Legal(ops)
    modifies Involved(ops)
    ensures multiset(out) == multiset(Content(ops))
    ensures Steady(ops, comps) ==> Ascending(comps(|ops|), out)
  {
    var root;
    ghost var steps;
    root, steps := Run(ops, comps);
    ContentInvolved(ops, |ops|);
    assert ops[..|ops|] == ops;
    out := DrainAll(root, comps(|ops|), After(ops, comps));
    RunContent(ops, comps);
    DrainConserves(After(ops, comps), comps(|ops|));
    DistinctElems(After(ops, comps));
    if Steady(ops, comps) {
      RunThenDrain(ops, comps);
    }
  }
}
