/** Range traversal of a tree: by recursion, by an explicit stack, and the iterator over the leaves. */
module Traversal {
  import opened ByteOrder
  import opened Tree
  import opened NodeRead

  /**
   * The arguments of a traversal: an optional start and end, a direction, inclusiveness of the end, pre- or post-order.
   */
  datatype Range = Range(start: Option<Key>, end: Option<Key>, ascending: bool, inclusive: bool, post: bool)

  predicate AfterStart(r: Range, key: Key) { r.start.None? || Less(r.start.value, key) }

  predicate StartOrAfter(r: Range, key: Key) { r.start.None? || AtMost(r.start.value, key) }

  predicate BeforeEnd(r: Range, key: Key) {
    r.end.None? || if r.inclusive then AtMost(key, r.end.value) else Less(key, r.end.value)
  }

  predicate InRange(r: Range, key: Key) { StartOrAfter(r, key) && BeforeEnd(r, key) }

  // ---------------------------------------------------------------- the order of visits

  /** The node itself, if it is to be reported. */
  function Self(t: Tree, r: Range): seq<Tree> {
    if t.Inner? || InRange(r, t.key) then [t] else []
  }

  function Children(t: Tree, r: Range): seq<Tree>
    decreases t, 0
  {
    if t.Leaf? then []
    else
      var left := if AfterStart(r, t.key) then Visit(t.left, r) else [];
      var right := if BeforeEnd(r, t.key) then Visit(t.right, r) else [];
      if r.ascending then left + right else right + left
  }

  /** Every node a traversal reports, in order. */
  function Visit(t: Tree, r: Range): seq<Tree>
    decreases t, 1
  {
    if r.post then Children(t, r) + Self(t, r) else Self(t, r) + Children(t, r)
  }

  /** What a callback sees that asks to stop at the nodes in `stops`. */
  function UpTo(nodes: seq<Tree>, stops: Tree -> bool): seq<Tree> {
    if nodes == [] then [] else [nodes[0]] + if stops(nodes[0]) then [] else UpTo(nodes[1..], stops)
  }

  predicate Stops(nodes: seq<Tree>, stops: Tree -> bool) {
    nodes != [] && (stops(nodes[0]) || Stops(nodes[1..], stops))
  }

  lemma Associates<T>(a: seq<T>, b: seq<T>, c: seq<T>)
    ensures a + (b + c) == (a + b) + c
  {
  }

  lemma {:induction false} UpToParts(a: seq<Tree>, b: seq<Tree>, stops: Tree -> bool)
    ensures Stops(a + b, stops) == (Stops(a, stops) || Stops(b, stops))
    ensures UpTo(a + b, stops) == if Stops(a, stops) then UpTo(a, stops) else UpTo(a, stops) + UpTo(b, stops)
  {
    if a == [] {
      assert a + b == b;
    } else {
      UpToParts(a[1..], b, stops);
      assert (a + b)[0] == a[0] && (a + b)[1..] == a[1..] + b;
      Associates([a[0]], UpTo(a[1..], stops), UpTo(b, stops));
    }
  }

  lemma UpToFirst(nodes: seq<Tree>, stops: Tree -> bool)
    ensures nodes == [] ==> UpTo(nodes, stops) == [] && !Stops(nodes, stops)
    ensures nodes != [] ==>
      && UpTo(nodes, stops) == [nodes[0]] + (if stops(nodes[0]) then [] else UpTo(nodes[1..], stops))
      && Stops(nodes, stops) == (stops(nodes[0]) || Stops(nodes[1..], stops))
  {
  }

  // ---------------------------------------------------------------- by recursion

  lemma UpToSelf(t: Tree, r: Range, stops: Tree -> bool)
    ensures UpTo(Self(t, r), stops) == Self(t, r) && Stops(Self(t, r), stops) == (Self(t, r) != [] && stops(t))
    ensures t.Leaf? ==> Children(t, r) == [] && UpTo(Children(t, r), stops) == [] && !Stops(Children(t, r), stops)
  {
    assert [t][1..] == [];
  }

  /** traverseInRange with a callback that stops at `stops`: what the callback is given, and whether it stopped. */
  method TraverseInRange(t: Tree, r: Range, stops: Tree -> bool) returns (seen: seq<Tree>, stop: bool)
    ensures seen == UpTo(Visit(t, r), stops) && stop == Stops(Visit(t, r), stops)
    decreases t, 1
  {
    hide UpTo, Stops, Children;
    seen, stop := [], false;
    UpToParts(Self(t, r), Children(t, r), stops);
    UpToParts(Children(t, r), Self(t, r), stops);
    UpToSelf(t, r, stops);
    var startOrAfter := r.start.None? || AtMost(r.start.value, t.key);
    var beforeEnd := r.end.None? || Less(t.key, r.end.value);
    if r.inclusive { beforeEnd := r.end.None? || AtMost(t.key, r.end.value); }
    if !r.post && (t.Inner? || (startOrAfter && beforeEnd)) {
      seen, stop := seen + [t], stops(t);
      if stop { return; }
    }
    if t.Inner? {
      var below: seq<Tree>;
      below, stop := TraverseChildren(t, r, stops);
      seen := seen + below;
    }
    if stop { return; }
    if r.post && (t.Inner? || (startOrAfter && beforeEnd)) {
      seen, stop := seen + [t], stops(t);
    }
  }

  method TraverseChildren(t: Tree, r: Range, stops: Tree -> bool) returns (seen: seq<Tree>, stop: bool)
    requires t.Inner?
    ensures seen == UpTo(Children(t, r), stops) && stop == Stops(Children(t, r), stops)
    decreases t, 0
  {
    seen, stop := [], false;
    var more: seq<Tree>;
    var afterStart := r.start.None? || Less(r.start.value, t.key);
    var beforeEnd := r.end.None? || Less(t.key, r.end.value);
    if r.inclusive { beforeEnd := r.end.None? || AtMost(t.key, r.end.value); }
    ghost var left := if AfterStart(r, t.key) then Visit(t.left, r) else [];
    ghost var right := if BeforeEnd(r, t.key) then Visit(t.right, r) else [];
    UpToParts(left, right, stops);
    UpToParts(right, left, stops);
    if r.ascending {
      if afterStart { seen, stop := TraverseInRange(t.left, r, stops); }
      if stop { return; }
      if beforeEnd {
        more, stop := TraverseInRange(t.right, r, stops);
        seen := seen + more;
      }
    } else {
      if beforeEnd { seen, stop := TraverseInRange(t.right, r, stops); }
      if stop { return; }
      if afterStart {
        more, stop := TraverseInRange(t.left, r, stops);
        seen := seen + more;
      }
    }
  }

  // ---------------------------------------------------------------- by an explicit stack

  /** A node still to be expanded, or one to be returned as it is. */
  datatype DelayedNode = DelayedNode(node: Option<Tree>, delayed: bool)

  function Due(d: DelayedNode, r: Range): seq<Tree> {
    if d.node.None? then [] else if d.delayed then Visit(d.node.value, r) else [d.node.value]
  }

  /** Everything on the stack, top (the last element) first. */
  function AllDue(stack: seq<DelayedNode>, r: Range): seq<Tree>
    decreases stack
  {
    if stack == [] then [] else Due(stack[|stack| - 1], r) + AllDue(stack[..|stack| - 1], r)
  }

  ghost function Weight(stack: seq<DelayedNode>): nat
    decreases stack
  {
    if stack == [] then 0
    else
      var d := stack[|stack| - 1];
      (if d.node.Some? && d.delayed then 2 * NodeCount(d.node.value) else 1) + Weight(stack[..|stack| - 1])
  }

  /** What next pushes for a node it expands: the node itself for post-order, then the child visited last. */
  function Expansion(t: Tree, r: Range): seq<DelayedNode> {
    (if r.post && (t.Inner? || InRange(r, t.key)) then [DelayedNode(Some(t), false)] else [])
    + if t.Leaf? then []
      else
        var left := if AfterStart(r, t.key) then [DelayedNode(Some(t.left), true)] else [];
        var right := if BeforeEnd(r, t.key) then [DelayedNode(Some(t.right), true)] else [];
        if r.ascending then right + left else left + right
  }

  lemma {:induction false} DueParts(a: seq<DelayedNode>, b: seq<DelayedNode>, r: Range)
    ensures AllDue(a + b, r) == AllDue(b, r) + AllDue(a, r) && Weight(a + b) == Weight(a) + Weight(b)
    decreases b
  {
    hide Due, NodeCount;
    if b == [] {
      assert a + b == a;
    } else {
      var rest, top := b[..|b| - 1], b[|b| - 1];
      assert (a + b)[..|a + b| - 1] == a + rest && (a + b)[|a + b| - 1] == top;
      DueParts(a, rest, r);
      Associates(Due(top, r), AllDue(rest, r), AllDue(a, r));
    }
  }

  lemma OneDue(d: DelayedNode, r: Range)
    ensures AllDue([d], r) == Due(d, r) && AllDue([], r) == [] && Weight([]) == 0
    ensures Weight([d]) == if d.node.Some? && d.delayed then 2 * NodeCount(d.node.value) else 1
  {
    assert [d][..0] == [];
  }

  lemma MaybeDue(d: DelayedNode, due: bool, r: Range)
    ensures var stack := if due then [d] else [];
            && AllDue(stack, r) == (if due then Due(d, r) else [])
            && Weight(stack) <= if d.node.Some? && d.delayed then 2 * NodeCount(d.node.value) else 1
  {
    OneDue(d, r);
  }

  /** What is pushed for the children of a node is the visit of its children. */
  lemma ChildrenDue(t: Tree, r: Range, left: seq<DelayedNode>, right: seq<DelayedNode>)
    requires t.Inner?
    requires left == if AfterStart(r, t.key) then [DelayedNode(Some(t.left), true)] else []
    requires right == if BeforeEnd(r, t.key) then [DelayedNode(Some(t.right), true)] else []
    ensures var pushed := if r.ascending then right + left else left + right;
            AllDue(pushed, r) == Children(t, r) && Weight(pushed) <= 2 * NodeCount(t.left) + 2 * NodeCount(t.right)
  {
    hide AllDue, Weight, NodeCount, Visit;
    MaybeDue(DelayedNode(Some(t.left), true), AfterStart(r, t.key), r);
    MaybeDue(DelayedNode(Some(t.right), true), BeforeEnd(r, t.key), r);
    DueParts(right, left, r);
    DueParts(left, right, r);
  }

  /** What is pushed for a node: itself for post-order, and what is pushed for its children. */
  lemma ExpansionParts(t: Tree, r: Range) returns (self: seq<DelayedNode>, pushed: seq<DelayedNode>)
    ensures Expansion(t, r) == self + pushed
    ensures AllDue(self, r) == (if r.post then Self(t, r) else []) && AllDue(pushed, r) == Children(t, r)
    ensures Weight(self) + Weight(pushed) < 2 * NodeCount(t)
  {
    assert t.Inner? ==> NodeCount(t) == 1 + NodeCount(t.left) + NodeCount(t.right);
    assert NodeCount(t) >= 1;
    hide AllDue, Weight, NodeCount, Visit;
    var own := r.post && (t.Inner? || InRange(r, t.key));
    self, pushed := if own then [DelayedNode(Some(t), false)] else [], [];
    MaybeDue(DelayedNode(Some(t), false), own, r);
    if t.Inner? {
      var left := if AfterStart(r, t.key) then [DelayedNode(Some(t.left), true)] else [];
      var right := if BeforeEnd(r, t.key) then [DelayedNode(Some(t.right), true)] else [];
      pushed := if r.ascending then right + left else left + right;
      ChildrenDue(t, r, left, right);
    } else {
      OneDue(DelayedNode(None, false), r);
    }
  }

  /** Expanding a node leaves the rest of its visit due and makes the stack lighter. */
  lemma ExpansionDue(stack: seq<DelayedNode>, t: Tree, r: Range)
    ensures Visit(t, r) + AllDue(stack, r) == (if r.post then [] else Self(t, r)) + AllDue(stack + Expansion(t, r), r)
    ensures Weight(stack + Expansion(t, r)) < 2 * NodeCount(t) + Weight(stack)
  {
    hide AllDue, Weight, NodeCount, Children, Expansion, Self;
    var self, pushed := ExpansionParts(t, r);
    DueParts(self, pushed, r);
    DueParts(stack, self + pushed, r);
    Associates(if r.post then [] else Self(t, r), AllDue(self + pushed, r), AllDue(stack, r));
    assert Children(t, r) + [] == Children(t, r);
  }

  class Traversal {
    const r: Range
    var stack: seq<DelayedNode>

    /** Only an empty tree puts a missing node on the stack, and then nothing else is there. */
    ghost predicate Valid()
      reads this
    {
      stack == [DelayedNode(None, true)] || forall d :: d in stack ==> d.node.Some?
    }

    constructor (root: Option<Tree>, r: Range)
      ensures Valid() && this.r == r && AllDue(stack, r) == if root.Some? then Visit(root.value, r) else []
    {
      this.r := r;
      stack := [DelayedNode(root, true)];
      new;
      OneDue(DelayedNode(root, true), r);
    }

    /** The next node in order, or none at the end. */
    method Next() returns (node: Option<Tree>)
      requires Valid()
      modifies this
      ensures Valid()
      ensures old(AllDue(stack, r)) == [] ==> node.None? && AllDue(stack, r) == []
      ensures old(AllDue(stack, r)) != [] ==>
                node == Some(old(AllDue(stack, r))[0]) && AllDue(stack, r) == old(AllDue(stack, r))[1..]
      decreases Weight(stack)
    {
      hide AllDue, Weight, Visit, Expansion;
      if |stack| == 0 {
        OneDue(DelayedNode(None, true), r);
        return None;
      }
      var d := stack[|stack| - 1];
      ghost var rest := stack[..|stack| - 1];
      assert stack == rest + [d];
      DueParts(rest, [d], r);
      OneDue(d, r);
      stack := stack[..|stack| - 1];
      if !d.delayed || d.node.None? { return d.node; }
      var t := d.node.value;
      ExpansionDue(rest, t, r);
      Expand(t);
      var startOrAfter := r.start.None? || AtMost(r.start.value, t.key);
      var beforeEnd := r.end.None? || Less(t.key, r.end.value);
      if r.inclusive { beforeEnd := r.end.None? || AtMost(t.key, r.end.value); }
      if !r.post && (t.Inner? || (startOrAfter && beforeEnd)) {
        return Some(t);
      }
      node := Next();
    }

    /** Push the node itself for post-order, then its children in reverse order of visit. */
    method Expand(t: Tree)
      requires forall d :: d in stack ==> d.node.Some?
      modifies this
      ensures stack == old(stack) + Expansion(t, r) && forall d :: d in stack ==> d.node.Some?
    {
      var afterStart := r.start.None? || Less(r.start.value, t.key);
      var startOrAfter := r.start.None? || AtMost(r.start.value, t.key);
      var beforeEnd := r.end.None? || Less(t.key, r.end.value);
      if r.inclusive { beforeEnd := r.end.None? || AtMost(t.key, r.end.value); }
      if r.post && (t.Inner? || (startOrAfter && beforeEnd)) {
        stack := stack + [DelayedNode(Some(t), false)];
      }
      if t.Inner? {
        if r.ascending {
          if beforeEnd { stack := stack + [DelayedNode(Some(t.right), true)]; }
          if afterStart { stack := stack + [DelayedNode(Some(t.left), true)]; }
        } else {
          if afterStart { stack := stack + [DelayedNode(Some(t.left), true)]; }
          if beforeEnd { stack := stack + [DelayedNode(Some(t.right), true)]; }
        }
      }
    }
  }

  /** traverseInRange2: the stack traversal gives the callback what the recursive one does, for every callback. */
  method TraverseInRange2(root: Option<Tree>, r: Range, stops: Tree -> bool) returns (seen: seq<Tree>, stop: bool)
    ensures var nodes := if root.Some? then Visit(root.value, r) else [];
            seen == UpTo(nodes, stops) && stop == Stops(nodes, stops)
  {
    hide AllDue, Visit, UpTo, Stops, Traversal.Valid;
    seen, stop := [], false;
    ghost var nodes := if root.Some? then Visit(root.value, r) else [];
    var t := new Traversal(root, r);
    ghost var left := nodes;
    var node := t.Next();
    while node.Some?
      invariant t.Valid() && fresh(t) && t.r == r && !stop
      invariant node.None? ==> left == []
      invariant node.Some? ==> left != [] && node.value == left[0] && AllDue(t.stack, r) == left[1..]
      invariant UpTo(nodes, stops) == seen + UpTo(left, stops) && Stops(nodes, stops) == Stops(left, stops)
      decreases |left|
    {
      UpToFirst(left, stops);
      Associates(seen, [node.value], UpTo(left[1..], stops));
      seen, stop := seen + [node.value], stops(node.value);
      if stop { return; }
      left := left[1..];
      node := t.Next();
    }
    UpToFirst(left, stops);
  }

  // ---------------------------------------------------------------- the leaves of a traversal

  function LeavesOf(nodes: seq<Tree>): seq<Tree> {
    if nodes == [] then [] else (if nodes[0].Leaf? then [nodes[0]] else []) + LeavesOf(nodes[1..])
  }

  function Within(leaves: seq<Tree>, r: Range): seq<Tree> {
    if leaves == [] then [] else (if InRange(r, leaves[0].key) then [leaves[0]] else []) + Within(leaves[1..], r)
  }

  function Reversed(leaves: seq<Tree>): seq<Tree> {
    if leaves == [] then [] else Reversed(leaves[1..]) + [leaves[0]]
  }

  function Directed(leaves: seq<Tree>, ascending: bool): seq<Tree> {
    if ascending then leaves else Reversed(leaves)
  }

  lemma {:induction false} LeavesOfParts(a: seq<Tree>, b: seq<Tree>)
    ensures LeavesOf(a + b) == LeavesOf(a) + LeavesOf(b)
  {
    if a == [] {
      assert a + b == b;
    } else {
      LeavesOfParts(a[1..], b);
      assert (a + b)[0] == a[0] && (a + b)[1..] == a[1..] + b;
      Associates(if a[0].Leaf? then [a[0]] else [], LeavesOf(a[1..]), LeavesOf(b));
    }
  }

  lemma {:induction false} WithinParts(a: seq<Tree>, b: seq<Tree>, r: Range)
    ensures Within(a + b, r) == Within(a, r) + Within(b, r)
  {
    hide InRange;
    if a == [] {
      assert a + b == b;
    } else {
      WithinParts(a[1..], b, r);
      assert (a + b)[0] == a[0] && (a + b)[1..] == a[1..] + b;
      Associates(if InRange(r, a[0].key) then [a[0]] else [], Within(a[1..], r), Within(b, r));
    }
  }

  lemma {:induction false} ReversedParts(a: seq<Tree>, b: seq<Tree>)
    ensures Reversed(a + b) == Reversed(b) + Reversed(a)
  {
    if a == [] {
      assert a + b == b;
    } else {
      ReversedParts(a[1..], b);
      assert (a + b)[0] == a[0] && (a + b)[1..] == a[1..] + b;
      Associates(Reversed(b), Reversed(a[1..]), [a[0]]);
    }
  }

  lemma {:induction false} NoneWithin(leaves: seq<Tree>, r: Range)
    requires forall l :: l in leaves ==> !InRange(r, l.key)
    ensures Within(leaves, r) == []
  {
    if leaves != [] { NoneWithin(leaves[1..], r); }
  }

  /** A skipped subtree has no leaf in the range. */
  lemma SkipsNothing(t: Tree, r: Range)
    requires t.Inner? && Ordered(t)
    ensures !AfterStart(r, t.key) ==> Within(Leaves(t.left), r) == []
    ensures !BeforeEnd(r, t.key) ==> Within(Leaves(t.right), r) == []
  {
    SidesApart(t);
    LeavesAreContents(t.left);
    LeavesAreContents(t.right);
    if !AfterStart(r, t.key) {
      forall l | l in Leaves(t.left) ensures !InRange(r, l.key) {
        LessAsymmetric(l.key, t.key);
        AtMostLeft(l.key, t.key, r.start.value);
      }
      NoneWithin(Leaves(t.left), r);
    }
    if !BeforeEnd(r, t.key) {
      forall l | l in Leaves(t.right) ensures !InRange(r, l.key) { PastEnd(r, t.key, l.key); }
      NoneWithin(Leaves(t.right), r);
    }
  }

  lemma PastEnd(r: Range, key: Key, later: Key)
    requires !BeforeEnd(r, key) && AtMost(key, later)
    ensures !BeforeEnd(r, later)
  {
    var end := r.end.value;
    LessTotal(key, later);
    if r.inclusive {
      if Less(key, later) { LessTransitive(end, key, later); }
    } else if Less(later, end) {
      if Less(key, later) { LessTransitive(key, later, end); }
    }
  }

  /** The leaves among the visited nodes are the entries of the tree in the range, in the direction asked for. */
  lemma {:induction false} VisitedLeaves(t: Tree, r: Range)
    requires Ordered(t)
    ensures LeavesOf(Visit(t, r)) == Directed(Within(Leaves(t), r), r.ascending)
    decreases t
  {
    LeavesOfParts(Self(t, r), Children(t, r));
    LeavesOfParts(Children(t, r), Self(t, r));
    assert [t][1..] == [];
    assert t.Leaf? ==> Reversed(Self(t, r)) == Self(t, r);
    if t.Inner? {
      VisitedLeaves(t.left, r);
      VisitedLeaves(t.right, r);
      SkipsNothing(t, r);
      ChildrenLeaves(t, r);
    }
  }

  lemma ChildrenLeaves(t: Tree, r: Range)
    requires t.Inner? && Ordered(t)
    requires LeavesOf(Visit(t.left, r)) == Directed(Within(Leaves(t.left), r), r.ascending)
    requires LeavesOf(Visit(t.right, r)) == Directed(Within(Leaves(t.right), r), r.ascending)
    requires !AfterStart(r, t.key) ==> Within(Leaves(t.left), r) == []
    requires !BeforeEnd(r, t.key) ==> Within(Leaves(t.right), r) == []
    ensures LeavesOf(Children(t, r)) == Directed(Within(Leaves(t), r), r.ascending)
  {
    hide Visit, Ordered;
    var left := if AfterStart(r, t.key) then Visit(t.left, r) else [];
    var right := if BeforeEnd(r, t.key) then Visit(t.right, r) else [];
    LeavesOfParts(left, right);
    LeavesOfParts(right, left);
    WithinParts(Leaves(t.left), Leaves(t.right), r);
    ReversedParts(Within(Leaves(t.left), r), Within(Leaves(t.right), r));
  }

  lemma {:induction false} WithinIsFilter(leaves: seq<Tree>, r: Range)
    ensures forall l :: l in Within(leaves, r) <==> l in leaves && InRange(r, l.key)
  {
    if leaves != [] {
      WithinIsFilter(leaves[1..], r);
      assert forall l :: l in leaves <==> l == leaves[0] || l in leaves[1..];
    }
  }

  lemma {:induction false} WithinAscends(leaves: seq<Tree>, r: Range)
    requires Ascending(leaves)
    ensures Ascending(Within(leaves, r))
  {
    if leaves != [] {
      WithinAscends(leaves[1..], r);
      WithinIsFilter(leaves[1..], r);
      hide InRange;
      var rest := Within(leaves[1..], r);
      forall i | 0 <= i < |rest| ensures Less(leaves[0].key, rest[i].key) {
        assert rest[i] in rest;
        var j :| 0 <= j < |leaves[1..]| && leaves[1..][j] == rest[i];
        assert leaves[j + 1] == rest[i];
      }
    }
  }

  lemma {:induction false} ReversedAt(leaves: seq<Tree>, i: nat)
    requires i < |leaves|
    ensures |Reversed(leaves)| == |leaves| && Reversed(leaves)[i] == leaves[|leaves| - 1 - i]
  {
    if |leaves| > 1 { ReversedAt(leaves[1..], if i < |leaves| - 1 then i else 0); }
  }

  lemma ReversedLeaves(leaves: seq<Tree>)
    ensures |Reversed(leaves)| == |leaves|
    ensures forall i :: 0 <= i < |leaves| ==> Reversed(leaves)[i] == leaves[|leaves| - 1 - i]
    ensures forall l :: l in Reversed(leaves) <==> l in leaves
  {
    forall i | 0 <= i < |leaves|
      ensures |Reversed(leaves)| == |leaves| && Reversed(leaves)[i] == leaves[|leaves| - 1 - i]
    {
      ReversedAt(leaves, i);
    }
    hide Reversed;
    assert leaves == [] ==> |Reversed(leaves)| == 0 by { NothingReversed(); }
    forall l | l in leaves ensures l in Reversed(leaves) {
      var i :| 0 <= i < |leaves| && leaves[i] == l;
      assert Reversed(leaves)[|leaves| - 1 - i] == l;
    }
  }

  lemma NothingReversed()
    ensures Reversed([]) == []
  {
  }

  /**
   * Which leaves a traversal visits: those from the start on and before the end, and the one at the end if the range is
   * inclusive. It visits them in the direction asked for.
   */
  lemma VisitedExactly(t: Tree, r: Range)
    requires Ordered(t)
    ensures forall l :: l in LeavesOf(Visit(t, r)) <==>
              && l in Leaves(t) && (r.start.None? || AtMost(r.start.value, l.key))
              && (r.end.None? || Less(l.key, r.end.value) || (r.inclusive && l.key == r.end.value))
    ensures var seen := LeavesOf(Visit(t, r));
            forall i, j :: 0 <= i < j < |seen| ==>
              if r.ascending then Less(seen[i].key, seen[j].key) else Less(seen[j].key, seen[i].key)
  {
    hide Visit, LeavesOf, Ordered;
    VisitedLeaves(t, r);
    LeavesAreContents(t);
    WithinIsFilter(Leaves(t), r);
    WithinAscends(Leaves(t), r);
    ReversedLeaves(Within(Leaves(t), r));
    hide Within, Reversed, Leaves;
    forall l | l in Leaves(t)
      ensures BeforeEnd(r, l.key) <==>
              r.end.None? || Less(l.key, r.end.value) || (r.inclusive && l.key == r.end.value)
    {
      if r.end.Some? { EndIsIncluded(l.key, r.end.value); }
    }
  }

  lemma EndIsIncluded(key: Key, end: Key)
    ensures AtMost(key, end) <==> Less(key, end) || key == end
  {
    LessTotal(key, end);
    LessIrreflexive(key);
    if Less(key, end) { LessAsymmetric(key, end); }
  }

  // ---------------------------------------------------------------- the iterator

  lemma LeavesOfFirst(nodes: seq<Tree>)
    ensures nodes == [] ==> LeavesOf(nodes) == []
    ensures nodes != [] ==> LeavesOf(nodes) == (if nodes[0].Leaf? then [nodes[0]] else []) + LeavesOf(nodes[1..])
  {
  }

  class Iterator {
    var t: Traversal?
    var entry: Option<(Key, Value)>
    var valid: bool

    ghost predicate Valid()
      reads this, t
    {
      (t != null ==> t.Valid()) && (valid <==> t != null) && (valid ==> entry.Some?)
    }

    /** The leaves still to come after the current entry. */
    ghost function Remaining(): seq<Tree>
      reads this, t
    {
      if t == null then [] else LeavesOf(AllDue(t.stack, t.r))
    }

    constructor (root: Option<Tree>, start: Option<Key>, end: Option<Key>, ascending: bool)
      ensures Valid() && (t == null || fresh(t))
      ensures var r := Range(start, end, ascending, false, false);
              var leaves := LeavesOf(if root.Some? then Visit(root.value, r) else []);
              && (valid <==> leaves != [])
              && (valid ==> entry == Some((leaves[0].key, LeafValue(leaves[0]))) && Remaining() == leaves[1..])
    {
      entry, valid := None, true;
      t := new Traversal(root, Range(start, end, ascending, false, false));
      new;
      Next();
    }

    /** Inner nodes are skipped; the iterator ends when the traversal does. */
    method Next()
      requires t != null ==> t.Valid()
      requires valid <==> t != null
      modifies this, t
      ensures Valid() && (t == null || t == old(t))
      ensures old(Remaining()) == [] ==> !valid && Remaining() == []
      ensures old(Remaining()) != [] ==>
                && valid && entry == Some((old(Remaining())[0].key, LeafValue(old(Remaining())[0])))
                && Remaining() == old(Remaining())[1..]
      decreases if t == null then 0 else |AllDue(t.stack, t.r)|
    {
      hide AllDue, Visit, LeavesOf;
      ghost var due := if t == null then [] else AllDue(t.stack, t.r);
      LeavesOfFirst(due);
      if t == null { return; }
      var node := t.Next();
      if node.None? {
        t, valid := null, false;
        return;
      }
      if node.value.Leaf? {
        entry := Some((node.value.key, node.value.value));
        return;
      }
      Next();
    }
  }
}
