/** How tall a tree can be, and how much one Set rebuilds. */
module HeightBound {
  import opened ByteOrder
  import opened Tree
  import opened TreeUpdate
  import NodeRead

  function Fib(n: nat): nat {
    if n < 2 then n else Fib(n - 1) + Fib(n - 2)
  }

  lemma {:induction false} FibGrows(m: nat, n: nat)
    requires m <= n
    ensures Fib(m) <= Fib(n)
    decreases n
  {
    if m < n { FibGrows(m, n - 1); }
  }

  /** A tree of height h has at least Fib(h + 2) leaves. */
  lemma {:induction false} TallTreesAreLarge(t: Tree)
    requires Shaped(t)
    ensures Height(t) >= 0 && Size(t) >= Fib(Height(t) + 2)
  {
    if t.Inner? {
      TallTreesAreLarge(t.left);
      TallTreesAreLarge(t.right);
      var h := Height(t);
      FibGrows(h, Height(t.left) + 2);
      FibGrows(h, Height(t.right) + 2);
    }
  }

  const MAX_INT64 := 9223372036854775807

  lemma {:induction false} FibSum(m: nat, n: nat)
    ensures Fib(m + n + 1) == Fib(m + 1) * Fib(n + 1) + Fib(m) * Fib(n)
    decreases n
  {
    hide Fib;
    FirstFib();
    if n > 0 {
      FibSum(m + 1, n - 1);
      FibStep(m);
      FibStep(n - 1);
      Distribute(Fib(m + 1), Fib(m), Fib(n), Fib(n - 1));
    }
  }

  lemma FirstFib()
    ensures Fib(0) == 0 && Fib(1) == 1
  {
  }

  lemma Distribute(a: int, b: int, c: int, d: int)
    ensures (a + b) * c + a * d == a * (c + d) + b * c
  {
  }

  lemma FibExceedsInt64()
    ensures Fib(92) <= MAX_INT64 < Fib(93)
  {
    hide Fib;
    SmallFib();
    FibSum(11, 11);
    FibSum(12, 11);
    FibStep(22);
    FibSum(23, 22);
    FibSum(23, 23);
    FibStep(45);
    FibSum(46, 45);
    FibSum(46, 46);
  }

  lemma SmallFib()
    ensures Fib(11) == 89 && Fib(12) == 144 && Fib(13) == 233
  {
    assert Fib(5) == 5 && Fib(6) == 8;
    assert Fib(8) == 21 && Fib(9) == 34;
  }

  lemma FibStep(n: nat)
    ensures Fib(n + 2) == Fib(n + 1) + Fib(n)
  {
  }

  /** With a size that fits int64 the height is at most 90, so the int8 height never overflows. */
  lemma HeightFitsInt8(t: Tree)
    requires Shaped(t) && Size(t) <= MAX_INT64
    ensures 0 <= Height(t) <= 90
  {
    hide Fib;
    TallTreesAreLarge(t);
    FibExceedsInt64();
    if Height(t) > 90 { FibGrows(93, Height(t) + 2); }
  }

  // ---------------------------------------------------------------- one Set

  /** At how many levels a Set rotates. */
  ghost function Rebalanced(t: Tree, key: Key, value: Value, version: int): nat
    requires Shaped(t)
  {
    if t.Leaf? then 0
    else
      var sub := SetTree(if Less(key, t.key) then t.left else t.right, key, value, version);
      var below := Rebalanced(if Less(key, t.key) then t.left else t.right, key, value, version);
      var left, right := if Less(key, t.key) then sub.tree else t.left, if Less(key, t.key) then t.right else sub.tree;
      below + if !sub.updated && !(-1 <= Height(left) - Height(right) <= 1) then 1 else 0
  }

  /** Rotating a node whose heavy child leans one way takes a level off. */
  lemma RotationShortens(t: Tree, version: int)
    requires NearlyShaped(t)
    requires BalanceFactor(t) == 2 ==> t.left.Inner? && BalanceFactor(t.left) != 0
    requires BalanceFactor(t) == -2 ==> t.right.Inner? && BalanceFactor(t.right) != 0
    ensures var b := Balance(t, version);
            if -1 <= BalanceFactor(t) <= 1 then b == Rebuilt(t, [])
                else Height(b.tree) == Height(t) - 1 && |b.orphans| <= 3
  {
    ShapedIsPositive(t.left);
    ShapedIsPositive(t.right);
    if BalanceFactor(t) == 2 {
      ShapedIsPositive(t.left.left);
      ShapedIsPositive(t.left.right);
    } else if BalanceFactor(t) == -2 {
      ShapedIsPositive(t.right.left);
      ShapedIsPositive(t.right.right);
    }
  }

  /**
   * A Set rotates at one level at most; a subtree that grew was not rotated and, unless it was a leaf, leans one way.
   */
  lemma {:induction false} SetRotatesOnce(t: Tree, key: Key, value: Value, version: int)
    requires Shaped(t)
    ensures var r := SetTree(t, key, value, version);
            && Rebalanced(t, key, value, version) <= 1
            && |r.orphans| <= Height(t) + (if r.updated then 1 else if Height(r.tree) == Height(t) then 3 else 0)
            && (Height(r.tree) > Height(t) ==>
                 Rebalanced(t, key, value, version) == 0 && r.tree.Inner? && (t.Leaf? || BalanceFactor(r.tree) != 0))
  {
    if t.Inner? {
      var child := if Less(key, t.key) then t.left else t.right;
      SetRotatesOnce(child, key, value, version);
      SetUnfolds(t, key, value, version);
      SetLevel(t, key, value, version);
    }
  }

  lemma SetLevel(t: Tree, key: Key, value: Value, version: int)
    requires Shaped(t) && t.Inner?
    requires var child := if Less(key, t.key) then t.left else t.right;
             var r := SetTree(child, key, value, version);
             && Rebalanced(child, key, value, version) <= 1
             && |r.orphans| <=
                Height(child) + (if r.updated then 1 else if Height(r.tree) == Height(child) then 3 else 0)
             && (Height(r.tree) > Height(child) ==>
                  Rebalanced(child, key, value, version) == 0 && r.tree.Inner?
                  && (child.Leaf? || BalanceFactor(r.tree) != 0))
    ensures var r := SetTree(t, key, value, version);
            && Rebalanced(t, key, value, version) <= 1
            && |r.orphans| <= Height(t) + (if r.updated then 1 else if Height(r.tree) == Height(t) then 3 else 0)
            && (Height(r.tree) > Height(t) ==>
                 Rebalanced(t, key, value, version) == 0 && r.tree.Inner? && BalanceFactor(r.tree) != 0)
  {
    var goLeft := Less(key, t.key);
    var sub := SetTree(if goLeft then t.left else t.right, key, value, version);
    var left, right := if goLeft then sub.tree else t.left, if goLeft then t.right else sub.tree;
    SetUnfolds(t, key, value, version);
    ShapedIsPositive(t.left);
    ShapedIsPositive(t.right);
    hide SetTree;
    if !sub.updated { RotationShortens(Join(t.key, left, right, version), version); }
  }

  /** Set orphans at most Height + 3 nodes. */
  lemma SetOrphansFew(t: Tree, key: Key, value: Value, version: int)
    requires Shaped(t)
    ensures |SetTree(t, key, value, version).orphans| <= Height(t) + 3
  {
    SetRotatesOnce(t, key, value, version);
  }

  // ---------------------------------------------------------------- Remove can rotate at every level

  ghost function Toward(t: Tree, key: Key): Tree
    requires t.Inner?
  {
    if Less(key, t.key) then t.left else t.right
  }

  ghost function Sibling(t: Tree, key: Key): Tree
    requires t.Inner?
  {
    if Less(key, t.key) then t.right else t.left
  }

  /** How many nodes the search for a key passes. */
  ghost function PathLength(t: Tree, key: Key): nat {
    if t.Leaf? then 1 else 1 + PathLength(Toward(t, key), key)
  }

  ghost predicate Found(t: Tree, key: Key) {
    if t.Leaf? then key == t.key else Found(Toward(t, key), key)
  }

  /** Removing the key rotates at this node: the subtree it is in gets shorter and was the shorter one. */
  ghost predicate Rotates(t: Tree, key: Key)
    requires t.Inner?
    decreases t, 0
  {
    Toward(t, key).Inner? && Shrinks(Toward(t, key), key) && Height(Toward(t, key)) < Height(Sibling(t, key))
        && Sibling(t, key).Inner?
  }

  /** How far the sibling leans towards the side the key is on. */
  ghost function Inward(t: Tree, key: Key): int
    requires t.Inner? && Sibling(t, key).Inner?
  {
    if Less(key, t.key) then BalanceFactor(t.right) else -BalanceFactor(t.left)
  }

  /** Removing the key takes a level off: from heights and balance factors along the search path alone. */
  ghost predicate Shrinks(t: Tree, key: Key)
    decreases t, 1
  {
    t.Leaf? || Toward(t, key).Leaf? ||
    (Shrinks(Toward(t, key), key) &&
     (Height(Toward(t, key)) > Height(Sibling(t, key)) || (Rotates(t, key) && Inward(t, key) != 0)))
  }

  /** The nodes rotations orphan: one for a single rotation, three for a double one. */
  ghost function RotationCost(t: Tree, key: Key): nat {
    if t.Leaf? then 0
    else RotationCost(Toward(t, key), key) + if Rotates(t, key) then (if Inward(t, key) > 0 then 3 else 1) else 0
  }

  /**
   * Set orphans the nodes on the search path, the leaf only if it has the key, and for a rotation one or three more: as
   * many as a single or a double one takes.
   */
  lemma {:induction false} SetOrphansExactly(t: Tree, key: Key, value: Value, version: int)
    requires Shaped(t)
    ensures var r := SetTree(t, key, value, version);
            var more := |r.orphans| - PathLength(t, key) + if r.updated then 0 else 1;
            && (more == 0 <==> Rebalanced(t, key, value, version) == 0) && (more == 0 || more == 1 || more == 3)
            && (r.updated ==> more == 0)
  {
    if t.Inner? {
      SetOrphansExactly(Toward(t, key), key, value, version);
      SetRotatesOnce(t, key, value, version);
      SetUnfolds(t, key, value, version);
      SetLevelCosts(t, key, value, version);
    }
  }

  lemma SetLevelCosts(t: Tree, key: Key, value: Value, version: int)
    requires Shaped(t) && t.Inner? && Rebalanced(t, key, value, version) <= 1
    ensures var r, sub := SetTree(t, key, value, version), SetTree(Toward(t, key), key, value, version);
            var more := |r.orphans| - |sub.orphans| - 1;
            && r.updated == sub.updated && (more == 0 || more == 1 || more == 3) && (r.updated ==> more == 0)
            && (more == 0 <==> Rebalanced(t, key, value, version) == Rebalanced(Toward(t, key), key, value, version))
  {
    var goLeft := Less(key, t.key);
    var sub := SetTree(Toward(t, key), key, value, version);
    var left, right := if goLeft then sub.tree else t.left, if goLeft then t.right else sub.tree;
    SetUnfolds(t, key, value, version);
    ShapedIsPositive(t.left);
    ShapedIsPositive(t.right);
    hide SetTree;
    if !sub.updated { BalanceCosts(Join(t.key, left, right, version), version); }
  }

  /** What one balance call orphans and whether it takes a level off. */
  lemma BalanceCosts(t: Tree, version: int)
    requires NearlyShaped(t)
    ensures BalanceFactor(t) == 2 ==> t.left.Inner?
    ensures BalanceFactor(t) == -2 ==> t.right.Inner?
    ensures var b := Balance(t, version);
            if -1 <= BalanceFactor(t) <= 1 then b == Rebuilt(t, [])
            else
              var lean := if BalanceFactor(t) == 2 then -BalanceFactor(t.left) else BalanceFactor(t.right);
              && |b.orphans| == (if lean > 0 then 3 else 1)
              && Height(b.tree) == Height(t) - (if lean == 0 then 0 else 1)
  {
    ShapedIsPositive(t.left);
    ShapedIsPositive(t.right);
    if BalanceFactor(t) == 2 {
      ShapedIsPositive(t.left.left);
      ShapedIsPositive(t.left.right);
    } else if BalanceFactor(t) == -2 {
      ShapedIsPositive(t.right.left);
      ShapedIsPositive(t.right.right);
    }
  }

  /** One level of a removal. */
  ghost predicate Removed(t: Tree, key: Key, version: int)
    requires Shaped(t)
  {
    var r := RemoveTree(t, key, version);
    if !Found(t, key) then r.orphans == []
    else
      && |r.orphans| == PathLength(t, key) + RotationCost(t, key)
      && (t.Inner? ==> r.tree.Some? && Height(r.tree.value) == Height(t) - (if Shrinks(t, key) then 1 else 0))
  }

  lemma RemoveLevel(t: Tree, key: Key, version: int)
    requires Shaped(t) && t.Inner? && Removed(Toward(t, key), key, version)
    ensures Removed(t, key, version)
  {
    var child := Toward(t, key);
    var sub := RemoveTree(child, key, version);
    ShapedIsPositive(t.left);
    ShapedIsPositive(t.right);
    if Found(t, key) && child.Inner? {
      var node := Repaired(t, Less(key, t.key), sub, version);
      BalanceCosts(node, version);
      RemoveUnfolds(t, key, version);
    }
  }

  lemma RemoveUnfolds(t: Tree, key: Key, version: int)
    requires Shaped(t) && t.Inner? && Toward(t, key).Inner? && RemoveTree(Toward(t, key), key, version).orphans != []
    ensures var sub := RemoveTree(Toward(t, key), key, version);
            var node := Repaired(t, Less(key, t.key), sub, version);
            && NearlyShaped(node) && RemoveTree(t, key, version).tree == Some(Balance(node, version).tree)
            && RemoveTree(t, key, version).orphans == sub.orphans + [t] + Balance(node, version).orphans
  {
  }

  /** The nodes Remove orphans: those on the search path, and what each rotation costs. */
  lemma {:induction false} RemoveOrphansExactly(t: Tree, key: Key, version: int)
    requires Shaped(t)
    ensures Removed(t, key, version)
  {
    if t.Inner? {
      RemoveOrphansExactly(Toward(t, key), key, version);
      RemoveLevel(t, key, version);
    }
  }

  lemma {:induction false} FoundIsMember(t: Tree, key: Key)
    requires Ordered(t)
    ensures Found(t, key) <==> key in Keys(t)
  {
    if t.Inner? {
      FoundIsMember(Toward(t, key), key);
      NodeRead.SidesApart(t);
    }
  }

  /** Remove orphans at most Height + 3 nodes exactly when the path and its rotations cost no more. */
  lemma RemoveOrphansFew(t: Tree, key: Key, version: int)
    requires Valid(t)
    ensures |RemoveTree(t, key, version).orphans| <= Height(t) + 3 <==>
            key !in Keys(t) || PathLength(t, key) + RotationCost(t, key) <= Height(t) + 3
  {
    ShapedIsPositive(t);
    RemoveOrphansExactly(t, key, version);
    FoundIsMember(t, key);
  }

  // ---------------------------------------------------------------- a tree from which Remove orphans more

  lemma FibPositive(n: nat)
    ensures n >= 1 ==> Fib(n) >= 1
  {
    if n >= 1 { FibGrows(1, n); }
  }

  /** A least balanced tree that leans left, with the one-byte keys from `from` on. */
  function Leaning(h: nat, from: nat): Tree
    requires from + Fib(h + 2) <= 256
  {
    FibPositive(h);
    FibPositive(h + 1);
    assert h >= 2 ==> Fib(h + 2) == Fib(h + 1) + Fib(h);
    if h == 0 then Leaf([from], [], 1)
    else if h == 1 then Join([from + 1], Leaf([from], [], 1), Leaf([from + 1], [], 1), 1)
    else
      var n := Fib(h + 1);
      Join([from + n], Leaning(h - 1, from), Leaning(h - 2, from + n), 1)
  }

  /** The keys of a tree are one-byte keys of a range. */
  ghost predicate Ranges(t: Tree, from: nat, to: nat)
    requires from < to <= 256
  {
    Valid(t) && MinKey(t) == [from] && forall k :: k in Keys(t) ==> |k| == 1 && from <= k[0] < to
  }

  lemma JoinRanges(l: Tree, r: Tree, from: nat, mid: nat, to: nat)
    requires from < mid < to <= 256 && Ranges(l, from, mid) && Ranges(r, mid, to) && -1 <= Height(l) - Height(r) <= 1
    ensures Ranges(Join([mid], l, r, 1), from, to)
  {
    ShapedIsPositive(l);
    ShapedIsPositive(r);
    forall k | k in Keys(l) ensures Less(k, [mid]) { assert k == [k[0]]; }
    forall k | k in Keys(r) ensures AtMost([mid], k) { assert k == [k[0]]; }
  }

  lemma LeafRanges(from: nat)
    requires from < 256
    ensures Ranges(Leaf([from], [], 1), from, from + 1)
  {
  }

  lemma LeaningUnfolds(h: nat, from: nat)
    requires from + Fib(h + 2) <= 256
    ensures Fib(h + 1) >= 1 && Fib(h + 2) >= 1 && (h == 0 ==> Fib(h + 2) == 1) && (h == 1 ==> Fib(h + 2) == 2)
    ensures h == 0 ==> Leaning(h, from) == Leaf([from], [], 1)
    ensures h == 1 ==> Leaning(h, from) == Join([from + 1], Leaf([from], [], 1), Leaf([from + 1], [], 1), 1)
    ensures h >= 2 ==>
      && Fib(h) >= 1 && Fib(h + 2) == Fib(h + 1) + Fib(h)
      && Leaning(h, from) == Join([from + Fib(h + 1)], Leaning(h - 1, from), Leaning(h - 2, from + Fib(h + 1)), 1)
  {
    FibPositive(h);
    FibPositive(h + 1);
    FibPositive(h + 2);
  }

  lemma {:induction false} LeaningRanges(h: nat, from: nat)
    requires from + Fib(h + 2) <= 256
    ensures Fib(h + 2) >= 1 && Ranges(Leaning(h, from), from, from + Fib(h + 2)) && Height(Leaning(h, from)) == h
    ensures h >= 2 ==> Leaning(h, from).Inner? && BalanceFactor(Leaning(h, from)) == 1
  {
    hide Ranges, Leaning, Fib;
    LeaningUnfolds(h, from);
    if h == 0 {
      LeafRanges(from);
    } else if h == 1 {
      LeafRanges(from);
      LeafRanges(from + 1);
      JoinRanges(Leaf([from], [], 1), Leaf([from + 1], [], 1), from, from + 1, from + 2);
    } else {
      var n := Fib(h + 1);
      LeaningRanges(h - 1, from);
      LeaningRanges(h - 2, from + n);
      JoinRanges(Leaning(h - 1, from), Leaning(h - 2, from + n), from, from + n, from + Fib(h + 2));
    }
  }

  lemma Counts()
    ensures Fib(3) == 2 && Fib(5) == 5 && Fib(7) == 13
  {
    assert Fib(4) == 3;
    assert Fib(6) == 8;
  }

  /** Twenty-one keys: the first one lies at the end of a short path whose siblings lean inward. */
  function TwoRotations(): Tree {
    TwoRotationsOf(5)
  }

  function TwoRotationsOf(h: nat): Tree
    requires h == 5
  {
    Counts();
    Stacked(Leaning(h - 4, h - 4), Leaning(h - 2, h - 2), Leaning(h, h + 3))
  }

  function Stacked(low: Tree, mid: Tree, high: Tree): Tree {
    Join([8], Join([3], Join([1], Leaf([0], [], 1), low, 1), mid, 1), high, 1)
  }

  /** A removal on the short side of a node whose tall child leans inward: a double rotation, and one level less. */
  lemma InwardStep(t: Tree, key: Key)
    requires t.Inner? && Less(key, t.key) && t.left.Inner? && t.right.Inner? && Shrinks(t.left, key)
    requires Height(t.left) < Height(t.right) && BalanceFactor(t.right) > 0
    ensures Shrinks(t, key) && RotationCost(t, key) == RotationCost(t.left, key) + 3
    ensures PathLength(t, key) == PathLength(t.left, key) + 1 && Found(t, key) == Found(t.left, key)
  {
  }

  lemma TwoRotationsIsValid(h: nat, t: Tree)
    requires h == 5 && t == TwoRotationsOf(h)
    ensures t.Inner? && t.left.Inner? && t.left.left.Inner? && t.left.right.Inner? && t.right.Inner?
    ensures Ranges(t, 0, 21) && Height(t) == 6 && Height(t.left) == 4 && Height(t.left.left) == 2
    ensures Height(t.right) == 5 && BalanceFactor(t.right) == 1
    ensures Height(t.left.right) == 3 && BalanceFactor(t.left.right) == 1
    ensures t.key == [8] && t.left.key == [3] && t.left.left.key == [1] && t.left.left.left == Leaf([0], [], 1)
  {
    Counts();
    hide Ranges, Leaning, Fib;
    var a, b, c := Leaning(h - 4, h - 4), Leaning(h - 2, h - 2), Leaning(h, h + 3);
    var low := Join([1], Leaf([0], [], 1), a, 1);
    var left := Join([3], low, b, 1);
    LeafRanges(0);
    LeaningRanges(h - 4, h - 4);
    LeaningRanges(h - 2, h - 2);
    LeaningRanges(h, h + 3);
    JoinRanges(Leaf([0], [], 1), a, 0, 1, 3);
    JoinRanges(low, b, 0, 3, 8);
    JoinRanges(left, c, 0, 8, 21);
  }

  lemma LowPath(t: Tree)
    requires t.Inner? && t.key == [1] && t.left.Leaf? && t.left.key == [0]
    ensures PathLength(t, [0]) == 2 && RotationCost(t, [0]) == 0 && Shrinks(t, [0]) && Found(t, [0])
  {
  }

  /** The bound Height + 3 fails: from this tree of height 6 Remove orphans ten nodes. */
  lemma RemoveOrphansMore(version: int) returns (t: Tree)
    ensures Valid(t) && Height(t) == 6 && [0] in Keys(t) && |RemoveTree(t, [0], version).orphans| == 10
    ensures t == TwoRotations()
  {
    hide Leaning, RemoveTree, Shaped, Ordered, Keys;
    t := TwoRotations();
    TwoRotationsIsValid(5, t);
    hide TwoRotationsOf, Stacked;
    LowPath(t.left.left);
    hide PathLength, RotationCost, Shrinks, Found;
    InwardStep(t.left, [0]);
    InwardStep(t, [0]);
    RemoveOrphansExactly(t, [0], version);
    FoundIsMember(t, [0]);
  }
}
