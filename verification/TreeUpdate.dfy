/** Set and Remove on tree values: the recursion, the rotations and the nodes each call orphans. */
module TreeUpdate {
  import opened ByteOrder
  import opened Tree

  /** A rebuilt subtree together with the nodes that were replaced on the way. */
  datatype Rebuilt = Rebuilt(tree: Tree, orphans: seq<Tree>)

  function RotateRight(t: Tree, version: int): (r: Tree)
    requires t.Inner? && t.left.Inner?
  {
    Join(t.left.key, t.left.left, Join(t.key, t.left.right, t.right, version), version)
  }

  function RotateLeft(t: Tree, version: int): (r: Tree)
    requires t.Inner? && t.right.Inner?
  {
    Join(t.right.key, Join(t.key, t.left, t.right.left, version), t.right.right, version)
  }

  /** A node whose children are balanced and whose stored height and size are exact. */
  ghost predicate NearlyShaped(t: Tree) {
    && t.Inner? && Shaped(t.left) && Shaped(t.right)
    && t == Join(t.key, t.left, t.right, t.version)
    && -2 <= BalanceFactor(t) <= 2
  }

  function Balance(t: Tree, version: int): (r: Rebuilt)
    requires NearlyShaped(t)
  {
    ShapedIsPositive(t.left);
    ShapedIsPositive(t.right);
    if BalanceFactor(t) > 1 then
      if BalanceFactor(t.left) >= 0 then
        Rebuilt(RotateRight(t, version), [t.left])
      else
        ShapedIsPositive(t.left.right);
        ShapedIsPositive(t.left.left);
        var left' := RotateLeft(t.left, version);
        Rebuilt(RotateRight(t.(left := left'), version), [t.left, t.left.right, left'])
    else if BalanceFactor(t) < -1 then
      if BalanceFactor(t.right) <= 0 then
        Rebuilt(RotateLeft(t, version), [t.right])
      else
        ShapedIsPositive(t.right.right);
        ShapedIsPositive(t.right.left);
        var right' := RotateRight(t.right, version);
        Rebuilt(RotateLeft(t.(right := right'), version), [t.right, right', t.right.left])
    else
      Rebuilt(t, [])
  }

  /** Rebalancing restores the shape and loses at most one level. */
  lemma {:induction false} BalanceShape(t: Tree, version: int)
    requires NearlyShaped(t)
    ensures var r := Balance(t, version).tree;
            Shaped(r) && Height(t) - 1 <= Height(r) <= Height(t) && Size(r) == Size(t)
    ensures -1 <= BalanceFactor(t) <= 1 ==> Balance(t, version).tree == t
  {
    ShapedIsPositive(t.left);
    ShapedIsPositive(t.right);
    if BalanceFactor(t) > 1 {
      LeftHeavyShape(t, version);
    } else if BalanceFactor(t) < -1 {
      RightHeavyShape(t, version);
    }
  }

  lemma {:induction false} LeftHeavyShape(t: Tree, version: int)
    requires NearlyShaped(t) && BalanceFactor(t) == 2
    ensures var r := Balance(t, version).tree;
            Shaped(r) && Height(t) - 1 <= Height(r) <= Height(t) && Size(r) == Size(t)
  {
    var l := t.left;
    ShapedIsPositive(t.right);
    ShapedIsPositive(l);
    ShapedIsPositive(l.left);
    ShapedIsPositive(l.right);
    if BalanceFactor(l) >= 0 {
      assert Shaped(Join(t.key, l.right, t.right, version));
    } else {
      assert Shaped(Join(l.key, l.left, l.right.left, version));
      assert Shaped(Join(t.key, l.right.right, t.right, version));
    }
  }

  lemma {:induction false} RightHeavyShape(t: Tree, version: int)
    requires NearlyShaped(t) && BalanceFactor(t) == -2
    ensures var r := Balance(t, version).tree;
            Shaped(r) && Height(t) - 1 <= Height(r) <= Height(t) && Size(r) == Size(t)
  {
    var r := t.right;
    ShapedIsPositive(t.left);
    ShapedIsPositive(r);
    ShapedIsPositive(r.left);
    ShapedIsPositive(r.right);
    if BalanceFactor(r) <= 0 {
      assert Shaped(Join(t.key, t.left, r.left, version));
    } else {
      assert Shaped(Join(t.key, t.left, r.left.left, version));
      assert Shaped(Join(r.key, r.left.right, r.right, version));
    }
  }

  lemma {:induction false} RotateRightOrder(t: Tree, version: int)
    requires Ordered(t) && t.Inner? && t.left.Inner?
    ensures var r := RotateRight(t, version);
            Ordered(r) && MinKey(r) == MinKey(t) && Contents(r) == Contents(t)
  {
    var r := RotateRight(t, version);
    assert Ordered(r.right);
    forall k | k in Keys(r.right) ensures AtMost(r.key, k) {
      if k in Keys(t.right) { MinKeyIsLeast(t.left.right); AtMostLeft(r.key, t.key, k); }
    }
    assert Contents(r) == Contents(t);
  }

  lemma {:induction false} RotateLeftOrder(t: Tree, version: int)
    requires Ordered(t) && t.Inner? && t.right.Inner?
    ensures var r := RotateLeft(t, version);
            Ordered(r) && MinKey(r) == MinKey(t) && Contents(r) == Contents(t)
  {
    var r := RotateLeft(t, version);
    MinKeyIsLeast(t.right.left);
    assert Ordered(r.left);
    forall k | k in Keys(r.left) ensures Less(k, r.key) {
      if k in Keys(t.left) { LessTransitive(k, t.key, r.key); }
    }
    assert Contents(r) == Contents(t);
  }

  lemma {:induction false} BalanceOrder(t: Tree, version: int)
    requires NearlyShaped(t) && Ordered(t)
    ensures var r := Balance(t, version).tree;
            Ordered(r) && MinKey(r) == MinKey(t) && Contents(r) == Contents(t)
  {
    ShapedIsPositive(t.left);
    ShapedIsPositive(t.right);
    if BalanceFactor(t) > 1 {
      if BalanceFactor(t.left) >= 0 {
        RotateRightOrder(t, version);
      } else {
        ShapedIsPositive(t.left.right);
        ShapedIsPositive(t.left.left);
        RotateLeftOrder(t.left, version);
        RotateRightOrder(t.(left := RotateLeft(t.left, version)), version);
      }
    } else if BalanceFactor(t) < -1 {
      if BalanceFactor(t.right) <= 0 {
        RotateLeftOrder(t, version);
      } else {
        ShapedIsPositive(t.right.right);
        ShapedIsPositive(t.right.left);
        RotateRightOrder(t.right, version);
        RotateLeftOrder(t.(right := RotateRight(t.right, version)), version);
      }
    }
  }

  /** A node put together from two ordered subtrees stays ordered, whether or not it is then rebalanced. */
  lemma {:induction false} Relink(key: Key, left: Tree, right: Tree, version: int)
    requires Ordered(left) && Ordered(right) && key == MinKey(right)
    requires forall k :: k in Keys(left) ==> Less(k, key)
    requires NearlyShaped(Join(key, left, right, version))
    ensures var j := Join(key, left, right, version); var r := Balance(j, version).tree;
            && Ordered(j) && Contents(j) == Contents(left) + Contents(right) && MinKey(j) == MinKey(left)
            && Valid(r) && Contents(r) == Contents(left) + Contents(right) && MinKey(r) == MinKey(left)
  {
    MinKeyIsLeast(right);
    BalanceOrder(Join(key, left, right, version), version);
    BalanceShape(Join(key, left, right, version), version);
  }

  // ---------------------------------------------------------------- Set

  datatype SetResult = SetResult(tree: Tree, updated: bool, orphans: seq<Tree>)

  /** recursiveSet */
  function SetTree(t: Tree, key: Key, value: Value, version: int): (r: SetResult)
    requires Shaped(t)
    ensures Shaped(r.tree) && Height(t) <= Height(r.tree) <= Height(t) + 1
    ensures Size(r.tree) == Size(t) + (if r.updated then 0 else 1)
    ensures r.updated ==> Height(r.tree) == Height(t)
  {
    if t.Leaf? then
      if Less(key, t.key) then SetResult(Join(t.key, Leaf(key, value, version), t, version), false, [])
      else if Less(t.key, key) then SetResult(Join(key, t, Leaf(key, value, version), version), false, [])
      else SetResult(Leaf(key, value, version), true, [t])
    else
      var goLeft := Less(key, t.key);
      var sub := SetTree(if goLeft then t.left else t.right, key, value, version);
      var left, right := if goLeft then sub.tree else t.left, if goLeft then t.right else sub.tree;
      if sub.updated then
        SetResult(Inner(t.key, t.height, t.size, left, right, version), true, [t] + sub.orphans)
      else
        var node := Join(t.key, left, right, version);
        BalanceShape(node, version);
        var b := Balance(node, version);
        SetResult(b.tree, false, [t] + sub.orphans + b.orphans)
  }

  /** One unfolding of SetTree around an already updated child. */
  ghost function SetAbove(t: Tree, left: Tree, right: Tree, updated: bool, below: seq<Tree>, version: int): SetResult
    requires t.Inner? && (!updated ==> NearlyShaped(Join(t.key, left, right, version)))
  {
    if updated then SetResult(Inner(t.key, t.height, t.size, left, right, version), true, [t] + below)
    else
      var b := Balance(Join(t.key, left, right, version), version);
      SetResult(b.tree, false, [t] + below + b.orphans)
  }

  lemma SetUnfolds(t: Tree, key: Key, value: Value, version: int)
    requires Shaped(t) && t.Inner?
    ensures Sized(t.left) && Sized(t.right) && Shaped(t.left) && Shaped(t.right)
    ensures var sub := SetTree(if Less(key, t.key) then t.left else t.right, key, value, version);
            var left, right := if Less(key, t.key) then sub.tree
                else t.left, if Less(key, t.key) then t.right else sub.tree;
            var r := SetTree(t, key, value, version);
            && NearlyShaped(Join(t.key, left, right, version))
            && r == SetAbove(t, left, right, sub.updated, sub.orphans, version)
            && (sub.updated ==> Shaped(r.tree) && r.tree == Join(t.key, left, right, version))
  {
    ShapedIsSized(t.left);
    ShapedIsSized(t.right);
    hide Less, Balance;
  }

  /** What one call of recursiveSet promises its caller. */
  ghost predicate SetExactly(t: Tree, key: Key, value: Value, r: SetResult) {
    && Valid(r.tree)
    && Contents(r.tree) == Contents(t)[key := value]
    && (r.updated <==> key in Keys(t))
    && MinKey(r.tree) == (if Less(key, MinKey(t)) then key else MinKey(t))
  }

  /** Set is map update; it keeps the search order and reports whether the key was there. */
  lemma {:induction false} SetRefinesUpdate(t: Tree, key: Key, value: Value, version: int)
    requires Valid(t)
    ensures SetExactly(t, key, value, SetTree(t, key, value, version))
  {
    LessTotal(key, t.key);
    LessIrreflexive(key);
    LessIrreflexive(t.key);
    if t.Leaf? {
      var leaf := Leaf(key, value, version);
      assert Contents(leaf) + Contents(t) == Contents(t)[key := value] == Contents(t) + Contents(leaf) || key == t.key;
      if Less(key, t.key) {
        Relink(t.key, leaf, t, version);
      } else if Less(t.key, key) {
        LessAsymmetric(t.key, key);
        Relink(key, t, leaf, version);
      }
    } else if Less(key, t.key) {
      SetRefinesUpdate(t.left, key, value, version);
      SetLeft(t, key, value, version);
    } else {
      SetRefinesUpdate(t.right, key, value, version);
      SetRight(t, key, value, version);
    }
  }

  lemma {:induction false} SetLeft(t: Tree, key: Key, value: Value, version: int)
    requires Valid(t) && t.Inner? && Less(key, t.key)
    requires SetExactly(t.left, key, value, SetTree(t.left, key, value, version))
    ensures SetExactly(t, key, value, SetTree(t, key, value, version))
  {
    hide Balance, Less, SetTree, Shaped, NearlyShaped;
    SetUnfolds(t, key, value, version);
    var sub := SetTree(t.left, key, value, version);
    UpdateOnLeft(t, sub.tree, key, value);
    Relink(t.key, sub.tree, t.right, version);
  }

  lemma UpdateParts(a: map<Key, Value>, b: map<Key, Value>, key: Key, value: Value)
    ensures key !in b ==> (a + b)[key := value] == a[key := value] + b
    ensures (a + b)[key := value] == a + b[key := value]
  {
  }

  lemma UpdateOnLeft(t: Tree, left: Tree, key: Key, value: Value)
    requires t.Inner? && Ordered(t) && Less(key, t.key) && Contents(left) == Contents(t.left)[key := value]
    ensures Contents(t)[key := value] == Contents(left) + Contents(t.right)
    ensures Keys(left) == Keys(t.left) + {key} && key !in Keys(t.right)
  {
    hide Less, Keys;
    UpdateParts(Contents(t.left), Contents(t.right), key, value);
    assert Keys(left) == Contents(left).Keys == Contents(t.left).Keys + {key};
    assert key !in Keys(t.right);
  }

  lemma {:induction false} SetRight(t: Tree, key: Key, value: Value, version: int)
    requires Valid(t) && t.Inner? && !Less(key, t.key)
    requires SetExactly(t.right, key, value, SetTree(t.right, key, value, version))
    ensures SetExactly(t, key, value, SetTree(t, key, value, version))
  {
    hide Balance, Less, SetTree, Shaped, NearlyShaped;
    SetUnfolds(t, key, value, version);
    var sub := SetTree(t.right, key, value, version);
    UpdateOnRight(t, sub.tree, key, value);
    MinKeyIsLeast(t.left);
    AtMostLeft(MinKey(t.left), t.key, key);
    Relink(t.key, t.left, sub.tree, version);
  }

  lemma UpdateOnRight(t: Tree, right: Tree, key: Key, value: Value)
    requires t.Inner? && Ordered(t) && !Less(key, t.key) && Contents(right) == Contents(t.right)[key := value]
    ensures Contents(t)[key := value] == Contents(t.left) + Contents(right)
    ensures Keys(right) == Keys(t.right) + {key} && key !in Keys(t.left)
  {
    hide Less, Keys;
    UpdateParts(Contents(t.left), Contents(t.right), key, value);
    assert Keys(right) == Contents(right).Keys == Contents(t.right).Keys + {key};
    assert key !in Keys(t.left);
  }

  // ---------------------------------------------------------------- Remove

  /** `newKey` is the new least key of the subtree when removal changed it. */
  datatype RemoveResult =
    RemoveResult(tree: Option<Tree>, newKey: Option<Key>, value: Option<Value>, orphans: seq<Tree>)

  /** recursiveRemove; an empty orphan list means the key was not found. */
  function RemoveTree(t: Tree, key: Key, version: int): (r: RemoveResult)
    requires Shaped(t)
    ensures r.orphans == [] ==> r == RemoveResult(Some(t), None, None, [])
    ensures r.orphans != [] ==> (r.tree.None? <==> t.Leaf?)
    ensures r.tree.Some? ==>
      && Shaped(r.tree.value) && Height(t) - 1 <= Height(r.tree.value) <= Height(t)
      && Size(r.tree.value) == Size(t) - (if r.orphans == [] then 0 else 1)
  {
    if t.Leaf? then
      if key == t.key then RemoveResult(None, None, Some(t.value), [t]) else RemoveResult(Some(t), None, None, [])
    else if Less(key, t.key) then
      var sub := RemoveTree(t.left, key, version);
      if sub.orphans == [] then RemoveResult(Some(t), None, None, [])
      else if sub.tree.None? then
        ShapedIsPositive(t.right);
        RemoveResult(Some(t.right), Some(t.key), sub.value, sub.orphans + [t])
      else
        var node := Join(t.key, sub.tree.value, t.right, version);
        BalanceShape(node, version);
        var b := Balance(node, version);
        RemoveResult(Some(b.tree), sub.newKey, sub.value, sub.orphans + [t] + b.orphans)
    else
      var sub := RemoveTree(t.right, key, version);
      if sub.orphans == [] then RemoveResult(Some(t), None, None, [])
      else if sub.tree.None? then
        ShapedIsPositive(t.left);
        RemoveResult(Some(t.left), None, sub.value, sub.orphans + [t])
      else
        var node := Join(if sub.newKey.Some? then sub.newKey.value else t.key, t.left, sub.tree.value, version);
        BalanceShape(node, version);
        var b := Balance(node, version);
        RemoveResult(Some(b.tree), None, sub.value, sub.orphans + [t] + b.orphans)
  }

  /** The inner node rebuilt above a child that lost the key. */
  ghost function Repaired(t: Tree, goLeft: bool, sub: RemoveResult, version: int): Tree
    requires t.Inner? && sub.tree.Some?
  {
    if goLeft then Join(t.key, sub.tree.value, t.right, version)
    else Join(if sub.newKey.Some? then sub.newKey.value else t.key, t.left, sub.tree.value, version)
  }

  ghost function RemoveAbove(t: Tree, goLeft: bool, sub: RemoveResult, version: int): RemoveResult
    requires t.Inner?
    requires sub.orphans != [] && sub.tree.Some? ==> NearlyShaped(Repaired(t, goLeft, sub, version))
  {
    if sub.orphans == [] then RemoveResult(Some(t), None, None, [])
    else if sub.tree.None? then
      RemoveResult(Some(if goLeft then t.right else t.left), if goLeft then Some(t.key) else None,
                   sub.value, sub.orphans + [t])
    else
      var b := Balance(Repaired(t, goLeft, sub, version), version);
      RemoveResult(Some(b.tree), if goLeft then sub.newKey else None, sub.value, sub.orphans + [t] + b.orphans)
  }

  lemma RemoveUnfolds(t: Tree, key: Key, version: int)
    requires Shaped(t) && t.Inner?
    ensures Sized(t.left) && Sized(t.right) && Shaped(t.left) && Shaped(t.right)
    ensures var goLeft := Less(key, t.key);
            var sub := RemoveTree(if goLeft then t.left else t.right, key, version);
            && (sub.orphans != [] && sub.tree.Some? ==> NearlyShaped(Repaired(t, goLeft, sub, version)))
            && RemoveTree(t, key, version) == RemoveAbove(t, goLeft, sub, version)
  {
    ShapedIsSized(t.left);
    ShapedIsSized(t.right);
    hide Less, Balance;
  }

  /** What one call of recursiveRemove promises its caller. */
  ghost predicate RemovedExactly(t: Tree, key: Key, r: RemoveResult) {
    && (r.orphans != [] <==> key in Keys(t))
    && ValidRoot(r.tree)
    && RootContents(r.tree) == Contents(t) - {key}
    && r.value == (if key in Keys(t) then Some(Contents(t)[key]) else None)
    && (r.tree.Some? ==> MinKey(r.tree.value) == (if r.newKey.Some? then r.newKey.value else MinKey(t)))
    && (r.newKey.Some? ==> key == MinKey(t) && Less(key, r.newKey.value))
  }

  /** Remove is map removal, including the repair of ancestors whose least right key vanished. */
  lemma {:induction false} RemoveRefinesDeletion(t: Tree, key: Key, version: int)
    requires Valid(t)
    ensures RemovedExactly(t, key, RemoveTree(t, key, version))
  {
    LessIrreflexive(key);
    var r := RemoveTree(t, key, version);
    if t.Leaf? {
      assert RootContents(r.tree) == Contents(t) - {key};
    } else if Less(key, t.key) {
      RemoveRefinesDeletion(t.left, key, version);
      RemoveLeft(t, key, version);
    } else {
      RemoveRefinesDeletion(t.right, key, version);
      RemoveRight(t, key, version);
    }
  }

  lemma {:induction false} RemoveLeft(t: Tree, key: Key, version: int)
    requires Valid(t) && t.Inner? && Less(key, t.key)
    requires RemovedExactly(t.left, key, RemoveTree(t.left, key, version))
    ensures RemovedExactly(t, key, RemoveTree(t, key, version))
  {
    hide Balance, Less, RemoveTree, Shaped, NearlyShaped;
    RemoveUnfolds(t, key, version);
    var sub := RemoveTree(t.left, key, version);
    assert key !in Keys(t.right);
    DropFromMerge(Contents(t.left), Contents(t.right), key);
    if sub.orphans != [] {
      if sub.tree.None? {
        assert t.left.Leaf? && MinKey(t.left) == key;
        assert Contents(t.left) - {key} == map[];
        assert Contents(t) - {key} == Contents(t.right);
      } else {
        assert Keys(sub.tree.value) == Keys(t.left) - {key};
        Relink(t.key, sub.tree.value, t.right, version);
      }
    }
  }

  lemma {:induction false} RemoveRight(t: Tree, key: Key, version: int)
    requires Valid(t) && t.Inner? && !Less(key, t.key)
    requires RemovedExactly(t.right, key, RemoveTree(t.right, key, version))
    ensures RemovedExactly(t, key, RemoveTree(t, key, version))
  {
    hide Balance, Less, RemoveTree, Shaped, NearlyShaped;
    RemoveUnfolds(t, key, version);
    var sub := RemoveTree(t.right, key, version);
    assert key !in Keys(t.left);
    DropFromMerge(Contents(t.left), Contents(t.right), key);
    if sub.orphans != [] {
      if sub.tree.None? {
        assert t.right.Leaf? && MinKey(t.right) == key;
        assert Contents(t.right) - {key} == map[];
        assert Contents(t) - {key} == Contents(t.left);
      } else {
        var newKey := if sub.newKey.Some? then sub.newKey.value else t.key;
        forall k | k in Keys(t.left) ensures Less(k, newKey) {
          if sub.newKey.Some? { LessTransitive(k, t.key, newKey); }
        }
        Relink(newKey, t.left, sub.tree.value, version);
      }
    }
  }

  lemma DropFromMerge(a: map<Key, Value>, b: map<Key, Value>, key: Key)
    ensures (a + b) - {key} == (a - {key}) + (b - {key})
    ensures key !in a ==> a - {key} == a
    ensures key !in b ==> b - {key} == b
  {
  }
}
