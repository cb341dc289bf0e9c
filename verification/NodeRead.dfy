/** Reading a tree: membership, lookup with rank, lookup by rank, and the leaves in key order. */
module NodeRead {
  import opened ByteOrder
  import opened Tree

  // ---------------------------------------------------------------- leaves in order

  /** The leaves from left to right. */
  function Leaves(t: Tree): (leaves: seq<Tree>)
    ensures |leaves| >= 1
  {
    if t.Leaf? then [t] else Leaves(t.left) + Leaves(t.right)
  }

  ghost predicate Ascending(leaves: seq<Tree>) {
    forall i, j :: 0 <= i < j < |leaves| ==> Less(leaves[i].key, leaves[j].key)
  }

  /** The leaves are the entries of the map in key order, each once. */
  lemma {:induction false} LeavesAreContents(t: Tree)
    requires Ordered(t)
    ensures Ascending(Leaves(t))
    ensures forall l :: l in Leaves(t) ==> l.Leaf? && l.key in Keys(t) && Contents(t)[l.key] == l.value
    ensures forall k :: k in Keys(t) ==> exists l :: l in Leaves(t) && l.key == k
    ensures Leaves(t)[0].key == MinKey(t)
  {
    if t.Inner? {
      LeavesAreContents(t.left);
      LeavesAreContents(t.right);
      hide Ordered;
      SidesApart(t);
      var a, b := Leaves(t.left), Leaves(t.right);
      var all: seq<Tree> := a + b;
      forall i, j | 0 <= i < j < |all| ensures Less(all[i].key, all[j].key) {
        if i < |a| <= j { assert a[i] in a && b[j - |a|] in b; }
      }
      forall k | k in Keys(t) ensures exists l :: l in a + b && l.key == k {
        if k in Keys(t.left) {
          var l :| l in a && l.key == k;
          assert l in a + b;
        } else {
          var l :| l in b && l.key == k;
          assert l in a + b;
        }
      }
      forall l | l in a + b ensures l.Leaf? && l.key in Keys(t) && Contents(t)[l.key] == l.value {
        assert l in a || l in b;
      }
    }
  }

  /** Every key on the left is below every key on the right, and the search key separates them. */
  lemma SidesApart(t: Tree)
    requires t.Inner? && Ordered(t)
    ensures Ordered(t.left) && Ordered(t.right)
    ensures forall a, b :: a in Keys(t.left) && b in Keys(t.right) ==> Less(a, b)
    ensures Keys(t.left) !! Keys(t.right)
    ensures forall key, k :: Less(key, t.key) && k in Keys(t.right) ==> Less(key, k)
    ensures forall key, k :: AtMost(t.key, key) && k in Keys(t.left) ==> Less(k, key)
    ensures t.key in Keys(t.right)
  {
    forall a, b | a in Keys(t.left) && b in Keys(t.right) ensures Less(a, b) { AtMostLeft(a, t.key, b); }
    forall k | k in Keys(t.left) && k in Keys(t.right) ensures false { LessIrreflexive(k); }
    forall key, k | Less(key, t.key) && k in Keys(t.right) ensures Less(key, k) { AtMostLeft(key, t.key, k); }
    forall key, k | AtMost(t.key, key) && k in Keys(t.left) ensures Less(k, key) { AtMostLeft(k, t.key, key); }
    MinKeyIsLeast(t.right);
  }

  lemma {:induction false} SizeCountsLeaves(t: Tree)
    requires Sized(t)
    ensures Size(t) == |Leaves(t)|
  {
    if t.Inner? { SizeCountsLeaves(t.left); SizeCountsLeaves(t.right); }
  }

  // ---------------------------------------------------------------- lookups

  /** node.has: stops at an inner node whose key matches. */
  function Has(t: Tree, key: Key): bool {
    if t.key == key then true
    else if t.Leaf? then false
    else if Less(key, t.key) then Has(t.left, key)
    else Has(t.right, key)
  }

  /** node.get: the index of the key, or where it would go, and its value. */
  function Get(t: Tree, key: Key): (int, Option<Value>) {
    if t.Leaf? then
      if Less(t.key, key) then (1, None)
      else if Less(key, t.key) then (0, None)
      else (0, Some(t.value))
    else if Less(key, t.key) then Get(t.left, key)
    else
      var r := Get(t.right, key);
      (r.0 + t.size - Size(t.right), r.1)
  }

  /** node.getByIndex */
  function GetByIndex(t: Tree, index: int): Option<(Key, Value)> {
    if t.Leaf? then (if index == 0 then Some((t.key, t.value)) else None)
    else if index < Size(t.left) then GetByIndex(t.left, index)
    else GetByIndex(t.right, index - Size(t.left))
  }

  /** The keys below `key`. */
  ghost function Below(t: Tree, key: Key): set<Key> {
    set k | k in Keys(t) && Less(k, key)
  }

  lemma {:induction false} HasIsMembership(t: Tree, key: Key)
    requires Ordered(t)
    ensures Has(t, key) <==> key in Keys(t)
  {
    if t.Inner? {
      SidesApart(t);
      HasIsMembership(t.left, key);
      HasIsMembership(t.right, key);
      LessIrreflexive(key);
    }
  }

  /** get returns the map's value and the number of smaller keys. */
  lemma {:induction false} GetIsLookup(t: Tree, key: Key)
    requires Valid(t)
    ensures Get(t, key).0 == |Below(t, key)|
    ensures Get(t, key).1 == if key in Contents(t) then Some(Contents(t)[key]) else None
  {
    if t.Leaf? {
      LessTotal(t.key, key);
      LessIrreflexive(key);
      assert Below(t, key) == if Less(t.key, key) then {t.key} else {};
    } else {
      LessIrreflexive(key);
      SidesApart(t);
      GetIsLookup(t.left, key);
      GetIsLookup(t.right, key);
      if Less(key, t.key) {
        BelowLeft(t, key);
      } else {
        BelowRight(t, key);
        SizeIsCardinality(t.left);
      }
    }
  }

  lemma BelowLeft(t: Tree, key: Key)
    requires t.Inner? && Ordered(t) && Less(key, t.key)
    ensures Below(t, key) == Below(t.left, key) && key !in Keys(t.right)
  {
    SidesApart(t);
    LessIrreflexive(key);
    forall k | k in Keys(t.right) ensures !Less(k, key) { LessAsymmetric(key, k); }
  }

  lemma BelowRight(t: Tree, key: Key)
    requires t.Inner? && Ordered(t) && AtMost(t.key, key)
    ensures |Below(t, key)| == |Keys(t.left)| + |Below(t.right, key)| && key !in Keys(t.left)
  {
    SidesApart(t);
    LessIrreflexive(key);
    assert Below(t, key) == Keys(t.left) + Below(t.right, key);
  }

  /** getByIndex reads the leaves by position and refuses every other index. */
  lemma {:induction false} GetByIndexReadsLeaves(t: Tree, index: int)
    requires Sized(t)
    ensures GetByIndex(t, index) ==
            if 0 <= index < |Leaves(t)| then Some((Leaves(t)[index].key, LeafValue(Leaves(t)[index]))) else None
  {
    if t.Inner? {
      SizeCountsLeaves(t.left);
      GetByIndexReadsLeaves(t.left, index);
      GetByIndexReadsLeaves(t.right, index - Size(t.left));
    }
  }

  function LeafValue(t: Tree): Value {
    if t.Leaf? then t.value else []
  }

  /** The leaf of a present key stands at the key's rank. */
  lemma {:induction false} RankIsPosition(t: Tree, key: Key)
    requires Valid(t) && key in Keys(t)
    ensures 0 <= Get(t, key).0 < |Leaves(t)| && Leaves(t)[Get(t, key).0].key == key
  {
    LessIrreflexive(key);
    if t.Inner? {
      SidesApart(t);
      ShapedIsSized(t.left);
      SizeCountsLeaves(t.left);
      if Less(key, t.key) {
        BelowLeft(t, key);
        RankIsPosition(t.left, key);
      } else {
        BelowRight(t, key);
        RankIsPosition(t.right, key);
      }
    }
  }

  /** Rank agreement: getByIndex inverts the index get returns. */
  lemma GetByIndexInvertsGet(t: Tree, key: Key)
    requires Valid(t) && key in Keys(t)
    ensures GetByIndex(t, Get(t, key).0) == Some((key, Contents(t)[key]))
  {
    ShapedIsSized(t);
    RankIsPosition(t, key);
    GetByIndexReadsLeaves(t, Get(t, key).0);
    LeavesAreContents(t);
    assert Leaves(t)[Get(t, key).0] in Leaves(t);
  }

  lemma OnePosition(leaves: seq<Tree>, i: int, j: int)
    requires Ascending(leaves) && 0 <= i < |leaves| && 0 <= j < |leaves| && leaves[i].key == leaves[j].key
    ensures i == j
  {
    LessIrreflexive(leaves[i].key);
  }

  /** ... and get inverts getByIndex, on every index of the tree. */
  lemma GetInvertsGetByIndex(t: Tree, index: int)
    requires Valid(t) && 0 <= index < Size(t)
    ensures var e := GetByIndex(t, index);
            e.Some? && e.value.0 in Contents(t) && Get(t, e.value.0) == (index, Some(e.value.1))
  {
    ShapedIsSized(t);
    SizeCountsLeaves(t);
    GetByIndexReadsLeaves(t, index);
    LeavesAreContents(t);
    var key := Leaves(t)[index].key;
    assert Leaves(t)[index] in Leaves(t);
    RankIsPosition(t, key);
    GetIsLookup(t, key);
    OnePosition(Leaves(t), Get(t, key).0, index);
  }
}
