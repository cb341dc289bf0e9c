/** recursiveSet and recursiveRemove on the node heap: they build new nodes and leave every existing one alone. */
module NodeUpdate {
  import opened ByteOrder
  import opened Tree
  import opened TreeUpdate
  import opened Orphans
  import opened Hashing
  import opened NodeHeap

  /** recursiveSet. There is no modifies clause: only nodes allocated by the call are ever written. */
  method RecursiveSet(node: Node, key: Key, value: Value, version: int, db: NodeDB, ghost heap: set<Node>)
    returns (newSelf: Node, updated: bool, orphans: seq<Node>, ghost heap': set<Node>)
    requires version > db.latest && Consistent(heap, db) && node in heap && Shaped(node.tree)
    ensures var r := SetTree(node.tree, key, value, version);
            newSelf.tree == r.tree && updated == r.updated && Denote(orphans, r.orphans)
    ensures newSelf in heap' && heap <= heap' && fresh(heap' - heap) && Consistent(heap', db)
    ensures forall o :: o in orphans ==> o in heap'
    decreases node.tree, 1
  {
    assert node.Agrees(heap, db);
    hide Nodes, HashOf, Consistent, Less, SetTree;
    if node.height == 0 {
      newSelf, updated, orphans, heap' := SetLeaf(node, key, value, version, db, heap);
    } else if Less(key, node.key) {
      newSelf, updated, orphans, heap' := SetInLeft(node, key, value, version, db, heap);
    } else {
      newSelf, updated, orphans, heap' := SetInRight(node, key, value, version, db, heap);
    }
  }

  method SetInLeft(node: Node, key: Key, value: Value, version: int, db: NodeDB, ghost heap: set<Node>)
    returns (newSelf: Node, updated: bool, orphans: seq<Node>, ghost heap': set<Node>)
    requires version > db.latest && Consistent(heap, db) && node in heap && Shaped(node.tree) && node.Agrees(heap, db)
    requires node.tree.Inner? && Less(key, node.key)
    ensures var r := SetTree(node.tree, key, value, version);
            newSelf.tree == r.tree && updated == r.updated && Denote(orphans, r.orphans)
    ensures newSelf in heap' && heap <= heap' && fresh(heap' - heap) && Consistent(heap', db)
    ensures forall o :: o in orphans ==> o in heap'
    decreases node.tree, 0
  {
    hide Nodes, HashOf, Consistent, Less, Balance, SetTree, Shaped, NearlyShaped, Sized;
    SetUnfolds(node.tree, key, value, version);
    ghost var t := node.tree;
    var left, sub, below;
    left, heap' := GetLeft(node, db, heap);
    sub, updated, below, heap' := RecursiveSet(left, key, value, version, db, heap');
    newSelf, orphans, heap' := SetNodeAbove(node, [], sub, node.rightHash, node.rightNode, updated, below, version, db,
                                            sub.tree, t.right, SetTree(t.left, key, value, version).orphans, heap');
  }

  method SetInRight(node: Node, key: Key, value: Value, version: int, db: NodeDB, ghost heap: set<Node>)
    returns (newSelf: Node, updated: bool, orphans: seq<Node>, ghost heap': set<Node>)
    requires version > db.latest && Consistent(heap, db) && node in heap && Shaped(node.tree) && node.Agrees(heap, db)
    requires node.tree.Inner? && !Less(key, node.key)
    ensures var r := SetTree(node.tree, key, value, version);
            newSelf.tree == r.tree && updated == r.updated && Denote(orphans, r.orphans)
    ensures newSelf in heap' && heap <= heap' && fresh(heap' - heap) && Consistent(heap', db)
    ensures forall o :: o in orphans ==> o in heap'
    decreases node.tree, 0
  {
    hide Nodes, HashOf, Consistent, Less, Balance, SetTree, Shaped, NearlyShaped, Sized;
    SetUnfolds(node.tree, key, value, version);
    ghost var t := node.tree;
    var right, sub, below;
    right, heap' := GetRight(node, db, heap);
    sub, updated, below, heap' := RecursiveSet(right, key, value, version, db, heap');
    newSelf, orphans, heap' := SetNodeAbove(node, node.leftHash, node.leftNode, [], sub, updated, below, version, db,
                                            t.left, sub.tree, SetTree(t.right, key, value, version).orphans, heap');
  }

  method SetLeaf(node: Node, key: Key, value: Value, version: int, db: NodeDB, ghost heap: set<Node>)
    returns (newSelf: Node, updated: bool, orphans: seq<Node>, ghost heap': set<Node>)
    requires version > db.latest && Consistent(heap, db) && node in heap && node.tree.Leaf? && node.Agrees(heap, db)
    ensures var r := SetTree(node.tree, key, value, version);
            newSelf.tree == r.tree && updated == r.updated && Denote(orphans, r.orphans)
    ensures newSelf in heap' && heap <= heap' && fresh(heap' - heap) && Consistent(heap', db)
    ensures forall o :: o in orphans ==> o in heap'
  {
    hide Nodes, HashOf, Consistent, Less;
    var leaf := new Node.Leaf(key, value, version);
    Joins(heap, leaf, db);
    heap' := heap + {leaf};
    if Less(key, node.key) {
      updated, orphans := false, [];
      newSelf := new Node.Inner(node.key, 1, 2, [], leaf, [], node, version,
                                Join(node.key, leaf.tree, node.tree, version));
      Joins(heap', newSelf, db);
      heap' := heap' + {newSelf};
    } else if Less(node.key, key) {
      updated, orphans := false, [];
      newSelf := new Node.Inner(key, 1, 2, [], node, [], leaf, version, Join(key, node.tree, leaf.tree, version));
      Joins(heap', newSelf, db);
      heap' := heap' + {newSelf};
    } else {
      newSelf, updated, orphans := leaf, true, [node];
    }
  }

  /** The tail of recursiveSet: an update keeps height and size, an insertion recomputes them and rebalances. */
  method SetNodeAbove(node: Node, leftHash: Hash, leftNode: Node?, rightHash: Hash, rightNode: Node?, updated: bool,
                      below: seq<Node>, version: int, db: NodeDB, ghost left: Tree, ghost right: Tree,
                      ghost belowTrees: seq<Tree>, ghost heap: set<Node>)
    returns (newSelf: Node, orphans: seq<Node>, ghost heap': set<Node>)
    requires version > db.latest && Consistent(heap, db) && node in heap && node.tree.Inner? && node.Agrees(heap, db)
    requires Node.Child(leftNode, leftHash, left, heap, db) && Node.Child(rightNode, rightHash, right, heap, db)
    requires Denote(below, belowTrees) && forall o :: o in below ==> o in heap
    requires updated ==> Shaped(Tree.Inner(node.tree.key, node.tree.height, node.tree.size, left, right, version))
    requires !updated ==> NearlyShaped(Join(node.tree.key, left, right, version))
    ensures var r := SetAbove(node.tree, left, right, updated, belowTrees, version);
            newSelf.tree == r.tree && Denote(orphans, r.orphans)
    ensures newSelf in heap' && heap <= heap' && fresh(heap' - heap) && Consistent(heap', db)
    ensures forall o :: o in orphans ==> o in heap'
  {
    hide Nodes, HashOf, Consistent, Balance;
    ghost var t := node.tree;
    var copy := new Node.Inner(node.key, node.height, node.size, leftHash, leftNode, rightHash, rightNode,
                               version, Tree.Inner(t.key, t.height, t.size, left, right, version));
    if updated {
      ShapedIsSized(copy.tree);
      Joins(heap, copy, db);
      return copy, [node] + below, heap + {copy};
    }
    newSelf, orphans, heap' := Rebuild(copy, [node] + below, version, db, [t] + belowTrees, heap);
  }

  /** calcHeightAndSize and balance on a fresh copy, appending to the orphans collected so far. */
  method Rebuild(copy: Node, acc: seq<Node>, version: int, db: NodeDB, ghost accTrees: seq<Tree>, ghost heap: set<Node>)
    returns (r: Node, orphans: seq<Node>, ghost heap': set<Node>)
    requires version > db.latest && Consistent(heap, db) && copy !in heap && copy.Linked(heap, db) && copy.hash == []
             && !copy.persisted
    requires Denote(acc, accTrees) && forall o :: o in acc ==> o in heap
    requires copy.tree.version == version && NearlyShaped(Join(copy.tree.key, copy.tree.left, copy.tree.right, version))
    modifies copy
    ensures var t := old(copy.tree); var b := Balance(Join(t.key, t.left, t.right, version), version);
            r.tree == b.tree && Denote(orphans, accTrees + b.orphans)
    ensures r in heap' && heap <= heap' && fresh(heap' - heap - {copy}) && Consistent(heap', db)
    ensures forall o :: o in orphans ==> o in heap'
  {
    ShapedIsSized(copy.tree.left);
    ShapedIsSized(copy.tree.right);
    hide Nodes, HashOf, Consistent, Balance, Sized, Shaped, Denote;
    heap' := CalcHeightAndSize(copy, db, heap);
    ghost var copy' := copy.tree;
    var more;
    r, more, heap' := BalanceNode(copy, version, db, heap');
    assert Denote(acc, accTrees);
    DenoteConcat(acc, more, accTrees, Balance(copy', version).orphans);
    orphans := acc + more;
  }

  lemma DenoteConcat(a: seq<Node>, b: seq<Node>, s: seq<Tree>, t: seq<Tree>)
    requires Denote(a, s) && Denote(b, t)
    ensures Denote(a + b, s + t)
  {
  }

  // ---------------------------------------------------------------- Remove

  /** The (hash, node) pair recursiveRemove hands up: both nil for "nothing left". */
  ghost predicate Handed(hash: Hash, node: Node?, t: Option<Tree>, heap: set<Node>, db: NodeDB)
    reads heap, db
  {
    if t.None? then hash == [] && node == null
    else Node.Child(node, hash, t.value, heap, db) && (node == null ==> hash != [])
  }

  /** recursiveRemove */
  method RecursiveRemove(node: Node, key: Key, version: int, db: NodeDB, ghost heap: set<Node>)
    returns (newHash: Hash, newSelf: Node?, newKey: Option<Key>, value: Option<Value>, orphans: seq<Node>,
             ghost heap': set<Node>)
    requires version > db.latest && Consistent(heap, db) && node in heap && Shaped(node.tree)
    ensures var r := RemoveTree(node.tree, key, version);
            newKey == r.newKey && value == r.value && Denote(orphans, r.orphans)
                && Handed(newHash, newSelf, r.tree, heap', db)
    ensures heap <= heap' && fresh(heap' - heap) && Consistent(heap', db)
    ensures forall o :: o in orphans ==> o in heap'
    decreases node.tree, 1
  {
    assert node.Agrees(heap, db);
    if node.height == 0 {
      if key == node.key {
        return [], null, None, Some(node.value), [node], heap;
      }
      return node.hash, node, None, None, [], heap;
    }
    newHash, newSelf, newKey, value, orphans, heap' := RemoveFromInner(node, key, version, db, heap);
  }

  method RemoveFromInner(node: Node, key: Key, version: int, db: NodeDB, ghost heap: set<Node>)
    returns (newHash: Hash, newSelf: Node?, newKey: Option<Key>, value: Option<Value>, orphans: seq<Node>,
             ghost heap': set<Node>)
    requires version > db.latest && Consistent(heap, db) && node in heap && Shaped(node.tree)
    requires node.tree.Inner? && node.Agrees(heap, db)
    ensures var r := RemoveTree(node.tree, key, version);
            newKey == r.newKey && value == r.value && Denote(orphans, r.orphans)
                && Handed(newHash, newSelf, r.tree, heap', db)
    ensures heap <= heap' && fresh(heap' - heap) && Consistent(heap', db)
    ensures forall o :: o in orphans ==> o in heap'
    decreases node.tree, 0
  {
    hide Nodes, HashOf, Consistent, Less, Balance, RemoveTree, Shaped, NearlyShaped, Sized, Denote;
    RemoveUnfolds(node.tree, key, version);
    var goLeft := Less(key, node.key);
    var child;
    if goLeft {
      child, heap' := GetLeft(node, db, heap);
    } else {
      child, heap' := GetRight(node, db, heap);
    }
    ghost var sub := RemoveTree(child.tree, key, version);
    newHash, newSelf, newKey, value, orphans, heap' := RecursiveRemove(child, key, version, db, heap');
    newHash, newSelf, newKey, value, orphans, heap' :=
      RemoveNodeAbove(node, goLeft, newHash, newSelf, newKey, value, orphans, version, db, sub, heap');
  }

  /** What recursiveRemove does with the outcome of its recursive call. */
  method RemoveNodeAbove(node: Node, goLeft: bool, subHash: Hash, subNode: Node?, subKey: Option<Key>,
                         subValue: Option<Value>, below: seq<Node>, version: int, db: NodeDB, ghost sub: RemoveResult,
                         ghost heap: set<Node>)
    returns (newHash: Hash, newSelf: Node?, newKey: Option<Key>, value: Option<Value>, orphans: seq<Node>,
             ghost heap': set<Node>)
    requires version > db.latest && Consistent(heap, db) && node in heap && node.tree.Inner? && node.Agrees(heap, db)
    requires Denote(below, sub.orphans) && subKey == sub.newKey && subValue == sub.value
    requires forall o :: o in below ==> o in heap
    requires Handed(subHash, subNode, sub.tree, heap, db)
    requires sub.orphans == [] ==> subValue == None
    requires sub.orphans != [] && sub.tree.Some? ==> NearlyShaped(Repaired(node.tree, goLeft, sub, version))
    ensures var r := RemoveAbove(node.tree, goLeft, sub, version);
            newKey == r.newKey && value == r.value && Denote(orphans, r.orphans)
                && Handed(newHash, newSelf, r.tree, heap', db)
    ensures heap <= heap' && fresh(heap' - heap) && Consistent(heap', db)
    ensures forall o :: o in orphans ==> o in heap'
  {
    assert forall t :: HashOf(db.h, t) != [];
    hide Nodes, HashOf, Consistent, Balance;
    if |below| == 0 {
      return node.hash, node, None, subValue, below, heap;
    }
    if subHash == [] && subNode == null {
      if goLeft {
        return node.rightHash, node.rightNode, Some(node.key), subValue, below + [node], heap;
      }
      return node.leftHash, node.leftNode, None, subValue, below + [node], heap;
    }
    newHash, newSelf, orphans,
        heap' := RepairNode(node, goLeft, subHash, subNode, subKey, below, version, db, sub, heap);
    newKey, value := if goLeft then subKey else None, subValue;
  }

  /**
   * The child is re-attached to a copy of the node, the search key repaired if it vanished, and the copy rebalanced.
   */
  method RepairNode(node: Node, goLeft: bool, subHash: Hash, subNode: Node?, subKey: Option<Key>, below: seq<Node>,
                    version: int, db: NodeDB, ghost sub: RemoveResult, ghost heap: set<Node>)
    returns (newHash: Hash, newSelf: Node, orphans: seq<Node>, ghost heap': set<Node>)
    requires version > db.latest && Consistent(heap, db) && node in heap && node.tree.Inner? && node.Agrees(heap, db)
    requires Denote(below, sub.orphans) && subKey == sub.newKey && forall o :: o in below ==> o in heap
    requires sub.tree.Some? && Handed(subHash, subNode, sub.tree, heap, db)
    requires NearlyShaped(Repaired(node.tree, goLeft, sub, version))
    ensures var b := Balance(Repaired(node.tree, goLeft, sub, version), version);
            newSelf.tree == b.tree && Denote(orphans, sub.orphans + [node.tree] + b.orphans)
    ensures newSelf in heap' && heap <= heap' && fresh(heap' - heap) && Consistent(heap', db)
    ensures forall o :: o in orphans ==> o in heap'
  {
    hide Nodes, HashOf, Consistent, Balance, NearlyShaped;
    ghost var t := Repaired(node.tree, goLeft, sub, version);
    var copy;
    if goLeft {
      copy := new Node.Inner(node.key, node.height, node.size, subHash, subNode, node.rightHash, node.rightNode,
                             version, t);
    } else {
      copy := new Node.Inner(if subKey.Some? then subKey.value else node.key, node.height, node.size,
                             node.leftHash, node.leftNode, subHash, subNode, version, t);
    }
    newSelf, orphans, heap' := Rebuild(copy, below + [node], version, db, sub.orphans + [node.tree], heap);
    newHash := newSelf.hash;
  }
}
