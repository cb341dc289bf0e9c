/** The tree as the program holds it: mutable nodes that point to their children or know them by hash. */
module NodeHeap {
  import opened ByteOrder
  import opened Tree
  import opened TreeUpdate
  import opened Orphans
  import opened Hashing

  /** The key of an orphan record: o<to><from><hash>. */
  datatype Entry = Entry(from: int, to: int, hash: Hash)

  /** nodeDB: what is on disk, and the latest persisted version. */
  class NodeDB {
    const h: Hasher
    var disk: Disk
    var roots: map<int, Hash>
    var entries: set<Entry>
    var latest: int
    /** The nodes of the latest version: what the working tree may ask for by hash. */
    ghost var live: set<Tree>

    constructor (h: Hasher)
      ensures this.h == h && disk == map[] && roots == map[] && entries == {} && latest == 0 && live == {}
    {
      this.h := h;
      disk, roots, entries, latest, live := map[], map[], {}, 0, {};
    }

    /** The nodes of the latest version can be fetched by hash. */
    ghost predicate Serves()
      reads this
    {
      && Injective(h) && Holds(h, disk, live)
      && forall s :: s in live ==> s.version <= latest
    }
  }

  class Node {
    var key: Key
    var value: Value
    var hash: Hash
    var leftHash: Hash
    var rightHash: Hash
    var version: int
    var size: int
    var leftNode: Node?
    var rightNode: Node?
    var height: int
    var persisted: bool
    /** The tree this node stands for. */
    ghost var tree: Tree

    /** A child is a pointer to a node of `heap`, or a hash under which the database has it. */
    static ghost predicate Child(node: Node?, hash: Hash, t: Tree, heap: set<Node>, db: NodeDB)
      reads heap, db`live
    {
      if node != null then node in heap && node.tree == t
      else hash == HashOf(db.h, t) && Nodes(t) <= db.live
    }

    /** An inner node whose children are in place; its height and size may be out of date. */
    ghost predicate Linked(heap: set<Node>, db: NodeDB)
      reads this, heap, db`live
    {
      && tree.Inner? && key == tree.key && version == tree.version
      && Child(leftNode, leftHash, tree.left, heap, db)
      && Child(rightNode, rightHash, tree.right, heap, db)
    }

    /** The fields agree with the tree the node stands for. */
    ghost predicate Agrees(heap: set<Node>, db: NodeDB)
      reads this, heap, db`live, db`latest
    {
      && height == Height(tree) && size == Size(tree)
      && (tree.Leaf? ==>
           && height == 0 && key == tree.key && value == tree.value && version == tree.version
           && leftNode == null && rightNode == null)
      && (tree.Inner? ==> height > 0 && Linked(heap, db))
      && (hash != [] ==> hash == HashOf(db.h, tree))
      && (persisted <==> tree.version <= db.latest)
      && (persisted ==> hash != [] && leftNode == null && rightNode == null && Nodes(tree) <= db.live)
    }

    /** NewNode */
    constructor Leaf(key: Key, value: Value, version: int)
      ensures tree == Tree.Leaf(key, value, version) && !persisted
      ensures forall heap: set<Node>, db: NodeDB :: version > db.latest ==> Agrees(heap, db)
    {
      this.key, this.value, this.version, size, height := key, value, version, 1, 0;
      hash, leftHash, rightHash, leftNode, rightNode, persisted := [], [], [], null, null, false;
      tree := Tree.Leaf(key, value, version);
    }

    /** An inner node literal; its height and size are filled in by the caller. */
    constructor Inner(key: Key, height: int, size: int, leftHash: Hash, leftNode: Node?, rightHash: Hash,
                      rightNode: Node?, version: int, ghost tree: Tree)
      ensures this.key == key && this.height == height && this.size == size && this.version == version
      ensures this.leftHash == leftHash && this.leftNode == leftNode
      ensures this.rightHash == rightHash && this.rightNode == rightNode
      ensures hash == [] && !persisted && this.tree == tree
    {
      this.key, this.height, this.size, this.version := key, height, size, version;
      this.leftHash, this.leftNode, this.rightHash, this.rightNode := leftHash, leftNode, rightHash, rightNode;
      value, hash, persisted := [], [], false;
      this.tree := tree;
    }

    /** MakeNode: a node read from disk. */
    constructor FromRecord(record: Record, hash: Hash, ghost tree: Tree, ghost db: NodeDB)
      requires db.Serves() && Sized(tree) && Nodes(tree) <= db.live
      requires hash == HashOf(db.h, tree) && record == RecordOf(db.h, tree)
      ensures this.tree == tree && persisted
      ensures forall heap: set<Node> :: Agrees(heap, db)
    {
      key, version, leftNode, rightNode := record.key, record.version, null, null;
      match record {
        case LeafRecord(_, v, _) =>
          value, height, size, leftHash, rightHash := v, 0, 1, [], [];
        case InnerRecord(_, hgt, sz, _, l, r) =>
          value, height, size, leftHash, rightHash := [], hgt, sz, l, r;
      }
      this.hash, persisted := hash, true;
      this.tree := tree;
      new;
      RecordAgrees(this, record, db);
    }
  }

  /** A node with the fields of its tree's record agrees with the tree in any heap. */
  lemma RecordAgrees(n: Node, record: Record, db: NodeDB)
    requires db.Serves() && Sized(n.tree) && Nodes(n.tree) <= db.live && record == RecordOf(db.h, n.tree)
    requires n.hash == HashOf(db.h, n.tree) && n.key == record.key && n.version == record.version && n.persisted
    requires n.leftNode == null && n.rightNode == null
    requires record.LeafRecord? ==> n.value == record.value && n.height == 0 && n.size == 1
    requires record.InnerRecord? ==>
               && n.height == record.height && n.size == record.size
               && n.leftHash == record.leftHash && n.rightHash == record.rightHash
    ensures forall heap: set<Node> :: n.Agrees(heap, db)
  {
    RecordFacts(db.h, n.tree, db.live);
    hide Nodes, HashOf, Sized, Injective, Holds;
  }

  lemma RecordFacts(h: Hasher, t: Tree, live: set<Tree>)
    requires Injective(h) && Sized(t) && Nodes(t) <= live
    ensures t in live && HashOf(h, t) != []
            && (t.Inner? ==> Height(t) > 0 && Nodes(t.left) <= live && Nodes(t.right) <= live)
  {
    SizedIsPositive(t);
    assert t in Nodes(t);
  }

  /** Every node of the heap agrees with its tree. */
  ghost predicate Attached(heap: set<Node>, db: NodeDB)
    reads heap, db`live, db`latest
  {
    forall n :: n in heap ==> n.Agrees(heap, db) && Sized(n.tree)
  }

  ghost predicate Consistent(heap: set<Node>, db: NodeDB)
    reads heap, db
  {
    db.Serves() && Attached(heap, db)
  }

  /** A finished node joins the heap. */
  lemma Joins(heap: set<Node>, n: Node, db: NodeDB)
    requires Consistent(heap, db) && n.Agrees(heap, db) && Sized(n.tree)
    ensures Consistent(heap + {n}, db)
  {
    forall m | m in heap + {n} ensures m.Agrees(heap + {n}, db) && Sized(m.tree) {
      assert m.Agrees(heap, db);
    }
  }

  /** nodeDB.GetNode for a node that is on disk. */
  method GetNode(hash: Hash, db: NodeDB, ghost t: Tree, ghost heap: set<Node>) returns (n: Node, ghost heap': set<Node>)
    requires Consistent(heap, db) && hash == HashOf(db.h, t) && Nodes(t) <= db.live && Sized(t)
    ensures n.tree == t && n in heap' && heap <= heap' && fresh(heap' - heap)
    ensures Consistent(heap', db) && n.Agrees(heap', db)
  {
    assert t in db.live;
    hide Nodes, HashOf;
    n := new Node.FromRecord(db.disk[hash], hash, t, db);
    Joins(heap, n, db);
    heap' := heap + {n};
  }

  /** getLeftNode */
  method GetLeft(n: Node, db: NodeDB, ghost heap: set<Node>) returns (l: Node, ghost heap': set<Node>)
    requires Consistent(heap, db) && n.Linked(heap, db) && Sized(n.tree.left)
    ensures l.tree == n.tree.left && l in heap' && heap <= heap' && fresh(heap' - heap)
    ensures Consistent(heap', db) && l.Agrees(heap', db)
  {
    if n.leftNode != null {
      return n.leftNode, heap;
    }
    l, heap' := GetNode(n.leftHash, db, n.tree.left, heap);
  }

  /** getRightNode */
  method GetRight(n: Node, db: NodeDB, ghost heap: set<Node>) returns (r: Node, ghost heap': set<Node>)
    requires Consistent(heap, db) && n.Linked(heap, db) && Sized(n.tree.right)
    ensures r.tree == n.tree.right && r in heap' && heap <= heap' && fresh(heap' - heap)
    ensures Consistent(heap', db) && r.Agrees(heap', db)
  {
    if n.rightNode != null {
      return n.rightNode, heap;
    }
    r, heap' := GetNode(n.rightHash, db, n.tree.right, heap);
  }

  method ChildSizes(n: Node, db: NodeDB, ghost heap: set<Node>) returns (height: int, size: int, ghost heap': set<Node>)
    requires Consistent(heap, db) && n.Linked(heap, db) && Sized(n.tree.left) && Sized(n.tree.right)
    ensures height == Max(Height(n.tree.left), Height(n.tree.right)) + 1 > 0
    ensures size == Size(n.tree.left) + Size(n.tree.right)
    ensures heap <= heap' && fresh(heap' - heap) && Consistent(heap', db)
  {
    hide Nodes, HashOf, Consistent;
    var left, right;
    left, heap' := GetLeft(n, db, heap);
    right, heap' := GetRight(n, db, heap');
    SizedIsPositive(left.tree);
    SizedIsPositive(right.tree);
    height, size := Max(left.height, right.height) + 1, left.size + right.size;
  }

  /** calcHeightAndSize on a node that is not yet part of any tree. */
  method CalcHeightAndSize(n: Node, db: NodeDB, ghost heap: set<Node>) returns (ghost heap': set<Node>)
    requires Consistent(heap, db) && n !in heap && n.Linked(heap, db) && n.hash == [] && !n.persisted
    requires n.tree.version > db.latest
    requires Sized(n.tree.left) && Sized(n.tree.right)
    modifies n`height, n`size, n`tree
    ensures n.tree == Join(old(n.tree.key), old(n.tree.left), old(n.tree.right), old(n.tree.version))
    ensures n !in heap' && heap <= heap' && fresh(heap' - heap)
    ensures Consistent(heap', db) && n.Agrees(heap', db)
  {
    hide Nodes, HashOf, Consistent, Sized;
    var height, size;
    height, size, heap' := ChildSizes(n, db, heap);
    n.height, n.size := height, size;
    n.tree := Join(n.tree.key, n.tree.left, n.tree.right, n.tree.version);
  }

  /** A new inner node over the given children, with its height and size computed. */
  method Combine(key: Key, leftHash: Hash, leftNode: Node?, rightHash: Hash, rightNode: Node?, version: int, db: NodeDB,
                 ghost left: Tree, ghost right: Tree, ghost heap: set<Node>)
    returns (n: Node, ghost heap': set<Node>)
    requires Consistent(heap, db) && Sized(left) && Sized(right) && version > db.latest
    requires Node.Child(leftNode, leftHash, left, heap, db) && Node.Child(rightNode, rightHash, right, heap, db)
    ensures n.tree == Join(key, left, right, version) && fresh(n) && n.hash == []
    ensures n in heap' && heap <= heap' && fresh(heap' - heap) && Consistent(heap', db)
  {
    hide Nodes, HashOf, Consistent;
    n := new Node.Inner(key, 0, 0, leftHash, leftNode, rightHash, rightNode, version, Join(key, left, right, version));
    heap' := CalcHeightAndSize(n, db, heap);
    Joins(heap', n, db);
    heap' := heap' + {n};
  }

  /** rotateRight: both nodes on the rotated edge are copied, the old left child is the orphan. */
  method RotateNodeRight(n: Node, version: int, db: NodeDB, ghost heap: set<Node>)
    returns (r: Node, orphan: Node, ghost heap': set<Node>)
    requires Consistent(heap, db) && n.Linked(heap, db) && version > db.latest
    requires Sized(n.tree.left) && Sized(n.tree.right) && n.tree.left.Inner?
    ensures r.tree == RotateRight(n.tree, version) && orphan.tree == n.tree.left
    ensures {r, orphan} <= heap' && heap <= heap' && fresh(heap' - heap) && Consistent(heap', db)
  {
    hide Nodes, HashOf, Consistent;
    orphan, heap' := GetLeft(n, db, heap);
    var node;
    node, heap' := Combine(n.key, orphan.rightHash, orphan.rightNode, n.rightHash, n.rightNode, version,
                           db, orphan.tree.right, n.tree.right, heap');
    r, heap' := Combine(orphan.key, orphan.leftHash, orphan.leftNode, node.hash, node, version,
                        db, orphan.tree.left, node.tree, heap');
  }

  /** rotateLeft */
  method RotateNodeLeft(n: Node, version: int, db: NodeDB, ghost heap: set<Node>)
    returns (r: Node, orphan: Node, ghost heap': set<Node>)
    requires Consistent(heap, db) && n.Linked(heap, db) && version > db.latest
    requires Sized(n.tree.left) && Sized(n.tree.right) && n.tree.right.Inner?
    ensures r.tree == RotateLeft(n.tree, version) && orphan.tree == n.tree.right
    ensures {r, orphan} <= heap' && heap <= heap' && fresh(heap' - heap) && Consistent(heap', db)
  {
    hide Nodes, HashOf, Consistent;
    orphan, heap' := GetRight(n, db, heap);
    var node;
    node, heap' := Combine(n.key, n.leftHash, n.leftNode, orphan.leftHash, orphan.leftNode, version,
                           db, n.tree.left, orphan.tree.left, heap');
    r, heap' := Combine(orphan.key, node.hash, node, orphan.rightHash, orphan.rightNode, version,
                        db, node.tree, orphan.tree.right, heap');
  }

  ghost predicate Denote(nodes: seq<Node>, trees: seq<Tree>)
    reads nodes
  {
    |nodes| == |trees| && forall i :: 0 <= i < |nodes| ==> nodes[i].tree == trees[i]
  }

  /** calcBalance */
  method CalcBalance(n: Node, db: NodeDB, ghost heap: set<Node>) returns (b: int, ghost heap': set<Node>)
    requires Consistent(heap, db) && n.Linked(heap, db) && Sized(n.tree.left) && Sized(n.tree.right)
    ensures b == BalanceFactor(n.tree)
    ensures heap <= heap' && fresh(heap' - heap) && Consistent(heap', db)
  {
    hide Nodes, HashOf, Consistent, Sized;
    var left, right;
    left, heap' := GetLeft(n, db, heap);
    right, heap' := GetRight(n, db, heap');
    b := left.height - right.height;
  }

  /** balance, on a fresh node that no tree contains yet. */
  method BalanceNode(n: Node, version: int, db: NodeDB, ghost heap: set<Node>)
    returns (r: Node, orphans: seq<Node>, ghost heap': set<Node>)
    requires Consistent(heap, db) && n !in heap && n.Agrees(heap, db) && NearlyShaped(n.tree)
    requires version > db.latest
    modifies n
    ensures r.tree == Balance(old(n.tree), version).tree
    ensures Denote(orphans, Balance(old(n.tree), version).orphans)
    ensures r in heap' && heap <= heap' && fresh(heap' - heap - {n}) && Consistent(heap', db)
    ensures forall o :: o in orphans ==> o in heap'
  {
    hide Nodes, HashOf, Consistent;
    ShapedIsSized(n.tree.left);
    ShapedIsSized(n.tree.right);
    var balance;
    balance, heap' := CalcBalance(n, db, heap);
    if balance > 1 {
      r, orphans, heap' := BalanceLeftHeavy(n, version, db, heap');
    } else if balance < -1 {
      r, orphans, heap' := BalanceRightHeavy(n, version, db, heap');
    } else {
      Joins(heap', n, db);
      r, orphans, heap' := n, [], heap' + {n};
    }
  }

  /** The left-right case: rotate the left child left, re-attach it, rotate right. */
  method RotateLeftRight(n: Node, left: Node, version: int, db: NodeDB, ghost heap: set<Node>)
    returns (r: Node, leftOrphaned: Node, rightOrphaned: Node, ghost heap': set<Node>)
    requires Consistent(heap, db) && n !in heap && n.Linked(heap, db) && version > db.latest
    requires left in heap && left.tree == n.tree.left && left.Linked(heap, db)
    requires Sized(n.tree.left) && Sized(n.tree.right) && left.tree.right.Inner?
    modifies n
    ensures var t := old(n.tree); var left' := RotateLeft(t.left, version);
            && r.tree == RotateRight(t.(left := left'), version)
            && leftOrphaned.tree == t.left.right && rightOrphaned.tree == left'
    ensures {r, leftOrphaned, rightOrphaned} <= heap' && heap <= heap' && fresh(heap' - heap) && Consistent(heap', db)
  {
    hide Nodes, HashOf, Consistent;
    var left';
    left', leftOrphaned, heap' := RotateNodeLeft(left, version, db, heap);
    n.leftHash, n.leftNode := [], left';
    n.tree := n.tree.(left := left'.tree);
    r, rightOrphaned, heap' := RotateNodeRight(n, version, db, heap');
  }

  /** The right-left case. */
  method RotateRightLeft(n: Node, right: Node, version: int, db: NodeDB, ghost heap: set<Node>)
    returns (r: Node, leftOrphaned: Node, rightOrphaned: Node, ghost heap': set<Node>)
    requires Consistent(heap, db) && n !in heap && n.Linked(heap, db) && version > db.latest
    requires right in heap && right.tree == n.tree.right && right.Linked(heap, db)
    requires Sized(n.tree.left) && Sized(n.tree.right) && right.tree.left.Inner?
    modifies n
    ensures var t := old(n.tree); var right' := RotateRight(t.right, version);
            && r.tree == RotateLeft(t.(right := right'), version)
            && rightOrphaned.tree == t.right.left && leftOrphaned.tree == right'
    ensures {r, leftOrphaned, rightOrphaned} <= heap' && heap <= heap' && fresh(heap' - heap) && Consistent(heap', db)
  {
    hide Nodes, HashOf, Consistent;
    var right';
    right', rightOrphaned, heap' := RotateNodeRight(right, version, db, heap);
    n.rightHash, n.rightNode := [], right';
    n.tree := n.tree.(right := right'.tree);
    r, leftOrphaned, heap' := RotateNodeLeft(n, version, db, heap');
  }

  method BalanceLeftHeavy(n: Node, version: int, db: NodeDB, ghost heap: set<Node>)
    returns (r: Node, orphans: seq<Node>, ghost heap': set<Node>)
    requires Consistent(heap, db) && n !in heap && n.Linked(heap, db) && version > db.latest
    requires NearlyShaped(n.tree) && BalanceFactor(n.tree) > 1
    modifies n
    ensures r.tree == Balance(old(n.tree), version).tree
    ensures Denote(orphans, Balance(old(n.tree), version).orphans)
    ensures r in heap' && heap <= heap' && fresh(heap' - heap) && Consistent(heap', db)
    ensures forall o :: o in orphans ==> o in heap'
  {
    hide Nodes, HashOf, Consistent, RotateLeft, RotateRight;
    ShapedIsSized(n.tree.left);
    ShapedIsSized(n.tree.right);
    ShapedIsPositive(n.tree.left);
    ShapedIsPositive(n.tree.right);
    var left, balance, leftOrphaned, orphaned;
    left, heap' := GetLeft(n, db, heap);
    balance, heap' := CalcBalance(left, db, heap');
    if balance >= 0 {
      r, orphaned, heap' := RotateNodeRight(n, version, db, heap');
      orphans := [orphaned];
    } else {
      ShapedIsPositive(n.tree.left.left);
      ShapedIsPositive(n.tree.left.right);
      r, leftOrphaned, orphaned, heap' := RotateLeftRight(n, left, version, db, heap');
      orphans := [left, leftOrphaned, orphaned];
    }
  }

  method BalanceRightHeavy(n: Node, version: int, db: NodeDB, ghost heap: set<Node>)
    returns (r: Node, orphans: seq<Node>, ghost heap': set<Node>)
    requires Consistent(heap, db) && n !in heap && n.Linked(heap, db) && version > db.latest
    requires NearlyShaped(n.tree) && BalanceFactor(n.tree) < -1
    modifies n
    ensures r.tree == Balance(old(n.tree), version).tree
    ensures Denote(orphans, Balance(old(n.tree), version).orphans)
    ensures r in heap' && heap <= heap' && fresh(heap' - heap) && Consistent(heap', db)
    ensures forall o :: o in orphans ==> o in heap'
  {
    hide Nodes, HashOf, Consistent, RotateLeft, RotateRight;
    ShapedIsSized(n.tree.left);
    ShapedIsSized(n.tree.right);
    ShapedIsPositive(n.tree.left);
    ShapedIsPositive(n.tree.right);
    var right, balance, rightOrphaned, orphaned;
    right, heap' := GetRight(n, db, heap);
    balance, heap' := CalcBalance(right, db, heap');
    if balance <= 0 {
      r, orphaned, heap' := RotateNodeLeft(n, version, db, heap');
      orphans := [orphaned];
    } else {
      ShapedIsPositive(n.tree.right.left);
      ShapedIsPositive(n.tree.right.right);
      r, orphaned, rightOrphaned, heap' := RotateRightLeft(n, right, version, db, heap');
      orphans := [right, orphaned, rightOrphaned];
    }
  }
}
