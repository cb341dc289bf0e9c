/** SaveBranch: hashing the working tree bottom-up, writing the unsaved nodes and letting go of the pointers. */
module SaveBranch {
  import opened ByteOrder
  import opened Tree
  import opened Orphans
  import opened Hashing
  import opened NodeHeap

  /** The disk holds exactly the nodes `held`, each under its own hash. */
  ghost predicate Holding(h: Hasher, disk: Disk, held: set<Tree>) {
    && (forall hash :: hash in disk <==> exists s :: s in held && hash == HashOf(h, s))
    && (forall s :: s in held ==> Proper(s) && HashOf(h, s) in disk && disk[HashOf(h, s)] == RecordOf(h, s))
  }

  lemma HoldOneMore(h: Hasher, disk: Disk, held: set<Tree>, s: Tree)
    requires Injective(h) && Holding(h, disk, held) && Proper(s)
    ensures Holding(h, disk[HashOf(h, s) := RecordOf(h, s)], held + {s})
  {
    hide HashOf, RecordOf, Injective, Proper;
    forall n | n in held && HashOf(h, n) == HashOf(h, s) ensures n == s { HashIdentifiesTree(h, n, s); }
  }

  /** While a branch is being saved, children known by hash are among the nodes already written. */
  ghost predicate HashedOrLinked(node: Node?, hash: Hash, t: Tree, heap: set<Node>, h: Hasher, held: set<Tree>)
    reads heap
  {
    if node != null then node in heap && node.tree == t else hash == HashOf(h, t) && Nodes(t) <= held
  }

  ghost predicate Settled(n: Node, heap: set<Node>, h: Hasher, held: set<Tree>, version: int)
    reads n, heap
  {
    && n.height == Height(n.tree) && n.size == Size(n.tree) && n.key == n.tree.key && n.version == n.tree.version
    && (n.tree.Leaf? ==> n.height == 0 && n.value == n.tree.value && n.leftNode == null && n.rightNode == null)
    && (n.tree.Inner? ==>
         && n.height > 0
         && HashedOrLinked(n.leftNode, n.leftHash, n.tree.left, heap, h, held)
         && HashedOrLinked(n.rightNode, n.rightHash, n.tree.right, heap, h, held))
    && (n.hash != [] ==> n.hash == HashOf(h, n.tree))
    && (n.persisted ==> n.hash != [] && n.leftNode == null && n.rightNode == null && Nodes(n.tree) <= held)
    && (!n.persisted ==> n.tree.version > version)
  }

  ghost predicate AllSettled(heap: set<Node>, h: Hasher, held: set<Tree>, version: int)
    reads heap
  {
    forall n :: n in heap ==> Settled(n, heap, h, held, version)
  }

  ghost function After(t: Tree, version: int): set<Tree> {
    set s | s in Nodes(t) && s.version > version
  }

  lemma {:induction false} NodesAreSmaller(t: Tree, s: Tree)
    requires s in Nodes(t)
    ensures NodeCount(s) <= NodeCount(t)
  {
    if s != t { if s in Nodes(t.left) { NodesAreSmaller(t.left, s); } else { NodesAreSmaller(t.right, s); } }
  }

  lemma NotItsOwnChild(t: Tree)
    requires t.Inner?
    ensures t !in Nodes(t.left) && t !in Nodes(t.right)
  {
    if t in Nodes(t.left) { NodesAreSmaller(t.left, t); }
    if t in Nodes(t.right) { NodesAreSmaller(t.right, t); }
  }

  /** What saving the branch `t` may do: settle more nodes, write their records, touch only nodes of the branch. */
  twostate predicate Wrote(t: Tree, db: NodeDB, heap: set<Node>, held: set<Tree>, held': set<Tree>, version: int)
    reads heap, db
  {
    && AllSettled(heap, db.h, held', version) && Holding(db.h, db.disk, held')
    && (forall m :: m in heap ==> m.tree == old(m.tree))
    && (forall m :: m in heap && old(m.tree) !in Nodes(t) ==> unchanged(m))
    && held + Nodes(t) <= held' <= held + After(t, version)
  }

  /** SaveBranch. `version` is the last saved version; only later nodes are written. */
  method SaveNodes(n: Node, db: NodeDB, ghost heap: set<Node>, ghost held: set<Tree>, ghost version: int)
    returns (hash: Hash, ghost held': set<Tree>)
    requires Injective(db.h) && AllSettled(heap, db.h, held, version) && Holding(db.h, db.disk, held)
    requires n in heap && Proper(n.tree)
    modifies heap, db`disk
    ensures Wrote(n.tree, db, heap, held, held', version)
    ensures n.persisted && hash == n.hash == HashOf(db.h, n.tree)
    decreases n.tree, 3
  {
    assert Settled(n, heap, db.h, held, version);
    AfterParts(n.tree, version);
    if n.persisted {
      return n.hash, held;
    }
    if n.height == 0 {
      hash, held' := WriteNode(n, db, heap, held, version);
    } else {
      hash, held' := SaveInner(n, db, heap, held, version);
    }
  }

  method SaveInner(n: Node, db: NodeDB, ghost heap: set<Node>, ghost held: set<Tree>, ghost version: int)
    returns (hash: Hash, ghost held': set<Tree>)
    requires Injective(db.h) && AllSettled(heap, db.h, held, version) && Holding(db.h, db.disk, held)
    requires n in heap && Proper(n.tree) && n.tree.Inner? && !n.persisted
    modifies heap, db`disk
    ensures Wrote(n.tree, db, heap, held, held', version)
    ensures n.persisted && hash == n.hash == HashOf(db.h, n.tree)
    decreases n.tree, 2
  {
    hide HashOf, AllSettled, Holding, Injective, After, Proper;
    AfterParts(n.tree, version);
    held' := SaveChildren(n, db, heap, held, version);
    hash, held' := WriteNode(n, db, heap, held', version);
  }

  method SaveChildren(n: Node, db: NodeDB, ghost heap: set<Node>, ghost held: set<Tree>, ghost version: int)
    returns (ghost held': set<Tree>)
    requires Injective(db.h) && AllSettled(heap, db.h, held, version) && Holding(db.h, db.disk, held)
    requires n in heap && Proper(n.tree) && n.tree.Inner? && !n.persisted
    modifies heap, db`disk
    ensures AllSettled(heap, db.h, held', version) && Holding(db.h, db.disk, held')
    ensures forall m :: m in heap ==> m.tree == old(m.tree)
    ensures forall m :: m in heap && m != n && old(m.tree) !in Nodes(n.tree) ==> unchanged(m)
    ensures held + Nodes(n.tree.left) + Nodes(n.tree.right) <= held' <= held + After(n.tree, version)
    ensures !n.persisted
    ensures n.leftHash == HashOf(db.h, n.tree.left) && n.rightHash == HashOf(db.h, n.tree.right)
    decreases n.tree, 1
  {
    hide HashOf, AllSettled, Holding, Injective, After, Proper;
    AfterParts(n.tree, version);
    held' := SaveLeft(n, db, heap, held, version);
    held' := SaveRight(n, db, heap, held', version);
  }

  lemma AfterParts(t: Tree, version: int)
    ensures t.version > version ==> t in After(t, version)
    ensures t.Inner? ==> After(t.left, version) + After(t.right, version) <= After(t, version)
  {
  }

  method SaveLeft(n: Node, db: NodeDB, ghost heap: set<Node>, ghost held: set<Tree>, ghost version: int)
    returns (ghost held': set<Tree>)
    requires Injective(db.h) && AllSettled(heap, db.h, held, version) && Holding(db.h, db.disk, held)
    requires n in heap && Proper(n.tree) && n.tree.Inner? && !n.persisted
    modifies heap, db`disk
    ensures AllSettled(heap, db.h, held', version) && Holding(db.h, db.disk, held')
    ensures forall m :: m in heap ==> m.tree == old(m.tree)
    ensures forall m :: m in heap && m != n && old(m.tree) !in Nodes(n.tree.left) ==> unchanged(m)
    ensures held + Nodes(n.tree.left) <= held' <= held + After(n.tree.left, version)
    ensures !n.persisted && n.leftHash == HashOf(db.h, n.tree.left) && n.rightHash == old(n.rightHash)
    decreases n.tree, 0
  {
    assert Settled(n, heap, db.h, held, version);
    NotItsOwnChild(n.tree);
    hide HashOf, Nodes;
    held' := held;
    if n.leftNode != null {
      var l;
      l, held' := SaveNodes(n.leftNode, db, heap, held, version);
      SetLeftHash(n, l, db.h, heap, held', version);
    }
  }

  method SetLeftHash(n: Node, hash: Hash, ghost h: Hasher, ghost heap: set<Node>, ghost held: set<Tree>,
                     ghost version: int)
    requires AllSettled(heap, h, held, version) && n in heap && n.tree.Inner? && hash == HashOf(h, n.tree.left)
    modifies n`leftHash
    ensures AllSettled(heap, h, held, version) && n.leftHash == hash
  {
    hide HashOf, Nodes;
    n.leftHash := hash;
    forall m | m in heap ensures Settled(m, heap, h, held, version) {
      assert old(Settled(m, heap, h, held, version));
    }
  }

  method SetRightHash(n: Node, hash: Hash, ghost h: Hasher, ghost heap: set<Node>, ghost held: set<Tree>,
                      ghost version: int)
    requires AllSettled(heap, h, held, version) && n in heap && n.tree.Inner? && hash == HashOf(h, n.tree.right)
    modifies n`rightHash
    ensures AllSettled(heap, h, held, version) && n.rightHash == hash
  {
    hide HashOf, Nodes;
    n.rightHash := hash;
    forall m | m in heap ensures Settled(m, heap, h, held, version) {
      assert old(Settled(m, heap, h, held, version));
    }
  }

  method SaveRight(n: Node, db: NodeDB, ghost heap: set<Node>, ghost held: set<Tree>, ghost version: int)
    returns (ghost held': set<Tree>)
    requires Injective(db.h) && AllSettled(heap, db.h, held, version) && Holding(db.h, db.disk, held)
    requires n in heap && Proper(n.tree) && n.tree.Inner? && !n.persisted
    modifies heap, db`disk
    ensures AllSettled(heap, db.h, held', version) && Holding(db.h, db.disk, held')
    ensures forall m :: m in heap ==> m.tree == old(m.tree)
    ensures forall m :: m in heap && m != n && old(m.tree) !in Nodes(n.tree.right) ==> unchanged(m)
    ensures held + Nodes(n.tree.right) <= held' <= held + After(n.tree.right, version)
    ensures !n.persisted && n.rightHash == HashOf(db.h, n.tree.right) && n.leftHash == old(n.leftHash)
    decreases n.tree, 0
  {
    assert Settled(n, heap, db.h, held, version);
    NotItsOwnChild(n.tree);
    hide HashOf, Nodes;
    held' := held;
    if n.rightNode != null {
      var r;
      r, held' := SaveNodes(n.rightNode, db, heap, held, version);
      SetRightHash(n, r, db.h, heap, held', version);
    }
  }

  /** _hash and SaveNode on a node whose children are written, then drop the pointers. */
  method WriteNode(n: Node, db: NodeDB, ghost heap: set<Node>, ghost held: set<Tree>, ghost version: int)
    returns (hash: Hash, ghost held': set<Tree>)
    requires Injective(db.h) && AllSettled(heap, db.h, held, version) && Holding(db.h, db.disk, held)
    requires n in heap && !n.persisted && Proper(n.tree)
    requires n.tree.Inner? ==> Nodes(n.tree.left) + Nodes(n.tree.right) <= held
    requires n.tree.Inner? ==> n.leftHash == HashOf(db.h, n.tree.left) && n.rightHash == HashOf(db.h, n.tree.right)
    modifies n, db`disk
    ensures AllSettled(heap, db.h, held', version) && Holding(db.h, db.disk, held')
    ensures n.tree == old(n.tree) && n.persisted && hash == n.hash == HashOf(db.h, n.tree)
    ensures held' == held + {n.tree} && n.tree.version > version
  {
    assert Settled(n, heap, db.h, held, version);
    HoldOneMore(db.h, db.disk, held, n.tree);
    var record;
    hash, record := Encode(n, db.h, heap, held, version);
    held' := held + {n.tree};
    hide Holding, HashOf, RecordOf, Injective, Proper, Settled, AllSettled;
    Seal(n, hash, db.h, heap, held, held', version);
    db.disk := db.disk[hash := record];
  }

  lemma WrittenFacts(h: Hasher, t: Tree, held: set<Tree>)
    requires Injective(h) && Nodes(t) <= held
    ensures HashOf(h, t) != [] && (t.Inner? ==> Nodes(t.left) <= held && Nodes(t.right) <= held)
  {
  }

  method Seal(n: Node, hash: Hash, ghost h: Hasher, ghost heap: set<Node>, ghost held: set<Tree>,
              ghost held': set<Tree>, ghost version: int)
    requires Injective(h) && AllSettled(heap, h, held, version) && n in heap && !n.persisted
    requires hash == HashOf(h, n.tree) && held <= held' && Nodes(n.tree) <= held'
    requires n.tree.Inner? ==> n.leftHash == HashOf(h, n.tree.left) && n.rightHash == HashOf(h, n.tree.right)
    modifies n
    ensures AllSettled(heap, h, held', version)
    ensures n.tree == old(n.tree) && n.persisted && n.hash == hash
  {
    hide HashOf, Injective, Nodes;
    WrittenFacts(h, n.tree, held');
    n.hash, n.persisted, n.leftNode, n.rightNode := hash, true, null, null;
    forall m | m in heap ensures Settled(m, heap, h, held', version) {
      assert old(Settled(m, heap, h, held, version));
    }
  }

  /** _hash and writeBytes */
  method Encode(n: Node, h: Hasher, ghost heap: set<Node>, ghost held: set<Tree>, ghost version: int)
    returns (hash: Hash, record: Record)
    requires Settled(n, heap, h, held, version)
    requires n.tree.Inner? ==> n.leftHash == HashOf(h, n.tree.left) && n.rightHash == HashOf(h, n.tree.right)
    ensures hash == HashOf(h, n.tree) && record == RecordOf(h, n.tree)
  {
    if n.height == 0 {
      hash := h.node(LeafImage(n.version, n.key, h.value(n.value)));
      record := LeafRecord(n.key, n.value, n.version);
    } else {
      hash := h.node(Image(n.height, n.size, n.version, n.leftHash, n.rightHash));
      record := InnerRecord(n.key, n.height, n.size, n.version, n.leftHash, n.rightHash);
    }
  }
}
