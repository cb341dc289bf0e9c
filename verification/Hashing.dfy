/** Node hashes and the records nodes are stored as. */
module Hashing {
  import opened ByteOrder
  import opened Tree
  import opened Orphans

  type Hash = seq<Byte>

  /**
   * What writeHashBytes and the two Hash methods of proofs encode: three numbers and two byte strings, and nothing that
   * tells a leaf from an inner node but the numbers. The key of an inner node is not part of it.
   */
  datatype Image = Image(height: int, size: int, version: int, first: seq<Byte>, second: seq<Byte>)

  function LeafImage(version: int, key: Key, valueHash: Hash): Image {
    Image(0, 1, version, key, valueHash)
  }

  /** The encoding of images, and the hash function, which is one and the same for encoded images and for values. */
  datatype Hasher = Hasher(encode: Image -> Value, value: Value -> Hash) {
    function node(image: Image): Hash {
      value(encode(image))
    }
  }

  /** Collision freedom; a hash is never the empty byte string, which stands for "no hash". */
  ghost predicate Injective(h: Hasher) {
    && (forall a, b :: h.encode(a) == h.encode(b) ==> a == b)
    && (forall a, b :: h.value(a) == h.value(b) ==> a == b)
    && (forall a :: h.value(a) != [])
  }

  function HashOf(h: Hasher, t: Tree): (hash: Hash) {
    if t.Leaf? then h.node(LeafImage(t.version, t.key, h.value(t.value)))
    else h.node(Image(t.height, t.size, t.version, HashOf(h, t.left), HashOf(h, t.right)))
  }

  /** Heights tell inner nodes from leaves, as isLeaf takes them to. */
  ghost predicate Graded(t: Tree) {
    t.Inner? ==> t.height > 0 && Graded(t.left) && Graded(t.right)
  }

  /** What makes a hash identify a tree. */
  ghost predicate Proper(t: Tree) {
    Ordered(t) && Graded(t)
  }

  lemma {:induction false} SizedIsGraded(t: Tree)
    requires Sized(t)
    ensures Graded(t)
  {
    SizedIsPositive(t);
    if t.Inner? { SizedIsGraded(t.left); SizedIsGraded(t.right); }
  }

  lemma ValidIsProper(t: Tree)
    requires Valid(t)
    ensures Proper(t)
  {
    ShapedIsSized(t);
    SizedIsGraded(t);
  }

  /** The hash identifies a proper tree, inner keys included: they are least keys of right subtrees. */
  lemma {:induction false} HashIdentifiesTree(h: Hasher, a: Tree, b: Tree)
    requires Injective(h) && Proper(a) && Proper(b) && HashOf(h, a) == HashOf(h, b)
    ensures a == b
  {
    if a.Inner? && b.Inner? {
      HashIdentifiesTree(h, a.left, b.left);
      HashIdentifiesTree(h, a.right, b.right);
    }
  }

  /** The stored form of one node (writeBytes, MakeNode): children by hash. */
  datatype Record =
    | LeafRecord(key: Key, value: Value, version: int)
    | InnerRecord(key: Key, height: int, size: int, version: int, leftHash: Hash, rightHash: Hash)

  function RecordOf(h: Hasher, t: Tree): Record {
    if t.Leaf? then LeafRecord(t.key, t.value, t.version)
    else InnerRecord(t.key, t.height, t.size, t.version, HashOf(h, t.left), HashOf(h, t.right))
  }

  type Disk = map<Hash, Record>

  /** Every node of `t` can be fetched by its hash. */
  ghost predicate Stores(h: Hasher, disk: Disk, t: Tree) {
    && HashOf(h, t) in disk && disk[HashOf(h, t)] == RecordOf(h, t)
    && (t.Inner? ==> Stores(h, disk, t.left) && Stores(h, disk, t.right))
  }

  /** The disk that holds a given set of nodes. */
  ghost predicate Holds(h: Hasher, disk: Disk, nodes: set<Tree>) {
    forall s :: s in nodes ==> HashOf(h, s) in disk && disk[HashOf(h, s)] == RecordOf(h, s)
  }

  lemma {:induction false} HeldTreeIsStored(h: Hasher, disk: Disk, t: Tree)
    ensures Stores(h, disk, t) <==> Holds(h, disk, Nodes(t))
  {
    if t.Inner? { HeldTreeIsStored(h, disk, t.left); HeldTreeIsStored(h, disk, t.right); }
  }

  /** Writing and deleting records by hash is adding and removing nodes. */
  lemma WriteAndDeleteByHash(h: Hasher, disk: Disk, nodes: set<Tree>, s: Tree)
    requires Injective(h) && Proper(s) && (forall n :: n in nodes ==> Proper(n))
    requires Holds(h, disk, nodes)
    ensures Holds(h, disk[HashOf(h, s) := RecordOf(h, s)], nodes + {s})
    ensures Holds(h, disk - {HashOf(h, s)}, nodes - {s})
  {
    forall n | n in nodes && HashOf(h, n) == HashOf(h, s) ensures n == s { HashIdentifiesTree(h, n, s); }
  }

  /** Reading a whole tree back by hash; `depth` bounds the recursion and never matters for a stored tree. */
  function Load(disk: Disk, hash: Hash, depth: nat): Option<Tree>
    decreases depth
  {
    if hash !in disk || depth == 0 then None
    else match disk[hash]
      case LeafRecord(key, value, version) => Some(Leaf(key, value, version))
      case InnerRecord(key, height, size, version, l, r) =>
        var left, right := Load(disk, l, depth - 1), Load(disk, r, depth - 1);
        if left.None? || right.None? then None
        else Some(Inner(key, height, size, left.value, right.value, version))
  }

  lemma {:induction false} LoadReadsBack(h: Hasher, disk: Disk, t: Tree, depth: nat)
    requires Stores(h, disk, t) && Shaped(t) && depth > Height(t)
    ensures Load(disk, HashOf(h, t), depth) == Some(t)
  {
    if t.Inner? {
      ShapedIsPositive(t.left);
      ShapedIsPositive(t.right);
      LoadReadsBack(h, disk, t.left, depth - 1);
      LoadReadsBack(h, disk, t.right, depth - 1);
    }
  }
}
