/** The immutable value of an IAVL tree: values live in the leaves, inner nodes carry a search key. */
module Tree {
  import opened ByteOrder

  datatype Option<+T> = None | Some(value: T)

  /** One node with everything below it. `height` and `size` are the stored fields of the source's node. */
  datatype Tree =
    | Leaf(key: Key, value: Value, version: int)
    | Inner(key: Key, height: int, size: int, left: Tree, right: Tree, version: int)

  function Height(t: Tree): (h: int) { if t.Leaf? then 0 else t.height }

  function Size(t: Tree): (n: int) { if t.Leaf? then 1 else t.size }

  /** How many nodes a tree has. */
  function NodeCount(t: Tree): nat {
    1 + if t.Leaf? then 0 else NodeCount(t.left) + NodeCount(t.right)
  }

  function Max(a: int, b: int): (m: int) { if a > b then a else b }

  /** calcHeightAndSize applied to an inner node. */
  function Join(key: Key, left: Tree, right: Tree, version: int): (t: Tree) {
    Inner(key, Max(Height(left), Height(right)) + 1, Size(left) + Size(right), left, right, version)
  }

  /** calcBalance */
  function BalanceFactor(t: Tree): int
    requires t.Inner?
  {
    Height(t.left) - Height(t.right)
  }

  ghost function Keys(t: Tree): set<Key> {
    if t.Leaf? then {t.key} else Keys(t.left) + Keys(t.right)
  }

  /** The finite map a tree stands for. */
  ghost function Contents(t: Tree): (m: map<Key, Value>)
    ensures m.Keys == Keys(t)
  {
    if t.Leaf? then map[t.key := t.value] else Contents(t.left) + Contents(t.right)
  }

  /** The contents of a possibly missing root. */
  ghost function RootContents(root: Option<Tree>): map<Key, Value> {
    if root.None? then map[] else Contents(root.value)
  }

  function MinKey(t: Tree): Key {
    if t.Leaf? then t.key else MinKey(t.left)
  }

  /** Stored heights and sizes are exact. */
  ghost predicate Sized(t: Tree) {
    t.Inner? ==> Sized(t.left) && Sized(t.right) && t == Join(t.key, t.left, t.right, t.version)
  }

  /** Stored heights and sizes are exact and siblings differ in height by at most one. */
  ghost predicate Shaped(t: Tree) {
    t.Inner? ==>
      && Shaped(t.left) && Shaped(t.right)
      && t.height == Max(Height(t.left), Height(t.right)) + 1
      && t.size == Size(t.left) + Size(t.right)
      && -1 <= BalanceFactor(t) <= 1
  }

  /** Search order; the key of an inner node is the least key of its right subtree. */
  ghost predicate Ordered(t: Tree) {
    t.Inner? ==>
      && Ordered(t.left) && Ordered(t.right)
      && (forall k :: k in Keys(t.left) ==> Less(k, t.key))
      && (forall k :: k in Keys(t.right) ==> AtMost(t.key, k))
      && t.key == MinKey(t.right)
  }

  ghost predicate Valid(t: Tree) {
    Shaped(t) && Ordered(t)
  }

  ghost predicate ValidRoot(root: Option<Tree>) {
    root.Some? ==> Valid(root.value)
  }

  lemma {:induction false} ShapedIsPositive(t: Tree)
    requires Shaped(t)
    ensures Height(t) >= 0 && Size(t) >= 1
    ensures t.Inner? <==> Height(t) > 0
  {
    if t.Inner? { ShapedIsPositive(t.left); ShapedIsPositive(t.right); }
  }

  lemma {:induction false} SizedIsPositive(t: Tree)
    requires Sized(t)
    ensures Height(t) >= 0 && Size(t) >= 1
    ensures t.Inner? <==> Height(t) > 0
  {
    if t.Inner? { SizedIsPositive(t.left); SizedIsPositive(t.right); }
  }

  lemma {:induction false} ShapedIsSized(t: Tree)
    requires Shaped(t)
    ensures Sized(t)
  {
    if t.Inner? { ShapedIsSized(t.left); ShapedIsSized(t.right); }
  }

  lemma {:induction false} MinKeyIsLeast(t: Tree)
    requires Ordered(t)
    ensures MinKey(t) in Keys(t)
    ensures forall k :: k in Keys(t) ==> AtMost(MinKey(t), k)
  {
    TotalOrder();
    if t.Inner? { MinKeyIsLeast(t.left); MinKeyIsLeast(t.right); }
  }

  lemma {:induction false} SizeIsCardinality(t: Tree)
    requires Valid(t)
    ensures Size(t) == |Keys(t)| == |Contents(t)|
  {
    if t.Inner? {
      SizeIsCardinality(t.left);
      SizeIsCardinality(t.right);
      assert Keys(t.left) !! Keys(t.right);
    }
  }
}
