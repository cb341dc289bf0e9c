/** Paths from the root to a leaf: their hashes, their index, and which leaf they lead to. */
module ProofPath {
  import opened ByteOrder
  import opened Tree
  import opened NodeRead
  import opened Hashing

  /** ProofInnerNode; an empty hash marks the side the path takes. */
  datatype ProofInnerNode = ProofInnerNode(height: int, size: int, version: int, left: Hash, right: Hash)

  /** The root comes first. */
  type PathToLeaf = seq<ProofInnerNode>

  datatype ProofLeafNode = ProofLeafNode(key: Key, valueHash: Hash, version: int)

  function LeafProof(h: Hasher, leaf: Tree): ProofLeafNode {
    ProofLeafNode(leaf.key, h.value(LeafValue(leaf)), leaf.version)
  }

  function LeafHash(h: Hasher, leaf: ProofLeafNode): Hash {
    h.node(LeafImage(leaf.version, leaf.key, leaf.valueHash))
  }

  /** ProofInnerNode.Hash panics on a step with both hashes. */
  predicate OneSided(path: PathToLeaf) {
    forall i :: 0 <= i < |path| ==> |path[i].left| == 0 || |path[i].right| == 0
  }

  /** A step that is encoded like a leaf. Nothing refuses one: Verify does not look at heights and sizes. */
  predicate LeafLike(pin: ProofInnerNode) {
    pin.height == 0 && pin.size == 1
  }

  predicate Plain(path: PathToLeaf) {
    forall i :: 0 <= i < |path| ==> !LeafLike(path[i])
  }

  /** ProofInnerNode.Hash on a step with at most one hash: the child goes where none is stored. */
  function InnerHash(h: Hasher, pin: ProofInnerNode, child: Hash): Hash {
    h.node(if |pin.left| == 0 then Image(pin.height, pin.size, pin.version, child, pin.right)
           else Image(pin.height, pin.size, pin.version, pin.left, child))
  }

  // ---------------------------------------------------------------- the path to a position

  function StepDown(h: Hasher, t: Tree, goLeft: bool): ProofInnerNode
    requires t.Inner?
  {
    ProofInnerNode(t.height, t.size, t.version,
                   if goLeft then [] else HashOf(h, t.left), if goLeft then HashOf(h, t.right) else [])
  }

  /** pathToLeaf */
  function PathTo(h: Hasher, t: Tree, key: Key): (PathToLeaf, Tree) {
    if t.Leaf? then ([], t)
    else
      var goLeft := Less(key, t.key);
      var below := PathTo(h, if goLeft then t.left else t.right, key);
      ([StepDown(h, t, goLeft)] + below.0, below.1)
  }

  /** The position of the leaf that pathToLeaf reaches. */
  function Position(t: Tree, key: Key): (p: nat)
    ensures p < |Leaves(t)|
  {
    if t.Leaf? then 0
    else if Less(key, t.key) then Position(t.left, key)
    else |Leaves(t.left)| + Position(t.right, key)
  }

  /** The path to the leaf at position `p`. */
  function Path(h: Hasher, t: Tree, p: nat): PathToLeaf
    requires p < |Leaves(t)|
  {
    if t.Leaf? then []
    else if p < |Leaves(t.left)| then [StepDown(h, t, true)] + Path(h, t.left, p)
    else [StepDown(h, t, false)] + Path(h, t.right, p - |Leaves(t.left)|)
  }

  lemma {:induction false} PathToIsPath(h: Hasher, t: Tree, key: Key)
    ensures PathTo(h, t, key) == (Path(h, t, Position(t, key)), Leaves(t)[Position(t, key)])
  {
    if t.Inner? {
      PathToIsPath(h, t.left, key);
      PathToIsPath(h, t.right, key);
    }
  }

  /**
   * The leaf at `p` has the key; or it is the last one below it; or the key is below all leaves and `p` is the first.
   */
  ghost predicate Neighbour(t: Tree, key: Key, p: nat) {
    && p < |Leaves(t)|
    && (key in Keys(t) ==> Leaves(t)[p].key == key)
    && (key !in Keys(t) && Less(key, Leaves(t)[p].key) ==> p == 0)
    && (Less(Leaves(t)[p].key, key) && p + 1 < |Leaves(t)| ==> Less(key, Leaves(t)[p + 1].key))
  }

  /** pathToLeaf reaches the key, or the leaf before it, or the least leaf. */
  lemma {:induction false} PositionIsNeighbour(t: Tree, key: Key)
    requires Ordered(t)
    ensures Neighbour(t, key, Position(t, key))
  {
    LessIrreflexive(key);
    if t.Inner? {
      PositionIsNeighbour(t.left, key);
      PositionIsNeighbour(t.right, key);
      if Less(key, t.key) {
        NeighbourOnLeft(t, key, Position(t.left, key));
      } else {
        NeighbourOnRight(t, key, Position(t.right, key));
      }
    }
  }

  lemma LeavesBySide(t: Tree, i: int)
    requires t.Inner? && 0 <= i < |Leaves(t)|
    ensures Leaves(t)[i] == if i < |Leaves(t.left)| then Leaves(t.left)[i] else Leaves(t.right)[i - |Leaves(t.left)|]
  {
  }

  /** The side a key cannot be on, and where the right subtree starts. */
  lemma OtherSide(t: Tree, key: Key)
    requires t.Inner? && Ordered(t)
    ensures key !in (if Less(key, t.key) then Keys(t.right) else Keys(t.left))
    ensures Leaves(t.right)[0].key == t.key
  {
    SidesApart(t);
    LessIrreflexive(key);
    LeavesAreContents(t.right);
  }

  lemma NeighbourOnLeft(t: Tree, key: Key, p: nat)
    requires t.Inner? && Ordered(t) && Less(key, t.key) && Neighbour(t.left, key, p)
    ensures Neighbour(t, key, p)
  {
    hide Ordered, Less;
    OtherSide(t, key);
    LeavesBySide(t, p);
    if p + 1 < |Leaves(t)| { LeavesBySide(t, p + 1); }
  }

  lemma NeighbourOnRight(t: Tree, key: Key, q: nat)
    requires t.Inner? && Ordered(t) && AtMost(t.key, key) && Neighbour(t.right, key, q)
    ensures Neighbour(t, key, |Leaves(t.left)| + q)
  {
    hide Ordered, Less;
    var p := |Leaves(t.left)| + q;
    OtherSide(t, key);
    LeavesBySide(t, p);
    if p + 1 < |Leaves(t)| { LeavesBySide(t, p + 1); }
  }

  // ---------------------------------------------------------------- hashing up a path

  /** PathToLeaf.computeRootHash: from the last element to the first; None where it panics. */
  method ComputeRootHash(h: Hasher, path: PathToLeaf, leafHash: Hash) returns (root: Option<Hash>)
    ensures root == if OneSided(path) then Some(HashUp(h, path, leafHash)) else None
  {
    var hash, i := leafHash, |path|;
    assert path[..i] == path;
    while i > 0
      invariant 0 <= i <= |path| && forall j :: i <= j < |path| ==> |path[j].left| == 0 || |path[j].right| == 0
      invariant HashUp(h, path, leafHash) == HashUp(h, path[..i], hash)
    {
      i := i - 1;
      if |path[i].left| > 0 && |path[i].right| > 0 { return None; }
      HashUpLast(h, path[..i + 1], hash);
      assert path[..i + 1][..i] == path[..i];
      hash := InnerHash(h, path[i], hash);
    }
    assert path[..0] == [];
    return Some(hash);
  }

  lemma {:induction false} PathIsOneSided(h: Hasher, t: Tree, p: nat)
    requires p < |Leaves(t)|
    ensures OneSided(Path(h, t, p))
  {
    if t.Inner? {
      var nl := |Leaves(t.left)|;
      if p < nl { PathIsOneSided(h, t.left, p); } else { PathIsOneSided(h, t.right, p - nl); }
    }
  }

  function HashUp(h: Hasher, path: PathToLeaf, hash: Hash): Hash {
    if path == [] then hash else InnerHash(h, path[0], HashUp(h, path[1..], hash))
  }

  lemma {:induction false} HashUpLast(h: Hasher, path: PathToLeaf, hash: Hash)
    requires path != []
    ensures HashUp(h, path, hash) == HashUp(h, path[..|path| - 1], InnerHash(h, path[|path| - 1], hash))
  {
    if |path| > 1 {
      HashUpLast(h, path[1..], hash);
      assert path[1..][..|path| - 2] == path[..|path| - 1][1..];
    }
  }

  /** Hashing up the path of any leaf gives the hash of the tree. */
  lemma {:induction false} PathHash(h: Hasher, t: Tree, p: nat)
    requires Injective(h) && p < |Leaves(t)| && Ordered(t)
    ensures HashUp(h, Path(h, t, p), LeafHash(h, LeafProof(h, Leaves(t)[p]))) == HashOf(h, t)
  {
    if t.Inner? {
      var nl := |Leaves(t.left)|;
      if p < nl { PathHash(h, t.left, p); } else { PathHash(h, t.right, p - nl); }
      HashIsNotEmpty(h, t.left);
    }
  }

  lemma HashIsNotEmpty(h: Hasher, t: Tree)
    requires Injective(h)
    ensures |HashOf(h, t)| > 0
  {
  }

  lemma {:induction false} PathIsPlain(h: Hasher, t: Tree, p: nat)
    requires Graded(t) && p < |Leaves(t)|
    ensures Plain(Path(h, t, p))
  {
    if t.Inner? {
      var nl := |Leaves(t.left)|;
      if p < nl { PathIsPlain(h, t.left, p); } else { PathIsPlain(h, t.right, p - nl); }
    }
  }

  // ---------------------------------------------------------------- where a path leads

  predicate IsLeftmost(path: PathToLeaf) {
    forall i :: 0 <= i < |path| ==> |path[i].left| == 0
  }

  predicate IsRightmost(path: PathToLeaf) {
    forall i :: 0 <= i < |path| ==> |path[i].right| == 0
  }

  /** A path is leftmost exactly when it leads to the first leaf, rightmost exactly when it leads to the last. */
  lemma {:induction false} PathEnds(h: Hasher, t: Tree, p: nat)
    requires Injective(h) && p < |Leaves(t)|
    ensures IsLeftmost(Path(h, t, p)) <==> p == 0
    ensures IsRightmost(Path(h, t, p)) <==> p == |Leaves(t)| - 1
  {
    if t.Inner? {
      var nl := |Leaves(t.left)|;
      var path := Path(h, t, p);
      HashIsNotEmpty(h, t.left);
      HashIsNotEmpty(h, t.right);
      if p < nl {
        PathEnds(h, t.left, p);
        ConsEnds(path[0], Path(h, t.left, p));
      } else {
        PathEnds(h, t.right, p - nl);
        ConsEnds(path[0], Path(h, t.right, p - nl));
      }
    }
  }

  lemma ConsEnds(pin: ProofInnerNode, path: PathToLeaf)
    ensures IsLeftmost([pin] + path) <==> |pin.left| == 0 && IsLeftmost(path)
    ensures IsRightmost([pin] + path) <==> |pin.right| == 0 && IsRightmost(path)
  {
    assert ([pin] + path)[0] == pin;
    assert forall i :: 0 <= i < |path| ==> ([pin] + path)[i + 1] == path[i];
  }

  /** PathToLeaf.Index: the sizes skipped on every turn to the right; -1 for a step with both hashes. */
  method Index(path: PathToLeaf) returns (idx: int)
    ensures idx == if OneSided(path) then Skipped(path) else -1
  {
    idx := 0;
    var i := 0;
    assert path[0..] == path;
    while i < |path|
      invariant 0 <= i <= |path|
      invariant Skipped(path) == idx + Skipped(path[i..])
      invariant forall j :: 0 <= j < i ==> |path[j].left| == 0 || |path[j].right| == 0
    {
      var node := path[i];
      assert path[i..][1..] == path[i + 1..];
      if |node.left| == 0 {
      } else if |node.right| == 0 {
        if i < |path| - 1 { idx := idx + node.size - path[i + 1].size; } else { idx := idx + node.size - 1; }
      } else {
        return -1;
      }
      i := i + 1;
    }
  }

  function Skipped(path: PathToLeaf): int {
    if path == [] then 0
    else
      (if |path[0].left| == 0 then 0 else path[0].size - if |path| > 1 then path[1].size else 1) + Skipped(path[1..])
  }

  /** Rank agreement: the index of the path to a leaf is the position of that leaf. */
  lemma {:induction false} IndexIsPosition(h: Hasher, t: Tree, p: nat)
    requires Injective(h) && Sized(t) && p < |Leaves(t)|
    ensures Skipped(Path(h, t, p)) == p
    ensures Path(h, t, p) != [] ==> Path(h, t, p)[0].size == Size(t)
    ensures Path(h, t, p) == [] <==> t.Leaf?
    ensures OneSided(Path(h, t, p))
  {
    if t.Inner? {
      SizeCountsLeaves(t.left);
      HashIsNotEmpty(h, t.left);
      var nl, path := |Leaves(t.left)|, Path(h, t, p);
      if p < nl {
        IndexIsPosition(h, t.left, p);
        assert path[1..] == Path(h, t.left, p);
      } else {
        IndexIsPosition(h, t.right, p - nl);
        assert path[1..] == Path(h, t.right, p - nl);
        SizedIsPositive(t.right);
      }
    }
  }

  /** The index of the path pathToLeaf builds is the rank of the leaf it ends at; for a present key, get's index. */
  lemma PathIndexIsRank(h: Hasher, t: Tree, key: Key)
    requires Injective(h) && Valid(t)
    ensures var (path, leaf) := PathTo(h, t, key);
            && Skipped(path) == Get(t, leaf.key).0 == |Below(t, leaf.key)|
            && (key in Keys(t) ==> leaf.key == key)
  {
    var p := Position(t, key);
    ShapedIsSized(t);
    PathToIsPath(h, t, key);
    IndexIsPosition(h, t, p);
    PositionIsNeighbour(t, key);
    LeavesAreContents(t);
    var leaf := Leaves(t)[p];
    assert leaf in Leaves(t);
    GetIsLookup(t, leaf.key);
    RankIsPosition(t, leaf.key);
    OnePosition(Leaves(t), p, Get(t, leaf.key).0);
  }
}
