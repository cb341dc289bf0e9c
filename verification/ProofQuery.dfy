/** Queries with proofs: getRangeProof, GetWithProof, and what the verifier accepts. */
module ProofQuery {
  import opened ByteOrder
  import opened Tree
  import opened NodeRead
  import opened Hashing
  import opened ProofPath
  import opened KeySuccessor
  import opened RangeProof
  import Traversal

  // ---------------------------------------------------------------- the builder

  /** The variables the traversal callback of getRangeProof updates. */
  datatype Builder = Builder(pathCount: int, current: PathToLeaf, paths: seq<PathToLeaf>, leaves: seq<ProofLeafNode>,
                             leafCount: int, keys: seq<Key>, values: seq<Value>)

  datatype Query = Query(keyStart: Option<Key>, keyEnd: Option<Key>, limit: int) {
    /** The key the first path is built for. */
    function Start(): Key { if keyStart.Some? then keyStart.value else [] }

    /**
     * Whether nothing is to be fetched behind a leaf, because the limit is 1 or its key's increment is not before the
     * end.
     */
    predicate StopsAt(left: Key) { limit == 1 || EndsAt(left) }

    predicate EndsAt(key: Key) { keyEnd.Some? && AtMost(keyEnd.value, Incr(key)) }
  }

  /** Count along the left path until it is left or exhausted; -1 from then on. */
  function Advance(h: Hasher, path: PathToLeaf, pathCount: int, node: Tree): int {
    if pathCount < 0 || |path| <= pathCount || !OnPath(h, path[pathCount], node) then -1 else pathCount + 1
  }

  /** The callback: the new variables, and whether to stop. */
  function OnNode(h: Hasher, path: PathToLeaf, q: Query, b: Builder, node: Tree): (Builder, bool) {
    var b' := b.(pathCount := Advance(h, path, b.pathCount, node));
    if node.Inner? then
      (if b'.pathCount < 0 then b'.(current := b.current + [StepDown(h, node, true)]) else b', false)
    else
      var found := b'.(paths := b.paths + [b.current], current := [], leaves := b.leaves + [LeafProof(h, node)],
                       leafCount := b.leafCount + 1);
      if (q.limit > 0 && q.limit <= found.leafCount)
          || (q.keyEnd.Some? && AtMost(q.keyEnd.value, node.key)) then (found, true)
      else
        (found.(keys := b.keys + [node.key], values := b.values + [node.value]),
         q.EndsAt(node.key))
  }

  function Fold(h: Hasher, path: PathToLeaf, q: Query, b: Builder, nodes: seq<Tree>): Builder
    decreases nodes
  {
    if nodes == [] then b
    else
      var r := OnNode(h, path, q, b, nodes[0]);
      if r.1 then r.0 else Fold(h, path, q, r.0, nodes[1..])
  }

  /** The first leaf, in the range or next to it. */
  function FirstLeaf(h: Hasher, t: Tree, q: Query): Builder {
    var left := PathTo(h, t, q.Start()).1;
    var inRange := (q.keyStart.None? || AtMost(q.keyStart.value, left.key))
        && (q.keyEnd.None? || Less(left.key, q.keyEnd.value));
    Builder(0, [], [], [LeafProof(h, left)], 1,
            if inRange then [left.key] else [], if inRange then [LeafValue(left)] else [])
  }

  /** getRangeProof on a tree: the proof, the keys and the values. */
  function Built(h: Hasher, t: Tree, q: Query): (RangeProof, seq<Key>, seq<Value>) {
    var (path, left) := PathTo(h, t, q.Start());
    var first := FirstLeaf(h, t, q);
    var b := if q.StopsAt(left.key) then first
             else Fold(h, path, q, first, Traversal.Visit(t, From(Incr(left.key))));
    (RangeProof(path, b.paths, b.leaves), b.keys, b.values)
  }

  /** getRangeProof; None where it panics on its arguments. An empty tree has no proof. */
  method GetRangeProof(h: Hasher, root: Option<Tree>, q: Query)
      returns (r: Option<(Option<RangeProof>, seq<Key>, seq<Value>)>)
    ensures r.None? <==> q.limit < 0 || (q.keyStart.Some? && q.keyEnd.Some? && AtMost(q.keyEnd.value, q.keyStart.value))
    ensures r.Some? ==> r.value == if root.None? then (None, [], []) else
                          var built := Built(h, root.value, q); (Some(built.0), built.1, built.2)
  {
    hide OnNode, Traversal.Visit, PathTo, Incr, Less;
    if q.limit < 0 || (q.keyStart.Some? && q.keyEnd.Some? && AtMost(q.keyEnd.value, q.keyStart.value)) { return None; }
    if root.None? { return Some((None, [], [])); }
    var t := root.value;
    var (path, left) := PathTo(h, t, q.Start());
    var b := FirstLeaf(h, t, q);
    var afterLeft := CpIncr(left.key);
    if q.limit == 1 || (q.keyEnd.Some? && AtMost(q.keyEnd.value, afterLeft)) {
      return Some((Some(RangeProof(path, [], b.leaves)), b.keys, b.values));
    }
    var nodes := Traversal.Visit(t, From(afterLeft));
    ghost var first := b;
    var i, stop := 0, false;
    assert nodes[0..] == nodes;
    while i < |nodes| && !stop
      invariant 0 <= i <= |nodes|
      invariant Fold(h, path, q, first, nodes) == if stop then b else Fold(h, path, q, b, nodes[i..])
    {
      assert nodes[i..][1..] == nodes[i + 1..];
      var next := OnNode(h, path, q, b, nodes[i]);
      b, stop := next.0, next.1;
      i := i + 1;
    }
    return Some((Some(RangeProof(path, b.paths, b.leaves)), b.keys, b.values));
  }

  // ---------------------------------------------------------------- what was built

  /** Along the left path nothing is recorded. */
  lemma {:induction false} FoldOnPath(h: Hasher, t: Tree, p: nat, q: Query, b: Builder, m: nat, rest: seq<Tree>)
    requires p < |Leaves(t)| && 0 <= b.pathCount <= m <= |PathNodes(t, p)| == |Path(h, t, p)|
    ensures Fold(h, Path(h, t, p), q, b, PathNodes(t, p)[b.pathCount..m] + rest) ==
              Fold(h, Path(h, t, p), q, b.(pathCount := m), rest)
    decreases m - b.pathCount
  {
    var path, nodes, i := Path(h, t, p), PathNodes(t, p), b.pathCount;
    if i == m {
      assert nodes[i..m] + rest == rest;
    } else {
      PathNodesAreOnPath(h, t, p, i);
      assert (nodes[i..m] + rest)[0] == nodes[i] && (nodes[i..m] + rest)[1..] == nodes[i + 1..m] + rest;
      FoldOnPath(h, t, p, q, b.(pathCount := i + 1), m, rest);
    }
  }

  /** What the builder has recorded of the nodes behind the first leaf: the first `c` leaves and their paths. */
  ghost predicate Recorded(h: Hasher, b: Builder, b': Builder, paths: seq<PathToLeaf>, leaves: seq<Tree>, c: nat) {
    && c <= |paths| == |leaves|
    && b'.paths == b.paths + paths[..c] && b'.leaves == b.leaves + Proofs(h, leaves[..c])
  }

  lemma {:induction false} CollectLength(h: Hasher, nodes: seq<Tree>, current: PathToLeaf)
    ensures |Collect(h, nodes, current)| == |Traversal.LeavesOf(nodes)|
  {
    if nodes != [] {
      if nodes[0].Leaf? { CollectLength(h, nodes[1..], []); }
      else { CollectLength(h, nodes[1..], current + [StepDown(h, nodes[0], true)]); }
    }
  }

  /** Off the path every leaf is recorded with the inner nodes before it, until the callback stops. */
  lemma {:induction false} FoldOffPath(h: Hasher, path: PathToLeaf, q: Query, b: Builder, nodes: seq<Tree>)
      returns (c: nat)
    requires b.pathCount < 0 && b.leafCount >= 0
    ensures Recorded(h, b, Fold(h, path, q, b, nodes), Collect(h, nodes, b.current), Traversal.LeavesOf(nodes), c)
    ensures q.limit == b.leafCount + 1 ==> c == if Traversal.LeavesOf(nodes) == [] then 0 else 1
    decreases nodes
  {
    CollectLength(h, nodes, b.current);
    if nodes == [] {
      c := 0;
      assert b.paths + [] == b.paths && b.leaves + [] == b.leaves;
    } else {
      var r := OnNode(h, path, q, b, nodes[0]);
      if nodes[0].Inner? {
        c := FoldOffPath(h, path, q, r.0, nodes[1..]);
        assert Traversal.LeavesOf(nodes) == [] + Traversal.LeavesOf(nodes[1..]) == Traversal.LeavesOf(nodes[1..]);
      } else if r.1 {
        c := 1;
        OneRecorded(h, nodes, b.current);
      } else {
        c := FoldOffPath(h, path, q, r.0, nodes[1..]);
        MoreRecorded(h, b, r.0, Fold(h, path, q, b, nodes), nodes, c);
        c := c + 1;
      }
    }
  }

  lemma OneRecorded(h: Hasher, nodes: seq<Tree>, current: PathToLeaf)
    requires nodes != [] && nodes[0].Leaf?
    ensures var paths, leaves := Collect(h, nodes, current), Traversal.LeavesOf(nodes);
            |paths| >= 1 && |leaves| >= 1 && paths[..1] == [current]
                && Proofs(h, leaves[..1]) == [LeafProof(h, nodes[0])]
  {
    var leaves := Traversal.LeavesOf(nodes);
    assert leaves[..1] == [nodes[0]];
    assert [nodes[0]][1..] == [];
    assert Proofs(h, [nodes[0]]) == [LeafProof(h, nodes[0])] + Proofs(h, []);
  }

  lemma MoreRecorded(h: Hasher, b: Builder, b1: Builder, b': Builder, nodes: seq<Tree>, c: nat)
    requires nodes != [] && nodes[0].Leaf?
    requires b1.paths == b.paths + [b.current] && b1.leaves == b.leaves + [LeafProof(h, nodes[0])]
    requires Recorded(h, b1, b', Collect(h, nodes[1..], []), Traversal.LeavesOf(nodes[1..]), c)
    ensures Recorded(h, b, b', Collect(h, nodes, b.current), Traversal.LeavesOf(nodes), c + 1)
  {
    var paths, leaves := Collect(h, nodes[1..], []), Traversal.LeavesOf(nodes[1..]);
    var all: seq<Tree> := [nodes[0]] + leaves;
    assert ([b.current] + paths)[..c + 1] == [b.current] + paths[..c];
    assert all[..c + 1] == [nodes[0]] + leaves[..c];
    assert all[..c + 1][1..] == leaves[..c];
    Traversal.Associates(b.paths, [b.current], paths[..c]);
    Traversal.Associates(b.leaves, [LeafProof(h, nodes[0])], Proofs(h, leaves[..c]));
  }

  /** The proof holds `k` consecutive leaves of the tree from position `p`. */
  ghost predicate Honest(h: Hasher, t: Tree, p: nat, k: nat, proof: RangeProof) {
    && 1 <= k && p + k <= |Leaves(t)|
    && proof == RangeProof(Path(h, t, p), Inners(h, t, p)[..k - 1], Proofs(h, Leaves(t)[p..p + k]))
  }

  /** The whole fold, from the first node the traversal shows. */
  lemma FoldFromLeaf(h: Hasher, t: Tree, p: nat, after: Key, q: Query, b: Builder) returns (k: nat)
    requires Injective(h) && Proper(t) && p < |Leaves(t)| && Separates(t, p, after)
    requires b.pathCount == 0 && b.leafCount >= 0 && b.current == [] && b.paths == []
             && b.leaves == [LeafProof(h, Leaves(t)[p])]
    ensures var b' := Fold(h, Path(h, t, p), q, b, Traversal.Visit(t, From(after)));
            Honest(h, t, p, k, RangeProof(Path(h, t, p), b'.paths, b'.leaves))
    ensures q.limit == b.leafCount + 1 ==> k == if p + 1 < |Leaves(t)| then 2 else 1
  {
    hide Fold, Collect, OnPath, Ordered, Separates, Honest, Proofs;
    var path, m, rest := Path(h, t, p), Shown(t, p, after), After(t, p);
    PathNodesLength(h, t, p, after);
    VisitsAfter(h, t, p, after);
    FoldOnPath(h, t, p, q, b, m, rest);
    assert PathNodes(t, p)[..m] == PathNodes(t, p)[0..m];
    var off := b.(pathCount := -1);
    LeavingDoesNotMatter(h, t, p, after, q, b);
    var c := FoldOffPath(h, path, q, off, rest);
    CollectAfter(h, t, p, []);
    assert rest + [] == rest && Inners(h, t, p) + [] == Inners(h, t, p);
    LeavesOfAfter(t, p);
    k := c + 1;
    HonestSoFar(h, t, p, c, Fold(h, path, q, off, rest));
  }

  lemma HonestSoFar(h: Hasher, t: Tree, p: nat, c: nat, b: Builder)
    requires p < |Leaves(t)| && c <= |Inners(h, t, p)|
    requires b.paths == [] + Inners(h, t, p)[..c]
    requires b.leaves == [LeafProof(h, Leaves(t)[p])] + Proofs(h, Leaves(t)[p + 1..][..c])
    ensures Honest(h, t, p, c + 1, RangeProof(Path(h, t, p), b.paths, b.leaves))
  {
    hide Path, Inners, Leaves, LeafProof;
    var leaves := Leaves(t);
    var own := leaves[p..p + c + 1];
    assert own[0] == leaves[p];
    assert own[1..] == leaves[p + 1..][..c];
    assert Proofs(h, own) == [LeafProof(h, own[0])] + Proofs(h, own[1..]);
  }

  /** Whether the path was followed to its end or left before, recording starts with the first node behind the leaf. */
  lemma LeavingDoesNotMatter(h: Hasher, t: Tree, p: nat, after: Key, q: Query, b: Builder)
    requires Injective(h) && Proper(t) && Separates(t, p, after) && p < |Leaves(t)|
    ensures var m, rest, path := Shown(t, p, after), After(t, p), Path(h, t, p);
            var on, off := Fold(h, path, q, b.(pathCount := m), rest), Fold(h, path, q, b.(pathCount := -1), rest);
            on.paths == off.paths && on.leaves == off.leaves
  {
    hide Ordered, Separates, OnPath;
    var m, path := Shown(t, p, after), Path(h, t, p);
    PathNodesLength(h, t, p, after);
    if m < |path| { LeavesThePath(h, t, p, after); }
  }

  // ---------------------------------------------------------------- verifying

  /**
   * computeRootHash: the root hash and whether the last leaf is the last of the tree, or None for a malformed proof.
   */
  function Recomputed(h: Hasher, proof: RangeProof): Option<(Hash, bool)> {
    if proof.leaves == [] || |proof.innerNodes| + 1 != |proof.leaves| then None
    else
      var r := ComputeHash(h, proof.leftPath, true, proof.leaves, proof.innerNodes);
      if r.Wrong? || !r.done then None else Some((r.hash, r.treeEnd))
  }

  /** An honest proof recomputes the root hash of the tree, and knows whether it reaches its end. */
  lemma HonestProofsVerify(h: Hasher, t: Tree, p: nat, k: nat, proof: RangeProof)
    requires Injective(h) && Ordered(t) && Honest(h, t, p, k, proof)
    ensures Recomputed(h, proof) == Some((HashOf(h, t), p + k == |Leaves(t)|))
  {
    hide ComputeHash, HashOf;
    ProofsParts(h, Leaves(t)[p..p + k], []);
    assert proof.leaves + [] == proof.leaves && proof.innerNodes + [] == proof.innerNodes;
    SubtreeComputes(h, t, p, k, proof.leaves, proof.innerNodes, [], [], true);
  }

  // ---------------------------------------------------------------- leaves that are passed over

  /**
   * The traversal starts behind the next leaf, because its key lies before the increment of the first leaf's key, and
   * finds a later one.
   */
  ghost predicate Skips(t: Tree, q: Query) {
    var p, leaves := Position(t, q.Start()), Leaves(t);
    && !q.StopsAt(leaves[p].key) && p + 1 < |leaves|
    && Less(leaves[p + 1].key, Incr(leaves[p].key)) && AtMost(Incr(leaves[p].key), leaves[|leaves| - 1].key)
  }

  lemma {:induction false} FoldAppends(h: Hasher, path: PathToLeaf, q: Query, b: Builder, nodes: seq<Tree>)
    ensures b.paths <= Fold(h, path, q, b, nodes).paths && b.leaves <= Fold(h, path, q, b, nodes).leaves
    decreases nodes
  {
    if nodes != [] { FoldAppends(h, path, q, OnNode(h, path, q, b, nodes[0]).0, nodes[1..]); }
  }

  ghost predicate InnersHaveHeight(nodes: seq<Tree>) {
    forall n :: n in nodes && n.Inner? ==> n.height > 0
  }

  lemma {:induction false} VisitedHaveHeight(t: Tree, r: Traversal.Range)
    requires Graded(t)
    ensures InnersHaveHeight(Traversal.Visit(t, r))
  {
    if t.Inner? {
      VisitedHaveHeight(t.left, r);
      VisitedHaveHeight(t.right, r);
    }
  }

  /** A path of turns to the left, and of nothing that is encoded like a leaf. */
  ghost predicate Leftward(path: PathToLeaf) {
    IsLeftmost(path) && Plain(path)
  }

  /** The first leaf found is recorded with such a path. */
  lemma {:induction false} FoldFindsFirst(h: Hasher, path: PathToLeaf, q: Query, b: Builder, nodes: seq<Tree>)
    requires Leftward(b.current) && InnersHaveHeight(nodes)
    ensures var b', found := Fold(h, path, q, b, nodes), Traversal.LeavesOf(nodes);
            if found == [] then b'.paths == b.paths && b'.leaves == b.leaves
            else exists current :: && Leftward(current) && b.paths + [current] <= b'.paths
                                   && b.leaves + [LeafProof(h, found[0])] <= b'.leaves
    decreases nodes
  {
    if nodes != [] {
      var r := OnNode(h, path, q, b, nodes[0]).0;
      if nodes[0].Inner? {
        FoldFindsFirst(h, path, q, r, nodes[1..]);
        assert Traversal.LeavesOf(nodes) == [] + Traversal.LeavesOf(nodes[1..]) == Traversal.LeavesOf(nodes[1..]);
      } else {
        FoldAppends(h, path, q, r, nodes[1..]);
      }
    }
  }

  /** Hashing up such a path ends in the hash of a tree only from the tree's first leaf. */
  lemma {:induction false} LeftmostHash(h: Hasher, path: PathToLeaf, leaf: ProofLeafNode, t: Tree)
    requires Injective(h) && Graded(t) && Leftward(path) && HashUp(h, path, LeafHash(h, leaf)) == HashOf(h, t)
    ensures leaf.key == Leaves(t)[0].key
    decreases path
  {
    if path != [] { LeftmostHash(h, path[1..], leaf, t.left); }
  }

  lemma {:induction false} ClimbKeepsHash(h: Hasher, path: PathToLeaf, rightmost: bool, hash: Hash,
                                          leaves: seq<ProofLeafNode>, inners: seq<PathToLeaf>)
    requires leaves != []
    ensures var r := Climb(h, path, rightmost, hash, leaves, inners); r.Outcome? ==> r.hash == hash
    ensures IsRightmost(path) ==>
              Climb(h, path, rightmost, hash, leaves, inners) == Outcome(hash, false, false, leaves, inners)
    decreases |leaves|, |path|
  {
    hide ComputeHash;
    if path != [] {
      var rpath, lpath := path[..|path| - 1], path[|path| - 1];
      if |lpath.right| == 0 {
        ClimbKeepsHash(h, rpath, rightmost, hash, leaves, inners);
      } else if inners != [] {
        var r := ComputeHash(h, inners[0], rightmost && IsRightmost(rpath), leaves, inners[1..]);
        if r.Outcome? && !r.done { ClimbKeepsHash(h, rpath, rightmost, hash, r.leaves, r.inners); }
      }
    }
  }

  lemma ComputedHash(h: Hasher, path: PathToLeaf, rightmost: bool, leaves: seq<ProofLeafNode>, inners: seq<PathToLeaf>)
    requires leaves != []
    ensures var r := ComputeHash(h, path, rightmost, leaves, inners);
            r.Outcome? ==> r.hash == HashUp(h, path, LeafHash(h, leaves[0]))
  {
    if |leaves| > 1 {
      ClimbKeepsHash(h, path, rightmost, HashUp(h, path, LeafHash(h, leaves[0])), leaves[1..], inners);
    }
  }

  /**
   * Behind the leaf at `p` the verifier accepts no leaf but the next one, when the inner path to it turns left only and
   * has no step that is encoded like a leaf, as built ones do and have.
   */
  lemma {:induction false} ClimbRejects(h: Hasher, t: Tree, p: nat, rightmost: bool, hash: Hash,
                                        leaves: seq<ProofLeafNode>, inners: seq<PathToLeaf>)
    requires Injective(h) && Graded(t) && p + 1 < |Leaves(t)| && leaves != [] && leaves[0].key != Leaves(t)[p + 1].key
    requires inners != [] && Leftward(inners[0])
    ensures Climb(h, Path(h, t, p), rightmost, hash, leaves, inners) == Wrong
  {
    hide Climb, ComputeHash, Leftward, IsRightmost, HashUp, LeafHash, HashOf;
    var nl := |Leaves(t.left)|;
    LeavesBySide(t, p + 1);
    if p >= nl {
      ClimbCons(h, StepDown(h, t, false), Path(h, t.right, p - nl), rightmost, hash, leaves, inners);
      ClimbRejects(h, t.right, p - nl, rightmost, hash, leaves, inners);
    } else {
      var top := StepDown(h, t, true);
      HashIsNotEmpty(h, t.right);
      ClimbCons(h, top, Path(h, t.left, p), rightmost, hash, leaves, inners);
      if p + 1 < nl {
        ClimbRejects(h, t.left, p, false, hash, leaves, inners);
      } else {
        PathEnds(h, t.left, p);
        ClimbKeepsHash(h, Path(h, t.left, p), false, hash, leaves, inners);
        TopRejects(h, t, rightmost, hash, leaves, inners);
      }
    }
  }

  lemma TopRejects(h: Hasher, t: Tree, rightmost: bool, hash: Hash, leaves: seq<ProofLeafNode>, inners: seq<PathToLeaf>)
    requires Injective(h) && Graded(t) && t.Inner? && leaves != [] && leaves[0].key != Leaves(t.right)[0].key
    requires inners != [] && Leftward(inners[0])
    ensures Climb(h, [StepDown(h, t, true)], rightmost, hash, leaves, inners) == Wrong
  {
    hide ComputeHash, Leftward, HashUp, LeafHash, HashOf;
    HashIsNotEmpty(h, t.right);
    assert [StepDown(h, t, true)][..0] == [];
    var end := rightmost && IsRightmost([]);
    ComputedHash(h, inners[0], end, leaves, inners[1..]);
    if HashUp(h, inners[0], LeafHash(h, leaves[0])) == HashOf(h, t.right) {
      LeftmostHash(h, inners[0], leaves[0], t.right);
    }
  }

  /** The leaves behind the first one that the traversal shows: those from the increment of its key on. */
  lemma ShownLeaves(t: Tree, after: Key)
    requires Ordered(t)
    ensures Traversal.LeavesOf(Traversal.Visit(t, From(after))) == Traversal.Within(Leaves(t), From(after))
    ensures forall l :: l in Traversal.Within(Leaves(t), From(after)) <==> l in Leaves(t) && AtMost(after, l.key)
  {
    hide Ordered, Traversal.Visit, Traversal.LeavesOf;
    Traversal.VisitedLeaves(t, From(after));
    Traversal.WithinIsFilter(Leaves(t), From(after));
  }

  lemma OneLeafIsHonest(h: Hasher, t: Tree, p: nat)
    requires p < |Leaves(t)|
    ensures Honest(h, t, p, 1, RangeProof(Path(h, t, p), [], [LeafProof(h, Leaves(t)[p])]))
  {
    var own := Leaves(t)[p..p + 1];
    assert own == [Leaves(t)[p]] && own[1..] == [];
  }

  /** The increment of a leaf's key separates the leaves there, unless the next key lies before it. */
  lemma IncrSeparates(t: Tree, p: nat)
    requires Ordered(t) && p < |Leaves(t)|
    requires p + 1 < |Leaves(t)| ==> AtMost(Incr(Leaves(t)[p].key), Leaves(t)[p + 1].key)
    ensures Separates(t, p, Incr(Leaves(t)[p].key))
  {
    LeavesAreContents(t);
    hide Ordered;
    var leaves := Leaves(t);
    var after := Incr(leaves[p].key);
    IncrIsNext(leaves[p].key, leaves[p].key);
    forall i | 0 <= i <= p ensures Less(leaves[i].key, after) {
      if i < p { LessTransitive(leaves[i].key, leaves[p].key, after); }
    }
    forall i | p + 1 < i < |leaves| ensures AtMost(after, leaves[i].key) {
      Between(after, leaves[p + 1].key, leaves[i].key);
    }
  }

  lemma NoneShown(t: Tree, after: Key)
    requires Ordered(t) && Less(Leaves(t)[|Leaves(t)| - 1].key, after)
    ensures Traversal.LeavesOf(Traversal.Visit(t, From(after))) == []
  {
    hide Ordered, Traversal.Visit, Traversal.LeavesOf, Traversal.Within, Less, Leaves, Contents, Keys;
    LeavesAreContents(t);
    ShownLeaves(t, after);
    var shown, leaves := Traversal.Within(Leaves(t), From(after)), Leaves(t);
    if shown != [] {
      assert shown[0] in shown;
      var i :| 0 <= i < |leaves| && leaves[i] == shown[0];
      if i < |leaves| - 1 { LessTransitive(leaves[i].key, leaves[|leaves| - 1].key, after); }
    }
  }

  /** Without leaves passed over, the builder records consecutive leaves. */
  lemma BuildsHonestly(h: Hasher, t: Tree, q: Query) returns (p: nat, k: nat)
    requires Injective(h) && Proper(t) && !Skips(t, q)
    ensures p == Position(t, q.Start()) && Honest(h, t, p, k, Built(h, t, q).0)
    ensures q.StopsAt(Leaves(t)[p].key) ==> k == 1
    ensures q.limit == 2 && !q.StopsAt(Leaves(t)[p].key) && p + 1 < |Leaves(t)| ==>
              k == if AtMost(Incr(Leaves(t)[p].key), Leaves(t)[p + 1].key) then 2 else 1
  {
    p, k := Position(t, q.Start()), 1;
    var after, leaves := Incr(Leaves(t)[p].key), Leaves(t);
    hide Ordered, Fold, HashOf, Incr, Less, Path, Honest, Leaves, Position;
    PathToIsPath(h, t, q.Start());
    OneLeafIsHonest(h, t, p);
    if !q.StopsAt(leaves[p].key) {
      if p + 1 == |leaves| || AtMost(after, leaves[p + 1].key) {
        IncrSeparates(t, p);
        k := FoldFromLeaf(h, t, p, after, q, FirstLeaf(h, t, q));
      } else {
        NoneShown(t, after);
        VisitedHaveHeight(t, From(after));
        FoldFindsFirst(h, Path(h, t, p), q, FirstLeaf(h, t, q), Traversal.Visit(t, From(after)));
      }
    }
  }

  /** A leaf found behind those passed over is not the next one. */
  lemma FoundIsNotNext(t: Tree, p: nat, after: Key)
    requires Ordered(t) && p + 1 < |Leaves(t)| && Less(Leaves(t)[p + 1].key, after)
             && AtMost(after, Leaves(t)[|Leaves(t)| - 1].key)
    ensures var shown := Traversal.LeavesOf(Traversal.Visit(t, From(after)));
            shown != [] && shown[0].key != Leaves(t)[p + 1].key
  {
    hide Ordered, Less, Leaves, Traversal.LeavesOf, Traversal.Within, Traversal.Visit;
    ShownLeaves(t, after);
    var shown := Traversal.LeavesOf(Traversal.Visit(t, From(after)));
    assert Leaves(t)[|Leaves(t)| - 1] in shown;
    assert shown[0] in shown;
  }

  lemma SecondRecorded(h: Hasher, path: PathToLeaf, q: Query, b: Builder, nodes: seq<Tree>)
    requires b.current == [] && b.paths == [] && |b.leaves| == 1 && Traversal.LeavesOf(nodes) != []
    requires InnersHaveHeight(nodes)
    ensures var b' := Fold(h, path, q, b, nodes);
            && |b'.paths| >= 1 && Leftward(b'.paths[0])
            && |b'.leaves| >= 2 && b'.leaves[1].key == Traversal.LeavesOf(nodes)[0].key
  {
    hide Fold, Traversal.LeavesOf;
    FoldFindsFirst(h, path, q, b, nodes);
  }

  /** A proof that passes over leaves has a second leaf that is not the next one. */
  lemma SkippingProof(h: Hasher, t: Tree, q: Query)
    requires Proper(t) && Skips(t, q)
    ensures var proof, p := Built(h, t, q).0, Position(t, q.Start());
            && proof.leftPath == Path(h, t, p) && |proof.leaves| >= 2 && |proof.innerNodes| >= 1
            && proof.leaves[1].key != Leaves(t)[p + 1].key && Leftward(proof.innerNodes[0])
  {
    hide Ordered, Graded, Fold, HashOf, Incr, Less, Path, Leaves, Position, Traversal.LeavesOf, Traversal.Visit,
         Leftward;
    var p := Position(t, q.Start());
    var after := Incr(Leaves(t)[p].key);
    FoundIsNotNext(t, p, after);
    VisitedHaveHeight(t, From(after));
    PathToIsPath(h, t, q.Start());
    SecondRecorded(h, Path(h, t, p), q, FirstLeaf(h, t, q), Traversal.Visit(t, From(after)));
  }

  /** The verifier refuses a proof whose second leaf is not the next one. */
  lemma WrongSecondLeaf(h: Hasher, t: Tree, p: nat, proof: RangeProof)
    requires Injective(h) && Graded(t) && p + 1 < |Leaves(t)| && proof.leftPath == Path(h, t, p)
    requires |proof.leaves| >= 2 && |proof.innerNodes| >= 1
    requires proof.leaves[1].key != Leaves(t)[p + 1].key && Leftward(proof.innerNodes[0])
    ensures Recomputed(h, proof) == None
  {
    hide Path, Leaves, Climb, HashUp, LeafHash, Leftward;
    ClimbRejects(h, t, p, true, HashUp(h, proof.leftPath, LeafHash(h, proof.leaves[0])), proof.leaves[1..],
                 proof.innerNodes);
  }

  /** A proof that passes over leaves is refused. */
  lemma SkippingIsRefused(h: Hasher, t: Tree, q: Query)
    requires Injective(h) && Proper(t) && Skips(t, q)
    ensures Recomputed(h, Built(h, t, q).0) == None
  {
    hide Recomputed, Ordered, Built, Path, Leaves, Position, IsLeftmost, Incr, Less;
    SkippingProof(h, t, q);
    WrongSecondLeaf(h, t, Position(t, q.Start()), Built(h, t, q).0);
  }

  /**
   * Every range proof, for any range and limit, holds consecutive leaves and recomputes the tree's root hash and its
   * end, unless the builder passes over a leaf whose key lies between the first leaf's and its increment; then it is
   * refused.
   */
  lemma RangeProofsVerify(h: Hasher, t: Tree, q: Query) returns (p: nat, k: nat)
    requires Injective(h) && Proper(t)
    ensures p == Position(t, q.Start())
    ensures !Skips(t, q) ==> Honest(h, t, p, k, Built(h, t, q).0)
    ensures Recomputed(h, Built(h, t, q).0) == if Skips(t, q) then None else Some((HashOf(h, t), p + k == |Leaves(t)|))
  {
    hide Ordered, Recomputed, Built, HashOf, Honest, Skips;
    if Skips(t, q) {
      p, k := Position(t, q.Start()), 1;
      SkippingIsRefused(h, t, q);
    } else {
      p, k := BuildsHonestly(h, t, q);
      HonestProofsVerify(h, t, p, k, Built(h, t, q).0);
    }
  }

  ghost predicate FixedWidth(t: Tree, width: nat) {
    forall k :: k in Keys(t) ==> |k| == width
  }

  /** With keys of one length no leaf is ever passed over. */
  lemma OneLengthNeverSkips(t: Tree, p: nat, width: nat)
    requires Ordered(t) && FixedWidth(t, width) && p + 1 < |Leaves(t)|
    ensures AtMost(Incr(Leaves(t)[p].key), Leaves(t)[p + 1].key)
  {
    LeavesAreContents(t);
    var leaves := Leaves(t);
    assert leaves[p] in leaves && leaves[p + 1] in leaves;
    IncrIsNext(leaves[p].key, leaves[p + 1].key);
  }

  // ---------------------------------------------------------------- one key

  /** The query of GetWithProof. */
  function OneKey(key: Key): Query {
    Query(Some(key), Some(Incr(key)), 2)
  }

  /** GetWithProof: the value, if the key is there, and a proof either way. */
  function GetWithProof(h: Hasher, t: Tree, key: Key): (Option<Value>, RangeProof) {
    var built := Built(h, t, OneKey(key));
    (if built.2 != [] && built.0.leaves != [] && built.0.leaves[0].key == key then Some(built.2[0]) else None, built.0)
  }

  /** sort.Search for the first leaf not below the key. */
  method Search(leaves: seq<ProofLeafNode>, key: Key) returns (i: nat)
    ensures i <= |leaves| && (i < |leaves| ==> AtMost(key, leaves[i].key)) && (i > 0 ==> Less(leaves[i - 1].key, key))
  {
    i := 0;
    var j := |leaves|;
    while i < j
      invariant 0 <= i <= j <= |leaves|
      invariant (j < |leaves| ==> AtMost(key, leaves[j].key)) && (i > 0 ==> Less(leaves[i - 1].key, key))
    {
      var m := (i + j) / 2;
      if AtMost(key, leaves[m].key) { j := m; } else { i := m + 1; }
    }
  }

  ghost predicate AscendingProof(leaves: seq<ProofLeafNode>) {
    forall i, j :: 0 <= i < j < |leaves| ==> Less(leaves[i].key, leaves[j].key)
  }

  /** Some leaf has the key and the hash of the value. */
  ghost predicate HasItem(h: Hasher, leaves: seq<ProofLeafNode>, key: Key, value: Value) {
    exists i :: 0 <= i < |leaves| && leaves[i].key == key && leaves[i].valueHash == h.value(value)
  }

  lemma OnlyFound(leaves: seq<ProofLeafNode>, key: Key, i: nat, k: nat)
    requires AscendingProof(leaves) && k < |leaves| && leaves[k].key == key
    requires i <= |leaves| && (i < |leaves| ==> AtMost(key, leaves[i].key)) && (i > 0 ==> Less(leaves[i - 1].key, key))
    ensures i == k
  {
    LessIrreflexive(key);
    if i < k {
    } else if k < i {
      if k < i - 1 { LessTransitive(key, leaves[i - 1].key, key); }
    }
  }

  /**
   * What VerifyAbsence accepts of a verified proof: the key is before the first leaf, behind the last, or between two.
   */
  predicate Absent(proof: RangeProof, treeEnd: bool, key: Key) {
    if proof.leaves == [] then false
    else if Less(key, proof.leaves[0].key) then IsLeftmost(proof.leftPath)
    else if key == proof.leaves[0].key then false
    else if proof.leftPath == [] || IsRightmost(proof.leftPath) then true
    else AbsentBehind(proof.leaves[1..], treeEnd, key)
  }

  predicate AbsentBehind(leaves: seq<ProofLeafNode>, treeEnd: bool, key: Key) {
    if leaves == [] then treeEnd
    else if Less(key, leaves[0].key) then true
    else if key == leaves[0].key then false
    else AbsentBehind(leaves[1..], treeEnd, key)
  }

  /** A range proof with what its verification memoizes. */
  class Proof {
    const h: Hasher
    const proof: RangeProof
    var rootHash: Option<Hash>
    var rootVerified: bool
    var treeEnd: bool

    /** The memoized hash and end are those of the proof, and only a proof with a hash is verified. */
    ghost predicate Valid()
      reads this
    {
      (rootHash.Some? ==> Recomputed(h, proof) == Some((rootHash.value, treeEnd))) && (rootVerified ==> rootHash.Some?)
    }

    constructor (h: Hasher, proof: RangeProof)
      ensures Valid() && this.h == h && this.proof == proof && !rootVerified
    {
      this.h, this.proof := h, proof;
      rootHash, rootVerified, treeEnd := None, false, false;
    }

    /** Verify: the recomputed hash is the given root; once verified, a proof stays verified. */
    method Verify(root: Hash) returns (ok: bool)
      requires Valid()
      modifies this
      ensures Valid() && rootVerified == (old(rootVerified) || ok)
      ensures ok <==> Recomputed(h, proof).Some? && Recomputed(h, proof).value.0 == root
    {
      if rootHash.None? {
        if |proof.leaves| == 0 || |proof.innerNodes| + 1 != |proof.leaves| { return false; }
        var c := new HashComputer(proof.leaves, proof.innerNodes);
        var computed, hash, end, done := c.Compute(h, proof.leftPath, true);
        if !computed || !done { return false; }
        rootHash, treeEnd := Some(hash), end;
      }
      if rootHash.value != root { return false; }
      rootVerified := true;
      return true;
    }

    /**
     * VerifyItem: refused before Verify; accepts only items that are there, and all of them when the leaves are in
     * order.
     */
    method VerifyItem(key: Key, value: Value) returns (ok: bool)
      ensures ok ==> rootVerified && HasItem(h, proof.leaves, key, value)
      ensures rootVerified && AscendingProof(proof.leaves) && HasItem(h, proof.leaves, key, value) ==> ok
    {
      if !rootVerified { return false; }
      var leaves := proof.leaves;
      var i := Search(leaves, key);
      ok := i < |leaves| && leaves[i].key == key && leaves[i].valueHash == h.value(value);
      if AscendingProof(leaves) {
        if k :| 0 <= k < |leaves| && leaves[k].key == key { OnlyFound(leaves, key, i, k); }
      }
    }

    /** VerifyAbsence: refused before Verify. */
    method VerifyAbsence(key: Key) returns (ok: bool)
      requires Valid()
      ensures ok <==> rootVerified && Absent(proof, treeEnd, key)
    {
      if !rootVerified { return false; }
      if Less(key, proof.leaves[0].key) { return IsLeftmost(proof.leftPath); }
      if key == proof.leaves[0].key { return false; }
      if proof.leftPath == [] || IsRightmost(proof.leftPath) { return true; }
      var i := 1;
      while i < |proof.leaves|
        invariant 1 <= i <= |proof.leaves|
        invariant AbsentBehind(proof.leaves[1..], treeEnd, key) == AbsentBehind(proof.leaves[i..], treeEnd, key)
      {
        assert proof.leaves[i..][1..] == proof.leaves[i + 1..];
        if Less(key, proof.leaves[i].key) { return true; }
        if key == proof.leaves[i].key { return false; }
        i := i + 1;
      }
      return treeEnd;
    }
  }

  lemma {:induction false} ProofsAt(h: Hasher, leaves: seq<Tree>, i: nat)
    requires i < |leaves|
    ensures |Proofs(h, leaves)| == |leaves| && Proofs(h, leaves)[i] == LeafProof(h, leaves[i])
  {
    ProofsParts(h, leaves, []);
    if i > 0 { ProofsAt(h, leaves[1..], i - 1); }
  }

  lemma HonestLeaves(h: Hasher, t: Tree, p: nat, k: nat, proof: RangeProof)
    requires Honest(h, t, p, k, proof)
    ensures |proof.leaves| == k >= 1 && p + k <= |Leaves(t)| && proof.leaves[0] == LeafProof(h, Leaves(t)[p])
            && proof.leftPath == Path(h, t, p)
    ensures k == 2 ==> proof.leaves[1] == LeafProof(h, Leaves(t)[p + 1])
  {
    ProofsAt(h, Leaves(t)[p..p + k], 0);
    if k == 2 { ProofsAt(h, Leaves(t)[p..p + k], 1); }
  }

  lemma HonestIsAscending(h: Hasher, t: Tree, p: nat, k: nat, proof: RangeProof)
    requires Honest(h, t, p, k, proof) && Ordered(t)
    ensures AscendingProof(proof.leaves)
  {
    hide Ordered, Contents, Keys, Leaves, Path, Inners, Less, Proofs;
    LeavesAreContents(t);
    var own := Leaves(t)[p..p + k];
    ProofsParts(h, own, []);
    forall i, j | 0 <= i < j < |own| ensures Less(proof.leaves[i].key, proof.leaves[j].key) {
      ProofsAt(h, own, i);
      ProofsAt(h, own, j);
    }
  }

  lemma LeafIsEntry(t: Tree, p: nat)
    requires Ordered(t) && p < |Leaves(t)|
    ensures Leaves(t)[p].key in Keys(t) && Contents(t)[Leaves(t)[p].key] == LeafValue(Leaves(t)[p])
  {
    LeavesAreContents(t);
    assert Leaves(t)[p] in Leaves(t);
  }

  /** The proof of a present key is its leaf alone. */
  lemma PresentStops(t: Tree, key: Key)
    requires Ordered(t) && key in Keys(t)
    ensures Leaves(t)[Position(t, key)].key == key && OneKey(key).StopsAt(key) && !Skips(t, OneKey(key))
  {
    PositionIsNeighbour(t, key);
    LessIrreflexive(Incr(key));
  }

  /** GetWithProof returns the map's value. */
  lemma GetWithProofValue(h: Hasher, t: Tree, key: Key)
    requires Ordered(t)
    ensures GetWithProof(h, t, key).0 == if key in Contents(t) then Some(Contents(t)[key]) else None
  {
    hide Fold, Ordered, Path, Leaves, Contents, Traversal.Visit, Less, Skips;
    var p, q := Position(t, key), OneKey(key);
    PathToIsPath(h, t, key);
    LeafIsEntry(t, p);
    FoldAppends(h, Path(h, t, p), q, FirstLeaf(h, t, q), Traversal.Visit(t, From(Incr(Leaves(t)[p].key))));
    if key in Contents(t) {
      PresentStops(t, key);
      LessIrreflexive(key);
      IncrIsNext(key, key);
    }
  }

  /** The proof verifies against the root and, as VerifyItem decides, holds the entry. */
  ghost predicate ProvesItem(h: Hasher, proof: RangeProof, root: Hash, key: Key, value: Value) {
    var r := Recomputed(h, proof);
    r.Some? && r.value.0 == root && AscendingProof(proof.leaves) && HasItem(h, proof.leaves, key, value)
  }

  /** The proof verifies against the root and, as VerifyAbsence decides, shows that the key is missing. */
  ghost predicate ProvesAbsence(h: Hasher, proof: RangeProof, root: Hash, key: Key) {
    var r := Recomputed(h, proof);
    r.Some? && r.value.0 == root && Absent(proof, r.value.1, key)
  }

  /** What an honest proof of one or two leaves says about a missing key. */
  lemma AbsentExactly(h: Hasher, t: Tree, key: Key, p: nat, k: nat, proof: RangeProof)
    requires Injective(h) && Neighbour(t, key, p) && key !in Keys(t) && Honest(h, t, p, k, proof)
             && Leaves(t)[p].key in Keys(t) && k <= 2
    ensures Absent(proof, p + k == |Leaves(t)|, key) <==> Less(key, Leaves(t)[p].key) || p + 1 == |Leaves(t)| || k == 2
  {
    hide Honest, Leaves, Path, Less;
    HonestLeaves(h, t, p, k, proof);
    PathEnds(h, t, p);
    LessTotal(key, Leaves(t)[p].key);
    if Less(Leaves(t)[p].key, key) { LessAsymmetric(Leaves(t)[p].key, key); }
  }

  /**
   * The query finds what shows a missing key to be missing: the key is before the first leaf, or its neighbour is the
   * last, or both neighbours are found.
   */
  ghost predicate AbsenceProvable(t: Tree, key: Key) {
    var p, leaves := Position(t, key), Leaves(t);
    if Less(key, leaves[p].key) then !Skips(t, OneKey(key))
    else p + 1 == |leaves| || (Less(Incr(leaves[p].key), Incr(key)) && AtMost(Incr(leaves[p].key), leaves[p + 1].key))
  }

  lemma AbsenceIsProved(h: Hasher, t: Tree, key: Key)
    requires Injective(h) && Proper(t) && key !in Keys(t)
    ensures ProvesAbsence(h, GetWithProof(h, t, key).1, HashOf(h, t), key) <==> AbsenceProvable(t, key)
  {
    hide Recomputed, HashOf, Honest, Built, Leaves, Path, Less, Ordered, Absent, Incr, Position;
    var q, proof := OneKey(key), GetWithProof(h, t, key).1;
    if Skips(t, q) {
      SkippingIsRefused(h, t, q);
    } else {
      var p, k := BuildsHonestly(h, t, q);
      HonestProofsVerify(h, t, p, k, proof);
      PositionIsNeighbour(t, key);
      LeafIsEntry(t, p);
      HonestLeaves(h, t, p, k, proof);
      AbsentExactly(h, t, key, p, k, proof);
    }
  }

  lemma PresenceIsProved(h: Hasher, t: Tree, key: Key)
    requires Injective(h) && Proper(t) && key in Keys(t)
    ensures ProvesItem(h, GetWithProof(h, t, key).1, HashOf(h, t), key, Contents(t)[key])
  {
    hide Recomputed, HashOf, Honest, Built, Leaves, Path, Less, Ordered, Incr, Position;
    var q, proof := OneKey(key), GetWithProof(h, t, key).1;
    PresentStops(t, key);
    var p, k := BuildsHonestly(h, t, q);
    HonestProofsVerify(h, t, p, k, proof);
    LeafIsEntry(t, p);
    HonestLeaves(h, t, p, k, proof);
    HonestIsAscending(h, t, p, k, proof);
    assert proof.leaves[0].key == key && proof.leaves[0].valueHash == h.value(Contents(t)[key]);
  }

  /**
   * Completeness for keys of any length: a present key is always proved; the absence of a missing key exactly when it
   * is provable.
   */
  lemma GetWithProofIsComplete(h: Hasher, t: Tree, key: Key)
    requires Injective(h) && Proper(t)
    ensures var (value, proof) := GetWithProof(h, t, key);
            && value == (if key in Contents(t) then Some(Contents(t)[key]) else None)
            && (key in Contents(t) ==> ProvesItem(h, proof, HashOf(h, t), key, Contents(t)[key]))
            && (key !in Contents(t) ==> (ProvesAbsence(h, proof, HashOf(h, t), key) <==> AbsenceProvable(t, key)))
  {
    hide HashOf, Built, Ordered, AbsenceProvable, ProvesAbsence, ProvesItem, GetWithProof;
    GetWithProofValue(h, t, key);
    if key in Contents(t) { PresenceIsProved(h, t, key); } else { AbsenceIsProved(h, t, key); }
  }

  /** With keys of one length no leaf is passed over, and every absence is provable. */
  lemma OneLengthIsComplete(t: Tree, key: Key, q: Query, width: nat)
    requires Ordered(t) && FixedWidth(t, width)
    ensures !Skips(t, q)
    ensures |key| == width && key !in Keys(t) ==> AbsenceProvable(t, key)
  {
    hide Ordered, FixedWidth, Less, Leaves, Incr, Position;
    var leaves, s, p := Leaves(t), Position(t, q.Start()), Position(t, key);
    if s + 1 < |leaves| { OneLengthNeverSkips(t, s, width); }
    if p + 1 < |leaves| { OneLengthNeverSkips(t, p, width); }
    if |key| == width && key !in Keys(t) && AtMost(leaves[p].key, key) {
      LeafIsEntry(t, p);
      LessTotal(leaves[p].key, key);
      assert |leaves[p].key| == width by { KeyIsWide(t, p, width); }
      IncrIsNext(leaves[p].key, key);
      IncrIsNext(key, key);
      Between(Incr(leaves[p].key), key, Incr(key));
    }
  }

  function Pair(a: Key, b: Key): Tree {
    Inner(b, 1, 2, Leaf(a, [], 1), Leaf(b, [], 1), 1)
  }

  /** The keys [1] and [2]. */
  function TwoKeys(): Tree {
    Pair([1], [2])
  }

  /** The keys [1], [1, 0] and [2]. */
  function ThreeKeys(): Tree {
    Inner([2], 2, 3, Pair([1], [1, 0]), Leaf([2], [], 1), 1)
  }

  lemma SmallKeys()
    ensures Incr([1]) == [2] && Incr([1, 0]) == [1, 1]
    ensures Less([1], [1, 0]) && Less([1, 0], [2]) && Less([1], [2]) && Less([1, 1], [2])
    ensures !Less([2], [2]) && !Less([1, 0], [1]) && !Less([2], [1, 1])
  {
    assert [1][..0] == [] && [1, 0][..1] == [1];
    assert Carry([1]) == Some([] + [2]) && Carry([1, 0]) == Some([1] + [1]);
    assert [1, 0][1..] == [0] && [2][1..] == [] && [1, 1][1..] == [1] && [1][1..] == [];
  }

  lemma PairIsValid(a: Key, b: Key)
    requires Less(a, b)
    ensures Valid(Pair(a, b)) && Keys(Pair(a, b)) == {a, b} && Leaves(Pair(a, b)) == [Leaf(a, [], 1), Leaf(b, [], 1)]
  {
    LessIrreflexive(b);
  }

  lemma TripleIsValid(a: Key, b: Key, c: Key)
    requires Less(a, b) && Less(b, c) && Less(a, c)
    ensures var t := Inner(c, 2, 3, Pair(a, b), Leaf(c, [], 1), 1);
            Valid(t) && Leaves(t) == [Leaf(a, [], 1), Leaf(b, [], 1), Leaf(c, [], 1)]
  {
    PairIsValid(a, b);
    LessIrreflexive(c);
  }

  lemma ThreeKeysSkip()
    ensures Valid(ThreeKeys()) && Skips(ThreeKeys(), Query(None, None, 0))
  {
    hide Less, Incr, Leaves, Valid, Position;
    SmallKeys();
    TripleIsValid([1], [1, 0], [2]);
    EmptyIsFirst(ThreeKeys());
  }

  lemma {:induction false} EmptyIsFirst(t: Tree)
    requires Ordered(t)
    ensures Position(t, []) == 0
  {
    if t.Inner? {
      assert MinKey(t.left) in Keys(t.left) by { MinKeyIsLeast(t.left); }
      EmptyIsFirst(t.left);
    }
  }

  lemma PairPosition(a: Key, b: Key, key: Key)
    requires Less(key, b)
    ensures Position(Pair(a, b), key) == 0
  {
  }

  lemma TwoKeysStop()
    ensures Valid(TwoKeys()) && [1, 0] !in Keys(TwoKeys()) && |Leaves(TwoKeys())| == 2
            && Position(TwoKeys(), [1, 0]) == 0
    ensures OneKey([1, 0]).StopsAt(Leaves(TwoKeys())[0].key) && !AbsenceProvable(TwoKeys(), [1, 0])
  {
    hide Less, Incr, Skips, Leaves, Valid, Position, Keys, Pair;
    SmallKeys();
    PairIsValid([1], [2]);
    PairPosition([1], [2], [1, 0]);
  }

  /**
   * Keys of different lengths: with [1], [1, 0] and [2] the proof of all entries passes over [1, 0] and does not
   * verify.
   */
  lemma MixedLengthsSkip(h: Hasher)
    requires Injective(h)
    ensures Valid(ThreeKeys()) && Recomputed(h, Built(h, ThreeKeys(), Query(None, None, 0)).0) == None
  {
    hide Skips, Recomputed, Built, ThreeKeys;
    ThreeKeysSkip();
    ValidIsProper(ThreeKeys());
    hide Valid, Proper;
    SkippingIsRefused(h, ThreeKeys(), Query(None, None, 0));
  }

  /** With [1] and [2] the proof asked for [1, 0] verifies but does not show that the key is missing. */
  lemma MixedLengthsHideAbsence(h: Hasher)
    requires Injective(h)
    ensures var t, proof := TwoKeys(), GetWithProof(h, TwoKeys(), [1, 0]).1;
            && Valid(t) && [1, 0] !in Keys(t)
            && Recomputed(h, proof) == Some((HashOf(h, t), false)) && !ProvesAbsence(h, proof, HashOf(h, t), [1, 0])
  {
    hide Recomputed, Built, TwoKeys, AbsenceProvable, HashOf, Honest, Leaves, Incr, Less, Position, Ordered,
         Shaped;
    TwoKeysStop();
    var t := TwoKeys();
    ValidIsProper(t);
    var p, k := BuildsHonestly(h, t, OneKey([1, 0]));
    HonestProofsVerify(h, t, p, k, GetWithProof(h, t, [1, 0]).1);
    AbsenceIsProved(h, t, [1, 0]);
  }

  lemma KeyIsWide(t: Tree, p: nat, width: nat)
    requires Ordered(t) && FixedWidth(t, width) && p < |Leaves(t)|
    ensures |Leaves(t)[p].key| == width
  {
    LeafIsEntry(t, p);
  }

  /**
   * The whole round: query a key with its proof, verify the proof against the root hash, and have it prove the answer.
   */
  method ProveAndVerify(h: Hasher, t: Tree, key: Key) returns (value: Option<Value>, ok: bool)
    requires Injective(h) && Proper(t)
    ensures value == if key in Contents(t) then Some(Contents(t)[key]) else None
    ensures ok <==> key in Contents(t) || AbsenceProvable(t, key)
  {
    hide Ordered, Built, Recomputed, Absent, Less, AbsenceProvable;
    GetWithProofIsComplete(h, t, key);
    IncrIsNext(key, key);
    var keyEnd := CpIncr(key);
    var r := GetRangeProof(h, Some(t), Query(Some(key), Some(keyEnd), 2));
    var (found, _, values) := r.value;
    value := if values != [] && found.value.leaves != []
        && found.value.leaves[0].key == key then Some(values[0]) else None;
    var proof := new Proof(h, found.value);
    ok := proof.Verify(HashOf(h, t));
    if value.Some? { ok := proof.VerifyItem(key, value.value); } else { ok := proof.VerifyAbsence(key); }
  }
}
