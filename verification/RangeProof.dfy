/** Building range proofs and recomputing the root hash from them. */
module RangeProof {
  import opened ByteOrder
  import opened Tree
  import opened NodeRead
  import opened Hashing
  import opened ProofPath
  import opened KeySuccessor
  import Traversal

  datatype RangeProof = RangeProof(leftPath: PathToLeaf, innerNodes: seq<PathToLeaf>, leaves: seq<ProofLeafNode>)

  // ---------------------------------------------------------------- recomputing the root hash

  /**
   * A result of COMPUTEHASH with what it leaves of the two queues, or an error, or the panic on a step with both
   * hashes.
   */
  datatype Outcome =
    | Wrong
    | Outcome(hash: Hash, treeEnd: bool, done: bool, leaves: seq<ProofLeafNode>, inners: seq<PathToLeaf>)

  /** COMPUTEHASH: the next leaf up the path, then the right siblings along the path, as long as there are leaves. */
  function ComputeHash(h: Hasher, path: PathToLeaf, rightmost: bool, leaves: seq<ProofLeafNode>,
                       inners: seq<PathToLeaf>): (r: Outcome)
    requires leaves != []
    ensures r.Outcome? ==> |r.leaves| < |leaves| && (!r.done ==> r.leaves != [])
    decreases |leaves|, 0
  {
    var hash := HashUp(h, path, LeafHash(h, leaves[0]));
    if !OneSided(path) then Wrong
    else if |leaves| == 1 then Outcome(hash, rightmost && IsRightmost(path), true, [], inners)
    else Climb(h, path, rightmost, hash, leaves[1..], inners)
  }

  /** The loop of COMPUTEHASH, from the leaf end of the path. */
  function Climb(h: Hasher, path: PathToLeaf, rightmost: bool, hash: Hash, leaves: seq<ProofLeafNode>,
                 inners: seq<PathToLeaf>): (r: Outcome)
    requires leaves != []
    ensures r.Outcome? ==> |r.leaves| <= |leaves| && (!r.done ==> r.leaves != [])
    decreases |leaves|, |path| + 1
  {
    if path == [] then Outcome(hash, false, false, leaves, inners)
    else
      var rpath, lpath := path[..|path| - 1], path[|path| - 1];
      if |lpath.right| == 0 then Climb(h, rpath, rightmost, hash, leaves, inners)
      else if inners == [] then Wrong
      else
        var r := ComputeHash(h, inners[0], rightmost && IsRightmost(rpath), leaves, inners[1..]);
        if r.Wrong? || r.hash != lpath.right then Wrong
        else if r.done then Outcome(hash, r.treeEnd, true, r.leaves, r.inners)
        else Climb(h, rpath, rightmost, hash, r.leaves, r.inners)
  }

  /** The closure COMPUTEHASH with the two queues it shares across its recursive calls. */
  class HashComputer {
    var leaves: seq<ProofLeafNode>
    var innersq: seq<PathToLeaf>

    constructor (leaves: seq<ProofLeafNode>, innersq: seq<PathToLeaf>)
      ensures this.leaves == leaves && this.innersq == innersq
    {
      this.leaves, this.innersq := leaves, innersq;
    }

    method Compute(h: Hasher, path: PathToLeaf, rightmost: bool)
        returns (ok: bool, hash: Hash, treeEnd: bool, done: bool)
      requires leaves != []
      modifies this
      ensures var r := ComputeHash(h, path, rightmost, old(leaves), old(innersq));
              && (ok <==> r.Outcome?)
              && (ok ==> r == Outcome(hash, treeEnd, done, leaves, innersq))
      decreases |leaves|
    {
      ghost var start := ComputeHash(h, path, rightmost, leaves, innersq);
      var nleaf := leaves[0];
      leaves := leaves[1..];
      var leafHash := LeafHash(h, nleaf);
      var root := ComputeRootHash(h, path, leafHash);
      treeEnd, done := false, false;
      if root.None? { return false, [], false, false; }
      hash := root.value;
      if |leaves| == 0 { return true, hash, rightmost && IsRightmost(path), true; }
      var rest := path;
      while |rest| > 0
        invariant leaves != [] && |leaves| < |old(leaves)|
        invariant start == Climb(h, rest, rightmost, hash, leaves, innersq)
        decreases |rest|
      {
        var rpath, lpath := rest[..|rest| - 1], rest[|rest| - 1];
        rest := rpath;
        if |lpath.right| > 0 {
          if |innersq| == 0 { return false, hash, false, false; }
          var inners := innersq[0];
          innersq := innersq[1..];
          var subOk, derivedRoot, subEnd, subDone := Compute(h, inners, rightmost && IsRightmost(rpath));
          if !subOk || derivedRoot != lpath.right { return false, hash, false, false; }
          if subDone { return true, hash, subEnd, true; }
        }
      }
      return true, hash, false, false;
    }
  }

  /** The loop over a path whose root end is `top`: the rest of the path first, then `top`. */
  lemma {:induction false} ClimbCons(h: Hasher, top: ProofInnerNode, rest: PathToLeaf, rightmost: bool, hash: Hash,
                                     leaves: seq<ProofLeafNode>, inners: seq<PathToLeaf>)
    requires leaves != []
    ensures var r := Climb(h, rest, rightmost && |top.right| == 0, hash, leaves, inners);
            Climb(h, [top] + rest, rightmost, hash, leaves, inners) ==
            if r.Wrong? || r.done then r else Climb(h, [top], rightmost, hash, r.leaves, r.inners)
    decreases |leaves|, |rest|
  {
    hide ComputeHash;
    if rest == [] {
      assert [top] + rest == [top];
    } else {
      var path := [top] + rest;
      var rpath, lpath := rest[..|rest| - 1], rest[|rest| - 1];
      assert path[..|path| - 1] == [top] + rpath && path[|path| - 1] == lpath;
      ConsEnds(top, rpath);
      if |lpath.right| == 0 {
        ClimbCons(h, top, rpath, rightmost, hash, leaves, inners);
      } else if inners != [] {
        var r := ComputeHash(h, inners[0], rightmost && IsRightmost([top] + rpath), leaves, inners[1..]);
        if r.Outcome? && !r.done { ClimbCons(h, top, rpath, rightmost, hash, r.leaves, r.inners); }
      }
    }
  }

  // ---------------------------------------------------------------- what an honest proof holds

  function Proofs(h: Hasher, leaves: seq<Tree>): seq<ProofLeafNode> {
    if leaves == [] then [] else [LeafProof(h, leaves[0])] + Proofs(h, leaves[1..])
  }

  /** For each leaf after position `p`: the path that leads to it, once, from where it leaves the paths before it. */
  function Inners(h: Hasher, t: Tree, p: nat): (paths: seq<PathToLeaf>)
    requires p < |Leaves(t)|
    ensures |paths| == |Leaves(t)| - p - 1
  {
    if t.Leaf? then []
    else if p < |Leaves(t.left)| then Inners(h, t.left, p) + [Path(h, t.right, 0)] + Inners(h, t.right, 0)
    else Inners(h, t.right, p - |Leaves(t.left)|)
  }

  lemma {:induction false} ProofsParts(h: Hasher, a: seq<Tree>, b: seq<Tree>)
    ensures Proofs(h, a + b) == Proofs(h, a) + Proofs(h, b) && |Proofs(h, a)| == |a|
  {
    if a == [] {
      assert a + b == b;
    } else {
      ProofsParts(h, a[1..], b);
      assert (a + b)[0] == a[0] && (a + b)[1..] == a[1..] + b;
      Traversal.Associates([LeafProof(h, a[0])], Proofs(h, a[1..]), Proofs(h, b));
    }
  }

  /**
   * The queues COMPUTEHASH is to find: `k` consecutive leaves of `t` from position `p`, then what belongs to others.
   */
  ghost predicate Queued(h: Hasher, t: Tree, p: nat, k: nat, leaves: seq<ProofLeafNode>, inners: seq<PathToLeaf>,
                         more: seq<ProofLeafNode>, rest: seq<PathToLeaf>) {
    && 1 <= k && p + k <= |Leaves(t)| && (p + k < |Leaves(t)| ==> more == [])
    && leaves == Proofs(h, Leaves(t)[p + 1..p + k]) + more
    && inners == Inners(h, t, p)[..k - 1] + rest
  }

  /** The outcome for a subtree: its hash, and the queues with its own part taken off. */
  ghost function Expected(t: Tree, p: nat, k: nat, rightmost: bool, hash: Hash, more: seq<ProofLeafNode>,
                          rest: seq<PathToLeaf>): Outcome {
    Outcome(hash, rightmost && p + k == |Leaves(t)| && more == [], more == [], more, rest)
  }

  lemma {:induction false} ClimbComputes(h: Hasher, t: Tree, p: nat, k: nat, leaves: seq<ProofLeafNode>,
                                         inners: seq<PathToLeaf>, more: seq<ProofLeafNode>, rest: seq<PathToLeaf>,
                                         rightmost: bool, hash: Hash)
    requires Injective(h) && Ordered(t) && Queued(h, t, p, k, leaves, inners, more, rest) && leaves != []
    ensures Climb(h, Path(h, t, p), rightmost, hash, leaves, inners) == Expected(t, p, k, rightmost, hash, more, rest)
    decreases t, 2
  {
    if t.Leaf? {
      assert Leaves(t)[p + 1..p + k] == [];
    } else if p >= |Leaves(t.left)| {
      ClimbOnRight(h, t, p, k, leaves, inners, more, rest, rightmost, hash);
    } else {
      ClimbOnLeft(h, t, p, k, leaves, inners, more, rest, rightmost, hash);
    }
  }

  lemma ClimbOnRight(h: Hasher, t: Tree, p: nat, k: nat, leaves: seq<ProofLeafNode>, inners: seq<PathToLeaf>,
                     more: seq<ProofLeafNode>, rest: seq<PathToLeaf>, rightmost: bool, hash: Hash)
    requires Injective(h) && t.Inner? && Ordered(t) && Queued(h, t, p, k, leaves, inners, more, rest) && leaves != []
    requires p >= |Leaves(t.left)|
    ensures Climb(h, Path(h, t, p), rightmost, hash, leaves, inners) == Expected(t, p, k, rightmost, hash, more, rest)
    decreases t, 1
  {
    hide Climb, Proofs, HashOf, IsRightmost;
    var nl, top := |Leaves(t.left)|, StepDown(h, t, false);
    SliceOnRight(Leaves(t.left), Leaves(t.right), p + 1, p + k);
    ClimbCons(h, top, Path(h, t.right, p - nl), rightmost, hash, leaves, inners);
    ClimbComputes(h, t.right, p - nl, k, leaves, inners, more, rest, rightmost, hash);
    if more != [] { ClimbNothing(h, top, rightmost, hash, more, rest); }
  }

  lemma SliceOnRight<T>(a: seq<T>, b: seq<T>, i: nat, j: nat)
    requires |a| <= i <= j <= |a| + |b|
    ensures (a + b)[i..j] == b[i - |a|..j - |a|]
  {
  }

  /** A turn to the right has nothing to prove on its right. */
  lemma ClimbNothing(h: Hasher, top: ProofInnerNode, rightmost: bool, hash: Hash, leaves: seq<ProofLeafNode>,
                     inners: seq<PathToLeaf>)
    requires |top.right| == 0 && leaves != []
    ensures Climb(h, [top], rightmost, hash, leaves, inners) == Outcome(hash, false, false, leaves, inners)
  {
    assert [top][..0] == [];
  }

  lemma ClimbOnLeft(h: Hasher, t: Tree, p: nat, k: nat, leaves: seq<ProofLeafNode>, inners: seq<PathToLeaf>,
                    more: seq<ProofLeafNode>, rest: seq<PathToLeaf>, rightmost: bool, hash: Hash)
    requires Injective(h) && t.Inner? && Ordered(t) && Queued(h, t, p, k, leaves, inners, more, rest) && leaves != []
    requires p < |Leaves(t.left)|
    ensures Climb(h, Path(h, t, p), rightmost, hash, leaves, inners) == Expected(t, p, k, rightmost, hash, more, rest)
    decreases t, 1
  {
    hide Climb, Proofs, HashOf, IsRightmost;
    var nl, top := |Leaves(t.left)|, StepDown(h, t, true);
    HashIsNotEmpty(h, t.right);
    ClimbCons(h, top, Path(h, t.left, p), rightmost, hash, leaves, inners);
    if p + k <= nl {
      StaysOnLeft(h, t, p, k, leaves, inners, more, rest);
      ClimbComputes(h, t.left, p, k, leaves, inners, [], rest, false, hash);
    } else {
      var kr := k - (nl - p);
      var moreLeft := Proofs(h, Leaves(t.right)[..kr]) + more;
      var restLeft := [Path(h, t.right, 0)] + Inners(h, t.right, 0)[..kr - 1] + rest;
      SplitQueues(h, t, p, k, leaves, inners, more, rest);
      ClimbComputes(h, t.left, p, nl - p, leaves, inners, moreLeft, restLeft, false, hash);
      SubtreeComputes(h, t.right, 0, kr, moreLeft, restLeft[1..], more, rest, rightmost);
      ClimbTop(h, top, rightmost, hash, moreLeft, restLeft,
               Expected(t.right, 0, kr, rightmost, HashOf(h, t.right), more, rest));
    }
  }

  lemma SliceOnLeft<T>(a: seq<T>, b: seq<T>, i: nat, j: nat)
    requires i <= j <= |a|
    ensures (a + b)[i..j] == a[i..j] && (a + b)[..j] == a[..j]
  {
  }

  /** Leaves that end within the left subtree. */
  lemma StaysOnLeft(h: Hasher, t: Tree, p: nat, k: nat, leaves: seq<ProofLeafNode>, inners: seq<PathToLeaf>,
                    more: seq<ProofLeafNode>, rest: seq<PathToLeaf>)
    requires t.Inner? && Queued(h, t, p, k, leaves, inners, more, rest) && p + k <= |Leaves(t.left)|
    ensures more == [] && Queued(h, t.left, p, k, leaves, inners, [], rest)
  {
    var il, ir, path := Inners(h, t.left, p), Inners(h, t.right, 0), Path(h, t.right, 0);
    assert Leaves(t) == Leaves(t.left) + Leaves(t.right) && Inners(h, t, p) == il + [path] + ir;
    hide Proofs, Path, Leaves, Inners;
    SliceOnLeft(Leaves(t.left), Leaves(t.right), p + 1, p + k);
    Traversal.Associates(il, [path], ir);
    SliceOnLeft(il, [path] + ir, 0, k - 1);
  }

  /** One step over a turn to the left: the right sibling is computed and compared. */
  lemma ClimbTop(h: Hasher, top: ProofInnerNode, rightmost: bool, hash: Hash, leaves: seq<ProofLeafNode>,
                 inners: seq<PathToLeaf>, r: Outcome)
    requires |top.right| > 0 && leaves != [] && inners != []
    requires r == ComputeHash(h, inners[0], rightmost, leaves, inners[1..]) && r.Outcome? && r.hash == top.right
    ensures Climb(h, [top], rightmost, hash, leaves, inners) ==
            Outcome(hash, r.done && r.treeEnd, r.done, r.leaves, r.inners)
  {
    hide ComputeHash;
    assert [top][..0] == [];
  }

  /** Leaves that reach into the right subtree: first those of the left one, then those of the right one. */
  lemma SplitQueues(h: Hasher, t: Tree, p: nat, k: nat, leaves: seq<ProofLeafNode>, inners: seq<PathToLeaf>,
                    more: seq<ProofLeafNode>, rest: seq<PathToLeaf>)
    requires t.Inner? && Queued(h, t, p, k, leaves, inners, more, rest) && p < |Leaves(t.left)| < p + k
    ensures var nl := |Leaves(t.left)|;
            var kr := k - (nl - p);
            var moreLeft := Proofs(h, Leaves(t.right)[..kr]) + more;
            var restLeft := [Path(h, t.right, 0)] + Inners(h, t.right, 0)[..kr - 1] + rest;
            && moreLeft != [] && Queued(h, t.left, p, nl - p, leaves, inners, moreLeft, restLeft)
            && restLeft[0] == Path(h, t.right, 0)
            && restLeft[1..] == Inners(h, t.right, 0)[..kr - 1] + rest
  {
    hide Proofs, Path, Leaves, Inners;
    var nl := |Leaves(t.left)|;
    var kr := k - (nl - p);
    LeavesAcross(t, p, k);
    InnersAcross(h, t, p, k);
    var a, b := Leaves(t.left)[p + 1..nl], Leaves(t.right)[..kr];
    ProofsParts(h, a, b);
    ProofsParts(h, b, []);
    Traversal.Associates(Proofs(h, a), Proofs(h, b), more);
    var il, own := Inners(h, t.left, p), [Path(h, t.right, 0)] + Inners(h, t.right, 0)[..kr - 1];
    assert il[..nl - p - 1] == il;
    Traversal.Associates(il, own, rest);
    Traversal.Associates([Path(h, t.right, 0)], Inners(h, t.right, 0)[..kr - 1], rest);
  }

  lemma SliceAcross<T>(a: seq<T>, b: seq<T>, i: nat, j: nat)
    requires i <= |a| <= j <= |a| + |b|
    ensures (a + b)[i..j] == a[i..|a|] + b[..j - |a|]
  {
  }

  /** The leaves of a range that reaches into the right subtree. */
  lemma LeavesAcross(t: Tree, p: nat, k: nat)
    requires t.Inner? && p < |Leaves(t.left)| < p + k <= |Leaves(t)|
    ensures |Leaves(t)| == |Leaves(t.left)| + |Leaves(t.right)|
    ensures var nl := |Leaves(t.left)|;
            Leaves(t)[p + 1..p + k] == Leaves(t.left)[p + 1..nl] + Leaves(t.right)[..p + k - nl]
  {
    SliceAcross(Leaves(t.left), Leaves(t.right), p + 1, p + k);
  }

  /** Their inner paths: those of the left subtree, then the right subtree's own and the first of its inner ones. */
  lemma InnersAcross(h: Hasher, t: Tree, p: nat, k: nat)
    requires t.Inner? && p < |Leaves(t.left)| < p + k <= |Leaves(t)|
    ensures var kr := p + k - |Leaves(t.left)|;
            && 1 <= kr <= |Leaves(t.right)|
            && Inners(h, t, p)[..k - 1] ==
               Inners(h, t.left, p) + ([Path(h, t.right, 0)] + Inners(h, t.right, 0)[..kr - 1])
  {
    var il, ir, path := Inners(h, t.left, p), Inners(h, t.right, 0), [Path(h, t.right, 0)];
    assert |Leaves(t)| == |Leaves(t.left)| + |Leaves(t.right)| && Inners(h, t, p) == il + path + ir;
    hide Path, Leaves, Inners;
    Traversal.Associates(il, path, ir);
    SliceAcross(il, path + ir, 0, k - 1);
    SliceAcross(path, ir, 0, k - 1 - |il|);
    assert path[0..1] == path && il[0..|il|] == il && (il + (path + ir))[0..k - 1] == (il + (path + ir))[..k - 1];
    assert (path + ir)[0..k - 1 - |il|] == (path + ir)[..k - 1 - |il|];
  }

  /** COMPUTEHASH on an honest path and queues: the hash of the subtree, and only its own part of the queues is used. */
  lemma {:induction false} SubtreeComputes(h: Hasher, t: Tree, p: nat, k: nat, leaves: seq<ProofLeafNode>,
                                           inners: seq<PathToLeaf>, more: seq<ProofLeafNode>, rest: seq<PathToLeaf>,
                                           rightmost: bool)
    requires Injective(h) && Ordered(t) && 1 <= k && p + k <= |Leaves(t)| && (p + k < |Leaves(t)| ==> more == [])
    requires leaves == Proofs(h, Leaves(t)[p..p + k]) + more && leaves != []
             && inners == Inners(h, t, p)[..k - 1] + rest
    ensures ComputeHash(h, Path(h, t, p), rightmost, leaves, inners) ==
              Expected(t, p, k, rightmost, HashOf(h, t), more, rest)
    decreases t, 3
  {
    hide Climb, IsRightmost, OneSided, HashOf, Path, Inners, Proofs, HashUp, Ordered, LeafHash, LeafProof;
    PathHash(h, t, p);
    PathEnds(h, t, p);
    PathIsOneSided(h, t, p);
    OwnLeaves(h, t, p, k);
    if |leaves| > 1 {
      assert leaves[1..] == Proofs(h, Leaves(t)[p + 1..p + k]) + more;
      ClimbComputes(h, t, p, k, leaves[1..], inners, more, rest, rightmost, HashOf(h, t));
    } else {
      assert k == 1 && more == [];
      assert inners == rest;
    }
  }

  lemma OwnLeaves(h: Hasher, t: Tree, p: nat, k: nat)
    requires 1 <= k && p + k <= |Leaves(t)|
    ensures var own := Proofs(h, Leaves(t)[p..p + k]);
            |own| == k && own[0] == LeafProof(h, Leaves(t)[p]) && own[1..] == Proofs(h, Leaves(t)[p + 1..p + k])
  {
    var own := Leaves(t)[p..p + k];
    assert own[0] == Leaves(t)[p] && own[1..] == Leaves(t)[p + 1..p + k];
    ProofsParts(h, own, []);
  }

  // ---------------------------------------------------------------- what the builder's traversal visits

  /** All nodes in pre-order. */
  function Pre(t: Tree): seq<Tree> {
    if t.Leaf? then [t] else [t] + Pre(t.left) + Pre(t.right)
  }

  /** The nodes that come after the leaf at position `p` in pre-order. */
  function After(t: Tree, p: nat): seq<Tree>
    requires p < |Leaves(t)|
  {
    if t.Leaf? then []
    else if p < |Leaves(t.left)| then After(t.left, p) + Pre(t.right)
    else After(t.right, p - |Leaves(t.left)|)
  }

  /** The inner nodes above the leaf at position `p`. */
  function PathNodes(t: Tree, p: nat): seq<Tree>
    requires p < |Leaves(t)|
  {
    if t.Leaf? then []
    else if p < |Leaves(t.left)| then [t] + PathNodes(t.left, p)
    else [t] + PathNodes(t.right, p - |Leaves(t.left)|)
  }

  /** `after` separates the leaves up to position `p` from those behind it. */
  ghost predicate Separates(t: Tree, p: nat, after: Key) {
    && p < |Leaves(t)|
    && (forall i :: 0 <= i <= p ==> Less(Leaves(t)[i].key, after))
    && (forall i :: p < i < |Leaves(t)| ==> AtMost(after, Leaves(t)[i].key))
  }

  function From(after: Key): Traversal.Range {
    Traversal.Range(Some(after), None, true, false, false)
  }

  /**
   * How many nodes of the path the traversal shows: it leaves the path where the next leaf starts the right subtree.
   */
  function Shown(t: Tree, p: nat, after: Key): nat
    requires p < |Leaves(t)|
  {
    if t.Leaf? then 0
    else if p >= |Leaves(t.left)| then 1 + Shown(t.right, p - |Leaves(t.left)|, after)
    else if Less(after, t.key) then 1 + Shown(t.left, p, after)
    else 1
  }

  lemma SeparatesOnRight(t: Tree, p: nat, after: Key)
    requires t.Inner? && Ordered(t) && Separates(t, p, after) && p >= |Leaves(t.left)|
    ensures Separates(t.right, p - |Leaves(t.left)|, after) && !Less(after, t.key)
  {
    var nl, left, right := |Leaves(t.left)|, Leaves(t.left), Leaves(t.right);
    assert Leaves(t) == left + right;
    hide Ordered, Less, Leaves;
    SeparatesTail(left, right, p, after);
    RightIsAbove(t, p - nl);
    Between(t.key, right[p - nl].key, after);
  }

  lemma SeparatesTail(a: seq<Tree>, b: seq<Tree>, p: nat, after: Key)
    requires |a| <= p < |a| + |b|
    requires forall i :: 0 <= i <= p ==> Less((a + b)[i].key, after)
    requires forall i :: p < i < |a| + |b| ==> AtMost(after, (a + b)[i].key)
    ensures forall i :: 0 <= i <= p - |a| ==> Less(b[i].key, after)
    ensures forall i :: p - |a| < i < |b| ==> AtMost(after, b[i].key)
  {
    hide Less;
    forall i | 0 <= i < |b| ensures (a + b)[|a| + i] == b[i] {}
  }

  lemma RightIsAbove(t: Tree, i: nat)
    requires t.Inner? && Ordered(t) && i < |Leaves(t.right)|
    ensures AtMost(t.key, Leaves(t.right)[i].key) && Leaves(t.right)[0].key == t.key
  {
    LeavesAreContents(t.right);
    assert Leaves(t.right)[i] in Leaves(t.right);
  }

  lemma LeftIsBelow(t: Tree, i: nat)
    requires t.Inner? && Ordered(t) && i < |Leaves(t.left)|
    ensures Less(Leaves(t.left)[i].key, t.key)
  {
    LeavesAreContents(t.left);
    assert Leaves(t.left)[i] in Leaves(t.left);
  }

  lemma SeparatesOnLeft(t: Tree, p: nat, after: Key)
    requires t.Inner? && Ordered(t) && Separates(t, p, after) && p < |Leaves(t.left)|
    ensures Separates(t.left, p, after) && AtMost(after, Leaves(t.right)[0].key)
    ensures !Less(after, t.key) ==> p == |Leaves(t.left)| - 1
  {
    hide Ordered, Less;
    var nl := |Leaves(t.left)|;
    forall i | 0 <= i < nl ensures Leaves(t.left)[i] == Leaves(t)[i] { LeavesBySide(t, i); }
    LeavesBySide(t, nl);
    if p + 1 < nl {
      LeftIsBelow(t, p + 1);
      Between(after, Leaves(t.left)[p + 1].key, t.key);
    }
  }

  lemma Between(a: Key, b: Key, c: Key)
    requires AtMost(a, b) && Less(b, c)
    ensures Less(a, c) && !Less(c, a)
  {
    LessTotal(a, b);
    if Less(a, b) { LessTransitive(a, b, c); }
    LessAsymmetric(a, c);
  }

  /** A subtree with no leaf before the start is visited whole. */
  lemma {:induction false} VisitsAll(t: Tree, after: Key)
    requires Ordered(t) && AtMost(after, Leaves(t)[0].key)
    ensures Traversal.Visit(t, From(after)) == Pre(t)
  {
    if t.Inner? {
      var r := From(after);
      LeftIsBelow(t, 0);
      Between(after, Leaves(t.left)[0].key, t.key);
      RightIsAbove(t, 0);
      VisitsAll(t.left, after);
      assert AtMost(after, t.key);
      VisitsAll(t.right, after);
      assert Traversal.Visit(t, r) == [t] + (Traversal.Visit(t.left, r) + Traversal.Visit(t.right, r));
      Traversal.Associates([t], Pre(t.left), Pre(t.right));
    }
  }

  lemma {:induction false} NothingAfterLast(t: Tree)
    ensures After(t, |Leaves(t)| - 1) == []
  {
    if t.Inner? { NothingAfterLast(t.right); }
  }

  lemma {:induction false} PathNodesLength(h: Hasher, t: Tree, p: nat, after: Key)
    requires p < |Leaves(t)|
    ensures |PathNodes(t, p)| == |Path(h, t, p)| >= Shown(t, p, after)
  {
    if t.Inner? {
      var nl := |Leaves(t.left)|;
      if p < nl { PathNodesLength(h, t.left, p, after); } else { PathNodesLength(h, t.right, p - nl, after); }
    }
  }

  lemma VisitsInner(t: Tree, after: Key)
    requires t.Inner?
    ensures Traversal.Visit(t, From(after)) ==
            var left := if Less(after, t.key) then Traversal.Visit(t.left, From(after)) else [];
            [t] + (left + Traversal.Visit(t.right, From(after)))
  {
  }

  /**
   * From just behind a leaf the traversal shows the nodes above it, as far as it follows them, then all that come
   * after.
   */
  lemma {:induction false} VisitsAfter(h: Hasher, t: Tree, p: nat, after: Key)
    requires Ordered(t) && p < |Leaves(t)| && Separates(t, p, after) && Shown(t, p, after) <= |PathNodes(t, p)|
    ensures Traversal.Visit(t, From(after)) == PathNodes(t, p)[..Shown(t, p, after)] + After(t, p)
  {
    if t.Leaf? {
      assert Less(Leaves(t)[0].key, after);
    } else {
      hide Ordered, Traversal.Visit, Separates, Less;
      OrderedSides(t);
      if p >= |Leaves(t.left)| {
        var q := p - |Leaves(t.left)|;
        SeparatesOnRight(t, p, after);
        PathNodesLength(h, t.right, q, after);
        VisitsAfter(h, t.right, q, after);
        VisitsOnRight(t, p, after);
      } else {
        SeparatesOnLeft(t, p, after);
        VisitsAll(t.right, after);
        PathNodesLength(h, t.left, p, after);
        if Less(after, t.key) { VisitsAfter(h, t.left, p, after); } else { NothingAfterLast(t.left); }
        VisitsOnLeft(t, p, after);
      }
    }
  }

  lemma VisitsOnRight(t: Tree, p: nat, after: Key)
    requires t.Inner? && |Leaves(t.left)| <= p < |Leaves(t)| && !Less(after, t.key)
    requires var q := p - |Leaves(t.left)|;
             && Shown(t.right, q, after) <= |PathNodes(t.right, q)|
             && Traversal.Visit(t.right, From(after)) ==
                PathNodes(t.right, q)[..Shown(t.right, q, after)] + After(t.right, q)
    ensures Shown(t, p, after) <= |PathNodes(t, p)|
    ensures Traversal.Visit(t, From(after)) == PathNodes(t, p)[..Shown(t, p, after)] + After(t, p)
  {
    hide Traversal.Visit, Less;
    var q := p - |Leaves(t.left)|;
    VisitsInner(t, after);
    FirstOf(t, PathNodes(t.right, q), Shown(t.right, q, after), After(t.right, q));
  }

  lemma VisitsOnLeft(t: Tree, p: nat, after: Key)
    requires t.Inner? && p < |Leaves(t.left)| && Shown(t.left, p, after) <= |PathNodes(t.left, p)|
    requires Traversal.Visit(t.right, From(after)) == Pre(t.right)
    requires if Less(after, t.key) then Traversal.Visit(t.left, From(after)) ==
               PathNodes(t.left, p)[..Shown(t.left, p, after)] + After(t.left, p)
             else After(t.left, p) == []
    ensures Shown(t, p, after) <= |PathNodes(t, p)|
    ensures Traversal.Visit(t, From(after)) == PathNodes(t, p)[..Shown(t, p, after)] + After(t, p)
  {
    hide Traversal.Visit, Less, Pre;
    VisitsInner(t, after);
    var n := if Less(after, t.key) then Shown(t.left, p, after) else 0;
    FirstOf(t, PathNodes(t.left, p), n, After(t.left, p) + Pre(t.right));
    Traversal.Associates(PathNodes(t.left, p)[..n], After(t.left, p), Pre(t.right));
  }

  lemma FirstOf(t: Tree, path: seq<Tree>, n: nat, after: seq<Tree>)
    requires n <= |path|
    ensures ([t] + path)[..1 + n] + after == [t] + (path[..n] + after)
    ensures path[..0] + after == after && [] + after == after
  {
  }

  lemma OrderedSides(t: Tree)
    requires t.Inner? && Ordered(t)
    ensures Ordered(t.left) && Ordered(t.right)
  {
  }

  // ---------------------------------------------------------------- staying on and leaving the left path

  /** The builder's test whether a visited node is the next one of the left path. */
  predicate OnPath(h: Hasher, pin: ProofInnerNode, node: Tree) {
    && pin.height == Height(node)
    && (pin.left != [] ==> node.Inner? && pin.left == HashOf(h, node.left))
    && (pin.right != [] ==> node.Inner? && pin.right == HashOf(h, node.right))
  }

  lemma {:induction false} PathNodesAreOnPath(h: Hasher, t: Tree, p: nat, i: nat)
    requires p < |Leaves(t)| && i < |PathNodes(t, p)| == |Path(h, t, p)|
    ensures OnPath(h, Path(h, t, p)[i], PathNodes(t, p)[i]) && PathNodes(t, p)[i].Inner?
  {
    var nl := if t.Leaf? then 0 else |Leaves(t.left)|;
    if i > 0 {
      if p < nl {
        PathNodesLength(h, t.left, p, []);
        PathNodesAreOnPath(h, t.left, p, i - 1);
      } else {
        PathNodesLength(h, t.right, p - nl, []);
        PathNodesAreOnPath(h, t.right, p - nl, i - 1);
      }
    }
  }

  lemma PreStarts(t: Tree)
    ensures |Pre(t)| > 0 && Pre(t)[0] == t
  {
  }

  lemma {:induction false} EarlyEndHasMore(h: Hasher, t: Tree, p: nat, after: Key)
    requires p < |Leaves(t)| && Shown(t, p, after) < |Path(h, t, p)|
    ensures After(t, p) != []
  {
    var nl := |Leaves(t.left)|;
    PreStarts(t.right);
    if p >= nl {
      EarlyEndHasMore(h, t.right, p - nl, after);
    } else if Less(after, t.key) {
      EarlyEndHasMore(h, t.left, p, after);
    }
  }

  /** The right sibling does not pass for the left child. */
  lemma SiblingIsNotOnPath(h: Hasher, t: Tree)
    requires Injective(h) && t.Inner? && Proper(t) && t.left.Inner?
    ensures !OnPath(h, StepDown(h, t.left, false), t.right)
  {
    HashIsNotEmpty(h, t.left.left);
    SidesApart(t);
    assert Proper(t.left) && Proper(t.right);
    if t.right.Inner? && HashOf(h, t.left.left) == HashOf(h, t.right.left) {
      HashIdentifiesTree(h, t.left.left, t.right.left);
      MinKeyIsLeast(t.left.left);
    }
  }

  lemma LastTurnsRight(h: Hasher, t: Tree)
    requires t.Inner?
    ensures Path(h, t, |Leaves(t)| - 1) != [] && Path(h, t, |Leaves(t)| - 1)[0] == StepDown(h, t, false)
  {
  }

  /** Where the traversal leaves the path early, the next node it shows fails the test. */
  lemma {:induction false} LeavesThePath(h: Hasher, t: Tree, p: nat, after: Key)
    requires Injective(h) && Proper(t) && p < |Leaves(t)| && Separates(t, p, after)
             && Shown(t, p, after) < |Path(h, t, p)|
    ensures After(t, p) != [] && !OnPath(h, Path(h, t, p)[Shown(t, p, after)], After(t, p)[0])
  {
    hide Ordered, OnPath, Separates;
    var nl := |Leaves(t.left)|;
    OrderedSides(t);
    EarlyEndHasMore(h, t, p, after);
    if p >= nl {
      SeparatesOnRight(t, p, after);
      LeavesThePath(h, t.right, p - nl, after);
    } else {
      SeparatesOnLeft(t, p, after);
      if Less(after, t.key) {
        LeavesThePath(h, t.left, p, after);
      } else {
        NothingAfterLast(t.left);
        PreStarts(t.right);
        assert t.left.Inner?;
        LastTurnsRight(h, t.left);
        SiblingIsNotOnPath(h, t);
      }
    }
  }

  // ---------------------------------------------------------------- collecting paths

  /** The inner nodes before each leaf of a pre-order listing, as path steps to the left. */
  function Collect(h: Hasher, nodes: seq<Tree>, current: PathToLeaf): seq<PathToLeaf> {
    if nodes == [] then []
    else if nodes[0].Leaf? then [current] + Collect(h, nodes[1..], [])
    else Collect(h, nodes[1..], current + [StepDown(h, nodes[0], true)])
  }

  lemma CollectCons(h: Hasher, t: Tree, tail: seq<Tree>, current: PathToLeaf)
    ensures Collect(h, [t] + tail, current) ==
            if t.Leaf? then [current] + Collect(h, tail, []) else Collect(h, tail, current + [StepDown(h, t, true)])
  {
    assert ([t] + tail)[1..] == tail;
  }

  lemma Regroup<T>(first: seq<T>, a: seq<T>, b: seq<T>, c: seq<T>, rest: seq<T>)
    ensures first + a + (b + c + rest) == first + (a + b + c) + rest
    ensures a + (b + c + rest) == (a + b + c) + rest
  {
  }

  lemma {:induction false} CollectPre(h: Hasher, t: Tree, tail: seq<Tree>, current: PathToLeaf)
    ensures Collect(h, Pre(t) + tail, current) == [current + Path(h, t, 0)] + Inners(h, t, 0) + Collect(h, tail, [])
  {
    hide Collect, StepDown;
    CollectCons(h, t, tail, current);
    if t.Leaf? {
      assert current + Path(h, t, 0) == current;
      assert [current] + [] + Collect(h, tail, []) == [current] + Collect(h, tail, []);
    } else {
      var step := [StepDown(h, t, true)];
      var l, r, rest := Pre(t.left), Pre(t.right), Collect(h, tail, []);
      assert Pre(t) + tail == [t] + (l + (r + tail));
      CollectCons(h, t, l + (r + tail), current);
      CollectPre(h, t.left, r + tail, current + step);
      CollectPre(h, t.right, tail, []);
      var a, b, path := Inners(h, t.left, 0), Inners(h, t.right, 0), Path(h, t.right, 0);
      assert [] + path == path;
      assert (current + step) + Path(h, t.left, 0) == current + (step + Path(h, t.left, 0));
      Regroup([(current + step) + Path(h, t.left, 0)], a, [path], b, rest);
    }
  }

  lemma {:induction false} CollectAfter(h: Hasher, t: Tree, p: nat, tail: seq<Tree>)
    requires p < |Leaves(t)|
    ensures Collect(h, After(t, p) + tail, []) == Inners(h, t, p) + Collect(h, tail, [])
  {
    hide Collect;
    if t.Leaf? {
      assert [] + tail == tail;
    } else if p < |Leaves(t.left)| {
      assert After(t, p) + tail == After(t.left, p) + (Pre(t.right) + tail);
      CollectAfter(h, t.left, p, Pre(t.right) + tail);
      CollectPre(h, t.right, tail, []);
      var path, rest := Path(h, t.right, 0), Collect(h, tail, []);
      assert [] + path == path;
      Regroup([], Inners(h, t.left, p), [path], Inners(h, t.right, 0), rest);
    } else {
      CollectAfter(h, t.right, p - |Leaves(t.left)|, tail);
    }
  }

  lemma LeavesOfOne(t: Tree)
    ensures Traversal.LeavesOf([t]) == if t.Leaf? then [t] else []
  {
    assert [t][1..] == [];
  }

  lemma {:induction false} LeavesOfPre(t: Tree)
    ensures Traversal.LeavesOf(Pre(t)) == Leaves(t)
  {
    hide Traversal.LeavesOf;
    LeavesOfOne(t);
    if t.Inner? {
      LeavesOfPre(t.left);
      LeavesOfPre(t.right);
      Traversal.LeavesOfParts([t] + Pre(t.left), Pre(t.right));
      Traversal.LeavesOfParts([t], Pre(t.left));
    }
  }

  lemma {:induction false} LeavesOfAfter(t: Tree, p: nat)
    requires p < |Leaves(t)|
    ensures Traversal.LeavesOf(After(t, p)) == Leaves(t)[p + 1..]
  {
    if t.Inner? {
      var nl := |Leaves(t.left)|;
      if p < nl {
        hide Traversal.LeavesOf;
        LeavesOfAfter(t.left, p);
        LeavesOfPre(t.right);
        Traversal.LeavesOfParts(After(t.left, p), Pre(t.right));
        assert Leaves(t)[p + 1..] == Leaves(t.left)[p + 1..] + Leaves(t.right);
      } else {
        LeavesOfAfter(t.right, p - nl);
        assert Leaves(t)[p + 1..] == Leaves(t.right)[p - nl + 1..];
      }
    }
  }
}
