/** Which leaves a proof can show under a root hash, whoever built it. */
module ProofReach {
  import opened ByteOrder
  import opened Tree
  import opened NodeRead
  import opened Hashing
  import opened ProofPath
  import opened RangeProof
  import opened ProofQuery
  import Traversal

  ghost predicate AllPlain(inners: seq<PathToLeaf>) {
    forall i :: 0 <= i < |inners| ==> Plain(inners[i])
  }

  /** No step of the proof is encoded like a leaf. */
  ghost predicate PlainProof(proof: RangeProof) {
    Plain(proof.leftPath) && AllPlain(proof.innerNodes)
  }

  /** Verify accepts the proof for the root hash. */
  ghost predicate Verifies(h: Hasher, proof: RangeProof, root: Hash) {
    Recomputed(h, proof).Some? && Recomputed(h, proof).value.0 == root
  }

  // ---------------------------------------------------------------- every leaf hashes up to the root

  lemma {:induction false} HashUpParts(h: Hasher, a: PathToLeaf, b: PathToLeaf, hash: Hash)
    ensures HashUp(h, a + b, hash) == HashUp(h, a, HashUp(h, b, hash))
    decreases a
  {
    if a == [] {
      assert a + b == b;
    } else {
      HashUpParts(h, a[1..], b, hash);
      assert (a + b)[0] == a[0] && (a + b)[1..] == a[1..] + b;
    }
  }

  ghost predicate EndsWith(path: PathToLeaf, own: PathToLeaf) {
    |own| <= |path| && path[|path| - |own|..] == own
  }

  /** The leaf hashes up to `hash` along the path. */
  ghost predicate Leads(h: Hasher, path: PathToLeaf, leaf: ProofLeafNode, hash: Hash) {
    OneSided(path) && HashUp(h, path, LeafHash(h, leaf)) == hash
  }

  /** The leaf hashes up to `hash` along its own path and then some more, plain steps if `plain`. */
  ghost predicate Reaches(h: Hasher, own: PathToLeaf, leaf: ProofLeafNode, hash: Hash, plain: bool) {
    exists path :: Leads(h, path, leaf, hash) && EndsWith(path, own) && (plain ==> Plain(path))
  }

  /** What was taken from the front of the queues: leaves that reach the hash, each with its path. */
  ghost predicate Took(h: Hasher, hash: Hash, plain: bool, leaves: seq<ProofLeafNode>, inners: seq<PathToLeaf>,
                       more: seq<ProofLeafNode>, rest: seq<PathToLeaf>) {
    var n := |leaves| - |more|;
    && 0 <= n <= |inners| && leaves[n..] == more && inners[n..] == rest
    && forall i :: 0 <= i < n ==> Reaches(h, inners[i], leaves[i], hash, plain)
  }

  lemma TookTwice(h: Hasher, hash: Hash, plain: bool, leaves: seq<ProofLeafNode>, inners: seq<PathToLeaf>,
                  more: seq<ProofLeafNode>, rest: seq<PathToLeaf>, more': seq<ProofLeafNode>, rest': seq<PathToLeaf>)
    requires Took(h, hash, plain, leaves, inners, more, rest) && Took(h, hash, plain, more, rest, more', rest')
    ensures Took(h, hash, plain, leaves, inners, more', rest')
  {
    hide Reaches;
    var m, n := |leaves| - |more|, |leaves| - |more'|;
    forall i | m <= i < n ensures Reaches(h, inners[i], leaves[i], hash, plain) {
      assert inners[i] == rest[i - m] && leaves[i] == more[i - m];
    }
    TakeMore(leaves, m, n - m);
    TakeMore(inners, m, n - m);
  }

  /** What is left of a queue after `n` more, and what was taken by then. */
  lemma TakeMore<T>(s: seq<T>, m: nat, n: nat)
    requires m + n <= |s|
    ensures s[m..][n..] == s[m + n..] && s[..m + n] == s[..m] + s[m..][..n]
  {
  }

  /** A right sibling seen from above: the step with the hash of the left child in place of its own. */
  function Turned(pin: ProofInnerNode, child: Hash): ProofInnerNode {
    pin.(left := child, right := [])
  }

  /** What reaches the right sibling of a step reaches what the step hashes up to. */
  lemma ReachesAbove(h: Hasher, top: PathToLeaf, pin: ProofInnerNode, child: Hash, hash: Hash, own: PathToLeaf,
                     leaf: ProofLeafNode, plain: bool)
    requires child != [] && OneSided(top) && |pin.left| == 0 && hash == HashUp(h, top, InnerHash(h, pin, child))
    requires Reaches(h, own, leaf, pin.right, plain) && (plain ==> Plain(top) && !LeafLike(pin))
    ensures Reaches(h, own, leaf, hash, plain)
  {
    hide HashUp, InnerHash, LeafHash, EndsWith, OneSided, Plain;
    var path :| Leads(h, path, leaf, pin.right) && EndsWith(path, own) && (plain ==> Plain(path));
    TurnedHashes(h, top, pin, child, path, LeafHash(h, leaf));
    OneTurned(pin, child);
    SplicedEnds(top, Turned(pin, child), path, own);
    assert Leads(h, top + ([Turned(pin, child)] + path), leaf, hash);
  }

  lemma OneTurned(pin: ProofInnerNode, child: Hash)
    ensures OneSided([Turned(pin, child)]) && (!LeafLike(pin) ==> Plain([Turned(pin, child)]))
  {
  }

  lemma TurnedHashes(h: Hasher, top: PathToLeaf, pin: ProofInnerNode, child: Hash, path: PathToLeaf, hash: Hash)
    requires child != [] && |pin.left| == 0 && HashUp(h, path, hash) == pin.right
    ensures HashUp(h, top + ([Turned(pin, child)] + path), hash) == HashUp(h, top, InnerHash(h, pin, child))
  {
    var turned := [Turned(pin, child)] + path;
    assert turned[0] == Turned(pin, child) && turned[1..] == path;
    HashUpParts(h, top, turned, hash);
  }

  lemma TookAbove(h: Hasher, top: PathToLeaf, pin: ProofInnerNode, child: Hash, hash: Hash, plain: bool,
                  leaves: seq<ProofLeafNode>, inners: seq<PathToLeaf>, more: seq<ProofLeafNode>, rest: seq<PathToLeaf>)
    requires child != [] && OneSided(top) && |pin.left| == 0 && hash == HashUp(h, top, InnerHash(h, pin, child))
    requires Took(h, pin.right, plain, leaves, inners, more, rest) && (plain ==> Plain(top) && !LeafLike(pin))
    ensures Took(h, hash, plain, leaves, inners, more, rest)
  {
    hide Reaches, HashUp, InnerHash;
    forall i | 0 <= i < |leaves| - |more| ensures Reaches(h, inners[i], leaves[i], hash, plain) {
      ReachesAbove(h, top, pin, child, hash, inners[i], leaves[i], plain);
    }
  }

  lemma SplicedEnds(top: PathToLeaf, pin: ProofInnerNode, path: PathToLeaf, own: PathToLeaf)
    requires EndsWith(path, own)
    ensures EndsWith(top + ([pin] + path), own)
    ensures OneSided(top) && OneSided([pin]) && OneSided(path) ==> OneSided(top + ([pin] + path))
    ensures Plain(top) && Plain([pin]) && Plain(path) ==> Plain(top + ([pin] + path))
  {
    var all := top + ([pin] + path);
    assert [pin][0] == pin;
    assert forall i :: 0 <= i < |all| ==> all[i] == if i < |top| then top[i] else if i == |top| then pin
                                                                                  else path[i - |top| - 1];
    assert all[|all| - |own|..] == path[|path| - |own|..];
  }

  /** The loop of COMPUTEHASH from a step whose child hash is `child`. */
  lemma {:induction false} ClimbReaches(h: Hasher, path: PathToLeaf, child: Hash, rightmost: bool, hash: Hash,
                                        leaves: seq<ProofLeafNode>, inners: seq<PathToLeaf>, plain: bool, r: Outcome)
    requires Injective(h) && leaves != [] && child != [] && OneSided(path) && hash == HashUp(h, path, child)
    requires plain ==> Plain(path) && AllPlain(inners)
    requires r == Climb(h, path, rightmost, hash, leaves, inners) && r.Outcome?
    ensures Took(h, hash, plain, leaves, inners, r.leaves, r.inners)
    decreases |leaves|, |path| + 1
  {
    hide ComputeHash, HashUp, InnerHash, Reaches, IsRightmost;
    if path != [] {
      var top, pin := path[..|path| - 1], path[|path| - 1];
      var up := InnerHash(h, pin, child);
      HashUpLast(h, path, child);
      InnerHashIsNotEmpty(h, pin, child);
      if |pin.right| == 0 {
        ClimbReaches(h, top, up, rightmost, hash, leaves, inners, plain, r);
      } else {
        var last := rightmost && IsRightmost(top);
        var sub := ComputeHash(h, inners[0], last, leaves, inners[1..]);
        ComputeReaches(h, inners[0], last, leaves, inners[1..], plain, sub);
        assert [inners[0]] + inners[1..] == inners;
        TookAbove(h, top, pin, child, hash, plain, leaves, inners, sub.leaves, sub.inners);
        if !sub.done {
          ClimbReaches(h, top, up, rightmost, hash, sub.leaves, sub.inners, plain, r);
          TookTwice(h, hash, plain, leaves, inners, sub.leaves, sub.inners, r.leaves, r.inners);
        }
      }
    }
  }

  lemma InnerHashIsNotEmpty(h: Hasher, pin: ProofInnerNode, child: Hash)
    requires Injective(h)
    ensures InnerHash(h, pin, child) != []
  {
  }

  /** COMPUTEHASH takes only leaves that hash up to its result, each along the path it came with. */
  lemma {:induction false} ComputeReaches(h: Hasher, path: PathToLeaf, rightmost: bool, leaves: seq<ProofLeafNode>,
                                          inners: seq<PathToLeaf>, plain: bool, r: Outcome)
    requires Injective(h) && leaves != [] && (plain ==> Plain(path) && AllPlain(inners))
    requires r == ComputeHash(h, path, rightmost, leaves, inners) && r.Outcome?
    ensures Took(h, r.hash, plain, leaves, [path] + inners, r.leaves, r.inners)
    decreases |leaves|, 0
  {
    hide Climb, HashUp, LeafHash;
    ComputedHash(h, path, rightmost, leaves, inners);
    assert Leads(h, path, leaves[0], r.hash) && EndsWith(path, path);
    hide Reaches;
    assert ([path] + inners)[1..] == inners;
    if |leaves| > 1 {
      LeafHashIsNotEmpty(h, leaves[0]);
      ClimbReaches(h, path, LeafHash(h, leaves[0]), rightmost, r.hash, leaves[1..], inners, plain, r);
      assert Took(h, r.hash, plain, leaves, [path] + inners, leaves[1..], inners);
      TookTwice(h, r.hash, plain, leaves, [path] + inners, leaves[1..], inners, r.leaves, r.inners);
    }
  }

  lemma LeafHashIsNotEmpty(h: Hasher, leaf: ProofLeafNode)
    requires Injective(h)
    ensures LeafHash(h, leaf) != []
  {
  }

  /** COMPUTEHASH is done when the leaves are used up. */
  lemma {:induction false} DoneIsEmpty(h: Hasher, path: PathToLeaf, rightmost: bool, leaves: seq<ProofLeafNode>,
                                       inners: seq<PathToLeaf>)
    requires leaves != []
    ensures var r := ComputeHash(h, path, rightmost, leaves, inners); r.Outcome? && r.done ==> r.leaves == []
    decreases |leaves|, 0
  {
    if |leaves| > 1 { ClimbDone(h, path, rightmost, HashUp(h, path, LeafHash(h, leaves[0])), leaves[1..], inners); }
  }

  lemma {:induction false} ClimbDone(h: Hasher, path: PathToLeaf, rightmost: bool, hash: Hash,
                                     leaves: seq<ProofLeafNode>, inners: seq<PathToLeaf>)
    requires leaves != []
    ensures var r := Climb(h, path, rightmost, hash, leaves, inners); r.Outcome? && r.done ==> r.leaves == []
    decreases |leaves|, |path| + 1
  {
    hide ComputeHash;
    if path != [] {
      var rpath, lpath := path[..|path| - 1], path[|path| - 1];
      if |lpath.right| == 0 {
        ClimbDone(h, rpath, rightmost, hash, leaves, inners);
      } else if inners != [] {
        DoneIsEmpty(h, inners[0], rightmost && IsRightmost(rpath), leaves, inners[1..]);
        var r := ComputeHash(h, inners[0], rightmost && IsRightmost(rpath), leaves, inners[1..]);
        if r.Outcome? && !r.done { ClimbDone(h, rpath, rightmost, hash, r.leaves, r.inners); }
      }
    }
  }

  /** The path a proof gives for each of its leaves. */
  ghost function PathOf(proof: RangeProof, i: nat): PathToLeaf
    requires i <= |proof.innerNodes|
  {
    if i == 0 then proof.leftPath else proof.innerNodes[i - 1]
  }

  /** Every leaf of a proof that verifies hashes up to the root along its own path and then some more. */
  lemma VerifiedReaches(h: Hasher, proof: RangeProof, root: Hash, i: nat)
    requires Injective(h) && Verifies(h, proof, root) && i < |proof.leaves|
    ensures |proof.innerNodes| + 1 == |proof.leaves|
    ensures Reaches(h, PathOf(proof, i), proof.leaves[i], root, PlainProof(proof))
  {
    hide ComputeHash, Reaches, Plain;
    var r := ComputeHash(h, proof.leftPath, true, proof.leaves, proof.innerNodes);
    DoneIsEmpty(h, proof.leftPath, true, proof.leaves, proof.innerNodes);
    ComputeReaches(h, proof.leftPath, true, proof.leaves, proof.innerNodes, PlainProof(proof), r);
    assert ([proof.leftPath] + proof.innerNodes)[i] == PathOf(proof, i);
  }

  // ---------------------------------------------------------------- paths and the tree

  /**
   * A step that ends in the hash of a tree is a step of the tree, or is encoded like a leaf and the tree is that leaf.
   */
  lemma StepIsTurn(h: Hasher, pin: ProofInnerNode, child: Hash, t: Tree)
    requires Injective(h) && Graded(t) && OneSided([pin]) && InnerHash(h, pin, child) == HashOf(h, t)
    ensures LeafLike(pin) <==> t.Leaf?
    ensures t.Inner? ==>
              && pin == StepDown(h, t, |pin.left| == 0)
              && child == HashOf(h, if |pin.left| == 0 then t.left else t.right)
    ensures t.Leaf? ==> Carries(h, t, child)
  {
    assert [pin][0] == pin;
  }

  lemma LeafIsLeaf(h: Hasher, leaf: ProofLeafNode, t: Tree)
    requires Injective(h) && Graded(t) && LeafHash(h, leaf) == HashOf(h, t)
    ensures t.Leaf? && leaf == LeafProof(h, t) && Leaves(t) == [t] && Path(h, t, 0) == []
  {
  }

  lemma LeafOfChild(h: Hasher, t: Tree, left: bool, p: nat, q: nat)
    requires t.Inner? && p < |Leaves(if left then t.left else t.right)|
    requires q == if left then p else p + |Leaves(t.left)|
    ensures var child := if left then t.left else t.right;
            && q < |Leaves(t)| && Path(h, t, q) == [StepDown(h, t, left)] + Path(h, child, p)
            && Leaves(t)[q] == Leaves(child)[p]
  {
  }

  /** A hash in the encoding of a leaf: its key, or its value hash; the latter takes a key that is not empty. */
  ghost predicate Carries(h: Hasher, entry: Tree, hash: Hash) {
    entry.key == hash || (entry.key != [] && h.value(LeafValue(entry)) == hash)
  }

  /**
   * A path that hashes up to a tree leads to one of its leaves: the proof's leaf is that leaf, or else the path goes on
   * below it with a step that is encoded like it.
   */
  ghost predicate Lands(h: Hasher, path: PathToLeaf, leaf: ProofLeafNode, t: Tree, p: nat) {
    && p < |Leaves(t)|
    && (|| (path == Path(h, t, p) && leaf == LeafProof(h, Leaves(t)[p]))
        || (exists below :: OneSided(below) && Carries(h, Leaves(t)[p], HashUp(h, below, LeafHash(h, leaf)))))
    && (Plain(path) ==> path == Path(h, t, p) && leaf == LeafProof(h, Leaves(t)[p]))
  }

  lemma {:induction false} PathLands(h: Hasher, path: PathToLeaf, leaf: ProofLeafNode, t: Tree) returns (p: nat)
    requires Injective(h) && Graded(t) && Leads(h, path, leaf, HashOf(h, t))
    ensures Lands(h, path, leaf, t, p)
    decreases path
  {
    hide HashOf, InnerHash, LeafHash, StepDown, Path, Leaves, LeafProof;
    if path == [] {
      p := 0;
      LeafIsLeaf(h, leaf, t);
    } else {
      var left := |path[0].left| == 0;
      StepIsTurn(h, path[0], HashUp(h, path[1..], LeafHash(h, leaf)), t);
      if t.Leaf? {
        p := 0;
        OneLeaf(t);
      } else {
        var child := if left then t.left else t.right;
        var q := PathLands(h, path[1..], leaf, child);
        p := if left then q else q + |Leaves(t.left)|;
        LeafOfChild(h, t, left, q, p);
        assert path == [path[0]] + path[1..];
      }
    }
  }

  lemma OneLeaf(t: Tree)
    requires t.Leaf?
    ensures Leaves(t) == [t]
  {
  }

  // ---------------------------------------------------------------- what can be shown at all

  ghost predicate LeafOf(h: Hasher, t: Tree, leaf: ProofLeafNode) {
    exists p :: 0 <= p < |Leaves(t)| && leaf == LeafProof(h, Leaves(t)[p])
  }

  /** The leaf hashes up to the key or the value hash of some entry: it hides below that entry. */
  ghost predicate Hidden(h: Hasher, t: Tree, leaf: ProofLeafNode) {
    exists p, below :: && 0 <= p < |Leaves(t)| && OneSided(below)
                       && Carries(h, Leaves(t)[p], HashUp(h, below, LeafHash(h, leaf)))
  }

  ghost predicate Shown(h: Hasher, t: Tree, leaf: ProofLeafNode) {
    exists proof :: Verifies(h, proof, HashOf(h, t)) && leaf in proof.leaves
  }

  /** The step that is encoded like the entry and takes the hash for a child's. */
  function Disguise(h: Hasher, entry: Tree, hash: Hash): ProofInnerNode {
    if entry.key == hash then ProofInnerNode(0, 1, entry.version, [], h.value(LeafValue(entry)))
    else ProofInnerNode(0, 1, entry.version, entry.key, [])
  }

  /** Any path that hashes up to the root makes a proof of one leaf. */
  lemma OneLeafVerifies(h: Hasher, path: PathToLeaf, leaf: ProofLeafNode, root: Hash)
    requires Leads(h, path, leaf, root)
    ensures Recomputed(h, RangeProof(path, [], [leaf])) == Some((root, IsRightmost(path)))
  {
  }

  /** A hidden leaf has a proof, and the proof has a step that is encoded like a leaf. */
  lemma HiddenIsShown(h: Hasher, t: Tree, p: nat, below: PathToLeaf, leaf: ProofLeafNode) returns (proof: RangeProof)
    requires Injective(h) && Ordered(t) && p < |Leaves(t)| && OneSided(below)
    requires Carries(h, Leaves(t)[p], HashUp(h, below, LeafHash(h, leaf)))
    ensures Verifies(h, proof, HashOf(h, t)) && proof.leaves == [leaf] && !PlainProof(proof)
  {
    var entry, hash := Leaves(t)[p], HashUp(h, below, LeafHash(h, leaf));
    var top, turned := Path(h, t, p), [Disguise(h, entry, hash)] + below;
    PathHash(h, t, p);
    PathIsOneSided(h, t, p);
    DisguiseHashes(h, entry, hash);
    assert turned[0] == Disguise(h, entry, hash) && turned[1..] == below;
    assert HashUp(h, turned, LeafHash(h, leaf)) == LeafHash(h, LeafProof(h, entry));
    HashUpParts(h, top, turned, LeafHash(h, leaf));
    hide HashUp, HashOf, LeafHash, Path, Leaves, InnerHash;
    SplicedEnds(top, turned[0], below, []);
    OneLeafVerifies(h, top + turned, leaf, HashOf(h, t));
    proof := RangeProof(top + turned, [], [leaf]);
    assert (top + turned)[|top|] == turned[0];
  }

  lemma DisguiseHashes(h: Hasher, entry: Tree, hash: Hash)
    requires Carries(h, entry, hash)
    ensures var pin := Disguise(h, entry, hash);
            LeafLike(pin) && OneSided([pin]) && InnerHash(h, pin, hash) == LeafHash(h, LeafProof(h, entry))
  {
    assert [Disguise(h, entry, hash)][0] == Disguise(h, entry, hash);
  }

  /** A leaf of a proof that verifies is a leaf of the tree or hides below an entry. */
  lemma VerifiedLands(h: Hasher, t: Tree, proof: RangeProof, i: nat)
    requires Injective(h) && Graded(t) && Verifies(h, proof, HashOf(h, t)) && i < |proof.leaves|
    ensures |proof.innerNodes| + 1 == |proof.leaves|
    ensures LeafOf(h, t, proof.leaves[i]) || Hidden(h, t, proof.leaves[i])
    ensures PlainProof(proof) ==> LeafOf(h, t, proof.leaves[i])
    ensures !Plain(PathOf(proof, i)) ==> Hidden(h, t, proof.leaves[i])
  {
    hide Verifies, HashOf, HashUp, LeafHash, Leaves, LeafProof, PlainProof, Carries, OneSided;
    VerifiedReaches(h, proof, HashOf(h, t), i);
    var own, leaf, plain := PathOf(proof, i), proof.leaves[i], PlainProof(proof);
    var path :| Leads(h, path, leaf, HashOf(h, t)) && EndsWith(path, own) && (plain ==> Plain(path));
    var p := PathLands(h, path, leaf, t);
    PathIsPlain(h, t, p);
    PlainEnds(path, own);
  }

  lemma PlainEnds(path: PathToLeaf, own: PathToLeaf)
    requires EndsWith(path, own)
    ensures Plain(path) ==> Plain(own)
  {
    forall i | 0 <= i < |own| ensures own[i] == path[|path| - |own| + i] {}
  }

  /** What some proof shows under the root of a tree: its leaves, and the leaves that hide below its entries. */
  lemma ShownExactly(h: Hasher, t: Tree, leaf: ProofLeafNode)
    requires Injective(h) && Proper(t)
    ensures Shown(h, t, leaf) <==> LeafOf(h, t, leaf) || Hidden(h, t, leaf)
  {
    hide HashOf, Verifies, Leaves, Carries, OneSided, HashUp, LeafHash, Graded, Ordered;
    if Shown(h, t, leaf) {
      var proof :| Verifies(h, proof, HashOf(h, t)) && leaf in proof.leaves;
      var i :| 0 <= i < |proof.leaves| && proof.leaves[i] == leaf;
      VerifiedLands(h, t, proof, i);
    }
    if LeafOf(h, t, leaf) {
      var p :| 0 <= p < |Leaves(t)| && leaf == LeafProof(h, Leaves(t)[p]);
      PathVerifies(h, t, p);
      assert leaf in [leaf];
    }
    if Hidden(h, t, leaf) {
      var p, below :| && 0 <= p < |Leaves(t)| && OneSided(below)
                      && Carries(h, Leaves(t)[p], HashUp(h, below, LeafHash(h, leaf)));
      var proof := HiddenIsShown(h, t, p, below, leaf);
      assert leaf in proof.leaves;
    }
  }

  lemma PathVerifies(h: Hasher, t: Tree, p: nat)
    requires Injective(h) && Ordered(t) && p < |Leaves(t)|
    ensures Verifies(h, RangeProof(Path(h, t, p), [], [LeafProof(h, Leaves(t)[p])]), HashOf(h, t))
  {
    PathHash(h, t, p);
    PathIsOneSided(h, t, p);
    OneLeafVerifies(h, Path(h, t, p), LeafProof(h, Leaves(t)[p]), HashOf(h, t));
  }

  /** Every proof that verifies against a tree is plain exactly when nothing hides below an entry. */
  lemma PlainExactly(h: Hasher, t: Tree)
    requires Injective(h) && Proper(t)
    ensures (forall proof :: Verifies(h, proof, HashOf(h, t)) ==> PlainProof(proof)) <==>
            forall leaf :: !Hidden(h, t, leaf)
  {
    hide HashOf, Verifies, Leaves, Carries, OneSided, HashUp, LeafHash, Graded, Ordered, Plain;
    forall leaf | Hidden(h, t, leaf) ensures exists proof :: Verifies(h, proof, HashOf(h, t)) && !PlainProof(proof) {
      var p, below :| && 0 <= p < |Leaves(t)| && OneSided(below)
                      && Carries(h, Leaves(t)[p], HashUp(h, below, LeafHash(h, leaf)));
      var proof := HiddenIsShown(h, t, p, below, leaf);
    }
    forall proof | Verifies(h, proof, HashOf(h, t)) && !PlainProof(proof) ensures exists leaf :: Hidden(h, t, leaf) {
      VerifiedHasLeaf(h, proof, HashOf(h, t));
      VerifiedLands(h, t, proof, 0);
      if Plain(proof.leftPath) {
        var i :| 0 <= i < |proof.innerNodes| && !Plain(proof.innerNodes[i]);
        VerifiedLands(h, t, proof, i + 1);
      }
    }
  }

  lemma VerifiedHasLeaf(h: Hasher, proof: RangeProof, root: Hash)
    requires Verifies(h, proof, root)
    ensures proof.leaves != []
  {
  }

  /** VerifyItem accepts the entry under the root of the tree, with some proof. */
  ghost predicate ItemShown(h: Hasher, t: Tree, key: Key, value: Value) {
    exists proof :: Verifies(h, proof, HashOf(h, t)) && HasItem(h, proof.leaves, key, value)
  }

  /** Some leaf with the key and the value hides below an entry. */
  ghost predicate ItemHidden(h: Hasher, t: Tree, key: Key, value: Value) {
    exists version :: Hidden(h, t, ProofLeafNode(key, h.value(value), version))
  }

  /** The entries VerifyItem accepts under the root of a tree: those of the tree, and those that hide below them. */
  lemma ItemShownExactly(h: Hasher, t: Tree, key: Key, value: Value)
    requires Injective(h) && Proper(t)
    ensures ItemShown(h, t, key, value) <==>
            (key in Contents(t) && Contents(t)[key] == value) || ItemHidden(h, t, key, value)
  {
    hide HashOf, Verifies, Graded, Ordered, Contents, Leaves, Hidden;
    if ItemShown(h, t, key, value) {
      var proof :| Verifies(h, proof, HashOf(h, t)) && HasItem(h, proof.leaves, key, value);
      var i :| 0 <= i < |proof.leaves| && proof.leaves[i].key == key && proof.leaves[i].valueHash == h.value(value);
      VerifiedLands(h, t, proof, i);
      var leaf := proof.leaves[i];
      assert leaf == ProofLeafNode(key, h.value(value), leaf.version);
      if LeafOf(h, t, leaf) { LeafIsItem(h, t, key, value, leaf); }
    }
    if key in Contents(t) && Contents(t)[key] == value {
      var leaf := EntryIsLeaf(h, t, key);
      LeafIsShown(h, t, key, value, leaf);
    }
    if version :| Hidden(h, t, ProofLeafNode(key, h.value(value), version)) {
      LeafIsShown(h, t, key, value, ProofLeafNode(key, h.value(value), version));
    }
  }

  lemma LeafIsItem(h: Hasher, t: Tree, key: Key, value: Value, leaf: ProofLeafNode)
    requires Injective(h) && Ordered(t) && LeafOf(h, t, leaf) && leaf.key == key && leaf.valueHash == h.value(value)
    ensures key in Contents(t) && Contents(t)[key] == value
  {
    hide Ordered, Contents;
    var p :| 0 <= p < |Leaves(t)| && leaf == LeafProof(h, Leaves(t)[p]);
    LeafIsEntry(t, p);
  }

  lemma EntryIsLeaf(h: Hasher, t: Tree, key: Key) returns (leaf: ProofLeafNode)
    requires Ordered(t) && key in Contents(t)
    ensures LeafOf(h, t, leaf) && leaf.key == key && leaf.valueHash == h.value(Contents(t)[key])
  {
    hide Ordered, Contents, Leaves;
    LeavesAreContents(t);
    PositionIsNeighbour(t, key);
    var p := Position(t, key);
    LeafIsEntry(t, p);
    leaf := LeafProof(h, Leaves(t)[p]);
  }

  lemma LeafIsShown(h: Hasher, t: Tree, key: Key, value: Value, leaf: ProofLeafNode)
    requires Injective(h) && Proper(t) && leaf.key == key && leaf.valueHash == h.value(value)
    requires LeafOf(h, t, leaf) || Hidden(h, t, leaf)
    ensures ItemShown(h, t, key, value)
  {
    hide HashOf, Verifies, Proper, Hidden, LeafOf;
    ShownExactly(h, t, leaf);
    var proof :| Verifies(h, proof, HashOf(h, t)) && leaf in proof.leaves;
    var i :| 0 <= i < |proof.leaves| && proof.leaves[i] == leaf;
    assert HasItem(h, proof.leaves, key, value);
  }

  /** VerifyItem is sound for a tree exactly when no entry hides below another that the tree does not have. */
  lemma ItemIsSoundExactly(h: Hasher, t: Tree)
    requires Injective(h) && Proper(t)
    ensures (forall key, value :: ItemShown(h, t, key, value) ==> key in Contents(t) && Contents(t)[key] == value) <==>
            (forall key, value :: ItemHidden(h, t, key, value) ==> key in Contents(t) && Contents(t)[key] == value)
  {
    hide ItemShown, ItemHidden, Proper, Contents;
    forall key, value
      ensures ItemShown(h, t, key, value) <==>
              (key in Contents(t) && Contents(t)[key] == value) || ItemHidden(h, t, key, value)
    {
      ItemShownExactly(h, t, key, value);
    }
  }

  // ---------------------------------------------------------------- where soundness fails

  /** A step encoded like a tree that is a leaf itself makes a proof of what it takes for its child. */
  lemma BelowLeafVerifies(h: Hasher, t: Tree, pin: ProofInnerNode, leaf: ProofLeafNode)
    requires t.Leaf? && OneSided([pin]) && InnerHash(h, pin, LeafHash(h, leaf)) == HashOf(h, t)
    ensures Recomputed(h, RangeProof([pin], [], [leaf])) == Some((HashOf(h, t), |pin.right| == 0))
  {
    var path: PathToLeaf, hash := [pin], LeafHash(h, leaf);
    assert path[1..] == [] && path[0] == pin;
    assert HashUp(h, path, hash) == InnerHash(h, path[0], HashUp(h, path[1..], hash));
    OneLeafVerifies(h, path, leaf, HashOf(h, t));
  }

  /**
   * A tree whose only key is the hash of a leaf: the leaf is shown below it although the tree does not have its key,
   * and if that is the greater one the tree's own key is shown to be missing. The proof has no inner paths.
   */
  lemma LeafBelowKey(h: Hasher, key: Key, value: Value, created: int, stored: Value, version: int)
    returns (t: Tree, proof: RangeProof)
    requires Injective(h)
    ensures t == Leaf(LeafHash(h, ProofLeafNode(key, h.value(value), created)), stored, version) && Valid(t)
    ensures proof.innerNodes == [] && Verifies(h, proof, HashOf(h, t)) && HasItem(h, proof.leaves, key, value)
    ensures Less(t.key, key) ==> key !in Keys(t) && t.key in Keys(t) && ProvesAbsence(h, proof, HashOf(h, t), t.key)
  {
    var leaf := ProofLeafNode(key, h.value(value), created);
    t := Leaf(LeafHash(h, leaf), stored, version);
    var pin := ProofInnerNode(0, 1, version, [], h.value(stored));
    proof := RangeProof([pin], [], [leaf]);
    assert [pin][0] == pin;
    BelowLeafVerifies(h, t, pin, leaf);
    hide LeafHash, HashOf, Recomputed;
    LessIrreflexive(key);
    assert proof.leaves[0] == leaf && IsLeftmost(proof.leftPath);
  }

  /**
   * The same with a tree whose only value is the encoding of a leaf, and its own key missing if it is the greater one.
   */
  lemma LeafBelowValue(h: Hasher, key: Key, value: Value, created: int, own: Key, version: int)
    returns (t: Tree, proof: RangeProof)
    requires Injective(h) && own != []
    ensures t == Leaf(own, h.encode(LeafImage(created, key, h.value(value))), version) && Valid(t)
    ensures proof.innerNodes == [] && Verifies(h, proof, HashOf(h, t)) && HasItem(h, proof.leaves, key, value)
    ensures Less(key, own) ==> key !in Keys(t) && own in Keys(t) && ProvesAbsence(h, proof, HashOf(h, t), own)
  {
    var leaf := ProofLeafNode(key, h.value(value), created);
    t := Leaf(own, h.encode(LeafImage(created, key, h.value(value))), version);
    var pin := ProofInnerNode(0, 1, version, own, []);
    proof := RangeProof([pin], [], [leaf]);
    assert [pin][0] == pin && IsRightmost([pin]);
    BelowLeafVerifies(h, t, pin, leaf);
    hide LeafHash, HashOf, Recomputed;
    LessIrreflexive(key);
    if Less(key, own) { LessAsymmetric(key, own); }
    assert proof.leaves[0] == leaf;
  }
}
