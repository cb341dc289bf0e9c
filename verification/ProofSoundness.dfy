/** What a proof that verifies says about the tree, whoever built it. */
module ProofSoundness {
  import opened ByteOrder
  import opened Tree
  import opened NodeRead
  import opened Hashing
  import opened ProofPath
  import opened RangeProof
  import opened ProofQuery
  import opened ProofReach
  import Traversal

  /** Hashing up plain steps ends in the hash of a tree only along the path of one of its leaves. */
  lemma PathIsOfLeaf(h: Hasher, path: PathToLeaf, leaf: ProofLeafNode, t: Tree) returns (p: nat)
    requires Injective(h) && Graded(t) && OneSided(path) && Plain(path)
    requires HashUp(h, path, LeafHash(h, leaf)) == HashOf(h, t)
    ensures p < |Leaves(t)| && path == Path(h, t, p) && leaf == LeafProof(h, Leaves(t)[p])
  {
    p := PathLands(h, path, leaf, t);
  }

  /** A plain proof that recomputes a tree's root hash holds only leaves of that tree. */
  lemma VerifiedLeavesAreLeaves(h: Hasher, t: Tree, proof: RangeProof, leaf: ProofLeafNode)
    requires Injective(h) && Graded(t) && PlainProof(proof) && Verifies(h, proof, HashOf(h, t)) && leaf in proof.leaves
    ensures LeafOf(h, t, leaf)
  {
    hide Verifies, PlainProof, LeafOf, Hidden, HashOf;
    var i :| 0 <= i < |proof.leaves| && proof.leaves[i] == leaf;
    VerifiedLands(h, t, proof, i);
  }

  /** What VerifyItem accepts of a plain proof verified against a tree's root is an entry of the tree. */
  lemma ItemIsSound(h: Hasher, t: Tree, proof: RangeProof, key: Key, value: Value)
    requires Injective(h) && Proper(t) && PlainProof(proof) && Verifies(h, proof, HashOf(h, t))
    requires HasItem(h, proof.leaves, key, value)
    ensures key in Contents(t) && Contents(t)[key] == value
  {
    hide Verifies, PlainProof, HashOf, Graded, Ordered, Contents, LeafOf;
    var i :| 0 <= i < |proof.leaves| && proof.leaves[i].key == key && proof.leaves[i].valueHash == h.value(value);
    VerifiedLeavesAreLeaves(h, t, proof, proof.leaves[i]);
    LeafIsItem(h, t, key, value, proof.leaves[i]);
  }

  // ---------------------------------------------------------------- inner paths that turn left only

  ghost predicate AllLeftmost(inners: seq<PathToLeaf>) {
    forall i :: 0 <= i < |inners| ==> IsLeftmost(inners[i])
  }

  /** Plain paths that turn left only. */
  ghost predicate AllLeftward(inners: seq<PathToLeaf>) {
    forall i :: 0 <= i < |inners| ==> Leftward(inners[i])
  }

  /** Leaves of the left subtree up to its end, then leaves of the right one: the queues of the whole. */
  lemma JoinQueues(h: Hasher, t: Tree, p: nat, k: nat, leaves: seq<ProofLeafNode>, inners: seq<PathToLeaf>,
                   more: seq<ProofLeafNode>, rest: seq<PathToLeaf>, kr: nat, more': seq<ProofLeafNode>,
                   rest': seq<PathToLeaf>)
    requires t.Inner? && p < |Leaves(t.left)| && Queued(h, t.left, p, k, leaves, inners, more, rest)
             && p + k == |Leaves(t.left)|
    requires 1 <= kr <= |Leaves(t.right)| && (kr < |Leaves(t.right)| ==> more' == [])
    requires more == Proofs(h, Leaves(t.right)[..kr]) + more'
    requires rest == [Path(h, t.right, 0)] + (Inners(h, t.right, 0)[..kr - 1] + rest')
    ensures Queued(h, t, p, k + kr, leaves, inners, more', rest')
  {
    SidesAddUp(t);
    hide Proofs, Path, Leaves, Inners;
    JoinLeaves(h, t, p, k, kr, more');
    JoinInners(h, t, p, k, kr, rest');
  }

  lemma JoinLeaves(h: Hasher, t: Tree, p: nat, k: nat, kr: nat, more: seq<ProofLeafNode>)
    requires t.Inner? && p < |Leaves(t.left)| == p + k && 1 <= kr <= |Leaves(t.right)| == |Leaves(t)| - (p + k)
    ensures Proofs(h, Leaves(t.left)[p + 1..p + k]) + (Proofs(h, Leaves(t.right)[..kr]) + more) ==
            Proofs(h, Leaves(t)[p + 1..p + k + kr]) + more
  {
    hide Proofs, Leaves;
    LeavesAcross(t, p, k + kr);
    var a, b := Leaves(t.left)[p + 1..p + k], Leaves(t.right)[..kr];
    ProofsParts(h, a, b);
    Traversal.Associates(Proofs(h, a), Proofs(h, b), more);
  }

  lemma SidesAddUp(t: Tree)
    requires t.Inner?
    ensures |Leaves(t)| == |Leaves(t.left)| + |Leaves(t.right)|
  {
  }

  lemma JoinInners(h: Hasher, t: Tree, p: nat, k: nat, kr: nat, rest: seq<PathToLeaf>)
    requires t.Inner? && p < |Leaves(t.left)| == p + k && 1 <= kr <= |Leaves(t.right)| == |Leaves(t)| - (p + k)
    ensures Inners(h, t.left, p)[..k - 1] + ([Path(h, t.right, 0)] + (Inners(h, t.right, 0)[..kr - 1] + rest)) ==
            Inners(h, t, p)[..k + kr - 1] + rest
  {
    hide Path, Leaves, Inners;
    InnersAcross(h, t, p, k + kr);
    var il, ir, path := Inners(h, t.left, p), Inners(h, t.right, 0)[..kr - 1], Path(h, t.right, 0);
    assert il[..k - 1] == il;
    Traversal.Associates(il, [path] + ir, rest);
    Traversal.Associates([path], ir, rest);
  }

  /** The leaves taken are the next ones, and the paths taken are theirs. */
  lemma {:induction false} ClimbIsHonest(h: Hasher, t: Tree, p: nat, rightmost: bool, hash: Hash,
                                         leaves: seq<ProofLeafNode>, inners: seq<PathToLeaf>, r: Outcome)
    returns (k: nat)
    requires Injective(h) && Graded(t) && p < |Leaves(t)| && leaves != [] && AllLeftward(inners)
    requires r == Climb(h, Path(h, t, p), rightmost, hash, leaves, inners) && r.Outcome?
    ensures Queued(h, t, p, k, leaves, inners, r.leaves, r.inners) && AllLeftward(r.inners)
    decreases t, 1
  {
    hide Climb, HashOf, IsRightmost, Queued, Inners, AllLeftward, Path;
    if t.Leaf? {
      k := 1;
      LeafIsHonest(h, t, p, rightmost, hash, leaves, inners);
    } else {
      var left := p < |Leaves(t.left)|;
      var top, child := StepDown(h, t, left), if left then t.left else t.right;
      var q := if left then p else p - |Leaves(t.left)|;
      var sub := Climb(h, Path(h, child, q), rightmost && |top.right| == 0, hash, leaves, inners);
      ClimbSplits(h, t, p, rightmost, hash, leaves, inners, sub, r);
      k := ClimbIsHonest(h, child, q, rightmost && |top.right| == 0, hash, leaves, inners, sub);
      if left && !sub.done {
        var kr := TopIsHonest(h, t, rightmost, hash, sub.leaves, sub.inners, r);
        EndOfLeft(h, t, p, k, leaves, inners, sub.leaves, sub.inners);
        JoinQueues(h, t, p, k, leaves, inners, sub.leaves, sub.inners, kr, r.leaves, r.inners);
        k := k + kr;
      } else if left {
        QueuedOnLeft(h, t, p, k, leaves, inners, sub.inners);
      } else {
        QueuedOnRight(h, t, q, k, leaves, inners, sub.leaves, sub.inners);
      }
    }
  }

  lemma LeafIsHonest(h: Hasher, t: Tree, p: nat, rightmost: bool, hash: Hash, leaves: seq<ProofLeafNode>,
                     inners: seq<PathToLeaf>)
    requires t.Leaf? && p == 0 && leaves != []
    ensures Climb(h, Path(h, t, p), rightmost, hash, leaves, inners) == Outcome(hash, false, false, leaves, inners)
    ensures Queued(h, t, p, 1, leaves, inners, leaves, inners)
  {
    assert Leaves(t)[p + 1..p + 1] == [] && Inners(h, t, p)[..0] == [];
    assert Proofs(h, []) + leaves == leaves && [] + inners == inners;
  }

  /** The loop over a path: the part below the top first, then the top if it turns left and leaves remain. */
  lemma ClimbSplits(h: Hasher, t: Tree, p: nat, rightmost: bool, hash: Hash, leaves: seq<ProofLeafNode>,
                    inners: seq<PathToLeaf>, sub: Outcome, r: Outcome)
    requires Injective(h) && t.Inner? && p < |Leaves(t)| && leaves != []
    requires r == Climb(h, Path(h, t, p), rightmost, hash, leaves, inners) && r.Outcome?
    requires var left := p < |Leaves(t.left)|;
             sub == Climb(h, if left then Path(h, t.left, p) else Path(h, t.right, p - |Leaves(t.left)|),
                          rightmost && |StepDown(h, t, left).right| == 0, hash, leaves, inners)
    ensures sub.Outcome? && (sub.done ==> sub.leaves == []) && (!sub.done ==> sub.leaves != [])
    ensures p < |Leaves(t.left)| && !sub.done ==>
              r == Climb(h, [StepDown(h, t, true)], rightmost, hash, sub.leaves, sub.inners)
    ensures !(p < |Leaves(t.left)| && !sub.done) ==> r.leaves == sub.leaves && r.inners == sub.inners
  {
    hide Climb, HashOf, IsRightmost;
    var left := p < |Leaves(t.left)|;
    var top := StepDown(h, t, left);
    var rest := if left then Path(h, t.left, p) else Path(h, t.right, p - |Leaves(t.left)|);
    ClimbCons(h, top, rest, rightmost, hash, leaves, inners);
    ClimbDone(h, rest, rightmost && |top.right| == 0, hash, leaves, inners);
    if !left && sub.Outcome? && !sub.done { ClimbNothing(h, top, rightmost, hash, sub.leaves, sub.inners); }
  }

  lemma EndOfLeft(h: Hasher, t: Tree, p: nat, k: nat, leaves: seq<ProofLeafNode>, inners: seq<PathToLeaf>,
                  more: seq<ProofLeafNode>, rest: seq<PathToLeaf>)
    requires t.Inner? && p < |Leaves(t.left)| && Queued(h, t.left, p, k, leaves, inners, more, rest) && more != []
    ensures p + k == |Leaves(t.left)|
  {
  }

  lemma RightParts(h: Hasher, t: Tree, q: nat)
    requires t.Inner? && q < |Leaves(t.right)|
    ensures Leaves(t) == Leaves(t.left) + Leaves(t.right)
    ensures Inners(h, t, |Leaves(t.left)| + q) == Inners(h, t.right, q)
  {
  }

  lemma QueuedOnRight(h: Hasher, t: Tree, q: nat, k: nat, leaves: seq<ProofLeafNode>, inners: seq<PathToLeaf>,
                      more: seq<ProofLeafNode>, rest: seq<PathToLeaf>)
    requires t.Inner? && q < |Leaves(t.right)| && Queued(h, t.right, q, k, leaves, inners, more, rest)
    ensures Queued(h, t, |Leaves(t.left)| + q, k, leaves, inners, more, rest)
  {
    hide Proofs, Path, Leaves, Inners;
    RightParts(h, t, q);
    var nl := |Leaves(t.left)|;
    SliceOnRight(Leaves(t.left), Leaves(t.right), nl + q + 1, nl + q + k);
  }

  lemma QueuedOnLeft(h: Hasher, t: Tree, p: nat, k: nat, leaves: seq<ProofLeafNode>, inners: seq<PathToLeaf>,
                     rest: seq<PathToLeaf>)
    requires t.Inner? && p < |Leaves(t.left)| && Queued(h, t.left, p, k, leaves, inners, [], rest)
    ensures Queued(h, t, p, k, leaves, inners, [], rest)
  {
    var il, ir, path := Inners(h, t.left, p), Inners(h, t.right, 0), Path(h, t.right, 0);
    assert Leaves(t) == Leaves(t.left) + Leaves(t.right) && Inners(h, t, p) == il + [path] + ir;
    hide Proofs, Path, Leaves, Inners;
    SliceOnLeft(Leaves(t.left), Leaves(t.right), p + 1, p + k);
    Traversal.Associates(il, [path], ir);
    SliceOnLeft(il, [path] + ir, 0, k - 1);
  }

  /** One step over a turn to the left took the first leaves of the right sibling. */
  lemma {:induction false} TopIsHonest(h: Hasher, t: Tree, rightmost: bool, hash: Hash, leaves: seq<ProofLeafNode>,
                                       inners: seq<PathToLeaf>, r: Outcome) returns (k: nat)
    requires Injective(h) && Graded(t) && t.Inner? && leaves != [] && AllLeftward(inners)
    requires r == Climb(h, [StepDown(h, t, true)], rightmost, hash, leaves, inners) && r.Outcome?
    ensures 1 <= k <= |Leaves(t.right)| && (k < |Leaves(t.right)| ==> r.leaves == []) && AllLeftward(r.inners)
    ensures leaves == Proofs(h, Leaves(t.right)[..k]) + r.leaves
    ensures inners == [Path(h, t.right, 0)] + (Inners(h, t.right, 0)[..k - 1] + r.inners)
    decreases t, 0
  {
    hide ComputeHash, HashOf, Proofs, Climb, Leaves, Inners, Path, IsRightmost, IsLeftmost, StepDown;
    var last := rightmost && IsRightmost([]);
    var sub := TopComputes(h, t, rightmost, hash, leaves, inners, r);
    var p;
    p, k := ComputeIsHonest(h, t.right, inners[0], last, leaves, inners[1..], sub);
    PathEnds(h, t.right, p);
    assert inners == [inners[0]] + inners[1..];
    assert Leaves(t.right)[0..k] == Leaves(t.right)[..k];
  }

  /** The right sibling has been computed. */
  lemma TopComputes(h: Hasher, t: Tree, rightmost: bool, hash: Hash, leaves: seq<ProofLeafNode>,
                    inners: seq<PathToLeaf>, r: Outcome) returns (sub: Outcome)
    requires Injective(h) && t.Inner? && leaves != []
    requires r == Climb(h, [StepDown(h, t, true)], rightmost, hash, leaves, inners) && r.Outcome?
    ensures inners != [] && sub == ComputeHash(h, inners[0], rightmost && IsRightmost([]), leaves, inners[1..])
    ensures sub.Outcome? && sub.hash == HashOf(h, t.right) && r.leaves == sub.leaves && r.inners == sub.inners
  {
    hide ComputeHash, HashOf;
    HashIsNotEmpty(h, t.right);
    assert [StepDown(h, t, true)][..0] == [];
    sub := ComputeHash(h, inners[0], rightmost && IsRightmost([]), leaves, inners[1..]);
  }

  /** COMPUTEHASH with a tree's hash for a result, on paths that turn left only: consecutive leaves of the tree. */
  lemma {:induction false} ComputeIsHonest(h: Hasher, t: Tree, path: PathToLeaf, rightmost: bool,
                                           leaves: seq<ProofLeafNode>, inners: seq<PathToLeaf>, r: Outcome)
    returns (p: nat, k: nat)
    requires Injective(h) && Graded(t) && leaves != [] && Plain(path) && AllLeftward(inners)
    requires r == ComputeHash(h, path, rightmost, leaves, inners) && r.Outcome? && r.hash == HashOf(h, t)
    ensures 1 <= k && p + k <= |Leaves(t)| && (p + k < |Leaves(t)| ==> r.leaves == []) && path == Path(h, t, p)
            && AllLeftward(r.inners)
    ensures leaves == Proofs(h, Leaves(t)[p..p + k]) + r.leaves && inners == Inners(h, t, p)[..k - 1] + r.inners
    decreases t, 2
  {
    hide Climb, HashOf, HashUp, LeafHash, Queued, Proofs, Inners, Path, IsRightmost, Leaves, AllLeftward;
    ComputedHash(h, path, rightmost, leaves, inners);
    p := PathIsOfLeaf(h, path, leaves[0], t);
    if |leaves| == 1 {
      k := 1;
      OwnFirst(h, t, p, leaves, inners);
    } else {
      k := ClimbIsHonest(h, t, p, rightmost, HashUp(h, path, LeafHash(h, leaves[0])), leaves[1..], inners, r);
      OwnAndQueued(h, t, p, k, leaves, inners, r.leaves, r.inners);
    }
  }

  lemma OwnFirst(h: Hasher, t: Tree, p: nat, leaves: seq<ProofLeafNode>, inners: seq<PathToLeaf>)
    requires p < |Leaves(t)| && |leaves| == 1 && leaves[0] == LeafProof(h, Leaves(t)[p])
    ensures leaves == Proofs(h, Leaves(t)[p..p + 1]) + [] && inners == Inners(h, t, p)[..0] + inners
  {
    OwnLeaves(h, t, p, 1);
    var own := Proofs(h, Leaves(t)[p..p + 1]);
    assert own == [own[0]];
  }

  lemma OwnAndQueued(h: Hasher, t: Tree, p: nat, k: nat, leaves: seq<ProofLeafNode>, inners: seq<PathToLeaf>,
                     more: seq<ProofLeafNode>, rest: seq<PathToLeaf>)
    requires p < |Leaves(t)| && leaves != [] && leaves[0] == LeafProof(h, Leaves(t)[p])
             && Queued(h, t, p, k, leaves[1..], inners, more, rest)
    ensures leaves == Proofs(h, Leaves(t)[p..p + k]) + more && inners == Inners(h, t, p)[..k - 1] + rest
    ensures 1 <= k && p + k <= |Leaves(t)| && (p + k < |Leaves(t)| ==> more == [])
  {
    OwnLeaves(h, t, p, k);
    hide Proofs, Inners, Leaves;
    var own := Proofs(h, Leaves(t)[p..p + k]);
    assert leaves == [leaves[0]] + leaves[1..];
    assert own == [own[0]] + own[1..];
    Traversal.Associates([own[0]], own[1..], more);
  }

  /**
   * A plain proof whose inner paths turn left only, and that recomputes a tree's root hash, holds consecutive leaves of
   * the tree.
   */
  lemma LeftmostProofsAreHonest(h: Hasher, t: Tree, proof: RangeProof) returns (p: nat, k: nat)
    requires Injective(h) && Graded(t) && PlainProof(proof) && AllLeftmost(proof.innerNodes)
    requires Verifies(h, proof, HashOf(h, t))
    ensures Honest(h, t, p, k, proof)
  {
    PlainIsLeftward(proof);
    hide ComputeHash, HashOf, Proofs, Inners, Path, Leaves, Plain, AllLeftward, AllPlain, AllLeftmost, Graded;
    var r := ComputeHash(h, proof.leftPath, true, proof.leaves, proof.innerNodes);
    DoneIsEmpty(h, proof.leftPath, true, proof.leaves, proof.innerNodes);
    p, k := ComputeIsHonest(h, t, proof.leftPath, true, proof.leaves, proof.innerNodes, r);
    ProofsParts(h, Leaves(t)[p..p + k], []);
    AllTaken(proof.leaves, Proofs(h, Leaves(t)[p..p + k]), proof.innerNodes, Inners(h, t, p)[..k - 1], r.inners);
  }

  lemma PlainIsLeftward(proof: RangeProof)
    requires PlainProof(proof) && AllLeftmost(proof.innerNodes)
    ensures AllLeftward(proof.innerNodes)
  {
    hide Plain, IsLeftmost;
  }

  /** One inner path per leaf but the first: with the leaves used up, so are the paths. */
  lemma AllTaken<A, B>(leaves: seq<A>, own: seq<A>, inners: seq<B>, paths: seq<B>, rest: seq<B>)
    requires leaves == own + [] && inners == paths + rest && |inners| + 1 == |leaves| && |paths| + 1 == |own|
    ensures leaves == own && inners == paths && rest == []
  {
  }

  /** A key that is strictly between consecutive leaves, or behind the last one, is not the key of a leaf. */
  lemma {:induction false} AbsentBehindIsSound(h: Hasher, leaves: seq<Tree>, p: nat, k: nat, key: Key)
    requires Ascending(leaves) && 1 <= k && p + k <= |leaves| && Less(leaves[p].key, key)
    requires AbsentBehind(Proofs(h, leaves[p + 1..p + k]), p + k == |leaves|, key)
    ensures forall l :: l in leaves ==> l.key != key
    decreases k
  {
    if k == 1 {
      assert leaves[p + 1..p + 1] == [];
      BetweenLeaves(leaves, p, key);
    } else {
      var next := leaves[p + 1..p + k];
      assert next[0] == leaves[p + 1] && next[1..] == leaves[p + 2..p + k];
      hide Ascending, Less;
      assert Proofs(h, next)[1..] == Proofs(h, next[1..]);
      LessTotal(key, leaves[p + 1].key);
      if Less(key, leaves[p + 1].key) {
        BetweenLeaves(leaves, p, key);
      } else {
        AbsentBehindIsSound(h, leaves, p + 1, k - 1, key);
      }
    }
  }

  lemma BetweenLeaves(leaves: seq<Tree>, p: nat, key: Key)
    requires Ascending(leaves) && p < |leaves| && Less(leaves[p].key, key)
    requires p + 1 < |leaves| ==> Less(key, leaves[p + 1].key)
    ensures forall l :: l in leaves ==> l.key != key
  {
    LessIrreflexive(key);
    forall l | l in leaves ensures l.key != key {
      var i :| 0 <= i < |leaves| && leaves[i] == l;
      if i < p { LessTransitive(leaves[i].key, leaves[p].key, key); }
      if i > p + 1 { LessTransitive(key, leaves[p + 1].key, leaves[i].key); }
    }
  }

  lemma BeforeLeaves(leaves: seq<Tree>, key: Key)
    requires Ascending(leaves) && leaves != [] && Less(key, leaves[0].key)
    ensures forall l :: l in leaves ==> l.key != key
  {
    LessIrreflexive(key);
    forall l | l in leaves ensures l.key != key {
      var i :| 0 <= i < |leaves| && leaves[i] == l;
      if i > 0 { LessTransitive(key, leaves[0].key, leaves[i].key); }
    }
  }

  /** VerifyAbsence is sound for plain proofs whose inner paths turn left only. */
  lemma AbsenceIsSound(h: Hasher, t: Tree, proof: RangeProof, key: Key)
    requires Injective(h) && Proper(t) && PlainProof(proof) && AllLeftmost(proof.innerNodes)
    requires ProvesAbsence(h, proof, HashOf(h, t), key)
    ensures key !in Keys(t)
  {
    hide Recomputed, HashOf, Ordered, Graded, PlainProof, AllLeftmost, AbsentBehind, Ascending, Less, Keys, Contents;
    var p, k := LeftmostProofsAreHonest(h, t, proof);
    HonestProofsVerify(h, t, p, k, proof);
    OwnLeaves(h, t, p, k);
    PathEnds(h, t, p);
    LeavesAreContents(t);
    var leaves := Leaves(t);
    LessTotal(key, leaves[p].key);
    if Less(key, leaves[p].key) {
      BeforeLeaves(leaves, key);
    } else if p + 1 == |leaves| {
      BetweenLeaves(leaves, p, key);
    } else {
      PathIsNotEmpty(h, t, p);
      AbsentBehindIsSound(h, leaves, p, k, key);
    }
  }

  lemma PathIsNotEmpty(h: Hasher, t: Tree, p: nat)
    requires p + 1 < |Leaves(t)|
    ensures Path(h, t, p) != []
  {
  }

  // ---------------------------------------------------------------- inner paths that turn right

  /** The leaves at the front are those of `t` at the positions `ps`, in order. */
  ghost predicate Shows(h: Hasher, t: Tree, ps: seq<nat>, leaves: seq<ProofLeafNode>) {
    && |ps| <= |leaves|
    && (forall i :: 0 <= i < |ps| ==> ps[i] < |Leaves(t)| && leaves[i] == LeafProof(h, Leaves(t)[ps[i]]))
    && (forall i, j :: 0 <= i < j < |ps| ==> ps[i] < ps[j])
  }

  ghost predicate GapAt(ps: seq<nat>, i: nat) {
    i + 1 < |ps| && ps[i] + 1 < ps[i + 1]
  }

  /** Some position is passed over. */
  ghost predicate Gap(ps: seq<nat>) {
    exists i: nat :: GapAt(ps, i)
  }

  /** Leaves and inner paths taken off the queues: they are leaves of `t`, with a gap if not all paths turn left. */
  ghost predicate Walked(h: Hasher, t: Tree, ps: seq<nat>, leaves: seq<ProofLeafNode>, inners: seq<PathToLeaf>,
                         more: seq<ProofLeafNode>, rest: seq<PathToLeaf>) {
    && ps != [] && Shows(h, t, ps, leaves) && leaves[|ps|..] == more
    && |ps| - 1 <= |inners| && inners[|ps| - 1..] == rest
    && (AllLeftmost(inners[..|ps| - 1]) || Gap(ps))
  }

  function Shift(ps: seq<nat>, n: nat): (r: seq<nat>)
    ensures |r| == |ps| && forall i :: 0 <= i < |ps| ==> r[i] == ps[i] + n
  {
    seq(|ps|, i requires 0 <= i < |ps| => ps[i] + n)
  }

  lemma ShowsOfChild(h: Hasher, t: Tree, left: bool, ps: seq<nat>, leaves: seq<ProofLeafNode>)
    requires t.Inner? && Shows(h, if left then t.left else t.right, ps, leaves)
    ensures Shows(h, t, if left then ps else Shift(ps, |Leaves(t.left)|), leaves)
  {
    assert Leaves(t) == Leaves(t.left) + Leaves(t.right);
    hide Leaves, LeafProof;
  }

  lemma WalkedOfChild(h: Hasher, t: Tree, left: bool, ps: seq<nat>, leaves: seq<ProofLeafNode>, inners: seq<PathToLeaf>,
                      more: seq<ProofLeafNode>, rest: seq<PathToLeaf>)
    requires t.Inner? && Walked(h, if left then t.left else t.right, ps, leaves, inners, more, rest)
    ensures Walked(h, t, if left then ps else Shift(ps, |Leaves(t.left)|), leaves, inners, more, rest)
  {
    hide Shows, AllLeftmost, Leaves;
    ShowsOfChild(h, t, left, ps, leaves);
    GapShifted(ps, |Leaves(t.left)|);
  }

  lemma ShowsJoined(h: Hasher, t: Tree, a: seq<nat>, b: seq<nat>, leaves: seq<ProofLeafNode>)
    requires a != [] && b != [] && Shows(h, t, a, leaves) && Shows(h, t, b, leaves[|a|..]) && a[|a| - 1] < b[0]
    ensures Shows(h, t, a + b, leaves)
  {
    hide Leaves, LeafProof;
    var ps := a + b;
    forall i | 0 <= i < |ps| ensures ps[i] < |Leaves(t)| && leaves[i] == LeafProof(h, Leaves(t)[ps[i]]) {
      if i >= |a| { assert leaves[i] == leaves[|a|..][i - |a|]; }
    }
    forall i, j | 0 <= i < j < |ps| ensures ps[i] < ps[j] {
      assert i < |a| ==> ps[i] <= a[|a| - 1];
      assert j >= |a| ==> b[0] <= ps[j];
    }
  }

  lemma GapJoined(a: seq<nat>, b: seq<nat>)
    requires a != [] && b != []
    ensures Gap(a) || Gap(b) || a[|a| - 1] + 1 < b[0] ==> Gap(a + b)
  {
    if i: nat :| GapAt(a, i) { assert GapAt(a + b, i); }
    if i: nat :| GapAt(b, i) { assert GapAt(a + b, |a| + i); }
    if a[|a| - 1] + 1 < b[0] { assert GapAt(a + b, |a| - 1); }
  }

  lemma LeftmostJoined(a: seq<PathToLeaf>, path: PathToLeaf, b: seq<PathToLeaf>)
    ensures AllLeftmost(a + [path] + b) <==> AllLeftmost(a) && IsLeftmost(path) && AllLeftmost(b)
  {
    hide IsLeftmost;
    var all := a + [path] + b;
    assert all[|a|] == path;
    forall i | 0 <= i < |a| ensures all[i] == a[i] {}
    forall i | 0 <= i < |b| ensures all[|a| + 1 + i] == b[i] {}
    forall i | |a| < i < |all| ensures all[i] == b[i - |a| - 1] {}
  }

  lemma InnersJoined(inners: seq<PathToLeaf>, m: nat, n: nat, rest: seq<PathToLeaf>, rest': seq<PathToLeaf>)
    requires m + 1 + n <= |inners| && rest == inners[m..] && rest' == rest[1..][n..]
    ensures inners[m + 1 + n..] == rest'
    ensures AllLeftmost(inners[..m + 1 + n]) <==>
            AllLeftmost(inners[..m]) && IsLeftmost(rest[0]) && AllLeftmost(rest[1..][..n])
  {
    TakeMore(inners, m, 1 + n);
    TakeMore(rest, 1, n);
    LeftmostJoined(inners[..m], rest[0], rest[1..][..n]);
    assert rest[..1] == [rest[0]];
    Traversal.Associates(inners[..m], [rest[0]], rest[1..][..n]);
  }

  /** Leaves of the left subtree, then leaves of the right one, reached by the next inner path. */
  lemma WalksJoined(h: Hasher, t: Tree, a: seq<nat>, b: seq<nat>, leaves: seq<ProofLeafNode>, inners: seq<PathToLeaf>,
                    more: seq<ProofLeafNode>, rest: seq<PathToLeaf>, more': seq<ProofLeafNode>, rest': seq<PathToLeaf>)
    requires t.Inner? && Walked(h, t.left, a, leaves, inners, more, rest) && rest != []
    requires Walked(h, t.right, b, more, rest[1..], more', rest') && (IsLeftmost(rest[0]) || b[0] > 0)
    ensures Walked(h, t, a + Shift(b, |Leaves(t.left)|), leaves, inners, more', rest')
  {
    var c := Shift(b, |Leaves(t.left)|);
    hide AllLeftmost, IsLeftmost, Gap, Leaves, Shift, Shows;
    ShowsSides(h, t, a, b, leaves);
    GapJoined(a, c);
    GapShifted(b, |Leaves(t.left)|);
    InnersJoined(inners, |a| - 1, |c| - 1, rest, rest');
    TakeMore(leaves, |a|, |c|);
  }

  lemma GapShifted(ps: seq<nat>, n: nat)
    ensures Gap(ps) ==> Gap(Shift(ps, n))
  {
    if i: nat :| GapAt(ps, i) { assert GapAt(Shift(ps, n), i); }
  }

  lemma ShowsSides(h: Hasher, t: Tree, a: seq<nat>, b: seq<nat>, leaves: seq<ProofLeafNode>)
    requires t.Inner? && a != [] && b != [] && Shows(h, t.left, a, leaves) && Shows(h, t.right, b, leaves[|a|..])
    ensures var c := Shift(b, |Leaves(t.left)|);
            && Shows(h, t, a + c, leaves) && (b[0] > 0 ==> a[|a| - 1] + 1 < c[0])
  {
    var c := Shift(b, |Leaves(t.left)|);
    assert a[|a| - 1] < |Leaves(t.left)|;
    hide Leaves, Shows;
    ShowsOfChild(h, t, true, a, leaves);
    ShowsOfChild(h, t, false, b, leaves[|a|..]);
    ShowsJoined(h, t, a, c, leaves);
  }

  lemma {:induction false} ClimbWalks(h: Hasher, t: Tree, p: nat, rightmost: bool, hash: Hash, first: ProofLeafNode,
                                      leaves: seq<ProofLeafNode>, inners: seq<PathToLeaf>, r: Outcome)
    returns (ps: seq<nat>)
    requires Injective(h) && Graded(t) && p < |Leaves(t)| && leaves != [] && first == LeafProof(h, Leaves(t)[p])
    requires AllPlain(inners)
    requires r == Climb(h, Path(h, t, p), rightmost, hash, leaves, inners) && r.Outcome?
    ensures ps != [] && ps[0] == p && Walked(h, t, ps, [first] + leaves, inners, r.leaves, r.inners)
    decreases t, 1
  {
    hide Climb, HashOf, IsRightmost, Walked, Path, IsLeftmost, LeafProof, AllPlain;
    if t.Leaf? {
      ps := [p];
      LeafIsHonest(h, t, p, rightmost, hash, leaves, inners);
      WalkedOne(h, t, p, first, leaves, inners);
    } else {
      var left := p < |Leaves(t.left)|;
      var top, child := StepDown(h, t, left), if left then t.left else t.right;
      var q := if left then p else p - |Leaves(t.left)|;
      var sub := Climb(h, Path(h, child, q), rightmost && |top.right| == 0, hash, leaves, inners);
      ClimbSplits(h, t, p, rightmost, hash, leaves, inners, sub, r);
      LeavesBySide(t, p);
      ps := ClimbWalks(h, child, q, rightmost && |top.right| == 0, hash, first, leaves, inners, sub);
      if left && !sub.done {
        PlainRest(h, child, ps, [first] + leaves, inners, sub.leaves, sub.inners);
        var more := TopWalks(h, t, rightmost, hash, sub.leaves, sub.inners, r);
        WalksJoined(h, t, ps, more, [first] + leaves, inners, sub.leaves, sub.inners, r.leaves, r.inners);
        ps := ps + Shift(more, |Leaves(t.left)|);
      } else {
        WalkedOfChild(h, t, left, ps, [first] + leaves, inners, r.leaves, r.inners);
        ps := if left then ps else Shift(ps, |Leaves(t.left)|);
      }
    }
  }

  lemma PlainRest(h: Hasher, t: Tree, ps: seq<nat>, leaves: seq<ProofLeafNode>, inners: seq<PathToLeaf>,
                  more: seq<ProofLeafNode>, rest: seq<PathToLeaf>)
    requires Walked(h, t, ps, leaves, inners, more, rest) && AllPlain(inners)
    ensures AllPlain(rest)
  {
    hide Plain, Shows, Gap, AllLeftmost;
    forall i | 0 <= i < |rest| ensures rest[i] == inners[|ps| - 1 + i] {}
  }

  lemma WalkedOne(h: Hasher, t: Tree, p: nat, first: ProofLeafNode, leaves: seq<ProofLeafNode>, inners: seq<PathToLeaf>)
    requires p < |Leaves(t)| && first == LeafProof(h, Leaves(t)[p])
    ensures Walked(h, t, [p], [first] + leaves, inners, leaves, inners)
  {
    assert ([first] + leaves)[1..] == leaves && inners[..0] == [];
  }

  lemma {:induction false} TopWalks(h: Hasher, t: Tree, rightmost: bool, hash: Hash, leaves: seq<ProofLeafNode>,
                                    inners: seq<PathToLeaf>, r: Outcome)
    returns (ps: seq<nat>)
    requires Injective(h) && Graded(t) && t.Inner? && leaves != [] && AllPlain(inners)
    requires r == Climb(h, [StepDown(h, t, true)], rightmost, hash, leaves, inners) && r.Outcome?
    ensures inners != [] && Walked(h, t.right, ps, leaves, inners[1..], r.leaves, r.inners)
    ensures IsLeftmost(inners[0]) || ps[0] > 0
    decreases t, 0
  {
    hide ComputeHash, HashOf, Climb, Path, IsRightmost, IsLeftmost, StepDown, Leaves;
    var sub := TopComputes(h, t, rightmost, hash, leaves, inners, r);
    ps := ComputeWalks(h, t.right, inners[0], rightmost && IsRightmost([]), leaves, inners[1..], sub);
    PathEnds(h, t.right, ps[0]);
  }

  /** COMPUTEHASH with a tree's hash for a result, on any plain paths: leaves of the tree in order. */
  lemma {:induction false} ComputeWalks(h: Hasher, t: Tree, path: PathToLeaf, rightmost: bool,
                                        leaves: seq<ProofLeafNode>, inners: seq<PathToLeaf>, r: Outcome)
    returns (ps: seq<nat>)
    requires Injective(h) && Graded(t) && leaves != [] && Plain(path) && AllPlain(inners)
    requires r == ComputeHash(h, path, rightmost, leaves, inners) && r.Outcome? && r.hash == HashOf(h, t)
    ensures Walked(h, t, ps, leaves, inners, r.leaves, r.inners) && ps[0] < |Leaves(t)| && path == Path(h, t, ps[0])
    decreases t, 2
  {
    hide Climb, HashOf, HashUp, LeafHash, Path, IsRightmost, Leaves, LeafProof, IsLeftmost;
    ComputedHash(h, path, rightmost, leaves, inners);
    var p := PathIsOfLeaf(h, path, leaves[0], t);
    assert leaves == [leaves[0]] + leaves[1..];
    if |leaves| == 1 {
      ps := [p];
      WalkedOne(h, t, p, leaves[0], [], inners);
    } else {
      ps := ClimbWalks(h, t, p, rightmost, HashUp(h, path, LeafHash(h, leaves[0])), leaves[0], leaves[1..], inners, r);
    }
  }

  /** VerifyAbsence accepts every key between two neighbouring leaves of the proof. */
  lemma {:induction false} BetweenIsAccepted(leaves: seq<ProofLeafNode>, i: nat, treeEnd: bool, key: Key)
    requires i < |leaves| && Less(key, leaves[i].key) && forall j :: 0 <= j < i ==> Less(leaves[j].key, key)
    ensures AbsentBehind(leaves, treeEnd, key)
  {
    hide Less;
    if i > 0 {
      LessAsymmetric(leaves[0].key, key);
      LessIrreflexive(key);
      BetweenIsAccepted(leaves[1..], i - 1, treeEnd, key);
    }
  }

  /** A leaf that was passed over lies between two neighbours of the proof. */
  lemma PassedOverIsAccepted(h: Hasher, t: Tree, proof: RangeProof, ps: seq<nat>, i: nat, treeEnd: bool)
    requires Ordered(t) && |ps| == |proof.leaves| && Shows(h, t, ps, proof.leaves) && GapAt(ps, i)
    ensures ps[i] + 1 < |Leaves(t)| && Absent(proof, treeEnd, Leaves(t)[ps[i] + 1].key)
  {
    hide Less, Leaves, IsLeftmost, IsRightmost, Shows;
    var leaves := proof.leaves;
    PassedOver(h, t, leaves, ps, i);
    var key := Leaves(t)[ps[i] + 1].key;
    LessAsymmetric(leaves[0].key, key);
    LessIrreflexive(key);
    BetweenIsAccepted(leaves[1..], i, treeEnd, key);
  }

  lemma PassedOver(h: Hasher, t: Tree, leaves: seq<ProofLeafNode>, ps: seq<nat>, i: nat)
    requires Ordered(t) && |ps| == |leaves| && Shows(h, t, ps, leaves) && GapAt(ps, i)
    ensures ps[i] + 1 < |Leaves(t)|
    ensures var key := Leaves(t)[ps[i] + 1].key;
            forall j :: 0 <= j < |leaves| ==> if j <= i then Less(leaves[j].key, key) else Less(key, leaves[j].key)
  {
    LeavesAreContents(t);
    hide Leaves, Less, Ordered, Ascending;
    assert ps[i + 1] < |Leaves(t)|;
    var key := Leaves(t)[ps[i] + 1].key;
    forall j | 0 <= j < |leaves| ensures if j <= i then Less(leaves[j].key, key) else Less(key, leaves[j].key) {
      SideOfGap(Leaves(t), ps, i, j);
    }
  }

  lemma SideOfGap(all: seq<Tree>, ps: seq<nat>, i: nat, j: nat)
    requires Ascending(all) && GapAt(ps, i) && j < |ps| && ps[j] < |all| && ps[i + 1] < |all|
    requires forall i, j :: 0 <= i < j < |ps| ==> ps[i] < ps[j]
    ensures var key := all[ps[i] + 1].key;
            if j <= i then Less(all[ps[j]].key, key) else Less(key, all[ps[j]].key)
  {
    hide Less, Ascending;
    if j <= i { AscendingAt(all, ps[j], ps[i] + 1); } else { AscendingAt(all, ps[i] + 1, ps[j]); }
  }

  lemma AscendingAt(leaves: seq<Tree>, i: nat, j: nat)
    requires Ascending(leaves) && i < j < |leaves|
    ensures Less(leaves[i].key, leaves[j].key)
  {
  }

  /**
   * Of a proof that verifies against the root of a tree: it is plain and what VerifyAbsence accepts of it is absent
   * from the tree, for every key, exactly when it is plain and its inner paths turn left only. With another inner path
   * it accepts a key that is there.
   */
  lemma AbsenceIsSoundExactly(h: Hasher, t: Tree, proof: RangeProof)
    requires Injective(h) && Proper(t) && Verifies(h, proof, HashOf(h, t))
    ensures PlainProof(proof) && AbsentOnly(h, t, proof) <==> PlainProof(proof) && AllLeftmost(proof.innerNodes)
  {
    hide ProvesAbsence, Verifies, HashOf, Graded, Ordered, Keys, PlainProof, AllLeftmost;
    if PlainProof(proof) && AllLeftmost(proof.innerNodes) {
      forall key | ProvesAbsence(h, proof, HashOf(h, t), key) ensures key !in Keys(t) {
        AbsenceIsSound(h, t, proof, key);
      }
    } else if PlainProof(proof) {
      var key := PresentKeyIsAccepted(h, t, proof);
    }
  }

  /** VerifyAbsence accepts no key of the tree. */
  ghost predicate AbsentOnly(h: Hasher, t: Tree, proof: RangeProof) {
    forall key :: ProvesAbsence(h, proof, HashOf(h, t), key) ==> key !in Keys(t)
  }

  /** If nothing hides below an entry of the tree, the turns of the inner paths alone decide. */
  lemma AbsenceUnlessHidden(h: Hasher, t: Tree, proof: RangeProof)
    requires Injective(h) && Proper(t) && Verifies(h, proof, HashOf(h, t)) && forall leaf :: !Hidden(h, t, leaf)
    ensures AbsentOnly(h, t, proof) <==> AllLeftmost(proof.innerNodes)
  {
    hide Verifies, HashOf, Proper, PlainProof, AllLeftmost, AbsentOnly, Hidden;
    PlainExactly(h, t);
    AbsenceIsSoundExactly(h, t, proof);
  }

  lemma PresentKeyIsAccepted(h: Hasher, t: Tree, proof: RangeProof) returns (key: Key)
    requires Injective(h) && Proper(t) && PlainProof(proof) && Verifies(h, proof, HashOf(h, t))
    requires !AllLeftmost(proof.innerNodes)
    ensures ProvesAbsence(h, proof, HashOf(h, t), key) && key in Keys(t)
  {
    hide ComputeHash, HashOf, Ordered, Graded, Leaves, Keys, Absent, Shows, AllLeftmost, AllPlain;
    var r := ComputeHash(h, proof.leftPath, true, proof.leaves, proof.innerNodes);
    DoneIsEmpty(h, proof.leftPath, true, proof.leaves, proof.innerNodes);
    var ps := ComputeWalks(h, t, proof.leftPath, true, proof.leaves, proof.innerNodes, r);
    assert |ps| == |proof.leaves|;
    assert proof.innerNodes[..|ps| - 1] == proof.innerNodes;
    var i: nat :| GapAt(ps, i);
    PassedOverIsAccepted(h, t, proof, ps, i, r.treeEnd);
    key := Leaves(t)[ps[i] + 1].key;
    LeafIsEntry(t, ps[i] + 1);
  }

  // ---------------------------------------------------------------- the smallest case

  /** The leaf of `a` beside the leaves of `b` and `c`. */
  function Triple(a: Key, b: Key, c: Key): Tree {
    Inner(b, 2, 3, Leaf(a, [], 1), Pair(b, c), 1)
  }

  lemma TripleIsValid(a: Key, b: Key, c: Key)
    requires Less(a, b) && Less(b, c)
    ensures Valid(Triple(a, b, c)) && b in Keys(Triple(a, b, c))
  {
    LessIrreflexive(b);
    LessAsymmetric(b, c);
    PairIsValid(b, c);
    assert Keys(Triple(a, b, c)) == {a} + {b, c};
  }

  /** The proof that shows `a` and `c` but not `b` between them. */
  function PassingOver(h: Hasher, t: Tree): RangeProof
    requires t.Inner? && t.right.Inner?
  {
    RangeProof([StepDown(h, t, true)], [[StepDown(h, t.right, false)]],
               [LeafProof(h, t.left), LeafProof(h, t.right.right)])
  }

  lemma StepHashes(h: Hasher, t: Tree, goLeft: bool, leaf: ProofLeafNode)
    requires Injective(h) && t.Inner? && LeafHash(h, leaf) == HashOf(h, if goLeft then t.left else t.right)
    ensures HashUp(h, [StepDown(h, t, goLeft)], LeafHash(h, leaf)) == HashOf(h, t)
  {
    var path: PathToLeaf := [StepDown(h, t, goLeft)];
    assert path[1..] == [];
    HashIsNotEmpty(h, t.left);
  }

  lemma PassingOverVerifies(h: Hasher, a: Key, b: Key, c: Key)
    requires Injective(h)
    ensures Recomputed(h, PassingOver(h, Triple(a, b, c))) == Some((HashOf(h, Triple(a, b, c)), true))
  {
    var t := Triple(a, b, c);
    var path: PathToLeaf, inner: PathToLeaf := [StepDown(h, t, true)], [StepDown(h, t.right, false)];
    var first, second := LeafProof(h, t.left), LeafProof(h, t.right.right);
    StepHashes(h, t.right, false, second);
    StepHashes(h, t, true, first);
    HashIsNotEmpty(h, t.right);
    HashIsNotEmpty(h, t.right.left);
    OneStepTwoLeaves(h, path[0], inner[0], first, second);
  }

  /** A left path of one step to the left, and one inner path of one step to the right. */
  lemma OneStepTwoLeaves(h: Hasher, top: ProofInnerNode, pin: ProofInnerNode, first: ProofLeafNode,
                         second: ProofLeafNode)
    requires |top.left| == 0 && |top.right| > 0 && |pin.right| == 0
    requires HashUp(h, [pin], LeafHash(h, second)) == top.right
    ensures Recomputed(h, RangeProof([top], [[pin]], [first, second])) ==
            Some((HashUp(h, [top], LeafHash(h, first)), true))
  {
    hide HashUp, LeafHash;
    var path: PathToLeaf, inner: PathToLeaf := [top], [pin];
    var inners: seq<PathToLeaf> := [inner];
    assert path[..0] == [] && [first, second][1..] == [second] && inners[1..] == [];
    assert ComputeHash(h, inner, true, [second], []) == Outcome(top.right, true, true, [], []);
    var hash := HashUp(h, path, LeafHash(h, first));
    assert Climb(h, path, true, hash, [second], inners) == Outcome(hash, true, true, [], []);
  }

  /**
   * COMPUTEHASH does not look where inner paths turn. With one that turns right, a leaf of the tree can be passed over.
   */
  lemma RightTurnPassesLeaf(h: Hasher, a: Key, b: Key, c: Key)
    requires Injective(h) && Less(a, b) && Less(b, c)
    ensures var t := Triple(a, b, c); Valid(t) && b in Keys(t) && ProvesAbsence(h, PassingOver(h, t), HashOf(h, t), b)
    ensures PlainProof(PassingOver(h, Triple(a, b, c)))
  {
    TripleIsValid(a, b, c);
    PassingOverVerifies(h, a, b, c);
    LessAsymmetric(a, b);
    LessIrreflexive(b);
    HashIsNotEmpty(h, Triple(a, b, c).right);
    hide Recomputed, HashOf;
    var proof := PassingOver(h, Triple(a, b, c));
    assert proof.leaves[1..] == [LeafProof(h, Leaf(c, [], 1))];
  }
}
