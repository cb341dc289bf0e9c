/** Which saved nodes a run of Set and Remove calls drops, and that the orphan list names exactly those. */
module Orphans {
  import opened ByteOrder
  import opened Tree
  import opened TreeUpdate

  /** All nodes of a tree, itself included. */
  ghost function Nodes(t: Tree): set<Tree> {
    {t} + if t.Leaf? then {} else Nodes(t.left) + Nodes(t.right)
  }

  ghost function RootNodes(root: Option<Tree>): set<Tree> {
    if root.None? then {} else Nodes(root.value)
  }

  /** How often node `s` occurs in `t`. */
  ghost function Copies(t: Tree, s: Tree): nat {
    (if t == s then 1 else 0) + if t.Leaf? then 0 else Copies(t.left, s) + Copies(t.right, s)
  }

  ghost function RootCopies(root: Option<Tree>, s: Tree): nat {
    if root.None? then 0 else Copies(root.value, s)
  }

  /** How often node `s` is reported in an orphan list. */
  ghost function Reported(orphans: seq<Tree>, s: Tree): nat {
    multiset(orphans)[s]
  }

  lemma ReportedParts(a: seq<Tree>, b: seq<Tree>, s: Tree)
    ensures Reported(a + b, s) == Reported(a, s) + Reported(b, s)
    ensures Reported([], s) == 0
  {
  }

  lemma ReportedOne(a: Tree, s: Tree)
    ensures Reported([a], s) == if a == s then 1 else 0
  {
  }

  lemma ReportedThree(a: Tree, b: Tree, c: Tree, s: Tree)
    ensures Reported([a, b, c], s) == Reported([a], s) + Reported([b], s) + Reported([c], s)
  {
    hide Reported;
    assert [a, b, c] == [a] + ([b] + [c]);
    ReportedParts([a], [b] + [c], s);
    ReportedParts([b], [c], s);
  }

  lemma CopiesJoin(key: Key, left: Tree, right: Tree, version: int, s: Tree)
    requires s.version != version
    ensures Copies(Join(key, left, right, version), s) == Copies(left, s) + Copies(right, s)
  {
  }

  lemma {:induction false} CopiesAreNodes(t: Tree, s: Tree)
    ensures s in Nodes(t) <==> Copies(t, s) > 0
  {
    if t.Inner? { CopiesAreNodes(t.left, s); CopiesAreNodes(t.right, s); }
  }

  // ---------------------------------------------------------------- conservation

  /** Rebalancing neither loses nor invents a node of an earlier version: each copy stays or is reported. */
  lemma {:induction false} BalanceConserves(t: Tree, version: int, s: Tree)
    requires NearlyShaped(t) && t.version == version && s.version != version
    ensures var r := Balance(t, version);
            Copies(t, s) == Copies(r.tree, s) + Reported(r.orphans, s)
  {
    hide Reported;
    ShapedIsPositive(t.left);
    ShapedIsPositive(t.right);
    ReportedParts([], [], s);
    var l, r := t.left, t.right;
    if BalanceFactor(t) > 1 {
      ReportedOne(l, s);
      if BalanceFactor(l) < 0 {
        ShapedIsPositive(l.right);
        ShapedIsPositive(l.left);
        var m := l.right;
        ReportedOne(m, s);
        ReportedOne(RotateLeft(l, version), s);
        ReportedThree(l, m, RotateLeft(l, version), s);
        CopiesJoin(l.key, l.left, m.left, version, s);
        CopiesJoin(t.key, m.right, r, version, s);
      } else {
        CopiesJoin(t.key, l.right, r, version, s);
      }
    } else if BalanceFactor(t) < -1 {
      ReportedOne(r, s);
      if BalanceFactor(r) > 0 {
        ShapedIsPositive(r.right);
        ShapedIsPositive(r.left);
        var m := r.left;
        ReportedOne(m, s);
        ReportedOne(RotateRight(r, version), s);
        ReportedThree(r, RotateRight(r, version), m, s);
        CopiesJoin(t.key, l, m.left, version, s);
        CopiesJoin(r.key, m.right, r.right, version, s);
        assert Copies(t, s) == Copies(l, s) + Copies(r, s);
        assert Copies(r, s) == (if r == s then 1 else 0) + Copies(m, s) + Copies(r.right, s);
      } else {
        CopiesJoin(t.key, l, r.left, version, s);
      }
    }
  }

  /** Each copy of a node of an earlier version is, after Set, either still in the tree or reported as an orphan. */
  lemma {:induction false} SetConserves(t: Tree, key: Key, value: Value, version: int, s: Tree)
    requires Shaped(t) && s.version != version
    ensures var r := SetTree(t, key, value, version);
            Copies(t, s) == Copies(r.tree, s) + Reported(r.orphans, s)
  {
    hide Balance, Less, Reported;
    ReportedOne(t, s);
    ReportedParts([], [], s);
    if t.Inner? {
      var goLeft := Less(key, t.key);
      var child := if goLeft then t.left else t.right;
      var sub := SetTree(child, key, value, version);
      SetConserves(child, key, value, version, s);
      ReportedParts([t], sub.orphans, s);
      if !sub.updated {
        var node := Join(t.key, if goLeft then sub.tree else t.left, if goLeft then t.right else sub.tree, version);
        BalanceConserves(node, version, s);
        ReportedParts([t] + sub.orphans, Balance(node, version).orphans, s);
      }
    }
  }

  /** The same law for Remove. */
  lemma {:induction false} RemoveConserves(t: Tree, key: Key, version: int, s: Tree)
    requires Shaped(t) && s.version != version
    ensures var r := RemoveTree(t, key, version);
            Copies(t, s) == RootCopies(r.tree, s) + Reported(r.orphans, s)
  {
    hide Balance, Less, Reported;
    ReportedOne(t, s);
    ReportedParts([], [], s);
    if t.Inner? {
      var goLeft := Less(key, t.key);
      var child := if goLeft then t.left else t.right;
      var sub := RemoveTree(child, key, version);
      RemoveConserves(child, key, version, s);
      ReportedParts(sub.orphans, [t], s);
      if sub.orphans != [] && sub.tree.Some? {
        var newKey := if !goLeft && sub.newKey.Some? then sub.newKey.value else t.key;
        var left, right := if goLeft then sub.tree.value else t.left, if goLeft then t.right else sub.tree.value;
        var node := Join(newKey, left, right, version);
        BalanceConserves(node, version, s);
        ReportedParts(sub.orphans + [t], Balance(node, version).orphans, s);
      }
    }
  }

  // ---------------------------------------------------------------- distinctness

  lemma {:induction false} SubtreeIsValid(t: Tree, s: Tree)
    requires Valid(t) && s in Nodes(t)
    ensures Valid(s) && Keys(s) <= Keys(t) && MinKey(s) in Keys(s)
  {
    MinKeyIsLeast(s) by { if t != s { if s in Nodes(t.left) { SubtreeIsValid(t.left, s); }
        else { SubtreeIsValid(t.right, s); } } }
    if t != s { if s in Nodes(t.left) { SubtreeIsValid(t.left, s); } else { SubtreeIsValid(t.right, s); } }
  }

  /** No node occurs twice in a valid tree. */
  lemma {:induction false} NodesAreDistinct(t: Tree, s: Tree)
    requires Valid(t)
    ensures Copies(t, s) <= 1
  {
    if t.Inner? {
      NodesAreDistinct(t.left, s);
      NodesAreDistinct(t.right, s);
      CopiesAreNodes(t.left, s);
      CopiesAreNodes(t.right, s);
      MinKeyIsLeast(t.left);
      MinKeyIsLeast(t.right);
      if s in Nodes(t.left) { SubtreeIsValid(t.left, s); }
      if s in Nodes(t.right) { SubtreeIsValid(t.right, s); }
      assert Keys(t.left) !! Keys(t.right);
    }
  }

  // ---------------------------------------------------------------- a run between two saves

  /** The in-memory part of MutableTree: the last saved tree, the working tree and the orphans collected so far. */
  datatype Working = Working(version: int, lastSaved: Option<Tree>, root: Option<Tree>, orphans: seq<Tree>)

  datatype Edit = Set(key: Key, value: Value) | Remove(key: Key) | Rollback

  /**
   * addOrphans: only saved nodes are kept. A node is saved exactly when it belongs to a version up to the last save.
   */
  function KeepSaved(orphans: seq<Tree>, version: int): seq<Tree> {
    if orphans == [] then []
    else (if orphans[0].version <= version then [orphans[0]] else []) + KeepSaved(orphans[1..], version)
  }

  lemma {:induction false} KeepSavedReports(orphans: seq<Tree>, version: int, s: Tree)
    ensures Reported(KeepSaved(orphans, version), s) == if s.version <= version then Reported(orphans, s) else 0
  {
    hide Reported;
    ReportedParts([], [], s);
    if orphans != [] {
      assert orphans == [orphans[0]] + orphans[1..];
      ReportedParts([orphans[0]], orphans[1..], s);
      ReportedOne(orphans[0], s);
      ReportedParts([orphans[0]], KeepSaved(orphans[1..], version), s);
      KeepSavedReports(orphans[1..], version, s);
      assert [] + KeepSaved(orphans[1..], version) == KeepSaved(orphans[1..], version);
    }
  }

  function Apply(w: Working, edit: Edit): (w': Working)
    requires ValidRoot(w.root)
  {
    match edit
    case Set(key, value) =>
      if w.root.None? then w.(root := Some(Leaf(key, value, w.version + 1)))
      else
        var r := SetTree(w.root.value, key, value, w.version + 1);
        w.(root := Some(r.tree), orphans := w.orphans + KeepSaved(r.orphans, w.version))
    case Remove(key) =>
      if w.root.None? then w
      else
        var r := RemoveTree(w.root.value, key, w.version + 1);
        if r.orphans == [] then w
        else w.(root := r.tree, orphans := w.orphans + KeepSaved(r.orphans, w.version))
    case Rollback => w.(root := if w.version > 0 then w.lastSaved else None, orphans := [])
  }

  /** The map an edit leaves behind. */
  ghost function Edited(saved: map<Key, Value>, m: map<Key, Value>, edit: Edit): map<Key, Value> {
    match edit
    case Set(key, value) => m[key := value]
    case Remove(key) => m - {key}
    case Rollback => saved
  }

  /** Every node of the last save is accounted for: it is in the working tree or in the orphan list. */
  ghost predicate Balanced(w: Working) {
    && w.version >= 0 && (w.version == 0 ==> w.lastSaved.None?)
    && ValidRoot(w.lastSaved) && ValidRoot(w.root)
    && (forall s :: s in RootNodes(w.lastSaved) ==> s.version <= w.version)
    && (forall s: Tree :: s.version != w.version + 1 ==>
         RootCopies(w.lastSaved, s) == RootCopies(w.root, s) + Reported(w.orphans, s))
    && (forall s: Tree :: s.version == w.version + 1 ==> Reported(w.orphans, s) == 0)
  }

  /**
   * A change that moves nodes of earlier versions only from the working tree to its own orphan list keeps the balance.
   */
  lemma Absorb(w: Working, root: Option<Tree>, orphans: seq<Tree>)
    requires Balanced(w) && ValidRoot(root)
    requires Conserved(w.root, root, orphans, w.version + 1)
    ensures Balanced(w.(root := root, orphans := w.orphans + KeepSaved(orphans, w.version)))
  {
    hide Reported, RootCopies;
    forall s: Tree
      ensures Reported(w.orphans + KeepSaved(orphans, w.version), s) ==
              Reported(w.orphans, s) + if s.version <= w.version then Reported(orphans, s) else 0
      ensures s.version > w.version + 1 ==> RootCopies(w.lastSaved, s) == 0
    {
      ReportedParts(w.orphans, KeepSaved(orphans, w.version), s);
      KeepSavedReports(orphans, w.version, s);
      RootCopiesAreNodes(w.lastSaved, s);
    }
  }

  lemma RootCopiesAreNodes(root: Option<Tree>, s: Tree)
    ensures s in RootNodes(root) <==> RootCopies(root, s) > 0
  {
    if root.Some? { CopiesAreNodes(root.value, s); }
  }

  /** One Set, Remove or Rollback: the map changes as asked and no saved node goes missing. */
  lemma {:induction false} ApplyKeepsBalance(w: Working, edit: Edit)
    requires Balanced(w)
    ensures Balanced(Apply(w, edit))
    ensures RootContents(Apply(w, edit).root) ==
            Edited(RootContents(w.lastSaved), RootContents(w.root), edit)
  {
    match edit
    case Set(key, value) => if w.root.Some? { SetAbsorbed(w, key, value); } else { FirstLeaf(w, key, value); }
    case Remove(key) => if w.root.Some? { RemoveAbsorbed(w, key); }
    case Rollback => RollbackBalances(w);
  }

  /** From tree `before` to `after`, every node of another version was kept or reported. */
  ghost predicate Conserved(before: Option<Tree>, after: Option<Tree>, orphans: seq<Tree>, version: int) {
    forall s: Tree :: s.version != version ==>
      RootCopies(before, s) == RootCopies(after, s) + Reported(orphans, s)
  }

  lemma SetAbsorbed(w: Working, key: Key, value: Value)
    requires Balanced(w) && w.root.Some?
    ensures var w' := Apply(w, Set(key, value));
            Balanced(w') && RootContents(w'.root) == RootContents(w.root)[key := value]
  {
    hide Reported, SetTree, RootCopies, Contents, Shaped, Ordered;
    BalancedIsValid(w);
    SetConserved(w.root.value, key, value, w.version + 1);
    SetRefinesUpdate(w.root.value, key, value, w.version + 1);
    var r := SetTree(w.root.value, key, value, w.version + 1);
    Absorb(w, Some(r.tree), r.orphans);
  }

  lemma SetConserved(t: Tree, key: Key, value: Value, version: int)
    requires Shaped(t)
    ensures var r := SetTree(t, key, value, version); Conserved(Some(t), Some(r.tree), r.orphans, version)
  {
    hide SetTree, Shaped, Copies, Reported;
    forall s: Tree | s.version != version
      ensures var r := SetTree(t, key, value, version);
              Copies(t, s) == Copies(r.tree, s) + Reported(r.orphans, s)
    {
      SetConserves(t, key, value, version, s);
    }
  }

  lemma RemoveAbsorbed(w: Working, key: Key)
    requires Balanced(w) && w.root.Some?
    ensures var w' := Apply(w, Remove(key));
            Balanced(w') && RootContents(w'.root) == RootContents(w.root) - {key}
  {
    hide Reported, RemoveTree, RootCopies, Contents, Shaped, Ordered;
    BalancedIsValid(w);
    RemoveConserved(w.root.value, key, w.version + 1);
    RemoveRefinesDeletion(w.root.value, key, w.version + 1);
    var r := RemoveTree(w.root.value, key, w.version + 1);
    if r.orphans != [] { Absorb(w, r.tree, r.orphans); }
  }

  lemma RemoveConserved(t: Tree, key: Key, version: int)
    requires Shaped(t)
    ensures var r := RemoveTree(t, key, version); Conserved(Some(t), r.tree, r.orphans, version)
  {
    hide RemoveTree, Shaped, Copies, Reported;
    forall s: Tree | s.version != version
      ensures var r := RemoveTree(t, key, version);
              Copies(t, s) == RootCopies(r.tree, s) + Reported(r.orphans, s)
    {
      RemoveConserves(t, key, version, s);
    }
  }

  lemma FirstLeaf(w: Working, key: Key, value: Value)
    requires Balanced(w) && w.root.None?
    ensures Balanced(w.(root := Some(Leaf(key, value, w.version + 1))))
  {
  }

  lemma RollbackBalances(w: Working)
    requires Balanced(w)
    ensures Balanced(Apply(w, Rollback)) && Apply(w, Rollback).root == w.lastSaved
  {
    forall s: Tree ensures s.version == w.version + 1 ==> RootCopies(w.lastSaved, s) == 0 {
      RootCopiesAreNodes(w.lastSaved, s);
    }
  }

  /** A run of edits from the last save. */
  function ApplyAll(w: Working, edits: seq<Edit>): (w': Working)
    requires Balanced(w)
    ensures Balanced(w') && w'.version == w.version && w'.lastSaved == w.lastSaved
    decreases edits
  {
    if edits == [] then w
    else
      ApplyKeepsBalance(w, edits[0]);
      ApplyAll(Apply(w, edits[0]), edits[1..])
  }

  /** A freshly loaded or saved tree. */
  function Fresh(version: int, saved: Option<Tree>): (w: Working)
    requires SavedTree(version, saved)
    ensures Balanced(w)
  {
    Working(version, saved, saved, [])
  }

  ghost predicate SavedTree(version: int, saved: Option<Tree>) {
    && version >= 0 && (version == 0 ==> saved.None?) && ValidRoot(saved)
    && forall s :: s in RootNodes(saved) ==> s.version <= version
  }

  lemma BalancedIsValid(w: Working)
    requires Balanced(w)
    ensures ValidRoot(w.root) && ValidRoot(w.lastSaved)
  {
  }

  /** What the orphan list is after any run: exactly the saved nodes the working tree no longer has, each once. */
  ghost predicate OrphansExact(w: Working) {
    && (forall s :: s in w.orphans <==> s in RootNodes(w.lastSaved) && s !in RootNodes(w.root))
    && (forall i, j :: 0 <= i < j < |w.orphans| ==> w.orphans[i] != w.orphans[j])
    && (forall s :: s in RootNodes(w.root) ==> s.version == w.version + 1 || s in RootNodes(w.lastSaved))
  }

  lemma BalancedIsExact(w: Working)
    requires Balanced(w)
    ensures OrphansExact(w)
  {
    forall s: Tree
      ensures Reported(w.orphans, s) <= 1
      ensures Reported(w.orphans, s) > 0 <==> s in RootNodes(w.lastSaved) && s !in RootNodes(w.root)
      ensures s in RootNodes(w.root) ==> s.version == w.version + 1 || s in RootNodes(w.lastSaved)
    {
      RootCopiesAreNodes(w.lastSaved, s);
      RootCopiesAreNodes(w.root, s);
      if w.lastSaved.Some? { NodesAreDistinct(w.lastSaved.value, s); }
    }
    forall i, j | 0 <= i < j < |w.orphans| ensures w.orphans[i] != w.orphans[j] {
      if w.orphans[i] == w.orphans[j] { ReportedTwice(w.orphans, i, j); }
    }
  }

  lemma ReportedTwice(orphans: seq<Tree>, i: int, j: int)
    requires 0 <= i < j < |orphans| && orphans[i] == orphans[j]
    ensures Reported(orphans, orphans[i]) >= 2
  {
    assert orphans == orphans[..j] + orphans[j..];
    assert orphans[i] in multiset(orphans[..j]) by { assert orphans[..j][i] in orphans[..j]; }
    assert orphans[j] in multiset(orphans[j..]) by { assert orphans[j..][0] in orphans[j..]; }
  }

  /** Orphan exactness over whole runs. */
  lemma OrphansExactInEveryRun(version: int, saved: Option<Tree>, edits: seq<Edit>)
    requires SavedTree(version, saved)
    ensures OrphansExact(ApplyAll(Fresh(version, saved), edits))
  {
    BalancedIsExact(ApplyAll(Fresh(version, saved), edits));
  }
}
