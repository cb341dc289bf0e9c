/** Saved versions on disk: roots, nodes and orphan lifetimes, and the three ways versions are deleted. */
module VersionStore {
  import opened ByteOrder
  import opened Tree
  import opened Orphans

  // ---------------------------------------------------------------- the history of saved trees

  /** Version v of the tree is `history[v - 1]`; the last one is the latest saved version. */
  type History = seq<Option<Tree>>

  ghost function NodesAt(history: History, v: int): set<Tree> {
    if 1 <= v <= |history| then RootNodes(history[v - 1]) else {}
  }

  /** Each version adds nodes stamped with its own number and otherwise reuses nodes of the version before it. */
  ghost predicate Lineage(history: History) {
    && (forall r :: r in history ==> ValidRoot(r))
    && (forall v, s :: 1 <= v <= |history| && s in NodesAt(history, v) ==>
         1 <= s.version <= v && (s.version == v || s in NodesAt(history, v - 1)))
  }

  /** A node lives in an unbroken run of versions that starts at the version it is stamped with. */
  lemma {:induction false} LifetimeIsInterval(history: History, u: int, v: int, s: Tree)
    requires Lineage(history) && s in NodesAt(history, v) && s.version <= u <= v
    ensures s in NodesAt(history, u)
    decreases v - u
  {
    if u < v { LifetimeIsInterval(history, u, v - 1, s); }
  }

  // ---------------------------------------------------------------- the store

  /** The lifetime record o<to><from><hash>. */
  datatype Orphan = Orphan(from: int, to: int, node: Tree)

  datatype Store = Store(roots: map<int, Option<Tree>>, nodes: set<Tree>, orphans: set<Orphan>)

  /** `s` was last alive, among the versions still kept, in version `v`. */
  ghost predicate LastAlive(history: History, kept: set<int>, v: int, s: Tree) {
    && v in kept && s in NodesAt(history, v)
    && forall u :: u in kept && u > v ==> s !in NodesAt(history, u)
  }

  ghost predicate Keeps(history: History, kept: set<int>) {
    && (forall v :: v in kept ==> 1 <= v <= |history|)
    && (|history| > 0 ==> |history| in kept)
  }

  /** The store a history and a set of kept versions call for: it depends on nothing else. */
  ghost function Canonical(history: History, kept: set<int>): (st: Store)
    requires Keeps(history, kept)
  {
    Store(map v | v in kept :: history[v - 1],
          set v, s | v in kept && s in NodesAt(history, v) :: s,
          set v, s | v in kept && v != |history| && s in NodesAt(history, v) && LastAlive(history, kept, v, s) ::
            Orphan(s.version, v, s))
  }

  /** getPreviousVersion: the greatest root below `version`, or 0. */
  function Previous(roots: set<int>, version: int): (p: int)
    ensures p == 0 || (p in roots && 1 <= p < version)
    ensures forall u :: u in roots && 1 <= u < version ==> u <= p
    decreases version
  {
    if version <= 1 then 0
    else if version - 1 in roots then version - 1
    else Previous(roots, version - 1)
  }

  /** The order of versions by their keys, which are unsigned: negative ones come last. */
  predicate KeyBelow(a: int, b: int) {
    if a < 0 <==> b < 0 then a < b else b < 0
  }

  lemma HasMember(s: set<int>)
    requires s != {}
    ensures exists v :: v in s
  {
    if forall v :: v !in s { NoMember(s); }
  }

  lemma NoMember(s: set<int>)
    requires forall v :: v !in s
    ensures s == {}
  {
    var none: set<int> := {};
    forall v ensures v in s <==> v in none {}
    assert s == none;
  }

  ghost function Beyond(roots: set<int>): (b: int)
    ensures forall v :: v in roots ==> v < b
  {
    if roots == {} then 0
    else
      HasMember(roots);
      var v :| v in roots;
      var b := Beyond(roots - {v});
      assert forall u :: u in roots ==> u == v || u in roots - {v};
      if v < b then b else v + 1
  }

  /**
   * getPreviousVersion: the greatest root whose key is below that of `version`, or 0; below a negative version, any.
   */
  ghost function PreviousRoot(roots: set<int>, version: int): (p: int)
    ensures p == 0 || (p in roots && 1 <= p && KeyBelow(p, version))
    ensures forall u :: u in roots && 1 <= u && KeyBelow(u, version) ==> u <= p
  {
    Previous(roots, if version < 0 then Beyond(roots) else version)
  }

  // ---------------------------------------------------------------- saving

  /** SaveBranch: the walk stops at nodes that are already saved. */
  ghost function Unsaved(t: Tree, version: int): set<Tree> {
    if t.version <= version then {}
    else {t} + if t.Leaf? then {} else Unsaved(t.left, version) + Unsaved(t.right, version)
  }

  ghost function UnsavedRoot(root: Option<Tree>, version: int): set<Tree> {
    if root.None? then {} else Unsaved(root.value, version)
  }

  /** Writing a version: new nodes, one lifetime per orphan ending at the previous version, and the root. */
  ghost function WriteVersion(st: Store, version: int, root: Option<Tree>, created: set<Tree>,
                              orphaned: set<Tree>): Store {
    var to := Previous(st.roots.Keys, version);
    Store(st.roots[version := root], st.nodes + created,
          st.orphans + set s | s in orphaned :: Orphan(s.version, to, s))
  }

  /** SaveVersionSync: the unsaved nodes and the collected orphans. */
  ghost function SaveTree(st: Store, w: Working): (st': Store) {
    WriteVersion(st, w.version + 1, w.root, UnsavedRoot(w.root, w.version), set s | s in w.orphans)
  }

  // ---------------------------------------------------------------- deleting

  /** deleteOrphans and deleteRoot for one version. */
  function DeleteVersion(st: Store, version: int): (st': Store) {
    var p := Previous(st.roots.Keys, version);
    Store(st.roots - {version},
          st.nodes - set o | o in st.orphans && o.to == version && (p < o.from || o.from == o.to) :: o.node,
          (set o | o in st.orphans && o.to != version) +
          set o | o in st.orphans && o.to == version && !(p < o.from || o.from == o.to) :: Orphan(o.from, p, o.node))
  }

  /** nodeDB.DeleteVersionsRange: versions from <= v < to. */
  function DeleteRange(st: Store, from: int, to: int): (st': Store) {
    var p := Previous(st.roots.Keys, from);
    Store(map v | v in st.roots && !(from <= v < to) :: st.roots[v],
          st.nodes - set o | o in st.orphans && from <= o.to < to && o.from > p :: o.node,
          (set o | o in st.orphans && !(from <= o.to < to)) +
          set o | o in st.orphans && from <= o.to < to && o.from <= p :: Orphan(o.from, p, o.node))
  }

  /** nodeDB.DeleteVersionsFrom: every version >= `version`, where `latest` is the root of the latest version. */
  function DeleteFrom(st: Store, version: int, latest: set<Tree>): (st': Store) {
    Store(map v | v in st.roots && v < version :: st.roots[v],
          (st.nodes - set s | s in latest && s.version >= version)
            - set o | o in st.orphans && o.from >= version :: o.node,
          set o | o in st.orphans && o.from < version && o.to < version - 1)
  }

  // ---------------------------------------------------------------- lifetimes

  /** The last version that has node `s`, or 0. */
  ghost function Last(history: History, s: Tree): (v: int)
    ensures 0 <= v <= |history|
    ensures v > 0 ==> s in NodesAt(history, v)
    ensures forall u :: u > v ==> s !in NodesAt(history, u)
  {
    if history == [] then 0
    else if s in RootNodes(history[|history| - 1]) then |history|
    else
      var rest := history[..|history| - 1];
      assert forall u :: u <= |rest| ==> NodesAt(rest, u) == NodesAt(history, u);
      Last(rest, s)
  }

  /** The last kept version that has node `s`, or 0: found from the end of its lifetime. */
  ghost function LastKept(history: History, kept: set<int>, s: Tree): int {
    var q := Previous(kept, Last(history, s) + 1);
    if q >= s.version then q else 0
  }

  lemma LastKeptIsLastAlive(history: History, kept: set<int>, s: Tree, v: int)
    requires Lineage(history) && Keeps(history, kept)
    ensures LastAlive(history, kept, v, s) <==> v > 0 && v == LastKept(history, kept, s)
  {
    var d := Last(history, s);
    forall u | 1 <= u <= d ensures s in NodesAt(history, u) <==> s.version <= u {
      if s.version <= u { LifetimeIsInterval(history, u, d, s); }
    }
  }

  /** What is in the canonical store, entry by entry. */
  lemma CanonicalEntries(history: History, kept: set<int>)
    requires Lineage(history) && Keeps(history, kept)
    ensures var st := Canonical(history, kept);
            && st.roots.Keys == kept
            && (forall s :: s in st.nodes <==> LastKept(history, kept, s) > 0)
            && (forall o :: o in st.orphans <==>
                 && o.to != |history| && o.from == o.node.version
                 && o.to > 0 && o.to == LastKept(history, kept, o.node))
  {
    hide LastKept, Previous;
    var st := Canonical(history, kept);
    forall s ensures s in st.nodes <==> LastKept(history, kept, s) > 0 {
      var q := LastKept(history, kept, s);
      LastKeptIsLastAlive(history, kept, s, q);
      if v :| v in kept && s in NodesAt(history, v) { SomewhereAlive(history, kept, s, v); }
    }
    forall o ensures o in st.orphans <==>
      o.to != |history| && o.from == o.node.version && o.to > 0 && o.to == LastKept(history, kept, o.node)
    {
      LastKeptIsLastAlive(history, kept, o.node, o.to);
    }
  }

  /** An orphan entry names a kept version, and its node is in exactly the kept versions of its lifetime. */
  lemma EntriesAreLifetimes(history: History, kept: set<int>, o: Orphan, v: int)
    requires Lineage(history) && Keeps(history, kept) && o in Canonical(history, kept).orphans && v in kept
    ensures o.to in kept && o.from <= o.to && o.node in Canonical(history, kept).nodes
    ensures o.node in NodesAt(history, v) <==> o.from <= v <= o.to
  {
    if o.from <= v <= o.to { LifetimeIsInterval(history, v, o.to, o.node); }
  }

  lemma SomewhereAlive(history: History, kept: set<int>, s: Tree, v: int)
    requires Lineage(history) && Keeps(history, kept) && v in kept && s in NodesAt(history, v)
    ensures LastKept(history, kept, s) > 0
  {
  }

  // ---------------------------------------------------------------- every deletion is canonical

  lemma PreviousAfterRange(kept: set<int>, from: int, to: int, version: int)
    requires from <= to
    ensures var kept' := set v | v in kept && !(from <= v < to);
            var q := Previous(kept, version);
            Previous(kept', version) == if from <= q < to then Previous(kept, from) else q
  {
    var kept' := set v | v in kept && !(from <= v < to);
    var q, q', p := Previous(kept, version), Previous(kept', version), Previous(kept, from);
    if from <= q < to {
      assert p > 0 ==> p in kept';
      assert q' > 0 ==> q' in kept;
    } else {
      assert q > 0 ==> q in kept';
      assert q' > 0 ==> q' in kept;
    }
  }

  ghost function WithoutRange(kept: set<int>, from: int, to: int): set<int> {
    set v | v in kept && !(from <= v < to)
  }

  lemma LastKeptAfterRange(history: History, kept: set<int>, from: int, to: int, s: Tree)
    requires from <= to
    ensures var q, p := LastKept(history, kept, s), Previous(kept, from);
            LastKept(history, WithoutRange(kept, from, to), s) ==
            if from <= q < to then (if s.version <= p then p else 0) else q
  {
    PreviousAfterRange(kept, from, to, Last(history, s) + 1);
  }

  /** DeleteVersionsRange leaves exactly the store of the remaining versions. */
  lemma DeleteRangeIsCanonical(history: History, kept: set<int>, from: int, to: int)
    requires Lineage(history) && Keeps(history, kept)
    requires from <= to <= |history|
    ensures var kept' := WithoutRange(kept, from, to);
            Keeps(history, kept') && DeleteRange(Canonical(history, kept), from, to) == Canonical(history, kept')
  {
    var st', goal := DeleteRange(Canonical(history, kept), from, to), Canonical(history, WithoutRange(kept, from, to));
    assert st'.roots == goal.roots;
    hide Canonical, Lineage, DeleteRange;
    forall s ensures s in st'.nodes <==> s in goal.nodes { RangeNode(history, kept, from, to, s); }
    forall o ensures o in st'.orphans <==> o in goal.orphans { RangeOrphan(history, kept, from, to, o); }
  }

  lemma BornBeforeKept(history: History, kept: set<int>, s: Tree)
    requires Lineage(history)
    ensures LastKept(history, kept, s) > 0 ==> 1 <= s.version
  {
  }

  lemma RangeNode(history: History, kept: set<int>, from: int, to: int, s: Tree)
    requires Lineage(history) && Keeps(history, kept) && from <= to <= |history|
             && Keeps(history, WithoutRange(kept, from, to))
    ensures s in DeleteRange(Canonical(history, kept), from, to).nodes <==>
              s in Canonical(history, WithoutRange(kept, from, to)).nodes
  {
    hide Canonical, Last, Lineage, LastKept;
    CanonicalEntries(history, kept);
    CanonicalEntries(history, WithoutRange(kept, from, to));
    LastKeptAfterRange(history, kept, from, to, s);
    BornBeforeKept(history, kept, s);
    var st, q := Canonical(history, kept), LastKept(history, kept, s);
    assert s in st.nodes && from <= q < to ==> Orphan(s.version, q, s) in st.orphans;
  }

  lemma RangeOrphan(history: History, kept: set<int>, from: int, to: int, o: Orphan)
    requires Lineage(history) && Keeps(history, kept) && from <= to <= |history|
             && Keeps(history, WithoutRange(kept, from, to))
    ensures o in DeleteRange(Canonical(history, kept), from, to).orphans <==>
              o in Canonical(history, WithoutRange(kept, from, to)).orphans
  {
    hide Canonical, Last, Lineage, LastKept;
    CanonicalEntries(history, kept);
    CanonicalEntries(history, WithoutRange(kept, from, to));
    LastKeptAfterRange(history, kept, from, to, o.node);
    BornBeforeKept(history, kept, o.node);
    var st, q := Canonical(history, kept), LastKept(history, kept, o.node);
    assert o.node in st.nodes && from <= q < to ==> Orphan(o.node.version, q, o.node) in st.orphans;
  }

  /** Deleting one version is deleting the range of that version alone: deleteOrphans' extra test never decides. */
  lemma DeleteVersionIsRange(st: Store, version: int)
    requires version >= 1
    ensures DeleteVersion(st, version) == DeleteRange(st, version, version + 1)
  {
    var a, b := DeleteVersion(st, version), DeleteRange(st, version, version + 1);
    assert a.roots == b.roots;
    assert forall o: Orphan :: o.to == version <==> version <= o.to < version + 1;
    assert a.nodes == b.nodes;
    assert a.orphans == b.orphans;
  }

  lemma DeleteVersionIsCanonical(history: History, kept: set<int>, version: int)
    requires Lineage(history) && Keeps(history, kept) && 1 <= version < |history|
    ensures Keeps(history, kept - {version})
    ensures DeleteVersion(Canonical(history, kept), version) == Canonical(history, kept - {version})
  {
    DeleteVersionIsRange(Canonical(history, kept), version);
    DeleteRangeIsCanonical(history, kept, version, version + 1);
    assert WithoutRange(kept, version, version + 1) == kept - {version};
  }

  /** Any sequence of single deletions. */
  function DeleteEach(st: Store, versions: seq<int>): Store
    decreases versions
  {
    if versions == [] then st else DeleteEach(DeleteVersion(st, versions[0]), versions[1..])
  }

  /** Pruning is confluent: the store that is left depends on the surviving versions only, not on order or grouping. */
  lemma {:induction false} DeletionsAreConfluent(history: History, kept: set<int>, versions: seq<int>)
    requires Lineage(history) && Keeps(history, kept)
    requires forall i :: 0 <= i < |versions| ==> 1 <= versions[i] < |history|
    ensures var kept' := kept - set v | v in versions;
            Keeps(history, kept') && DeleteEach(Canonical(history, kept), versions) == Canonical(history, kept')
  {
    if versions == [] {
      assert kept - (set v | v in versions) == kept;
    } else {
      DeleteVersionIsCanonical(history, kept, versions[0]);
      DeletionsAreConfluent(history, kept - {versions[0]}, versions[1..]);
      assert kept - (set v | v in versions) == kept - {versions[0]} - set v | v in versions[1..];
    }
  }

  // ---------------------------------------------------------------- rolling back to a version

  ghost function UpTo(kept: set<int>, last: int): set<int> {
    set v | v in kept && v <= last
  }

  lemma LastOfPrefix(history: History, n: int, s: Tree)
    requires Lineage(history) && 0 <= n <= |history|
    ensures var d := Last(history, s);
            Last(history[..n], s) == if d <= n then d else if s.version <= n then n else 0
  {
    var d := Last(history, s);
    assert forall u :: u <= n ==> NodesAt(history[..n], u) == NodesAt(history, u);
    if d > n && s.version <= n && n > 0 { LifetimeIsInterval(history, n, d, s); }
  }

  lemma PrefixKeepsLineage(history: History, n: int)
    requires Lineage(history) && 0 <= n <= |history|
    ensures Lineage(history[..n])
  {
    assert forall u :: u <= n ==> NodesAt(history[..n], u) == NodesAt(history, u);
  }

  /** DeleteVersionsFrom(last + 1) leaves exactly what the kept versions up to `last` call for with `last` as latest. */
  lemma DeleteFromIsCanonical(history: History, kept: set<int>, last: int)
    requires Lineage(history) && Keeps(history, kept) && last in kept
    ensures var kept' := UpTo(kept, last);
            && Lineage(history[..last]) && Keeps(history[..last], kept')
            && DeleteFrom(Canonical(history, kept), last + 1, NodesAt(history, |history|)) ==
               Canonical(history[..last], kept')
  {
    var kept' := UpTo(kept, last);
    PrefixKeepsLineage(history, last);
    var st := Canonical(history, kept);
    var st', goal := DeleteFrom(st, last + 1, NodesAt(history, |history|)), Canonical(history[..last], kept');
    CanonicalEntries(history, kept);
    CanonicalEntries(history[..last], kept');
    assert st'.roots == goal.roots;
    hide Canonical, Lineage, LastKept;
    forall s ensures s in st'.nodes <==> s in goal.nodes {
      LastKeptOfPrefix(history, kept, last, s);
      assert s in st.nodes && s !in NodesAt(history, |history|) ==>
        Orphan(s.version, LastKept(history, kept, s), s) in st.orphans;
    }
    forall o ensures o in st'.orphans <==> o in goal.orphans {
      LastKeptOfPrefix(history, kept, last, o.node);
    }
  }

  lemma LastKeptOfPrefix(history: History, kept: set<int>, last: int, s: Tree)
    requires Lineage(history) && Keeps(history, kept) && last in kept
    ensures var q := LastKept(history, kept, s);
            && LastKept(history[..last], UpTo(kept, last), s) ==
               (if q <= last then q else if s.version <= last then last else 0)
            && (q == |history| <==> s in NodesAt(history, |history|))
            && (q > 0 ==> s.version <= q)
  {
    LastOfPrefix(history, last, s);
    if Last(history, s) <= last { PreviousUpTo(kept, last, Last(history, s) + 1); }
    PreviousUpTo(kept, last, last + 1);
  }

  lemma PreviousUpTo(kept: set<int>, last: int, version: int)
    requires version <= last + 1
    ensures Previous(UpTo(kept, last), version) == Previous(kept, version)
  {
    var q, q' := Previous(kept, version), Previous(UpTo(kept, last), version);
    assert q > 0 ==> q in UpTo(kept, last);
    assert q' > 0 ==> q' in kept;
  }

  // ---------------------------------------------------------------- saving is canonical

  ghost function Latest(history: History): Option<Tree> {
    if history == [] then None else history[|history| - 1]
  }

  lemma {:induction false} UnsavedAreNodes(t: Tree, version: int)
    ensures Unsaved(t, version) <= Nodes(t)
    ensures forall s :: s in Unsaved(t, version) ==> s.version > version
  {
    if t.Inner? { UnsavedAreNodes(t.left, version); UnsavedAreNodes(t.right, version); }
  }

  /** The nodes SaveBranch skips are nodes of the last saved tree: nothing is missed below a saved node. */
  lemma {:induction false} UnsavedMissesNothing(t: Tree, version: int, saved: set<Tree>)
    requires forall s :: s in Nodes(t) && s.version <= version ==> Nodes(s) <= saved
    ensures Nodes(t) <= Unsaved(t, version) + saved
  {
    if t.version <= version {
      assert t in Nodes(t);
    } else if t.Inner? {
      UnsavedMissesNothing(t.left, version, saved);
      UnsavedMissesNothing(t.right, version, saved);
    }
  }

  lemma {:induction false} NodesAreClosed(t: Tree, s: Tree)
    requires s in Nodes(t)
    ensures Nodes(s) <= Nodes(t)
  {
    if s != t { if s in Nodes(t.left) { NodesAreClosed(t.left, s); } else { NodesAreClosed(t.right, s); } }
  }

  /** The working tree belongs to the history it would extend. */
  ghost predicate Extends(history: History, w: Working) {
    && w.version == |history| && w.lastSaved == Latest(history)
    && Balanced(w)
    && forall s :: s in RootNodes(w.lastSaved) ==> s.version >= 1
  }

  lemma SavedNodesCovered(history: History, w: Working)
    requires Extends(history, w)
    ensures RootNodes(w.root) <= UnsavedRoot(w.root, w.version) + RootNodes(w.lastSaved)
    ensures forall s :: s in UnsavedRoot(w.root, w.version) ==> s in RootNodes(w.root) && s.version == w.version + 1
  {
    BalancedIsExact(w);
    if w.root.Some? {
      var t := w.root.value;
      UnsavedAreNodes(t, w.version);
      forall s | s in Nodes(t) && s.version <= w.version ensures Nodes(s) <= RootNodes(w.lastSaved) {
        NodesAreClosed(w.lastSaved.value, s);
      }
      UnsavedMissesNothing(t, w.version, RootNodes(w.lastSaved));
    }
  }

  lemma SavingExtendsLineage(history: History, kept: set<int>, w: Working)
    requires Lineage(history) && Keeps(history, kept) && Extends(history, w)
    ensures Lineage(history + [w.root]) && Keeps(history + [w.root], kept + {w.version + 1})
  {
    hide Balanced, ValidRoot, Lineage, OrphansExact;
    BalancedIsExact(w);
    BalancedIsValid(w);
    NewNodesAreStamped(w);
    LongerLineage(history, w.root);
  }

  lemma NewNodesAreStamped(w: Working)
    requires OrphansExact(w)
    ensures forall s :: s in RootNodes(w.root) ==> s.version == w.version + 1 || s in RootNodes(w.lastSaved)
  {
  }

  lemma LongerLineage(history: History, root: Option<Tree>)
    requires Lineage(history) && ValidRoot(root)
    requires forall s :: s in RootNodes(root) ==> s.version == |history| + 1 || s in RootNodes(Latest(history))
    ensures Lineage(history + [root])
  {
    hide ValidRoot, RootNodes;
    var h' := history + [root];
    assert forall u :: u <= |history| ==> NodesAt(h', u) == NodesAt(history, u);
    assert NodesAt(h', |h'|) == RootNodes(root);
    assert history != [] ==> NodesAt(history, |history|) == RootNodes(Latest(history));
    NothingSaved(history);
    hide NodesAt;
    forall v, s | 1 <= v <= |h'| && s in NodesAt(h', v)
      ensures 1 <= s.version <= v && (s.version == v || s in NodesAt(h', v - 1))
    {
      if v == |h'| && s.version != v { assert s in NodesAt(history, |history|); }
    }
  }

  lemma NothingSaved(history: History)
    ensures history == [] ==> RootNodes(Latest(history)) == {}
  {
  }

  /** Writing version `p` on top of `c` changes the last kept version of the nodes of `p` and of no others. */
  lemma LastKeptAfterJump(history: History, kept: set<int>, c: int, p: int, s: Tree)
    requires Lineage(history) && 0 <= c < p <= |history| && Keeps(history[..c], kept)
    ensures var q := LastKept(history[..c], kept, s);
            && LastKept(history[..p], kept + {p}, s) == (if s in NodesAt(history, p) then p else q)
            && q <= c && (s in NodesAt(history, c) <==> q == c > 0)
            && (s in NodesAt(history, p) && s !in NodesAt(history, c) ==> q <= 0)
  {
    hide Lineage, Previous;
    EndsByPrefix(history, c, s);
    EndsByPrefix(history, p, s);
    if s in NodesAt(history, p) && s.version <= c && c > 0 { LifetimeIsInterval(history, c, p, s); }
    var d, d' := Last(history[..c], s), Last(history[..p], s);
    hide Last, NodesAt;
    PreviousBelow(kept, p, d' + 1);
    PreviousBelow(kept, p, d + 1);
    PreviousOfBounded(kept, c, d' + 1);
  }

  /** The end of a node's lifetime in the history up to `n`: what that says about version `n`. */
  lemma EndsByPrefix(history: History, n: int, s: Tree)
    requires Lineage(history) && 0 <= n <= |history|
    ensures var d, e := Last(history, s), Last(history[..n], s);
            && e == (if d <= n then d else if s.version <= n then n else 0)
            && (s in NodesAt(history, n) <==> e == n > 0)
            && (s in NodesAt(history, n) ==> 1 <= s.version <= n)
            && (e > 0 ==> s.version <= e)
  {
    LastOfPrefix(history, n, s);
  }

  /** Above the greatest kept version nothing changes. */
  lemma PreviousOfBounded(kept: set<int>, c: int, version: int)
    requires forall v :: v in kept ==> 1 <= v <= c
    requires c > 0 ==> c in kept
    ensures 0 <= c < version ==> Previous(kept, version) == c
  {
  }

  lemma PreviousBelow(kept: set<int>, p: int, version: int)
    ensures version <= p ==> Previous(kept + {p}, version) == Previous(kept, version)
    ensures version == p + 1 && p >= 1 ==> Previous(kept + {p}, version) == p
  {
    var q, q' := Previous(kept, version), Previous(kept + {p}, version);
    assert q > 0 ==> q in kept + {p};
    assert version <= p && q' > 0 ==> q' in kept;
  }

  /** Versions between `c` and `p` need never have been written: the store of the longer history is still exact. */
  lemma JumpIsCanonical(history: History, kept: set<int>, c: int, p: int, created: set<Tree>, orphaned: set<Tree>)
    requires Lineage(history) && 0 <= c < p <= |history| && Keeps(history[..c], kept)
    requires created <= NodesAt(history, p) <= created + NodesAt(history, c)
    requires orphaned == NodesAt(history, c) - NodesAt(history, p)
    ensures Lineage(history[..c]) && Lineage(history[..p]) && Keeps(history[..p], kept + {p})
    ensures WriteVersion(Canonical(history[..c], kept), p, history[p - 1], created, orphaned) ==
            Canonical(history[..p], kept + {p})
  {
    hide Canonical, Lineage, NodesAt, Previous;
    PrefixKeepsLineage(history, c);
    PrefixKeepsLineage(history, p);
    JumpRoots(history, kept, c, p, created, orphaned);
    hide WriteVersion;
    var st' := WriteVersion(Canonical(history[..c], kept), p, history[p - 1], created, orphaned);
    var goal := Canonical(history[..p], kept + {p});
    forall s ensures s in st'.nodes <==> s in goal.nodes { JumpNode(history, kept, c, p, created, orphaned, s); }
    forall o ensures o in st'.orphans <==> o in goal.orphans { JumpOrphan(history, kept, c, p, created, orphaned, o); }
  }

  lemma JumpRoots(history: History, kept: set<int>, c: int, p: int, created: set<Tree>, orphaned: set<Tree>)
    requires 0 <= c < p <= |history| && Keeps(history[..c], kept)
    ensures Keeps(history[..p], kept + {p})
    ensures WriteVersion(Canonical(history[..c], kept), p, history[p - 1], created, orphaned).roots ==
            Canonical(history[..p], kept + {p}).roots
  {
  }

  lemma JumpNode(history: History, kept: set<int>, c: int, p: int, created: set<Tree>, orphaned: set<Tree>, s: Tree)
    requires Lineage(history) && 0 <= c < p <= |history| && Keeps(history[..c], kept) && Keeps(history[..p], kept + {p})
    requires Lineage(history[..c]) && Lineage(history[..p])
    requires created <= NodesAt(history, p) <= created + NodesAt(history, c)
    ensures s in WriteVersion(Canonical(history[..c], kept), p, history[p - 1], created, orphaned).nodes <==>
            s in Canonical(history[..p], kept + {p}).nodes
  {
    hide Canonical, LastKept, Lineage, NodesAt, Previous;
    CanonicalEntries(history[..c], kept);
    CanonicalEntries(history[..p], kept + {p});
    LastKeptAfterJump(history, kept, c, p, s);
  }

  lemma JumpOrphan(history: History, kept: set<int>, c: int, p: int, created: set<Tree>, orphaned: set<Tree>, o: Orphan)
    requires Lineage(history) && 0 <= c < p <= |history| && Keeps(history[..c], kept) && Keeps(history[..p], kept + {p})
    requires Lineage(history[..c]) && Lineage(history[..p])
    requires orphaned == NodesAt(history, c) - NodesAt(history, p)
    ensures o in WriteVersion(Canonical(history[..c], kept), p, history[p - 1], created, orphaned).orphans <==>
            o in Canonical(history[..p], kept + {p}).orphans
  {
    hide Canonical, LastKept, Lineage, NodesAt, Previous;
    CanonicalEntries(history[..c], kept);
    CanonicalEntries(history[..p], kept + {p});
    LastKeptAfterJump(history, kept, c, p, o.node);
    PreviousIsLatest(history, kept, c, p);
  }

  lemma PreviousIsLatest(history: History, kept: set<int>, c: int, p: int)
    requires 0 <= c < p <= |history| && Keeps(history[..c], kept)
    ensures Previous(kept, p) == c
  {
  }

  /** SaveVersionSync on an exact store with an exact orphan list gives the exact store of the longer history. */
  lemma SaveIsCanonical(history: History, kept: set<int>, w: Working)
    requires Lineage(history) && Keeps(history, kept) && Extends(history, w)
    ensures var h', kept' := history + [w.root], kept + {w.version + 1};
            && Lineage(h') && Keeps(h', kept')
            && SaveTree(Canonical(history, kept), w) == Canonical(h', kept')
  {
    hide Canonical, Balanced, Lineage, UnsavedRoot;
    var h', c := history + [w.root], |history|;
    SavingExtendsLineage(history, kept, w);
    SavedNodesCovered(history, w);
    BalancedIsExact(w);
    assert h'[..c] == history && h'[..c + 1] == h';
    assert NodesAt(h', c + 1) == RootNodes(w.root) && NodesAt(h', c) == RootNodes(w.lastSaved);
    JumpIsCanonical(h', kept, c, c + 1, UnsavedRoot(w.root, w.version), set s | s in w.orphans);
  }
}
