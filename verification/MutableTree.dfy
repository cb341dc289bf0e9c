/** MutableTree in synchronous mode: the program's own state, and that it stays exact through every call. */
module MutableTree {
  import opened ByteOrder
  import opened Tree
  import opened TreeUpdate
  import opened Orphans
  import opened VersionStore
  import opened Hashing
  import opened NodeHeap
  import opened NodeUpdate
  import opened SaveBranch
  import opened DiskStore
  import opened VersionGroups

  ghost function TreeOf(n: Node?): Option<Tree>
    reads n
  {
    if n == null then None else Some(n.tree)
  }

  class MutableTree {
    const ndb: NodeDB
    var version: int
    var root: Node?
    var lastSaved: Node?
    var orphans: seq<Node>
    /** The trees the orphans stand for. */
    ghost var orphanTrees: seq<Tree>
    var versions: set<int>
    ghost var heap: set<Node>
    ghost var history: History

    /** The state as a value. */
    ghost function Work(): Working
      reads this`root, this`lastSaved, this`orphanTrees, this`version, root, lastSaved
    {
      Working(version, TreeOf(lastSaved), TreeOf(root), orphanTrees)
    }

    /** The nodes in memory agree with the trees they stand for and with the latest version. */
    ghost predicate Linked()
      reads this`root, this`lastSaved, this`orphans, this`orphanTrees, this`heap, this`version
      reads ndb`live, ndb`latest, heap, root, lastSaved
    {
      && Attached(heap, ndb)
      && (root != null ==> root in heap) && (lastSaved != null ==> lastSaved in heap)
      && |orphans| == |orphanTrees|
      && (forall i :: 0 <= i < |orphans| ==>
           orphans[i] in heap && orphans[i].persisted && orphans[i].tree == orphanTrees[i])
      && version == ndb.latest && ndb.live == RootNodes(TreeOf(lastSaved))
    }

    ghost predicate Wired()
      reads this`root, this`lastSaved, this`orphans, this`orphanTrees, this`heap, this`version, ndb, heap, root,
            lastSaved
    {
      ndb.Serves() && Linked()
    }

    /** The disk half: what is stored is exactly what the kept versions call for. */
    ghost predicate OnDisk()
      reads this`version, this`history, this`versions, ndb
    {
      && version == |history| && Lineage(history) && Keeps(history, versions)
      && Represents(ndb.h, RawOf(ndb), Canonical(history, versions))
    }

    ghost predicate Valid()
      reads this, ndb, heap, root, lastSaved
    {
      Wired() && Balanced(Work()) && OnDisk() && TreeOf(lastSaved) == Latest(history)
    }

    constructor (h: Hasher)
      requires Injective(h)
      ensures Valid() && fresh(ndb) && history == [] && versions == {} && Work() == Working(0, None, None, [])
    {
      ndb := new NodeDB(h);
      version, root, lastSaved, orphans, versions := 0, null, null, [], {};
      heap, history, orphanTrees := {}, [], [];
    }

    /** Set: map update on the working tree; no node that existed before is written. */
    method Set(key: Key, value: Value) returns (updated: bool)
      requires Valid()
      modifies this`root, this`orphans, this`orphanTrees, this`heap
      ensures Valid() && Work() == Apply(old(Work()), Edit.Set(key, value))
      ensures updated <==> key in RootContents(old(TreeOf(root)))
    {
      hide Balanced, OnDisk, Apply, SetTree, Wired, KeepSaved, RootContents, Shaped;
      ghost var w := Work();
      ApplySet(w, key, value);
      if root == null {
        SetFirst(key, value);
        updated := false;
      } else {
        updated := SetBelow(key, value);
      }
    }

    method SetBelow(key: Key, value: Value) returns (updated: bool)
      requires Wired() && root != null && Shaped(root.tree)
      modifies this`root, this`orphans, this`orphanTrees, this`heap
      ensures var r := old(SetTree(root.tree, key, value, version + 1));
              && Wired() && updated == r.updated
              && Work() == old(Work()).(root := Some(r.tree),
                                        orphans := old(orphanTrees) + KeepSaved(r.orphans, version))
    {
      hide Attached, NodeDB.Serves, KeepSaved, SetTree, Denote, Shaped;
      var newRoot, orphaned;
      ghost var heap';
      newRoot, updated, orphaned, heap' := RecursiveSet(root, key, value, version + 1, ndb, heap);
      Adopt(newRoot, orphaned, heap', SetTree(root.tree, key, value, version + 1).orphans);
    }

    method SetFirst(key: Key, value: Value)
      requires Wired() && root == null
      modifies this`root, this`heap
      ensures Wired() && Work() == old(Work()).(root := Some(Tree.Leaf(key, value, version + 1)))
    {
      hide Attached, NodeDB.Serves, RootNodes;
      var leaf := new Node.Leaf(key, value, version + 1);
      Joins(heap, leaf, ndb);
      heap, root := heap + {leaf}, leaf;
    }

    /** Remove: map removal on the working tree, returning the removed value. */
    method Remove(key: Key) returns (value: Option<Value>, removed: bool)
      requires Valid()
      modifies this`root, this`orphans, this`orphanTrees, this`heap
      ensures Valid() && Work() == Apply(old(Work()), Edit.Remove(key))
      ensures var m := RootContents(old(TreeOf(root)));
              (removed <==> key in m) && value == if key in m then Some(m[key]) else None
    {
      hide Balanced, OnDisk, Apply, RemoveTree, Wired, KeepSaved, RootContents, Shaped;
      ghost var w := Work();
      ApplyRemove(w, key);
      if root == null {
        return None, false;
      }
      value, removed := RemoveBelow(key);
    }

    method RemoveBelow(key: Key) returns (value: Option<Value>, removed: bool)
      requires Wired() && root != null && Shaped(root.tree)
      modifies this`root, this`orphans, this`orphanTrees, this`heap
      ensures var r := old(RemoveTree(root.tree, key, version + 1));
              && Wired() && value == r.value && (removed <==> r.orphans != [])
              && Work() == if removed then old(Work()).(root := r.tree,
                                                        orphans := old(orphanTrees) + KeepSaved(r.orphans, version))
                           else old(Work())
    {
      hide Attached, NodeDB.Serves, KeepSaved, RemoveTree, Shaped, HashOf;
      var newHash, newRoot, newKey, orphaned;
      ghost var r := RemoveTree(root.tree, key, version + 1);
      if r.tree.Some? { ShapedIsSized(r.tree.value); }
      ghost var heap';
      newHash, newRoot, newKey, value, orphaned, heap' := RecursiveRemove(root, key, version + 1, ndb, heap);
      if |orphaned| == 0 {
        return None, false;
      }
      newRoot, heap' := FetchRoot(newHash, newRoot, r.tree, heap');
      Adopt(newRoot, orphaned, heap', r.orphans);
      removed := true;
    }

    /** The new root may come back as a hash only. */
    method FetchRoot(hash: Hash, node: Node?, ghost t: Option<Tree>, ghost heap: set<Node>)
      returns (n: Node?, ghost heap': set<Node>)
      requires Consistent(heap, ndb) && Handed(hash, node, t, heap, ndb) && (t.Some? ==> Sized(t.value))
      ensures TreeOf(n) == t && (n != null ==> n in heap')
      ensures heap <= heap' && fresh(heap' - heap) && Consistent(heap', ndb)
    {
      n, heap' := node, heap;
      if node == null && hash != [] {
        n, heap' := GetNode(hash, ndb, t.value, heap);
      }
    }

    /** Rollback: back to the last saved tree. */
    method Rollback()
      requires Valid()
      modifies this`root, this`orphans, this`orphanTrees
      ensures Valid() && Work() == Apply(old(Work()), Edit.Rollback) && TreeOf(root) == Latest(history)
    {
      hide Balanced, OnDisk, Attached, NodeDB.Serves, RootNodes, Latest;
      RollbackBalances(Work());
      root := if version > 0 then lastSaved else null;
      orphans, orphanTrees := [], [];
    }

    /** SaveVersionSync: one more version in the history, and the disk exactly what the longer history calls for. */
    method SaveVersion() returns (hash: Hash)
      requires Valid()
      modifies this, ndb, heap
      ensures Valid() && history == old(history) + [old(TreeOf(root))] && versions == old(versions) + {version}
      ensures version == old(version) + 1 && Work() == Working(version, old(TreeOf(root)), old(TreeOf(root)), [])
      ensures hash == RootHash(ndb.h, old(TreeOf(root)))
    {
      hide Linked, NodeDB.Serves, Balanced, OnDisk, Canonical, SaveTree, Represents, Alone, Lineage;
      SavingIsExact();
      var entries;
      hash, entries := WriteAll();
      Commit(hash, entries);
    }

    /** The batch SaveVersionSync fills: nodes and orphan entries. */
    method WriteAll() returns (hash: Hash, entries: set<Entry>)
      requires Valid()
      modifies heap, ndb`disk
      ensures hash == RootHash(ndb.h, TreeOf(root))
      ensures TreeOf(root) == old(TreeOf(root)) && TreeOf(lastSaved) == old(TreeOf(lastSaved))
      ensures (root != null ==> Alone(root, ndb.h)) && Holds(ndb.h, ndb.disk, RootNodes(TreeOf(root)))
              && Injective(ndb.h)
      ensures old(Keeps(history, versions)) &&
              Represents(ndb.h, Raw(ndb.disk, ndb.roots[version + 1 := hash], entries),
                         old(SaveTree(Canonical(history, versions), Work())))
    {
      hide Wired, Balanced, OnDisk, Canonical, ReadyToWrite, SaveTree, Represents, Alone, Lineage, Holding, HashOf,
           After, UnsavedRoot, Previous, Extends, Holds, Injective, SavedTree, Keeps;
      SavingIsExact();
      ghost var w, raw, held := Work(), RawOf(ndb), Canonical(history, versions).nodes;
      BecomesReady();
      hash, held := WriteTree(held);
      HeldIsExact(history, versions, w, held);
      HoldingHolds(ndb.h, ndb.disk, held, TreeOf(root));
      var to := GetPreviousVersion(ndb, version + 1);
      entries := SaveOrphans(to);
      SaveRepresents(ndb.h, raw, Canonical(history, versions), w, ndb.disk, entries);
    }

    /** What SaveVersion may rely on. */
    lemma SavingIsExact()
      requires Valid()
      ensures Keeps(history, versions) && Represents(ndb.h, RawOf(ndb), Canonical(history, versions))
      ensures var h', kept' := history + [TreeOf(root)], versions + {version + 1};
              && Lineage(h') && Keeps(h', kept')
              && SaveTree(Canonical(history, versions), Work()) == Canonical(h', kept')
      ensures SavedTree(version + 1, TreeOf(root)) && Extends(history, Work()) && Lineage(history)
      ensures |history| == version && ndb.roots.Keys == versions && Previous(versions, version + 1) == version
    {
      assert ndb.roots.Keys == versions;
      hide Wired, Balanced, Canonical, Represents, RawOf, SaveTree;
      var w := Work();
      ExtendsItsHistory(history, w);
      SaveIsCanonical(history, versions, w);
    }

    /** The state in which SaveBranch may start: the orphans are on disk and not part of the tree to be written. */
    ghost predicate ReadyToWrite(held: set<Tree>)
      reads this, ndb, heap, root
    {
      && Injective(ndb.h) && AllSettled(heap, ndb.h, held, version) && Holding(ndb.h, ndb.disk, held)
      && (root != null ==> root in heap && Proper(root.tree))
      && (lastSaved != null ==> lastSaved in heap)
      && |orphans| == |orphanTrees|
      && forall i :: 0 <= i < |orphans| ==>
           orphans[i] in heap && orphans[i].persisted && orphans[i].tree == orphanTrees[i]
               && orphanTrees[i].version <= version
    }

    lemma BecomesReady()
      requires Valid()
      ensures Keeps(history, versions) && ReadyToWrite(Canonical(history, versions).nodes) && Injective(ndb.h)
      ensures |orphans| == |orphanTrees| && forall i :: 0 <= i < |orphans| ==> orphanTrees[i].version <= version
    {
      CanonicalIsTidy(history, versions);
      RepresentsHolding(ndb.h, RawOf(ndb), Canonical(history, versions));
      BalancedIsValid(Work());
      if root != null { ValidIsProper(root.tree); }
      hide Canonical, Represents, Balanced, RootNodes, Holding, HashOf;
      ConsistentIsSettled(heap, ndb, Canonical(history, versions).nodes);
      PersistedFlags(orphans, orphanTrees, heap, ndb);
    }

    /** SaveBranch on the root. */
    method WriteTree(ghost held: set<Tree>) returns (hash: Hash, ghost held': set<Tree>)
      requires ReadyToWrite(held)
      modifies heap, ndb`disk
      ensures hash == RootHash(ndb.h, TreeOf(root))
      ensures TreeOf(root) == old(TreeOf(root)) && TreeOf(lastSaved) == old(TreeOf(lastSaved))
      ensures root != null ==> Alone(root, ndb.h)
      ensures Holding(ndb.h, ndb.disk, held')
      ensures root == null ==> held' == held
      ensures root != null ==> held + Nodes(root.tree) <= held' <= held + After(root.tree, version)
      ensures forall i :: 0 <= i < |orphans| ==>
                orphans[i].version == orphanTrees[i].version && orphans[i].hash == HashOf(ndb.h, orphanTrees[i])
    {
      held' := held;
      hash := [];
      if root != null {
        hash, held' := SaveNodes(root, ndb, heap, held, version);
      }
    }

    /** SaveOrphans: one entry per orphan. The source panics on from > to, which never happens. */
    method SaveOrphans(to: int) returns (entries: set<Entry>)
      requires |orphans| == |orphanTrees|
      requires forall i :: 0 <= i < |orphans| ==>
                 orphans[i].version == orphanTrees[i].version <= to && orphans[i].hash == HashOf(ndb.h, orphanTrees[i])
      ensures entries == ndb.entries + set s | s in orphanTrees :: Entry(s.version, to, HashOf(ndb.h, s))
    {
      hide HashOf;
      entries := ndb.entries;
      for i := 0 to |orphans|
        invariant entries == ndb.entries + set s | s in orphanTrees[..i] :: Entry(s.version, to, HashOf(ndb.h, s))
      {
        assert orphans[i].version <= to;
        assert orphanTrees[..i + 1] == orphanTrees[..i] + [orphanTrees[i]];
        entries := entries + {Entry(orphans[i].version, to, orphans[i].hash)};
      }
      assert orphanTrees[..|orphans|] == orphanTrees;
    }

    /** SaveRoot, the batch commit, and the new working tree. */
    method Commit(hash: Hash, entries: set<Entry>)
      requires Injective(ndb.h) && SavedTree(version + 1, TreeOf(root)) && |history| == version
      requires (root != null ==> Alone(root, ndb.h)) && Holds(ndb.h, ndb.disk, RootNodes(TreeOf(root)))
      requires var h', kept' := history + [TreeOf(root)], versions + {version + 1};
               && Lineage(h') && Keeps(h', kept')
               && Represents(ndb.h, Raw(ndb.disk, ndb.roots[version + 1 := hash], entries), Canonical(h', kept'))
      modifies this, ndb
      ensures Valid() && history == old(history) + [old(TreeOf(root))] && versions == old(versions) + {version}
      ensures version == old(version) + 1 && Work() == Working(version, old(TreeOf(root)), old(TreeOf(root)), [])
    {
      hide Represents, Canonical, Lineage, Balanced, Alone, Holds, Injective, SavedTree, Attached, NodeDB.Serves,
           RootNodes, Keeps;
      FreshIsBalanced(version + 1, TreeOf(root));
      CommitBatch(hash, entries);
      SetNewWorkingTree();
    }

    method CommitBatch(hash: Hash, entries: set<Entry>)
      requires Injective(ndb.h) && SavedTree(version + 1, TreeOf(root))
      requires (root != null ==> Alone(root, ndb.h)) && Holds(ndb.h, ndb.disk, RootNodes(TreeOf(root)))
      modifies ndb`roots, ndb`entries, ndb`latest, ndb`live
      ensures RawOf(ndb) == old(Raw(ndb.disk, ndb.roots[version + 1 := hash], entries))
      ensures ndb.latest == version + 1 && ndb.live == RootNodes(TreeOf(root))
      ensures Consistent(if root == null then {} else {root}, ndb)
    {
      if root != null { ShapedIsSized(root.tree); }
      hide Holds, Injective, HashOf, Sized;
      ndb.roots, ndb.entries := ndb.roots[version + 1 := hash], entries;
      ndb.latest, ndb.live := version + 1, RootNodes(TreeOf(root));
      if root != null { AloneIsConsistent(root, ndb); }
    }

    /** setNewWorkingTree */
    method SetNewWorkingTree()
      modifies this
      ensures version == old(version) + 1 && versions == old(versions) + {version}
              && history == old(history) + [TreeOf(root)]
      ensures root == old(root) == lastSaved && orphans == [] && orphanTrees == []
      ensures heap == if root == null then {} else {root}
    {
      history := history + [TreeOf(root)];
      version, versions := version + 1, versions + {version + 1};
      lastSaved, orphans, orphanTrees := root, [], [];
      heap := if root == null then {} else {root};
    }

    /**
     * DeleteVersion: refused for 0, for the latest version, for one that is not kept and for one with readers;
     * otherwise exact.
     */
    method DeleteVersion(v: int, readers: set<int>) returns (ok: bool)
      requires Valid()
      modifies this`versions, ndb`disk, ndb`roots, ndb`entries
      ensures Valid() && Work() == old(Work()) && history == old(history)
      ensures ok <==> v != 0 && v != version && v in old(versions) && v !in readers
      ensures versions == if ok then old(versions) - {v} else old(versions)
    {
      hide Linked, Balanced, Canonical, Represents, Lineage, Expire, NodeDB.Serves, Injective;
      if v == 0 || v == version || v !in versions || v in readers {
        return false;
      }
      Basics();
      DeletionIsExact(v, v + 1);
      DeleteOneVersion(ndb, v);
      assert WithoutRange(versions, v, v + 1) == versions - {v};
      versions := versions - {v};
      IsExact();
      return true;
    }

    /**
     * DeleteVersionsRange: versions from <= v < to; refused for an empty range, when it reaches the latest version
     * without `enforce`, and for readers of a version after the one before it. From 0 on no version is deleted that is
     * being read. What is stored stays exact if and only if the range starts at 0 or later and spares the latest
     * version, or has no kept version in it.
     */
    method DeleteVersionsRange(from: int, to: int, readers: set<int>, enforce: bool) returns (ok: bool)
      modifies this`versions, ndb`disk, ndb`roots, ndb`entries
      ensures Work() == old(Work()) && history == old(history)
      ensures var p := PreviousRoot(old(ndb.roots).Keys, from);
              ok <==> && from < to && to != 0 && (enforce || to <= ndb.latest)
                      && forall v :: v in readers ==> v <= p || to <= v
      ensures ok && from >= 0 ==> forall v :: v in readers && v >= 1 ==> !(from <= v < to)
      ensures old(Valid()) && from >= 0 ==> forall v :: v in readers && v in old(versions) ==> v in versions
      ensures versions == if ok then WithoutRange(old(versions), from, to) else old(versions)
      ensures RawOf(ndb) == old(if ok then ExpireRange(RawOf(ndb), from, to) else RawOf(ndb))
      ensures old(Valid()) ==> (Valid() <==> !ok || Regular(from, to, old(versions), version))
    {
      hide Linked, Balanced, Canonical, Represents, Lineage, ExpireRange, NodeDB.Serves, Injective, PreviousRoot;
      ghost var valid, regular := Valid(), Regular(from, to, versions, version);
      PreviousIsBefore(ndb.roots.Keys, from);
      if valid {
        Basics();
        RootsAreVersions();
        if from < to && to != 0 { RangeOutcome(from, to); }
      }
      ok := DiskStore.DeleteVersionsRange(ndb, from, to, readers, enforce);
      if ok {
        versions := set v | v in versions && !(from <= v < to);
        if valid && regular {
          IsExact();
        } else if Valid() {
          RootsAreVersions();
        }
      }
    }

    /**
     * DeleteVersions: sort, group into runs, delete run by run in any order. The versions of the intervals `done` are
     * gone; those are all intervals, or all before the one that is refused. An interval that starts below 0 deletes no
     * root: what is stored stays exact if no such interval has a kept version, and for distinct versions only then.
     */
    method DeleteVersions(list: seq<int>, readers: set<int>) returns (ok: bool, ghost done: set<int>)
      requires Valid()
      modifies this`versions, ndb`disk, ndb`roots, ndb`entries
      ensures Work() == old(Work()) && history == old(history)
      ensures var intervals := Group(Sort(list)).intervals;
              && done <= intervals.Keys && (ok <==> done == intervals.Keys)
              && versions == Without(old(versions), intervals, done)
              && ndb.roots.Keys == Without(old(versions), intervals, FromZero(done))
              && (!ok ==> Refuses(intervals, done, readers, ndb.roots.Keys, version))
              && (AboveZero(intervals, done, old(versions)) ==> Valid())
              && (Distinct(list) && Valid() ==> AboveZero(intervals, done, old(versions)))
              && forall v, from :: v in readers && v >= 1 && from in done && from >= 0 ==>
                   !(from <= v < from + intervals[from])
      ensures ok ==> forall v :: v in versions <==> v in old(versions) && !Covers(Group(Sort(list)).intervals, v)
      ensures Distinct(list) && (forall i :: 0 <= i < |list| ==> 1 <= list[i] < version)
              && readers <= old(versions) - (set v | v in list) ==>
                ok && Valid() && versions == set v | v in old(versions) && v !in list
    {
      hide Valid, Group, Sort, Refuses, Distinct, Covers, Without, AboveZero, FromZero, Work;
      var runs := GroupSorted(Sort(list));
      ok, done := DeleteIntervals(runs.intervals, readers);
      if ok { AllDone(runs.intervals, old(versions)); }
      if Distinct(list) {
        DistinctVersionsGroupExactly(list, runs.intervals);
        if Valid() {
          RootsAreVersions();
          DisjointDone(runs.intervals, done, old(versions));
        }
        PositiveList(list, runs.intervals, done, readers, old(versions), versions, version, ok);
      }
    }

    method DeleteIntervals(intervals: map<int, int>, readers: set<int>) returns (ok: bool, ghost done: set<int>)
      requires Valid()
      modifies this`versions, ndb`disk, ndb`roots, ndb`entries
      ensures Work() == old(Work()) && history == old(history)
      ensures done <= intervals.Keys && (ok <==> done == intervals.Keys)
      ensures versions == Without(old(versions), intervals, done)
      ensures ndb.roots.Keys == Without(old(versions), intervals, FromZero(done))
      ensures !ok ==> Refuses(intervals, done, readers, ndb.roots.Keys, version)
      ensures AboveZero(intervals, done, old(versions)) ==> Valid()
      ensures forall v, from :: v in readers && v >= 1 && from in done && from >= 0 ==>
                !(from <= v < from + intervals[from])
    {
      hide Valid, Work, PreviousRoot, AboveZero, Without, ExpireRange, Regular;
      RootsAreVersions();
      Basics();
      NothingDone(intervals, versions);
      var todo := intervals.Keys;
      done := {};
      while todo != {}
        invariant todo <= intervals.Keys && done == intervals.Keys - todo && Work() == old(Work())
                  && history == old(history)
        invariant versions == Without(old(versions), intervals, done)
        invariant ndb.roots.Keys == Without(old(versions), intervals, FromZero(done))
        invariant forall v :: v in ndb.roots.Keys ==> v >= 1
        invariant AboveZero(intervals, done, old(versions)) ==> Valid()
        invariant forall v, from :: v in readers && v >= 1 && from in done && from >= 0 ==>
                    !(from <= v < from + intervals[from])
        decreases todo
      {
        HasMember(todo);
        var from :| from in todo;
        RootsAfter(RawOf(ndb), from, from + intervals[from]);
        ghost var roots := ndb.roots.Keys;
        ok := DeleteVersionsRange(from, from + intervals[from], readers, false);
        if !ok { return; }
        OneMoreDone(intervals, done, from, old(versions), version, roots, ndb.roots.Keys);
        todo, done := todo - {from}, done + {from};
      }
      ok := true;
    }

    lemma IsExact()
      requires Injective(ndb.h) && Linked() && Balanced(Work()) && TreeOf(lastSaved) == Latest(history)
      requires ndb.latest == version && ndb.live == RootNodes(TreeOf(lastSaved))
      requires version == |history| && Lineage(history) && Keeps(history, versions)
      requires Represents(ndb.h, RawOf(ndb), Canonical(history, versions))
      ensures Valid()
    {
      hide Linked, Balanced, Canonical, Represents, Lineage, NodeDB.Serves, Injective, RootNodes, Latest;
      ServesLatest(history, versions, ndb);
    }

    lemma RootsAreVersions()
      requires Valid()
      ensures ndb.roots.Keys == versions && Keeps(history, versions) && version == |history|
    {
    }

    lemma Basics()
      requires Valid()
      ensures Injective(ndb.h) && ndb.latest == version && ndb.live == RootNodes(TreeOf(lastSaved))
    {
    }

    /** A range deletion by hash leaves the exact store of the remaining versions. */
    lemma DeletionIsExact(from: int, to: int)
      requires Valid() && from <= to <= version
      ensures var kept := WithoutRange(versions, from, to);
              && Keeps(history, kept)
              && Represents(ndb.h, Expire(RawOf(ndb), from, to, Previous(ndb.roots.Keys, from)),
                            Canonical(history, kept))
    {
      CanonicalIsTidy(history, versions);
      ExpireRefinesDeleteRange(ndb.h, RawOf(ndb), Canonical(history, versions), from, to);
      DeleteRangeIsCanonical(history, versions, from, to);
    }

    /** A range leaves the exact store of the remaining versions if it is regular, and otherwise no such store. */
    lemma RangeOutcome(from: int, to: int)
      requires Valid() && from < to && to != 0
      ensures var kept, raw := WithoutRange(versions, from, to), ExpireRange(RawOf(ndb), from, to);
              if Regular(from, to, versions, version)
              then Keeps(history, kept) && Represents(ndb.h, raw, Canonical(history, kept))
              else !Keeps(history, kept) || raw.roots.Keys != kept
    {
      hide Linked, Balanced, Canonical, Lineage, NodeDB.Serves, Injective;
      RootsAreVersions();
      if 0 <= from && to <= version {
        ExpireRangeIsExpire(RawOf(ndb), from, to);
        DeletionIsExact(from, to);
      } else if Regular(from, to, versions, version) {
        hide Represents;
        assert WithoutRange(versions, from, to) == versions;
        NothingInRange(from, to);
      } else {
        hide Represents;
        OutOfRange(RawOf(ndb), from, to, versions);
      }
    }

    /** A range without kept versions changes nothing. */
    lemma NothingInRange(from: int, to: int)
      requires Valid() && from < to && forall v :: v in versions ==> !(from <= v < to)
      ensures ExpireRange(RawOf(ndb), from, to) == RawOf(ndb)
    {
      hide Linked, Balanced, NodeDB.Serves, Injective, PreviousRoot;
      EntriesEndAtVersions(history, versions, ndb.h, RawOf(ndb));
      hide Canonical, Represents, Lineage;
      RootsAreVersions();
      var raw := RawOf(ndb);
      var raw' := ExpireRange(raw, from, to);
      assert raw'.disk == raw.disk && raw'.roots == raw.roots && raw'.entries == raw.entries;
    }

    /** The tail of Set and Remove: addOrphans and the new root. */
    method Adopt(newRoot: Node?, orphaned: seq<Node>, ghost heap': set<Node>, ghost trees: seq<Tree>)
      requires Wired() && Consistent(heap', ndb) && heap <= heap'
      requires newRoot != null ==> newRoot in heap'
      requires Denote(orphaned, trees) && forall o :: o in orphaned ==> o in heap'
      modifies this`root, this`orphans, this`orphanTrees, this`heap
      ensures Wired() && Work() == old(Work()).(root := TreeOf(newRoot),
                                                orphans := old(orphanTrees) + KeepSaved(trees, version))
    {
      PersistedFlags(orphaned, trees, heap', ndb);
      hide Attached, NodeDB.Serves, KeepSaved, RootNodes, Denote, Node.Agrees;
      var kept := KeepPersisted(orphaned, version, trees);
      Install(newRoot, orphans + kept, heap', orphanTrees + KeepSaved(trees, version));
    }

    method Install(newRoot: Node?, all: seq<Node>, ghost heap': set<Node>, ghost allTrees: seq<Tree>)
      requires Wired() && Consistent(heap', ndb) && heap <= heap' && (newRoot != null ==> newRoot in heap')
      requires |all| == |allTrees|
      requires forall i :: 0 <= i < |all| ==> all[i] in heap' && all[i].persisted && all[i].tree == allTrees[i]
      modifies this`root, this`orphans, this`orphanTrees, this`heap
      ensures Wired() && Work() == old(Work()).(root := TreeOf(newRoot), orphans := allTrees)
    {
      hide Attached, NodeDB.Serves;
      heap, root, orphans, orphanTrees := heap', newRoot, all, allTrees;
    }
  }

  /** The grouping loop of DeleteVersions. */
  method GroupSorted(sorted: seq<int>) returns (runs: Runs)
    ensures runs == Group(sorted)
  {
    runs := Runs(map[], 0);
    for i := 0 to |sorted|
      invariant runs == Group(sorted[..i])
    {
      assert sorted[..i + 1][..i] == sorted[..i];
      runs := Extend(runs, sorted[i]);
    }
    assert sorted[..|sorted|] == sorted;
  }

  /** A saved node on its own: it knows its children by hash only. */
  ghost predicate Alone(n: Node, h: Hasher)
    reads n
  {
    && n.height == Height(n.tree) && n.size == Size(n.tree) && n.key == n.tree.key && n.version == n.tree.version
    && n.persisted && n.hash == HashOf(h, n.tree) && n.leftNode == null && n.rightNode == null
    && (n.tree.Leaf? ==> n.height == 0 && n.value == n.tree.value)
    && (n.tree.Inner? ==>
         n.height > 0 && n.leftHash == HashOf(h, n.tree.left) && n.rightHash == HashOf(h, n.tree.right))
  }

  /** A consistent heap is settled with respect to what is on disk. */
  lemma ConsistentIsSettled(heap: set<Node>, db: NodeDB, held: set<Tree>)
    requires Consistent(heap, db) && db.live <= held
    ensures AllSettled(heap, db.h, held, db.latest)
  {
    hide HashOf, Nodes, Sized;
    forall n | n in heap ensures Settled(n, heap, db.h, held, db.latest) {
      assert n.Agrees(heap, db);
    }
  }

  /** A node saved alone is all the next session needs. */
  lemma AloneIsConsistent(n: Node, db: NodeDB)
    requires Alone(n, db.h) && db.live == Nodes(n.tree) && Injective(db.h) && Holds(db.h, db.disk, db.live)
    requires Sized(n.tree) && forall s :: s in Nodes(n.tree) ==> s.version <= db.latest
    ensures Consistent({n}, db)
  {
    assert n.tree in Nodes(n.tree);
  }

  lemma CanonicalIsTidy(history: History, kept: set<int>)
    requires Lineage(history) && Keeps(history, kept)
    ensures Tidy(Canonical(history, kept))
    ensures RootNodes(Latest(history)) <= Canonical(history, kept).nodes
  {
    assert history != [] ==> NodesAt(history, |history|) == RootNodes(Latest(history));
    hide Valid, Shaped, Proper, Nodes;
    forall s | s in Canonical(history, kept).nodes ensures Proper(s) {
      var v :| v in kept && s in NodesAt(history, v);
      assert history[v - 1] in history;
      SubtreeIsValid(history[v - 1].value, s);
      ValidIsProper(s);
    }
  }

  lemma ExtendsItsHistory(history: History, w: Working)
    requires Lineage(history) && Balanced(w) && w.version == |history| && w.lastSaved == Latest(history)
    ensures Extends(history, w) && SavedTree(w.version + 1, w.root)
  {
    assert history != [] ==> NodesAt(history, |history|) == RootNodes(w.lastSaved);
    BalancedIsExact(w);
  }

  lemma HeldIsExact(history: History, kept: set<int>, w: Working, held: set<Tree>)
    requires Lineage(history) && Keeps(history, kept) && Extends(history, w)
    requires w.root.None? ==> held == Canonical(history, kept).nodes
    requires w.root.Some? ==>
      var st := Canonical(history, kept);
      st.nodes + Nodes(w.root.value) <= held <= st.nodes + After(w.root.value, w.version)
    ensures held == Canonical(history, kept).nodes + UnsavedRoot(w.root, w.version)
  {
    SavedNodesCovered(history, w);
  }

  /** The versions outside some of the intervals. */
  ghost function Without(versions: set<int>, intervals: map<int, int>, done: set<int>): set<int>
    requires done <= intervals.Keys
  {
    set v | v in versions && forall from :: from in done ==> !(from <= v < from + intervals[from])
  }

  /** A range that starts at 0 or later and spares the latest version, or that has no kept version in it. */
  ghost predicate Regular(from: int, to: int, versions: set<int>, latest: int) {
    (0 <= from && to <= latest) || forall v :: v in versions ==> !(from <= v < to)
  }

  lemma PreviousIsBefore(roots: set<int>, from: int)
    ensures from >= 0 ==> PreviousRoot(roots, from) == 0 || PreviousRoot(roots, from) < from
  {
  }

  ghost function FromZero(starts: set<int>): set<int> {
    set from | from in starts && from >= 0
  }

  /** No interval that starts below 0 has a kept version in it. */
  ghost predicate AboveZero(intervals: map<int, int>, done: set<int>, versions: set<int>)
    requires done <= intervals.Keys
  {
    forall from, v :: from in done && from < 0 && v in versions ==> !(from <= v < from + intervals[from])
  }

  /** If intervals are disjoint, the roots are the remaining versions only if no interval below 0 has a kept version. */
  lemma DisjointDone(intervals: map<int, int>, done: set<int>, before: set<int>)
    requires done <= intervals.Keys
    requires forall f, g :: f in intervals && g in intervals && f < g ==> f + intervals[f] <= g
    requires Without(before, intervals, done) == Without(before, intervals, FromZero(done))
    ensures AboveZero(intervals, done, before)
  {
    forall f, v | f in done && f < 0 && v in before ensures !(f <= v < f + intervals[f]) {
      assert v in Without(before, intervals, FromZero(done)) ==> v in Without(before, intervals, done);
    }
  }

  /** The roots left by a range: a range that starts below 0 takes none. */
  lemma RootsAfter(raw: Raw, from: int, to: int)
    requires forall v :: v in raw.roots ==> v >= 1
    ensures from < to && to != 0 ==>
              ExpireRange(raw, from, to).roots.Keys ==
              if from < 0 then raw.roots.Keys else WithoutRange(raw.roots.Keys, from, to)
  {
  }

  /** Outside the regular case, the latest version is lost or a root stays that no kept version stands for. */
  lemma OutOfRange(raw: Raw, from: int, to: int, versions: set<int>)
    requires raw.roots.Keys == versions && (forall v :: v in versions ==> v >= 1) && from < to && to != 0
    requires exists v :: v in versions && from <= v < to
    ensures from < 0 ==> ExpireRange(raw, from, to).roots.Keys != WithoutRange(versions, from, to)
  {
    RootsAfter(raw, from, to);
    var v :| v in versions && from <= v < to;
    assert v !in WithoutRange(versions, from, to);
  }

  lemma OrphanIsKept(history: History, kept: set<int>, o: Orphan)
    requires Lineage(history) && Keeps(history, kept) && o in Canonical(history, kept).orphans
    ensures o.to in kept
  {
    if history != [] { EntriesAreLifetimes(history, kept, o, |history|); }
  }

  lemma EntriesEndAtVersions(history: History, kept: set<int>, h: Hasher, raw: Raw)
    requires Lineage(history) && Keeps(history, kept) && Represents(h, raw, Canonical(history, kept))
    ensures forall e :: e in raw.entries ==> e.to in kept
  {
    forall o | o in Canonical(history, kept).orphans ensures o.to in kept { OrphanIsKept(history, kept, o); }
    hide HashOf, RecordOf, Canonical, Lineage;
    forall e | e in raw.entries ensures e.to in kept {
      var o :| o in Canonical(history, kept).orphans && e == EntryOf(h, o);
    }
  }

  /**
   * One of the intervals not deleted is refused: it is empty, ends at 0 or past the latest version, or is being read.
   */
  ghost predicate Refuses(intervals: map<int, int>, done: set<int>, readers: set<int>, roots: set<int>, latest: int) {
    exists from :: && from in intervals && from !in done
                   && var to := from + intervals[from];
                      || to <= from || to == 0 || to > latest
                      || exists v :: v in readers && PreviousRoot(roots, from) < v < to
  }

  lemma NothingDone(intervals: map<int, int>, before: set<int>)
    ensures Without(before, intervals, {}) == before && FromZero({}) == {}
  {
  }

  /** One more interval deleted: its versions are gone, its roots too unless it starts below 0. */
  lemma OneMoreDone(intervals: map<int, int>, done: set<int>, from: int, before: set<int>, latest: int, roots: set<int>,
                    roots': set<int>)
    requires done <= intervals.Keys && from in intervals && roots == Without(before, intervals, FromZero(done))
    requires roots' == if from < 0 then roots else WithoutRange(roots, from, from + intervals[from])
    ensures var done', to, versions := done + {from}, from + intervals[from], Without(before, intervals, done);
            && Without(before, intervals, done') == WithoutRange(versions, from, to)
            && roots' == Without(before, intervals, FromZero(done'))
            && (AboveZero(intervals, done', before) ==> AboveZero(intervals, done, before))
            && (AboveZero(intervals, done', before) && to <= latest ==> Regular(from, to, versions, latest))
  {
    assert FromZero(done + {from}) == if from < 0 then FromZero(done) else FromZero(done) + {from};
  }

  lemma AllDone(intervals: map<int, int>, before: set<int>)
    ensures forall v :: v in Without(before, intervals, intervals.Keys) <==> v in before && !Covers(intervals, v)
  {
  }

  /** Distinct versions between 1 and the latest, none of them being read, are deleted as asked. */
  lemma PositiveList(list: seq<int>, intervals: map<int, int>, done: set<int>, readers: set<int>, before: set<int>,
                     versions: set<int>, latest: int, ok: bool)
    requires forall v :: Covers(intervals, v) <==> v in list
    requires forall from :: from in intervals ==>
               intervals[from] >= 1 && from in list && from + intervals[from] - 1 in list
    requires done <= intervals.Keys && versions == Without(before, intervals, done) && (ok <==> done == intervals.Keys)
    requires !ok ==> Refuses(intervals, done, readers, Without(before, intervals, FromZero(done)), latest)
    ensures (forall i :: 0 <= i < |list| ==> 1 <= list[i] < latest) && readers <= before - (set v | v in list) ==>
              ok && AboveZero(intervals, done, before) && versions == set v | v in before && v !in list
  {
    if (forall i :: 0 <= i < |list| ==> 1 <= list[i] < latest) && readers <= before - (set v | v in list) {
      forall v | v in list ensures 1 <= v < latest {}
      forall from | from in intervals ensures 1 <= from < from + intervals[from] <= latest {
        assert from + intervals[from] - 1 in list;
      }
      PositiveStarts(intervals, done, before);
      hide Refuses, FromZero, Without, AboveZero;
      forall v | v in readers
        ensures v in before && forall from :: from in intervals ==> !(from <= v < from + intervals[from])
      {
        assert v !in list && !Covers(intervals, v);
      }
      hide Covers;
      NothingRefused(intervals, done, readers, before, versions, latest);
      AllDone(intervals, before);
    }
  }

  lemma PositiveStarts(intervals: map<int, int>, done: set<int>, before: set<int>)
    requires done <= intervals.Keys && forall from :: from in intervals ==> from >= 1
    ensures FromZero(done) == done && AboveZero(intervals, done, before)
  {
  }

  /** Readers of versions that are kept refuse nothing: none lies between an interval and the version before it. */
  lemma NothingRefused(intervals: map<int, int>, done: set<int>, readers: set<int>, before: set<int>,
                       versions: set<int>, latest: int)
    requires done <= intervals.Keys && versions == Without(before, intervals, done)
    requires forall from :: from in intervals ==> 1 <= from < from + intervals[from] <= latest
    requires forall v :: v in readers ==>
               v in before && forall from :: from in intervals ==> !(from <= v < from + intervals[from])
    ensures !Refuses(intervals, done, readers, versions, latest)
  {
    forall from, v | from in intervals && v in readers
      ensures !(Previous(versions, from) < v < from + intervals[from])
    {
      assert v in versions;
    }
  }

  /** An exact disk serves the latest version. */
  lemma ServesLatest(history: History, kept: set<int>, db: NodeDB)
    requires Injective(db.h) && Lineage(history) && Keeps(history, kept) && db.latest == |history|
    requires Represents(db.h, RawOf(db), Canonical(history, kept)) && db.live == RootNodes(Latest(history))
    ensures db.Serves()
  {
    CanonicalIsTidy(history, kept);
    assert history != [] ==> NodesAt(history, |history|) == RootNodes(Latest(history));
    hide Canonical, HashOf, RecordOf, Injective, Tidy;
  }

  lemma HoldingHolds(h: Hasher, disk: Disk, held: set<Tree>, root: Option<Tree>)
    requires Holding(h, disk, held) && RootNodes(root) <= held
    ensures Holds(h, disk, RootNodes(root))
  {
    hide HashOf, RecordOf, Proper;
  }

  lemma RepresentsHolding(h: Hasher, raw: Raw, st: Store)
    requires Represents(h, raw, st) && Tidy(st)
    ensures Holding(h, raw.disk, st.nodes)
  {
    hide HashOf, RecordOf, Proper;
  }

  /** Writing the nodes, entries and root of a save does on disk what SaveTree does to the store. */
  lemma SaveRepresents(h: Hasher, raw: Raw, st: Store, w: Working, disk: Disk, entries: set<Entry>)
    requires Represents(h, raw, st) && Holding(h, disk, st.nodes + UnsavedRoot(w.root, w.version))
    requires entries == raw.entries + set s | s in w.orphans ::
               Entry(s.version, Previous(raw.roots.Keys, w.version + 1), HashOf(h, s))
    ensures Represents(h, Raw(disk, raw.roots[w.version + 1 := RootHash(h, w.root)], entries), SaveTree(st, w))
  {
    hide HashOf, RecordOf, Proper, Previous, UnsavedRoot;
    var to := Previous(raw.roots.Keys, w.version + 1);
    var st' := SaveTree(st, w);
    forall e ensures e in entries <==> exists o :: o in st'.orphans && e == EntryOf(h, o) {
      if o :| o in st'.orphans && e == EntryOf(h, o) && o !in st.orphans {
        assert o.node in w.orphans;
      }
      if s :| s in w.orphans && e == Entry(s.version, to, HashOf(h, s)) {
        assert Orphan(s.version, to, s) in st'.orphans;
      }
    }
  }

  lemma PersistedFlags(nodes: seq<Node>, trees: seq<Tree>, heap: set<Node>, db: NodeDB)
    requires Consistent(heap, db) && Denote(nodes, trees) && forall o :: o in nodes ==> o in heap
    ensures forall i :: 0 <= i < |nodes| ==> (nodes[i].persisted <==> trees[i].version <= db.latest)
  {
    forall i | 0 <= i < |nodes| ensures nodes[i].persisted <==> trees[i].version <= db.latest {
      assert nodes[i] in nodes && nodes[i].Agrees(heap, db);
    }
  }

  /** addOrphans: nodes that were never persisted are skipped. */
  method KeepPersisted(orphaned: seq<Node>, ghost version: int, ghost trees: seq<Tree>) returns (kept: seq<Node>)
    requires Denote(orphaned, trees)
    requires forall i :: 0 <= i < |orphaned| ==> (orphaned[i].persisted <==> trees[i].version <= version)
    ensures |kept| == |KeepSaved(trees, version)|
    ensures forall i :: 0 <= i < |kept| ==>
              kept[i] in orphaned && kept[i].persisted && kept[i].tree == KeepSaved(trees, version)[i]
  {
    hide KeepSaved;
    kept := [];
    ghost var done: seq<Tree> := [];
    KeepSavedEnd(trees, version);
    assert trees[0..] == trees;
    for i := 0 to |orphaned|
      invariant KeepSaved(trees, version) == done + KeepSaved(trees[i..], version)
      invariant |kept| == |done|
      invariant forall j :: 0 <= j < |kept| ==> kept[j] in orphaned && kept[j].persisted && kept[j].tree == done[j]
    {
      KeepSavedStep(trees, i, version);
      if orphaned[i].persisted {
        kept, done := kept + [orphaned[i]], done + [trees[i]];
      }
    }
  }

  lemma KeepSavedEnd(trees: seq<Tree>, version: int)
    ensures KeepSaved(trees[|trees|..], version) == []
  {
  }

  lemma KeepSavedStep(trees: seq<Tree>, i: nat, version: int)
    requires i < |trees|
    ensures KeepSaved(trees[i..], version) ==
            (if trees[i].version <= version then [trees[i]] else []) + KeepSaved(trees[i + 1..], version)
  {
    assert trees[i..][1..] == trees[i + 1..];
  }

  lemma ApplySet(w: Working, key: Key, value: Value)
    requires Balanced(w)
    ensures Balanced(Apply(w, Edit.Set(key, value)))
    ensures w.root.None? ==>
      && key !in RootContents(w.root)
      && Apply(w, Edit.Set(key, value)) == w.(root := Some(Tree.Leaf(key, value, w.version + 1)))
    ensures w.root.Some? ==>
      && Shaped(w.root.value)
      && (var r := SetTree(w.root.value, key, value, w.version + 1);
          && Apply(w, Edit.Set(key, value)) ==
               w.(root := Some(r.tree), orphans := w.orphans + KeepSaved(r.orphans, w.version))
          && (r.updated <==> key in RootContents(w.root)))
  {
    hide Balanced, SetTree, KeepSaved, Contents;
    BalancedIsValid(w);
    ApplyKeepsBalance(w, Edit.Set(key, value));
    if w.root.Some? { SetRefinesUpdate(w.root.value, key, value, w.version + 1); }
  }

  lemma ApplyRemove(w: Working, key: Key)
    requires Balanced(w)
    ensures Balanced(Apply(w, Edit.Remove(key)))
    ensures w.root.None? ==> key !in RootContents(w.root) && Apply(w, Edit.Remove(key)) == w
    ensures w.root.Some? ==>
      && Shaped(w.root.value)
      && (var r := RemoveTree(w.root.value, key, w.version + 1);
          && Apply(w, Edit.Remove(key)) ==
             (if r.orphans == [] then w else w.(root := r.tree, orphans := w.orphans + KeepSaved(r.orphans, w.version)))
          && (r.orphans != [] <==> key in RootContents(w.root))
          && r.value == (if key in RootContents(w.root) then Some(RootContents(w.root)[key]) else None))
  {
    hide Balanced, RemoveTree, KeepSaved, Contents;
    BalancedIsValid(w);
    ApplyKeepsBalance(w, Edit.Remove(key));
    if w.root.Some? { RemoveRefinesDeletion(w.root.value, key, w.version + 1); }
  }

  lemma FreshIsBalanced(version: int, saved: Option<Tree>)
    requires SavedTree(version, saved)
    ensures Balanced(Working(version, saved, saved, []))
  {
    assert Fresh(version, saved) == Working(version, saved, saved, []);
  }
}
