/** Restarting from the disk alone, at any moment of an asynchronous run. */
module CrashRecovery {
  import opened ByteOrder
  import opened Tree
  import opened TreeUpdate
  import opened Orphans
  import opened VersionStore
  import opened AsyncCommit

  /** The committed history: all that is on disk. */
  ghost function Survives(s: State): History
    requires 0 <= s.committed <= |s.history|
  {
    s.history[..s.committed]
  }

  /** Load after a crash: nothing but the disk is left, and the height queue is filled from its roots. */
  ghost function Restarted(s: State, queue: seq<int>): State
    requires 0 <= s.committed <= |s.history|
  {
    var h, roots := Survives(s), s.disk.roots.Keys;
    State(h, Working(|h|, Latest(h), Latest(h), []), [], NodesAt(h, |h|), Idle, {}, map[], {}, map[], None, None,
          |h|, s.disk, |h|, queue, roots, roots, {}, {}, None, |h|, Some(0), {}, {})
  }

  /**
   * No entry and no new node is written ahead of its batch, and every loose node on disk is one of the latest version
   * there.
   */
  ghost predicate Clean(s: State) {
    && EarlyEntries(s.event) == {} && (forall n :: n in Early(s.event) ==> n.version <= s.committed)
    && forall n :: n in s.loose && n in s.disk.nodes ==> n in NodesAt(s.history, s.committed)
  }

  /** The nodes of a canonical store that its latest version lacks are those with an entry. */
  lemma EntryOrLatest(h: History, kept: set<int>, n: Tree)
    requires Lineage(h) && Keeps(h, kept)
    ensures var st := Canonical(h, kept);
            && (n in NodesAt(h, |h|) ==> n in st.nodes)
            && ((exists o :: o in st.orphans && o.node == n) <==> n in st.nodes && n !in NodesAt(h, |h|))
            && (n in st.nodes ==> n.version <= |h|)
  {
    hide LastKept, Lineage, Canonical;
    CanonicalEntries(h, kept);
    var st, q := Canonical(h, kept), LastKept(h, kept, n);
    LastKeptIsLastAlive(h, kept, n, |h|);
    LastKeptIsLastAlive(h, kept, n, q);
    if n in st.nodes {
      LineageVersions(h);
      if n !in NodesAt(h, |h|) { assert Orphan(n.version, q, n) in st.orphans; }
    }
    if n in NodesAt(h, |h|) { assert LastAlive(h, kept, |h|, n); }
  }

  /** What is on its way to disk and stamped with a committed version is on disk already. */
  lemma EarlyIsKnown(cfg: Config, s: State, n: Tree)
    requires Inv(cfg, s) && n in Early(s.event) && n.version <= s.committed
    ensures s.committed <= |s.history| && n in NodesAt(s.history, s.committed)
  {
    hide Inv, NodesAt, Lineage;
    DiskHolds(cfg, s);
    LifetimeIsInterval(s.history, s.committed, s.event.value.version, n);
  }

  /** An entry written early is for a node that the latest version on disk has. */
  lemma EarlyEntryIsLive(cfg: Config, s: State, o: Orphan)
    requires Inv(cfg, s) && o in EarlyEntries(s.event)
    ensures o.node in NodesAt(s.history, s.committed)
  {
    hide Inv, NodesAt, Lineage;
    DiskHolds(cfg, s);
    assert o.node in Elements(s.event.value.orphans);
  }

  /** The facts about the disk, with the store it should be. */
  lemma DiskFacts(cfg: Config, s: State, h: History, goal: Store)
    requires Inv(cfg, s) && 0 <= s.committed <= |s.history| && h == s.history[..s.committed]
    requires Keeps(h, s.disk.roots.Keys) ==> goal == Canonical(h, s.disk.roots.Keys)
    ensures Lineage(h) && Keeps(h, s.disk.roots.Keys) && NodesAt(h, |h|) == NodesAt(s.history, s.committed)
    ensures s.disk.roots == goal.roots
    ensures goal.nodes + Early(s.event) <= s.disk.nodes <= goal.nodes + Early(s.event) + s.loose
    ensures s.disk.orphans == Booked(goal.orphans, s.loose) + EarlyEntries(s.event)
  {
    hide Inv, NodesAt, Lineage, Canonical;
    DiskHolds(cfg, s);
    PrefixKeepsLineage(s.history, s.committed);
    PrefixNodes(s.history, s.committed, s.committed);
  }

  lemma CommittedIsSaved(cfg: Config, s: State)
    requires Inv(cfg, s)
    ensures 0 <= s.committed <= |s.history|
  {
    hide Inv;
    DiskHolds(cfg, s);
  }

  lemma CleanIsCanonical(cfg: Config, s: State, h: History, goal: Store)
    requires Inv(cfg, s) && 0 <= s.committed <= |s.history| && h == s.history[..s.committed] && Clean(s)
    requires Keeps(h, s.disk.roots.Keys) && goal == Canonical(h, s.disk.roots.Keys)
    ensures s.disk == goal
  {
    hide Inv, NodesAt, Lineage, Canonical;
    DiskFacts(cfg, s, h, goal);
    forall n | n in Early(s.event) ensures n in goal.nodes {
      EarlyIsKnown(cfg, s, n);
      EntryOrLatest(h, s.disk.roots.Keys, n);
    }
    forall n | n in s.loose && n in s.disk.nodes
      ensures n in goal.nodes && forall o :: o in goal.orphans ==> o.node != n
    {
      EntryOrLatest(h, s.disk.roots.Keys, n);
    }
    forall o | o in goal.orphans ensures o.node in goal.nodes { EntryOrLatest(h, s.disk.roots.Keys, o.node); }
    assert Booked(goal.orphans, s.loose) == goal.orphans;
    assert s.disk.nodes == goal.nodes;
  }

  lemma CanonicalIsClean(cfg: Config, s: State, h: History, goal: Store)
    requires Inv(cfg, s) && 0 <= s.committed <= |s.history| && h == s.history[..s.committed]
    requires Keeps(h, s.disk.roots.Keys) && goal == Canonical(h, s.disk.roots.Keys) && s.disk == goal
    ensures Clean(s)
  {
    hide Inv, NodesAt, Lineage, Canonical, Early, EarlyEntries;
    DiskFacts(cfg, s, h, goal);
    forall o | o in EarlyEntries(s.event) ensures false {
      EarlyEntryIsLive(cfg, s, o);
      EntryOrLatest(h, s.disk.roots.Keys, o.node);
    }
    forall n | n in Early(s.event) ensures n.version <= s.committed {
      EntryOrLatest(h, s.disk.roots.Keys, n);
    }
    forall n | n in s.loose && n in s.disk.nodes ensures n in NodesAt(s.history, s.committed) {
      EntryOrLatest(h, s.disk.roots.Keys, n);
    }
  }

  /**
   * At any moment of any run, restarting from the disk gives a freshly loaded tree of the committed history, with an
   * exact store, if and only if the disk is clean. What a crash loses is then the versions not yet committed, and every
   * theorem about runs holds for the run that follows.
   */
  lemma CrashRecovers(cfg: Config, s0: State, actions: seq<Action>, s: State, queue: seq<int>)
    requires Initial(s0) && Run(cfg, s0, actions, s) && cfg.historyNum >= 2
    requires Increasing(queue) && Elements(queue) == s.disk.roots.Keys
    ensures 0 <= s.committed <= |s.history| && (Initial(Restarted(s, queue)) <==> Clean(s))
  {
    hide Run, Inv, Canonical, Lineage, NodesAt, Clean;
    InitialIsInv(cfg, s0);
    RunKeepsInv(cfg, s0, actions, s);
    CommittedIsSaved(cfg, s);
    var h := Survives(s);
    DiskFacts(cfg, s, h, if Keeps(h, s.disk.roots.Keys) then Canonical(h, s.disk.roots.Keys) else s.disk);
    if Clean(s) {
      CleanIsCanonical(cfg, s, h, Canonical(h, s.disk.roots.Keys));
    } else if s.disk == Canonical(h, s.disk.roots.Keys) {
      CanonicalIsClean(cfg, s, h, s.disk);
    }
  }

  /** With batches, and without saving a version again, a crash is always recovered from. */
  lemma BatchedRunsRecover(cfg: Config, s0: State, actions: seq<Action>, s: State, queue: seq<int>)
    requires Initial(s0) && Run(cfg, s0, actions, s) && cfg.historyNum >= 2
    requires Increasing(queue) && Elements(queue) == s.disk.roots.Keys
    requires forall a :: a in actions ==> !a.EarlyEntry? && !a.EarlyNode? && !a.Resave?
    ensures 0 <= s.committed <= |s.history| && Initial(Restarted(s, queue))
  {
    assert Late(s0);
    hide Run, Initial, Restarted;
    NothingIsLoose(cfg, s0, actions, s);
    NothingIsEarly(cfg, s0, actions, s);
    CrashRecovers(cfg, s0, actions, s, queue);
  }

  ghost predicate Late(s: State) {
    Early(s.event) == {} && EarlyEntries(s.event) == {}
  }

  lemma {:induction false} NothingIsEarly(cfg: Config, s: State, actions: seq<Action>, s': State)
    requires Run(cfg, s, actions, s') && Late(s)
    requires forall a :: a in actions ==> !a.EarlyEntry? && !a.EarlyNode?
    ensures Late(s')
    decreases actions
  {
    if actions != [] {
      assert actions[0] in actions;
      StepIsLate(cfg, s, actions[0]);
      hide Step, Late;
      NothingIsEarly(cfg, Step(cfg, s, actions[0]), actions[1..], s');
    }
  }

  lemma StepIsLate(cfg: Config, s: State, a: Action)
    requires Enabled(s, a) && Late(s) && !a.EarlyEntry? && !a.EarlyNode?
    ensures Late(Step(cfg, s, a))
  {
    hide Apply, Flagged, UnsavedRoot, RootNodes, NodesAt, Commit, PruneBatch, Entries, Previous, MayDelete, Accepted;
  }

  /** Without batches it is not: an orphan entry written ahead gives a node of the latest version on disk an end. */
  lemma EarlyEntryIsNotRecovered(cfg: Config, s0: State, actions: seq<Action>, s: State, o: Orphan, queue: seq<int>)
    requires Initial(s0) && Run(cfg, s0, actions, s) && cfg.historyNum >= 2 && Enabled(s, EarlyEntry(o))
    requires Increasing(queue) && Elements(queue) == s.disk.roots.Keys
    ensures var s' := Step(cfg, s, EarlyEntry(o));
            && 0 <= s'.committed <= |s'.history| && !Initial(Restarted(s', queue))
            && o in s'.disk.orphans && o.to == s'.committed && o.node in NodesAt(s'.history, s'.committed)
  {
    hide Run, Initial, Restarted, Inv, NodesAt, Previous;
    var s' := Step(cfg, s, EarlyEntry(o));
    RunOneMore(cfg, s0, actions, s, EarlyEntry(o));
    CrashRecovers(cfg, s0, actions + [EarlyEntry(o)], s', queue);
    InitialIsInv(cfg, s0);
    RunKeepsInv(cfg, s0, actions + [EarlyEntry(o)], s');
    EarlyEntryIsLive(cfg, s', o);
    DiskHolds(cfg, s');
  }

  // ---------------------------------------------------------------- an entry written ahead

  /** A tree loaded at version 1, with one leaf. */
  ghost function OneLeaf(leaf: Tree): State {
    var root := Some(leaf);
    State([root], Working(1, root, root, []), [], {leaf}, Idle, {}, map[], {}, map[], None, None,
          1, Store(map[1 := root], {leaf}, {}), 1, [1], {1}, {1}, {}, {}, None, 1, Some(0), {}, {})
  }

  lemma OneLeafIsInitial(key: Key, value: Value)
    ensures Initial(OneLeaf(Leaf(key, value, 1)))
  {
    var leaf := Leaf(key, value, 1);
    var s := OneLeaf(leaf);
    assert NodesAt(s.history, 1) == {leaf};
    var goal := Canonical(s.history, {1});
    assert goal.roots == s.disk.roots && goal.nodes == {leaf} && goal.orphans == {};
    assert forall q :: q in s.queue <==> q in s.heights;
  }

  /** The key is removed, and version 2 hashed and handed over. */
  ghost function HandedOver(leaf: Tree): State {
    var s := OneLeaf(leaf);
    s.(history := [Some(leaf), None], w := Working(1, Some(leaf), None, [leaf]), saver := Handed, orphanCache := {leaf},
       event := Some(Event(2, None, {}, [leaf], {1}, Received, {}, {}, {})), latest := 2, result := None)
  }

  lemma RemoveLeaf(cfg: Config, key: Key, value: Value)
    ensures var leaf := Leaf(key, value, 1);
            && Enabled(OneLeaf(leaf), Change(Remove(key)))
            && Step(cfg, OneLeaf(leaf), Change(Remove(key))) ==
               OneLeaf(leaf).(w := Working(1, Some(leaf), None, [leaf]), commitOrphans := [leaf])
  {
    LessIrreflexive(key);
    var leaf := Leaf(key, value, 1);
    var w := OneLeaf(leaf).w;
    assert [leaf][1..] == [] && KeepSaved([leaf], 1) == [leaf];
    assert RemoveTree(leaf, key, 2).orphans == [leaf];
    assert Apply(w, Remove(key)) == Working(1, Some(leaf), None, [leaf]);
    assert Flagged([leaf], {leaf}) == [leaf];
  }

  lemma HashAndHand(cfg: Config, leaf: Tree, s: State) returns (s1: State, s2: State, s3: State)
    requires s == OneLeaf(leaf).(w := Working(1, Some(leaf), None, [leaf]), commitOrphans := [leaf])
    ensures Enabled(s, Ask) && s1 == Step(cfg, s, Ask) && Enabled(s1, Hash(true)) && s2 == Step(cfg, s1, Hash(true))
    ensures Enabled(s2, Feed) && s3 == Step(cfg, s2, Feed) && Enabled(s3, Hand)
    ensures Step(cfg, s3, Hand) == HandedOver(leaf)
  {
    s1 := Step(cfg, s, Ask);
    s2 := Step(cfg, s1, Hash(true));
    s3 := Step(cfg, s2, Feed);
  }

  /** An entry written ahead: a leaf of version 1 is removed in version 2, and version 2 is being committed. */
  lemma EntryIsWrittenAhead(cfg: Config, key: Key, value: Value) returns (actions: seq<Action>, s: State, o: Orphan)
    requires cfg.historyNum >= 2
    ensures Initial(OneLeaf(Leaf(key, value, 1))) && Run(cfg, OneLeaf(Leaf(key, value, 1)), actions, s)
    ensures o == Orphan(1, 1, Leaf(key, value, 1)) && Enabled(s, EarlyEntry(o))
  {
    OneLeafIsInitial(key, value);
    RemoveLeaf(cfg, key, value);
    var leaf := Leaf(key, value, 1);
    o := Orphan(1, 1, leaf);
    s := LogStep(cfg, HandedOver(leaf), {});
    var s0 := OneLeaf(leaf);
    var s1 := Step(cfg, s0, Change(Remove(key)));
    var s2, s3, s4 := HashAndHand(cfg, leaf, s1);
    LogsEntry(cfg, leaf);
    hide Run, Initial, Step, Enabled, LogStep, HandedOver, OneLeaf;
    RunNothing(cfg, s0);
    RunOneMore(cfg, s0, [], s0, Change(Remove(key)));
    actions := [] + [Change(Remove(key))];
    RunOneMore(cfg, s0, actions, s1, Ask);
    actions := actions + [Ask];
    RunOneMore(cfg, s0, actions, s2, Hash(true));
    actions := actions + [Hash(true)];
    RunOneMore(cfg, s0, actions, s3, Feed);
    actions := actions + [Feed];
    RunOneMore(cfg, s0, actions, s4, Hand);
    actions := actions + [Hand];
    RunOneMore(cfg, s0, actions, HandedOver(leaf), Log({}));
    actions := actions + [Log({})];
  }

  lemma LogsEntry(cfg: Config, leaf: Tree)
    requires cfg.historyNum >= 2 && leaf.version == 1
    ensures var s := LogStep(cfg, HandedOver(leaf), {});
            && Enabled(HandedOver(leaf), Log({})) && Step(cfg, HandedOver(leaf), Log({})) == s
            && Enabled(s, EarlyEntry(Orphan(1, 1, leaf)))
  {
    assert Previous({1}, 2) == 1;
    assert HandedOver(leaf).disk.roots.Keys == {1};
    assert Orphan(1, 1, leaf) in Entries([leaf], 1);
  }
}
