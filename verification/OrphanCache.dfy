/** What stays in the orphan cache of an asynchronous run: the orphans of recent versions, and of the first save. */
module OrphanCache {
  import opened Tree
  import opened Orphans
  import opened VersionStore
  import opened AsyncCommit

  /** The orphans filed under some version that still has an item. */
  ghost function Filed(items: map<int, Item>): set<Tree> {
    set v, n | v in items && n in items[v].orphans :: n
  }

  /** The orphans a step feeds to the cache although the version they are to be filed under has no item. */
  ghost function UnfiledBy(s: State, a: Action): set<Tree> {
    if a.Feed? && s.w.version !in s.items then TreeOrphans(s)
    else if a.RunTask? && s.task.Some? && !s.task.value.persist && s.task.value.version - 1 !in s.items then
      s.task.value.orphans
    else {}
  }

  ghost function Unfiled(cfg: Config, s: State, actions: seq<Action>): set<Tree>
    decreases actions
  {
    if actions == [] || !Enabled(s, actions[0]) then {}
    else UnfiledBy(s, actions[0]) + Unfiled(cfg, Step(cfg, s, actions[0]), actions[1..])
  }

  lemma FeedFiles(items: map<int, Item>, cache: set<Tree>, version: int, orphans: set<Tree>, unfiled: set<Tree>)
    requires cache <= Filed(items) + unfiled && (version in items ==> items[version].orphans == {})
    ensures cache + orphans <=
            Filed(FeedItems(items, version, orphans)) + unfiled + if version in items then {} else orphans
  {
    var items' := FeedItems(items, version, orphans);
    forall n | n in Filed(items) ensures n in Filed(items') {
      var v :| v in items && n in items[v].orphans;
      assert v in items' && n in items'[v].orphans;
    }
    if version in items {
      forall n | n in orphans ensures n in Filed(items') { assert version in items' && n in items'[version].orphans; }
    }
  }

  lemma ExpireForgets(items: map<int, Item>, cache: set<Tree>, expired: int, unfiled: set<Tree>)
    requires cache <= Filed(items) + unfiled && expired in items
    ensures cache - items[expired].orphans <= Filed(items - {expired}) + unfiled
  {
    var items' := items - {expired};
    forall n | n in cache - items[expired].orphans && n !in unfiled ensures n in Filed(items') {
      var v :| v in items && n in items[v].orphans;
      assert v in items' && n in items'[v].orphans;
    }
  }

  lemma NewItem(items: map<int, Item>, version: int, root: Option<Tree>)
    requires version !in items
    ensures Filed(items) <= Filed(items[version := Item(root, {})])
  {
    var items' := items[version := Item(root, {})];
    forall n | n in Filed(items) ensures n in Filed(items') {
      var v :| v in items && n in items[v].orphans;
      assert v in items' && n in items'[v].orphans;
    }
  }

  /** Only the item of the version before is fed, once; a new version has no item. */
  lemma ItemFacts(cfg: Config, s: State)
    requires Inv(cfg, s)
    ensures s.saver.Hashed? || (s.task.Some? && !s.task.value.persist) ==>
              |s.history| - 1 in s.items ==> s.items[|s.history| - 1].orphans == {}
    ensures s.task.Some? ==> s.task.value.version == |s.history|
    ensures !Resting(s.saver) ==> s.w.version + 1 == |s.history|
    ensures s.saver.Hashed? || s.saver.Handed? ==> |s.history| !in s.items
  {
    VersionFacts(cfg, s);
    hide Trees, OnDisk, Flags, Recorded, Pooled, Separate, Listed, Batched, Marked, Held, Unmarked, Requeued,
         Dropped, Dated, Cached, Genuine, InEvent, NodesAt;
    if (s.saver.Hashed? || (s.task.Some? && !s.task.value.persist)) && |s.history| - 1 in s.items {
      var item := s.items[|s.history| - 1];
      forall n | n in item.orphans ensures false {}
    }
  }

  lemma StepFiles(cfg: Config, s: State, a: Action, unfiled: set<Tree>)
    requires Inv(cfg, s) && Enabled(s, a) && s.orphanCache <= Filed(s.items) + unfiled
    ensures var s' := Step(cfg, s, a); s'.orphanCache <= Filed(s'.items) + unfiled + UnfiledBy(s, a)
  {
    hide Inv, Filed, TreeOrphans, NodesAt, RootNodes, Apply, Flagged, UnsavedRoot, Elements, Accepted, Unflagged,
         Entries, Previous, MayDelete, PruneBatch, Commit, FeedItems;
    ItemFacts(cfg, s);
    if a.Feed? {
      FeedFiles(s.items, s.orphanCache, s.w.version, TreeOrphans(s), unfiled);
    } else if a.RunTask? {
      TaskFiles(cfg, s, unfiled);
    } else if a.Enqueue? {
      NewItem(s.items, s.w.version + 1, s.w.root);
    }
  }

  lemma TaskFiles(cfg: Config, s: State, unfiled: set<Tree>)
    requires s.task.Some? && s.orphanCache <= Filed(s.items) + unfiled
    requires var t := s.task.value;
             !t.persist && t.version - 1 in s.items ==> s.items[t.version - 1].orphans == {}
    ensures var s' := RunTaskStep(cfg, s); s'.orphanCache <= Filed(s'.items) + unfiled + UnfiledBy(s, RunTask)
  {
    hide Filed, FeedItems, TreeOrphans;
    var t := s.task.value;
    if !t.persist { FeedFiles(s.items, s.orphanCache, t.version - 1, t.orphans, unfiled); }
    var fed := if t.persist then s else FeedOrphans(s, t.version, t.orphans);
    var expired := t.version - cfg.itemSize;
    if expired in fed.items { ExpireForgets(fed.items, fed.orphanCache, expired, unfiled + UnfiledBy(s, RunTask)); }
  }

  lemma {:induction false} RunFiles(cfg: Config, s: State, actions: seq<Action>, s': State, unfiled: set<Tree>)
    requires Inv(cfg, s) && Run(cfg, s, actions, s') && cfg.historyNum >= 2
    requires s.orphanCache <= Filed(s.items) + unfiled
    ensures s'.orphanCache <= Filed(s'.items) + unfiled + Unfiled(cfg, s, actions)
    decreases actions
  {
    hide Inv, Step, Filed, UnfiledBy;
    if actions != [] {
      var a := actions[0];
      StepKeepsInv(cfg, s, a);
      StepFiles(cfg, s, a, unfiled);
      RunFiles(cfg, Step(cfg, s, a), actions[1..], s', unfiled + UnfiledBy(s, a));
    }
  }

  /**
   * In every run, the orphan cache holds no node but those filed under a version that still has an item, which are the
   * recent versions (`AsyncCommit.FoundRoots`), and those that could not be filed.
   */
  lemma OrphansAreForgotten(cfg: Config, s0: State, actions: seq<Action>, s: State)
    requires Initial(s0) && Run(cfg, s0, actions, s) && cfg.historyNum >= 2
    ensures s.orphanCache <= Filed(s.items) + Unfiled(cfg, s0, actions)
  {
    hide Inv, Run, Filed, Unfiled;
    InitialIsInv(cfg, s0);
    RunFiles(cfg, s0, actions, s, {});
  }

  // ---------------------------------------------------------------- what cannot be filed

  /** A version other than the first one saved since the start files its orphans. */
  lemma OthersAreFiled(cfg: Config, s: State, a: Action, loaded: int)
    requires Inv(cfg, s) && Enabled(s, a) && Windowed(cfg, s, loaded) && SavedSince(s, loaded) && cfg.itemSize >= 1
    ensures UnfiledBy(s, a) != {} ==> |s.history| == loaded + 1
    ensures UnfiledBy(s, a) <= NodesAt(s.history, |s.history| - 1)
  {
    hide Inv, TreeOrphans, NodesAt;
    TurnFacts(cfg, s);
    VersionFacts(cfg, s);
    DroppedAreOld(cfg, s);
  }

  /** A queued task belongs to a version saved since the start. */
  ghost predicate SavedSince(s: State, loaded: int) {
    s.task.Some? ==> |s.history| > loaded
  }

  lemma StepKeepsSince(cfg: Config, s: State, a: Action, loaded: int)
    requires Enabled(s, a) && Windowed(cfg, s, loaded) && SavedSince(s, loaded)
    ensures SavedSince(Step(cfg, s, a), loaded)
  {
    hide TreeOrphans, NodesAt, RootNodes, Apply, Flagged, UnsavedRoot, Elements, Accepted, Unflagged, Entries, Previous,
         MayDelete, PruneBatch, Commit, FeedItems;
  }

  lemma DroppedAreOld(cfg: Config, s: State)
    requires Inv(cfg, s)
    ensures s.saver.Hashed? ==> TreeOrphans(s) <= NodesAt(s.history, |s.history| - 1)
    ensures s.task.Some? && !s.task.value.persist ==> s.task.value.orphans <= NodesAt(s.history, |s.history| - 1)
  {
    hide Trees, OnDisk, Flags, Recorded, Pooled, Separate, Listed, Batched, Marked, Held, Unmarked, Requeued, Dated,
         Cached, Genuine, InEvent, NodesAt, Itemized, TreeOrphans, Lineage;
  }

  lemma {:induction false} UnfiledAreLoaded(cfg: Config, s: State, actions: seq<Action>, s': State, loaded: int)
    requires Inv(cfg, s) && Run(cfg, s, actions, s') && Windowed(cfg, s, loaded) && SavedSince(s, loaded)
    requires cfg.historyNum >= 2 && cfg.itemSize >= 1
    ensures 0 <= loaded <= |s.history| && Unfiled(cfg, s, actions) <= NodesAt(s'.history, loaded)
    decreases actions
  {
    hide Inv, Step, UnfiledBy, NodesAt;
    if actions != [] {
      var a, s1 := actions[0], Step(cfg, s, actions[0]);
      StepKeepsInv(cfg, s, a);
      StepKeepsWindow(cfg, s, a, loaded);
      StepKeepsSince(cfg, s, a, loaded);
      OthersAreFiled(cfg, s, a, loaded);
      UnfiledAreLoaded(cfg, s1, actions[1..], s', loaded);
      RunExtendsHistory(cfg, s, actions, s');
      SameNodes(s.history, s'.history, loaded);
    }
  }

  lemma SameNodes(history: History, longer: History, v: int)
    requires history <= longer && v <= |history|
    ensures NodesAt(history, v) == NodesAt(longer, v)
  {
  }

  /** With a window of at least one version, only nodes of the version the run was loaded at are never forgotten. */
  lemma OnlyLoadedStay(cfg: Config, s0: State, actions: seq<Action>, s: State)
    requires Initial(s0) && Run(cfg, s0, actions, s) && cfg.historyNum >= 2 && cfg.itemSize >= 1
    ensures s.orphanCache <= Filed(s.items) + NodesAt(s.history, |s0.history|)
  {
    hide Inv, Run, Filed, Unfiled, NodesAt;
    InitialIsInv(cfg, s0);
    OrphansAreForgotten(cfg, s0, actions, s);
    UnfiledAreLoaded(cfg, s0, actions, s, |s0.history|);
  }
}
