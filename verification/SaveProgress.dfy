/** What SaveVersion does with a tree of an asynchronous run, and that a save can always be brought to its end. */
module SaveProgress {
  import opened Tree
  import opened TreeUpdate
  import opened Orphans
  import opened VersionStore
  import opened AsyncCommit
  import Pruning

  // ---------------------------------------------------------------- which branch a save takes

  /**
   * In every run, SaveVersion saves again exactly a tree that was rolled back behind its history and whose latest
   * version was persisted. Any other tree is saved as a new version, or waits for that for ever if it was rolled back.
   */
  lemma SaveTakesBranch(cfg: Config, s0: State, actions: seq<Action>, s: State)
    requires Initial(s0) && Run(cfg, s0, actions, s) && cfg.historyNum >= 2 && s.saver.Idle?
    ensures Enabled(s, Resave({})) <==> Detached(s.history, s.w.version) && s.latest == |s.history|
    ensures Enabled(s, Ask) <==> !Enabled(s, Resave({}))
  {
    hide Inv, Initial, Run;
    InitialIsInv(cfg, s0);
    RunKeepsInv(cfg, s0, actions, s);
    VersionFacts(cfg, s);
    Pruning.LatestFacts(cfg, s);
    Pruning.VersionsAreAccountedFor(cfg, s0, actions, s);
    PoolHolds(cfg, s);
    if s.latest == |s.history| && |s.history| > 0 { LatestIsListed(cfg, s); }
  }

  /** The latest version handed over is with the commit goroutine or in the queue. */
  lemma LatestIsListed(cfg: Config, s: State)
    requires Inv(cfg, s) && s.latest > 0
    ensures s.latest in Elements(s.queue) + Pruning.ReceivedVersion(s.event)
  {
    hide Inv;
    Pruning.LatestFacts(cfg, s);
    PoolHolds(cfg, s);
  }

  // ---------------------------------------------------------------- no save gets stuck

  /** What waiting for the result of the version before depends on. */
  lemma WaitFacts(cfg: Config, s: State)
    requires Inv(cfg, s) && Resting(s.saver) && !Detached(s.history, s.w.version)
    ensures s.w.version == |s.history| && (s.task.Some? ==> s.result.None?)
    ensures s.task.None? ==> s.result.Some? && Awaited(s.w.version, s.result.value)
    ensures s.saver.Idle? ==> s.w.version + 1 !in s.versions
  {
    Pruning.LatestFacts(cfg, s);
    hide Itemized, Pooled, OnDisk, Flags, Cached, Recorded, Genuine, Listed, Batched, Requeued, Unmarked, Flying,
         NodesAt, RootNodes, Lineage, Balanced, BuiltOn, Held, InEvent, Tasked, Shed, Separate, Marked, Dated;
  }

  /** The same save, further on. */
  ghost predicate SameSave(s: State, s': State) {
    s'.history == s.history && s'.w == s.w && s'.saver == s.saver && s'.twins == s.twins
  }

  /** The commit goroutine can always finish the event it has. */
  lemma EventEnds(cfg: Config, s: State) returns (actions: seq<Action>, s': State)
    requires Inv(cfg, s) && cfg.historyNum >= 2
    ensures Run(cfg, s, actions, s') && Inv(cfg, s') && s'.event.None? && SameSave(s, s')
  {
    hide Inv, Run;
    actions, s' := [], s;
    RunNothing(cfg, s);
    if s'.event.Some? && s'.event.value.phase.Received? { actions, s' := Onward(cfg, s, actions, s', Log({})); }
    if s'.event.Some? && s'.event.value.phase.Logged? { actions, s' := Onward(cfg, s, actions, s', Write); }
    if s'.event.Some? && s'.event.value.phase.Written? { actions, s' := Onward(cfg, s, actions, s', Release); }
  }

  /** One more step of the commit goroutine. */
  lemma Onward(cfg: Config, s: State, actions: seq<Action>, s1: State, a: Action) returns (all: seq<Action>, s': State)
    requires Inv(cfg, s1) && cfg.historyNum >= 2 && Run(cfg, s, actions, s1) && Enabled(s1, a) && SameSave(s, s1)
    requires a == Log({}) || a.Write? || a.Release?
    ensures Run(cfg, s, all, s') && Inv(cfg, s') && SameSave(s, s') && s' == Step(cfg, s1, a)
    ensures a.Release? <==> s'.event.None?
    ensures a.Log? ==> s'.event.value.phase.Logged?
    ensures a.Write? ==> s'.event.value.phase.Written?
  {
    hide Inv, Run, Entries, Previous, MayDelete, Commit, Elements;
    StepKeepsInv(cfg, s1, a);
    RunOneMore(cfg, s, actions, s1, a);
    all, s' := actions + [a], Step(cfg, s1, a);
  }

  /** A tree that is at its latest version can be hashed, after the commit of the version before. */
  lemma SaveBegins(cfg: Config, s: State, persist: bool) returns (actions: seq<Action>, s': State)
    requires Inv(cfg, s) && cfg.historyNum >= 2 && s.saver.Idle? && !Detached(s.history, s.w.version)
    ensures Run(cfg, s, actions, s') && Inv(cfg, s') && s'.saver == Hashed(persist)
    ensures s'.history == s.history + [s.w.root] && s'.w == s.w
  {
    hide Inv, Run, UnsavedRoot, RootNodes, NodesAt, Elements, Expire, FeedOrphans, Unflagged;
    WaitFacts(cfg, s);
    StepKeepsInv(cfg, s, Ask);
    RunNothing(cfg, s);
    RunOneMore(cfg, s, [], s, Ask);
    actions, s' := [] + [Ask], Step(cfg, s, Ask);
    if s'.task.Some? {
      StepKeepsInv(cfg, s', RunTask);
      RunOneMore(cfg, s, actions, s', RunTask);
      TaskKeeps(cfg, s');
      actions, s' := actions + [RunTask], Step(cfg, s', RunTask);
    }
    WaitFacts(cfg, s');
    StepKeepsInv(cfg, s', Hash(persist));
    RunOneMore(cfg, s, actions, s', Hash(persist));
    actions, s' := actions + [Hash(persist)], Step(cfg, s', Hash(persist));
  }

  lemma TaskKeeps(cfg: Config, s: State)
    requires s.task.Some?
    ensures var s' := RunTaskStep(cfg, s);
            s'.task.None? && s'.history == s.history && s'.w == s.w && s'.saver == s.saver
  {
  }

  /** A hashed version can be handed over, after the event before. */
  lemma SaveHands(cfg: Config, s: State) returns (actions: seq<Action>, s': State)
    requires Inv(cfg, s) && cfg.historyNum >= 2 && s.saver == Hashed(true)
    ensures Run(cfg, s, actions, s') && Inv(cfg, s') && s'.saver.Handed?
    ensures s'.history == s.history && s'.w == s.w && s'.latest == s.w.version + 1
  {
    hide Inv, Run, RootNodes, NodesAt, Elements, TreeOrphans, FeedItems;
    StepKeepsInv(cfg, s, Feed);
    RunNothing(cfg, s);
    RunOneMore(cfg, s, [], s, Feed);
    var s1 := Step(cfg, s, Feed);
    var more, s2 := EventEnds(cfg, s1);
    RunsOn(cfg, s, [] + [Feed], s1, more, s2);
    StepKeepsInv(cfg, s2, Hand);
    RunOneMore(cfg, s, [] + [Feed] + more, s2, Hand);
    actions, s' := [] + [Feed] + more + [Hand], Step(cfg, s2, Hand);
  }

  lemma {:induction false} RunsOn(cfg: Config, s: State, a: seq<Action>, s1: State, b: seq<Action>, s2: State)
    requires Run(cfg, s, a, s1) && Run(cfg, s1, b, s2)
    ensures Run(cfg, s, a + b, s2)
    decreases a
  {
    hide Step, Enabled;
    if a == [] {
      assert a + b == b;
    } else {
      RunsOn(cfg, Step(cfg, s, a[0]), a[1..], s1, b, s2);
      assert (a + b)[0] == a[0] && (a + b)[1..] == a[1..] + b;
    }
  }

  /** The commit is queued and the working tree set. */
  lemma SaveFinishes(cfg: Config, s: State) returns (actions: seq<Action>, s': State)
    requires Inv(cfg, s) && cfg.historyNum >= 2 && (s.saver == Hashed(false) || s.saver.Handed?)
    ensures Run(cfg, s, actions, s') && Inv(cfg, s') && s'.saver.Idle? && s'.history == s.history
    ensures s'.w == Working(s.w.version + 1, s.w.root, s.w.root, []) && s'.latest == s.latest
  {
    hide Inv, Run, RootNodes, NodesAt, Elements, TreeOrphans;
    StepKeepsInv(cfg, s, Enqueue);
    RunNothing(cfg, s);
    RunOneMore(cfg, s, [], s, Enqueue);
    var s1 := Step(cfg, s, Enqueue);
    StepKeepsInv(cfg, s1, Finish);
    RunOneMore(cfg, s, [] + [Enqueue], s1, Finish);
    actions, s' := [] + [Enqueue] + [Finish], Step(cfg, s1, Finish);
  }

  /**
   * No save gets stuck: from every reachable state in which the tree is not behind its history, the working tree can be
   * saved as the next version, persisted or not, by steps of the saver, the commit goroutine and the orphan goroutine.
   */
  lemma SaveCanEnd(cfg: Config, s0: State, before: seq<Action>, s: State, persist: bool)
    returns (actions: seq<Action>, s': State)
    requires Initial(s0) && Run(cfg, s0, before, s) && cfg.historyNum >= 2
    requires s.saver.Idle? && !Detached(s.history, s.w.version)
    ensures Run(cfg, s, actions, s') && s'.saver.Idle? && s'.history == s.history + [s.w.root]
    ensures s'.w == Working(|s'.history|, s.w.root, s.w.root, []) && (persist ==> s'.latest == |s'.history|)
  {
    hide Inv, Run, Initial;
    InitialIsInv(cfg, s0);
    RunKeepsInv(cfg, s0, before, s);
    VersionFacts(cfg, s);
    var s1;
    actions, s1 := SaveBegins(cfg, s, persist);
    if persist {
      var hand, s2 := SaveHands(cfg, s1);
      RunsOn(cfg, s, actions, s1, hand, s2);
      actions, s1 := actions + hand, s2;
    }
    var finish;
    finish, s' := SaveFinishes(cfg, s1);
    RunsOn(cfg, s, actions, s1, finish, s');
    actions := actions + finish;
  }
}
