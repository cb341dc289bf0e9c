/** Where every version of an asynchronous run is: kept, on its way out, or refused because it was being read. */
module Pruning {
  import opened Tree
  import opened Orphans
  import opened VersionStore
  import opened AsyncCommit

  /** The version the commit goroutine has been given and not logged yet. */
  ghost function ReceivedVersion(event: Option<Event>): set<int> {
    if event.Some? && event.value.phase.Received? then {event.value.version} else {}
  }

  /** The version that is in the queue and whose root is not written yet. */
  ghost function LoggedVersion(event: Option<Event>): set<int> {
    if event.Some? && event.value.phase.Logged? then {event.value.version} else {}
  }

  /** The version handed to the commit goroutine that tree.versions does not list before the save ends. */
  ghost function Unlisted(s: State): set<int> {
    if (s.saver.Handed? || s.saver.Queued?) && s.latest == |s.history| then {|s.history|} else {}
  }

  /** The version a step takes out of the queue although it is being read. */
  ghost function RefusedBy(cfg: Config, s: State, a: Action): set<int> {
    if a.Log? && |s.queue| >= cfg.historyNum >= 1 && s.queue[0] in a.readers then {s.queue[0]} else {}
  }

  /** The versions a run takes out of the queue although they are being read: nobody asks for them again. */
  ghost function Refused(cfg: Config, s: State, actions: seq<Action>): set<int>
    decreases actions
  {
    if actions == [] || !Enabled(s, actions[0]) then {}
    else RefusedBy(cfg, s, actions[0]) + Refused(cfg, Step(cfg, s, actions[0]), actions[1..])
  }

  /** Every root is in the queue, on its way out or refused; each in one place only. */
  ghost predicate Placed(queue: seq<int>, popped: set<int>, refused: set<int>, roots: set<int>, event: Option<Event>) {
    && roots + LoggedVersion(event) == Elements(queue) + popped + refused
    && refused !! popped && forall k, q :: k in refused && q in queue ==> k < q
  }

  /** tree.versions lists what is in the queue or about to be, what was refused and what is not sent to pruning yet. */
  ghost predicate Tallied(queue: seq<int>, removed: set<int>, refused: set<int>, event: Option<Event>,
                          versions: set<int>, unlisted: set<int>) {
    versions + unlisted == Elements(queue) + ReceivedVersion(event) + refused + removed
  }

  ghost predicate Accounted(s: State, refused: set<int>) {
    && Placed(s.queue, Popped(s.removed, s.pruning, s.prune), refused, s.disk.roots.Keys, s.event)
    && Tallied(s.queue, s.removed, refused, s.event, s.versions, Unlisted(s)) && Unlisted(s) !! s.versions
  }

  // ---------------------------------------------------------------- every step

  lemma LatestFacts(cfg: Config, s: State)
    requires Inv(cfg, s)
    ensures s.latest == Base(s.committed, s.event) <= |s.history|
    ensures s.saver.Hashed? || s.saver.Fed? ==> s.latest < |s.history|
    ensures !Resting(s.saver) ==> s.w.version + 1 == |s.history|
    ensures Vetted(s.versions, s.latest) && Separate(s.removed, s.pruning, s.prune)
  {
    VersionFacts(cfg, s);
    hide Itemized, Pooled, OnDisk, Flags, Cached, Recorded, Genuine, Listed, Batched, Requeued, Unmarked, Flying,
         NodesAt, RootNodes, Trees, Held, InEvent, Tasked, Shed, Marked, Answered, Dated;
  }

  /** Steps of the saver before the event is handed over, and of the orphan goroutine. */
  ghost predicate Quiet(a: Action) {
    a.Change? || a.Ask? || a.Skip? || a.Hash? || a.Resave? || a.Feed? || a.RunTask?
  }

  lemma QuietKeepsFields(cfg: Config, s: State, a: Action)
    requires Enabled(s, a) && Quiet(a)
    ensures var s' := Step(cfg, s, a);
            && s'.queue == s.queue && s'.removed == s.removed && s'.pruning == s.pruning && s'.prune == s.prune
            && s'.disk == s.disk && s'.event == s.event && s'.versions == s.versions
            && (s.saver.Handed? || s.saver.Queued? ==> s'.history == s.history && s'.latest == s.latest)
            && (s.saver.Handed? || s.saver.Queued? <==> s'.saver.Handed? || s'.saver.Queued?)
            && (s.saver.Queued? <==> s'.saver.Queued?)
  {
    hide NodesAt, RootNodes, Apply, Flagged, UnsavedRoot, Elements, Accepted, TreeOrphans, Unflagged, FeedItems,
         LogStep, HandStep, WriteStep, PruneBatch, ValidRoot, Awaited;
  }

  lemma HandKeepsAccounts(cfg: Config, s: State, refused: set<int>)
    requires Inv(cfg, s) && Enabled(s, Hand) && Accounted(s, refused)
    ensures Accounted(HandStep(s), refused)
  {
    hide Inv, Elements, Popped, RootNodes;
    LatestFacts(cfg, s);
  }

  lemma EnqueueKeepsAccounts(cfg: Config, s: State, refused: set<int>)
    requires Inv(cfg, s) && Enabled(s, Enqueue) && Accounted(s, refused)
    ensures Accounted(Step(cfg, s, Enqueue), refused)
  {
    hide Inv, Elements, Popped, TreeOrphans;
    LatestFacts(cfg, s);
  }

  /** updatePruningVersion: what was removed is sent to pruning and listed no more. */
  lemma FinishKeepsAccounts(cfg: Config, s: State, refused: set<int>)
    requires Inv(cfg, s) && Enabled(s, Finish) && Accounted(s, refused)
    ensures Accounted(Step(cfg, s, Finish), refused)
  {
    hide Inv;
    LatestFacts(cfg, s);
    PoolHolds(cfg, s);
    ReceivedIsNotRemoved(cfg, s);
    assert Popped({}, s.pruning + s.removed, s.prune) == Popped(s.removed, s.pruning, s.prune);
    hide Pooled, Increasing;
  }

  lemma ReceivedIsNotRemoved(cfg: Config, s: State)
    requires Inv(cfg, s)
    ensures ReceivedVersion(s.event) !! s.removed && |s.history| !in s.removed
    ensures forall k :: k in s.removed ==> k !in s.queue
  {
    hide Inv;
    PoolHolds(cfg, s);
    LatestFacts(cfg, s);
    forall k | k in s.removed ensures k < s.committed { PoppedAreOld(cfg, s, k); }
    if s.event.Some? { EventIsNewer(cfg, s); }
  }

  lemma QueuedOneMore(queue: seq<int>, v: int)
    ensures Elements(queue + [v]) == Elements(queue) + {v}
  {
  }

  lemma FirstLeaves(queue: seq<int>)
    requires queue != [] && Increasing(queue)
    ensures Elements(queue) == Elements(queue[1..]) + {queue[0]} && queue[0] !in queue[1..]
    ensures forall q :: q in queue[1..] ==> q in queue && queue[0] < q
  {
    forall q | q in queue[1..] ensures q in queue && queue[0] < q {
      var i :| 0 <= i < |queue[1..]| && queue[1..][i] == q;
      assert queue[i + 1] == q;
    }
    assert queue == [queue[0]] + queue[1..];
  }

  lemma LogKeepsAccounts(cfg: Config, s: State, readers: set<int>, refused: set<int>)
    requires Inv(cfg, s) && Enabled(s, Log(readers)) && Accounted(s, refused) && cfg.historyNum >= 2
    ensures Accounted(LogStep(cfg, s, readers), refused + RefusedBy(cfg, s, Log(readers)))
  {
    hide Inv, LogStep, Elements, Popped, Increasing, Placed, Tallied;
    var e, s' := s.event.value, LogStep(cfg, s, readers);
    PoolHolds(cfg, s);
    LogPushes(cfg, s);
    LatestFacts(cfg, s);
    RefusedAreOlder(cfg, s, e, refused);
    if |s.queue| >= cfg.historyNum { LogPops(cfg, s); }
    LogFields(cfg, s, readers);
    PushKeepsAccounts(s.queue, Popped(s.removed, s.pruning, s.prune), refused, s.disk.roots.Keys, e, s'.event,
                      s.removed, s.versions, Unlisted(s));
    var popped, read := Popped(s.removed, s.pruning, s.prune), s.queue != [] && s.queue[0] in readers;
    if |s.queue| >= cfg.historyNum {
      assert (s.queue + [e.version])[0] == s.queue[0] && s.queue[0] in s.queue;
      OneMorePopped(s.removed, s.pruning, s.prune, s.queue[0]);
      PopKeepsPlaces(s.queue + [e.version], popped, refused, s.disk.roots.Keys, s'.event, read);
      PopKeepsTally(s.queue + [e.version], s.removed, refused, s'.event, s.versions, Unlisted(s), read);
    }
    assert refused + {} == refused;
  }

  lemma LogFields(cfg: Config, s: State, readers: set<int>)
    requires Enabled(s, Log(readers)) && cfg.historyNum >= 2
    requires |s.queue| >= cfg.historyNum ==>
               s.queue[0] != 0 && s.queue[0] != s.w.version && s.queue[0] in s.event.value.versions
    ensures var s', all := LogStep(cfg, s, readers), s.queue + [s.event.value.version];
            var pops := |s.queue| >= cfg.historyNum;
            && s'.disk == s.disk && s'.pruning == s.pruning && s'.prune == s.prune && s'.versions == s.versions
            && s'.event.Some? && s'.event.value.phase.Logged? && s'.event.value.version == s.event.value.version
            && s'.queue == (if pops then all[1..] else all) && Unlisted(s') == Unlisted(s)
            && s'.removed == if pops && s.queue[0] !in readers then s.removed + {s.queue[0]} else s.removed
  {
    hide Elements, Entries, Previous;
  }

  /** The version received is in the queue. */
  lemma PushKeepsAccounts(queue: seq<int>, popped: set<int>, refused: set<int>, roots: set<int>, e: Event,
                          event: Option<Event>, removed: set<int>, versions: set<int>, unlisted: set<int>)
    requires e.phase.Received? && Placed(queue, popped, refused, roots, Some(e))
    requires event.Some? && event.value.phase.Logged? && event.value.version == e.version
    requires forall k :: k in refused ==> k < e.version
    requires Tallied(queue, removed, refused, Some(e), versions, unlisted)
    ensures Placed(queue + [e.version], popped, refused, roots, event)
    ensures Tallied(queue + [e.version], removed, refused, event, versions, unlisted)
  {
    QueuedOneMore(queue, e.version);
    hide Elements;
  }

  /** The first version leaves the queue, to be removed or because it is being read. */
  lemma PopKeepsPlaces(queue: seq<int>, popped: set<int>, refused: set<int>, roots: set<int>, event: Option<Event>,
                       read: bool)
    requires queue != [] && Increasing(queue) && Placed(queue, popped, refused, roots, event) && queue[0] !in popped
    ensures var first := {queue[0]};
            Placed(queue[1..], if read then popped else popped + first, if read then refused + first else refused,
                   roots, event)
  {
    FirstLeaves(queue);
    hide Elements, Increasing;
  }

  lemma PopKeepsTally(queue: seq<int>, removed: set<int>, refused: set<int>, event: Option<Event>, versions: set<int>,
                      unlisted: set<int>, read: bool)
    requires queue != [] && Increasing(queue) && Tallied(queue, removed, refused, event, versions, unlisted)
    ensures var first := {queue[0]};
            Tallied(queue[1..], if read then removed else removed + first, if read then refused + first else refused,
                    event, versions, unlisted)
  {
    FirstLeaves(queue);
    hide Elements, Increasing;
  }

  lemma RefusedAreOlder(cfg: Config, s: State, e: Event, refused: set<int>)
    requires s.event == Some(e) && e.phase.Received? && Inv(cfg, s) && Accounted(s, refused)
    ensures forall k :: k in refused ==> k < e.version
  {
    hide Inv, Tallied, Placed, Increasing, Unlisted, Popped;
    PoolHolds(cfg, s);
    LogPushes(cfg, s);
    NothingCommitted(cfg, s);
    hide Pooled;
    RefusedBelow(s.queue, Popped(s.removed, s.pruning, s.prune), refused, s.disk.roots.Keys, s.event, s.committed);
  }

  lemma RefusedBelow(queue: seq<int>, popped: set<int>, refused: set<int>, roots: set<int>, event: Option<Event>,
                     committed: int)
    requires Placed(queue, popped, refused, roots, event) && event.Some? && event.value.phase.Received?
    requires committed >= 0 && (committed > 0 ==> committed in queue) && (committed == 0 ==> roots == {})
    ensures forall k :: k in refused ==> committed > 0 && k < committed
  {
    forall k | k in refused ensures k in roots {}
  }

  lemma NothingCommitted(cfg: Config, s: State)
    requires Inv(cfg, s)
    ensures s.committed >= 0 && (s.committed == 0 ==> s.disk.roots.Keys == {})
  {
    hide Inv, Canonical, Lineage, InEvent, Batched;
    DiskHolds(cfg, s);
    assert Keeps(s.history[..s.committed], s.disk.roots.Keys);
    if s.committed == 0 { NoMember(s.disk.roots.Keys); }
  }

  lemma CommitKeepsAccounts(cfg: Config, s: State, a: Action, refused: set<int>)
    requires Inv(cfg, s) && Enabled(s, a) && Accounted(s, refused)
    requires a.EarlyEntry? || a.EarlyNode? || a.Write? || a.Release?
    ensures Accounted(Step(cfg, s, a), refused)
  {
    hide Inv, Elements, Popped;
  }

  lemma PruneReadKeepsAccounts(cfg: Config, s: State, k: int, refused: set<int>)
    requires Inv(cfg, s) && Enabled(s, PruneRead(k)) && Accounted(s, refused)
    ensures Accounted(Step(cfg, s, PruneRead(k)), refused)
  {
    hide Inv, Elements, Previous;
    assert Popped(s.removed, s.pruning - {k}, Some(PruneBatch(s.disk, k))) == Popped(s.removed, s.pruning, s.prune);
    hide Popped;
  }

  lemma PruneWriteKeepsAccounts(cfg: Config, s: State, refused: set<int>)
    requires Inv(cfg, s) && Enabled(s, PruneWrite) && Accounted(s, refused)
    ensures Accounted(Step(cfg, s, PruneWrite), refused)
  {
    hide Inv;
    var k, popped := s.prune.value.version, Popped(s.removed, s.pruning, s.prune);
    LatestFacts(cfg, s);
    assert Popped(s.removed, s.pruning, None) == popped - {k} && k in popped;
    NotQueued(cfg, s, k);
    hide Popped, Elements, Placed;
    GoneKeepsPlaces(s.queue, popped, refused, s.disk.roots.Keys, s.event, k);
  }

  /** A version on its way out is gone. */
  lemma GoneKeepsPlaces(queue: seq<int>, popped: set<int>, refused: set<int>, roots: set<int>, event: Option<Event>,
                        k: int)
    requires Placed(queue, popped, refused, roots, event) && k in popped
    requires k !in Elements(queue) && k !in LoggedVersion(event)
    ensures Placed(queue, popped - {k}, refused, roots - {k}, event)
  {
    hide Elements;
  }

  lemma NotQueued(cfg: Config, s: State, k: int)
    requires Inv(cfg, s) && k in Popped(s.removed, s.pruning, s.prune)
    ensures k !in Elements(s.queue) && k !in LoggedVersion(s.event)
  {
    hide Inv, Popped;
    PoolHolds(cfg, s);
  }

  lemma StepKeepsAccounts(cfg: Config, s: State, a: Action, refused: set<int>)
    requires Inv(cfg, s) && Enabled(s, a) && Accounted(s, refused) && cfg.historyNum >= 2
    ensures Accounted(Step(cfg, s, a), refused + RefusedBy(cfg, s, a))
  {
    assert !a.Log? ==> refused + RefusedBy(cfg, s, a) == refused;
    hide Inv, RefusedBy, RollbackStep;
    match a
    case Hand => HandKeepsAccounts(cfg, s, refused);
    case Enqueue => EnqueueKeepsAccounts(cfg, s, refused);
    case Finish => FinishKeepsAccounts(cfg, s, refused);
    case Log(readers) => LogKeepsAccounts(cfg, s, readers, refused);
    case EarlyEntry(_) => CommitKeepsAccounts(cfg, s, a, refused);
    case EarlyNode(_) => CommitKeepsAccounts(cfg, s, a, refused);
    case Write => CommitKeepsAccounts(cfg, s, a, refused);
    case Release => CommitKeepsAccounts(cfg, s, a, refused);
    case PruneRead(k) => PruneReadKeepsAccounts(cfg, s, k, refused);
    case PruneWrite => PruneWriteKeepsAccounts(cfg, s, refused);
    case _ => QuietKeepsAccounts(cfg, s, a, refused);
  }

  lemma QuietKeepsAccounts(cfg: Config, s: State, a: Action, refused: set<int>)
    requires Enabled(s, a) && Quiet(a) && Accounted(s, refused)
    ensures Accounted(Step(cfg, s, a), refused)
  {
    QuietKeepsFields(cfg, s, a);
    hide Step, Elements, Popped;
  }

  // ---------------------------------------------------------------- every run

  lemma InitialAccounts(s: State)
    requires Initial(s)
    ensures Accounted(s, {})
  {
    hide Canonical, Lineage;
  }

  lemma {:induction false} RunKeepsAccounts(cfg: Config, s: State, actions: seq<Action>, s': State, refused: set<int>)
    requires Inv(cfg, s) && Run(cfg, s, actions, s') && Accounted(s, refused) && cfg.historyNum >= 2
    ensures Accounted(s', refused + Refused(cfg, s, actions))
    decreases actions
  {
    hide Inv, Step, Accounted, RefusedBy;
    if actions == [] {
      assert refused + {} == refused;
    } else {
      var a, rest := actions[0], actions[1..];
      StepKeepsInv(cfg, s, a);
      StepKeepsAccounts(cfg, s, a, refused);
      RunKeepsAccounts(cfg, Step(cfg, s, a), rest, s', refused + RefusedBy(cfg, s, a));
      assert refused + RefusedBy(cfg, s, a) + Refused(cfg, Step(cfg, s, a), rest) ==
             refused + Refused(cfg, s, actions);
    }
  }

  /**
   * In every run, the roots on disk are those of the versions in the height queue, of those on their way out, and of
   * those refused because they were being read; only the root of a version being committed is still to come.
   */
  lemma RootsAreAccountedFor(cfg: Config, s0: State, actions: seq<Action>, s: State)
    requires Initial(s0) && Run(cfg, s0, actions, s) && cfg.historyNum >= 2
    ensures var refused := Refused(cfg, s0, actions);
            && s.disk.roots.Keys + LoggedVersion(s.event) ==
               Elements(s.queue) + Popped(s.removed, s.pruning, s.prune) + refused
            && Elements(s.queue) !! Popped(s.removed, s.pruning, s.prune) && Elements(s.queue) !! refused
            && refused !! Popped(s.removed, s.pruning, s.prune)
  {
    hide Inv, Run, Popped, Initial;
    InitialIsInv(cfg, s0);
    InitialAccounts(s0);
    RunKeepsInv(cfg, s0, actions, s);
    RunKeepsAccounts(cfg, s0, actions, s, {});
    assert {} + Refused(cfg, s0, actions) == Refused(cfg, s0, actions);
    PoolHolds(cfg, s);
  }

  /**
   * In every run, between saves, tree.versions lists exactly the versions in the height queue or with the commit
   * goroutine, those refused, and those removed from the queue that the next save will send to pruning.
   */
  lemma VersionsAreAccountedFor(cfg: Config, s0: State, actions: seq<Action>, s: State)
    requires Initial(s0) && Run(cfg, s0, actions, s) && cfg.historyNum >= 2 && Resting(s.saver)
    ensures s.versions ==
            Elements(s.queue) + ReceivedVersion(s.event) + Refused(cfg, s0, actions) + s.removed
  {
    hide Inv, Run, Popped, Initial, Elements;
    InitialIsInv(cfg, s0);
    InitialAccounts(s0);
    RunKeepsAccounts(cfg, s0, actions, s, {});
    assert {} + Refused(cfg, s0, actions) == Refused(cfg, s0, actions);
  }

  lemma {:induction false} RunBoundsQueue(cfg: Config, s: State, actions: seq<Action>, s': State, most: nat)
    requires Run(cfg, s, actions, s') && |s.queue| <= most && cfg.historyNum <= most
    ensures |s'.queue| <= most
    decreases actions
  {
    if actions != [] {
      StepBoundsQueue(cfg, s, actions[0], most);
      hide Step;
      RunBoundsQueue(cfg, Step(cfg, s, actions[0]), actions[1..], s', most);
    }
  }

  lemma StepBoundsQueue(cfg: Config, s: State, a: Action, most: nat)
    requires Enabled(s, a) && |s.queue| <= most && cfg.historyNum <= most
    ensures |Step(cfg, s, a).queue| <= most
  {
    if Quiet(a) { QuietKeepsFields(cfg, s, a); }
    hide NodesAt, RootNodes, Apply, Flagged, UnsavedRoot, Elements, Accepted, TreeOrphans, Unflagged, Entries, Previous,
         MayDelete, PruneBatch, Commit;
  }

  /**
   * Between saves, when nothing is on its way out and no commit is in flight, a run in which no version was refused has
   * at most as many roots on disk as the height queue may hold, or held when it was loaded.
   */
  lemma StoreIsBounded(cfg: Config, s0: State, actions: seq<Action>, s: State)
    requires Initial(s0) && Run(cfg, s0, actions, s) && cfg.historyNum >= 2
    requires Refused(cfg, s0, actions) == {} && Popped(s.removed, s.pruning, s.prune) == {} && s.event.None?
    ensures s.disk.roots.Keys == Elements(s.queue) && |s.queue| <= Max(|s0.queue|, cfg.historyNum)
  {
    hide Run, Popped, Initial;
    RootsAreAccountedFor(cfg, s0, actions, s);
    RunBoundsQueue(cfg, s0, actions, s, Max(|s0.queue|, cfg.historyNum));
  }

  // ---------------------------------------------------------------- what is removed is deleted

  /** The end of a save sends everything removed to pruning, and tree.versions lists none of it any more. */
  lemma RemovedIsSent(cfg: Config, s0: State, actions: seq<Action>, s: State)
    requires Initial(s0) && Run(cfg, s0, actions, s) && cfg.historyNum >= 2 && Enabled(s, Finish)
    ensures var s' := Step(cfg, s, Finish);
            s'.removed == {} && s'.pruning == s.pruning + s.removed && s'.versions !! s.removed
  {
    hide Run, Initial, Inv;
    InitialIsInv(cfg, s0);
    RunKeepsInv(cfg, s0, actions, s);
    ReceivedIsNotRemoved(cfg, s);
  }

  /**
   * Whatever the next save finds removed goes: with an idle prune goroutine, the end of the save, the reading of the
   * version and the prune batch leave neither its root nor its listing.
   */
  lemma RemovedIsDeleted(cfg: Config, s0: State, actions: seq<Action>, s: State, k: int) returns (s': State)
    requires Initial(s0) && Run(cfg, s0, actions, s) && cfg.historyNum >= 2
    requires Enabled(s, Finish) && s.prune.None? && k in s.removed
    ensures Run(cfg, s, [Finish, PruneRead(k), PruneWrite], s')
    ensures k !in s'.disk.roots && k !in s'.versions && s'.disk.roots.Keys == s.disk.roots.Keys - {k}
  {
    RemovedIsSent(cfg, s0, actions, s);
    hide Initial, Run;
    var s1 := Step(cfg, s, Finish);
    var s2 := Step(cfg, s1, PruneRead(k));
    s' := Step(cfg, s2, PruneWrite);
    RunNothing(cfg, s');
    RunCons(cfg, s2, PruneWrite, [], s');
    RunCons(cfg, s1, PruneRead(k), [PruneWrite], s');
    RunCons(cfg, s, Finish, [PruneRead(k), PruneWrite], s');
    assert [PruneWrite] + [] == [PruneWrite] && [PruneRead(k)] + [PruneWrite] == [PruneRead(k), PruneWrite];
    assert [Finish] + [PruneRead(k), PruneWrite] == [Finish, PruneRead(k), PruneWrite];
  }
}
