/**
 * The asynchronous commit protocol as a state machine: the saver, the commit goroutine, the orphan goroutine and the
 * prune goroutine, with every place a node can live. Nodes are identified by their content, as their hashes do
 * (Hashing.HashIdentifiesTree).
 */
module AsyncCommit {
  import opened ByteOrder
  import opened Tree
  import opened TreeUpdate
  import opened Orphans
  import opened VersionStore
  import opened Hashing

  // ---------------------------------------------------------------- state

  /** Where SaveVersionAsync stands. */
  datatype Saver =
    | Idle                      // editing the working tree
    | Waiting                   // wait4Result
    | Hashed(persist: bool)     // updateBranch done
    | Fed                       // saveNewOrphans done, waiting for the commit goroutine
    | Handed                    // the commit event is with the commit goroutine
    | Queued                    // the orphan task is queued

  /** How far the commit goroutine is with an event. */
  datatype Phase = Received | Logged | Written

  /** commitEvent, with the orphan entries computed for it and what was written ahead of the batch. */
  datatype Event = Event(version: int, root: Option<Tree>, nodes: set<Tree>, orphans: seq<Tree>, versions: set<int>,
                         phase: Phase, entries: set<Orphan>, early: set<Tree>, earlyEntries: set<Orphan>)

  /** orphanItem */
  datatype Item = Item(root: Option<Tree>, orphans: set<Tree>)

  /** A queued orphan task. */
  datatype Task = Task(version: int, orphans: set<Tree>, persist: bool)

  /** What deleteVersion put into its batch before committing it. */
  datatype Prune = Prune(version: int, dead: set<Tree>, ended: set<Orphan>, moved: set<Orphan>)

  datatype State = State(
    history: History,            // every tree saved so far, the one being saved included once it is hashed
    w: Working,                  // lastSaved, working tree, tree.orphans
    commitOrphans: seq<Tree>,    // persisted nodes orphaned since the last persisted version
    flagged: set<Tree>,          // nodes whose persisted flag is set
    saver: Saver,
    prePersist: set<Tree>,       // prePersistNodeCache
    tpp: map<int, set<Tree>>,    // tempPrePersistNodes
    orphanCache: set<Tree>,      // orphanNodeCache
    items: map<int, Item>,       // orphanItemMap
    task: Option<Task>,
    event: Option<Event>,
    committed: int,              // the latest version whose batch is written
    disk: Store,
    latest: int,                 // latestPersistedVersion
    queue: seq<int>,             // committedHeightQueue
    heights: set<int>,           // committedHeightMap
    versions: set<int>,          // tree.versions
    removed: set<int>,           // tree.removedVersions
    pruning: set<int>,           // versions sent to pruneCh
    prune: Option<Prune>,
    savedAt: int,                // the version field of lastSaved
    result: Option<int>,         // resultChan: the version whose orphan task ran last, 0 at first
    twins: set<Tree>,            // nodes of lastSaved that are new objects without a flag, made again after a Rollback
    loose: set<Tree>)            // nodes handed over that no orphan list will ever name unless they are saved once more

  /** HeightOrphansCacheSize and historyStateNum. */
  datatype Config = Config(itemSize: nat, historyNum: nat)

  ghost function InFlight(tpp: map<int, set<Tree>>): set<Tree> {
    set v, n | v in tpp && n in tpp[v] :: n
  }

  /** Every place getNodeFromMemory and getNodeFromDisk look, the node cache aside. */
  ghost function Places(s: State): set<Tree> {
    s.prePersist + InFlight(s.tpp) + s.orphanCache + s.disk.nodes
  }

  // ---------------------------------------------------------------- steps

  datatype Action =
    | Change(edit: Edit)          // Set, Remove or Rollback
    | Ask                         // SaveVersion of a version tree.versions does not list: wait4Result begins
    | Skip                        // wait4Result receives a version it is not waiting for
    | Hash(persist: bool)         // wait4Result receives the version it is waiting for; updateBranch
    | Resave(remade: set<Tree>)   // SaveVersion of a version tree.versions lists; which nodes were made again
    | Feed                        // saveNewOrphans on the saver, for a version to be persisted
    | Hand                        // persist: asyncPersistTppStart and sending the event to an idle commit goroutine
    | Enqueue                     // enqueueOrphanTask
    | Finish                      // setNewWorkingTree
    | RunTask                     // the orphan goroutine's task
    | Log(readers: set<int>)      // saveCommitOrphans, updateCommittedStateHeightPool; some versions have readers
    | EarlyEntry(o: Orphan)       // without batching: one orphan entry written directly
    | EarlyNode(n: Tree)          // without batching: one node written directly
    | Write                       // the batch commit of persistTpp
    | Release                     // asyncPersistTppFinised
    | PruneRead(k: int)           // deleteVersion fills its batch
    | PruneWrite                  // the prune batch commit

  ghost predicate Enabled(s: State, a: Action) {
    match a
    case Change(edit) => s.saver.Idle? && ValidRoot(s.w.root)
    case Ask => s.saver.Idle? && s.w.version + 1 !in s.versions
    case Skip => s.saver.Waiting? && s.result.Some? && !Awaited(s.w.version, s.result.value)
    case Hash(_) => s.saver.Waiting? && s.result.Some? && Awaited(s.w.version, s.result.value)
    case Resave(remade) => s.saver.Idle? && s.w.version + 1 in s.versions
        && remade <= RootNodes(s.w.root)
    case Feed => s.saver == Hashed(true)
    case Hand => s.saver.Fed? && s.event.None?
    case Enqueue => s.saver == Hashed(false) || s.saver.Handed?
    case Finish => s.saver.Queued?
    case RunTask => s.task.Some? && s.result.None?
    case Log(_) => s.event.Some? && s.event.value.phase.Received?
    case EarlyEntry(o) => s.event.Some? && s.event.value.phase.Logged? && o in s.event.value.entries
    case EarlyNode(n) => s.event.Some? && s.event.value.phase.Logged? && n in s.event.value.nodes
    case Write => s.event.Some? && s.event.value.phase.Logged?
    case Release => s.event.Some? && s.event.value.phase.Written?
    case PruneRead(k) => k in s.pruning && s.prune.None?
    case PruneWrite => s.prune.Some?
  }

  /** wait4Result stops at the version before the one to be saved, and at the 0 the channel starts with. */
  ghost predicate Awaited(version: int, result: int) {
    result == version || result == 0
  }

  ghost function Elements<T>(s: seq<T>): set<T> {
    set x | x in s
  }

  /** addOrphansOptimized: of the saved orphans, those already persisted are remembered for the next commit. */
  ghost function Flagged(orphans: seq<Tree>, flagged: set<Tree>): seq<Tree> {
    if orphans == [] then []
    else (if orphans[0] in flagged then [orphans[0]] else []) + Flagged(orphans[1..], flagged)
  }

  /** feedOrphansMap: the orphans of a version are filed under the version before, if that still has an item. */
  ghost function FeedItems(items: map<int, Item>, version: int, orphans: set<Tree>): map<int, Item> {
    if version in items then items[version := items[version].(orphans := orphans)] else items
  }

  /** saveNewOrphans: the orphans move from the pre-persist cache to the orphan cache. */
  ghost function FeedOrphans(s: State, version: int, orphans: set<Tree>): State {
    s.(items := FeedItems(s.items, version - 1, orphans),
       orphanCache := s.orphanCache + orphans,
       prePersist := s.prePersist - orphans)
  }

  /** removeOldOrphans */
  ghost function Expire(s: State, expired: int): State {
    if expired !in s.items then s
    else s.(orphanCache := s.orphanCache - s.items[expired].orphans, items := s.items - {expired})
  }

  ghost function Entries(orphans: seq<Tree>, to: int): set<Orphan> {
    set n | n in orphans :: Orphan(n.version, to, n)
  }

  /** The batch deleteVersion builds for version `k`. */
  ghost function PruneBatch(disk: Store, k: int): Prune {
    var p := Previous(disk.roots.Keys, k);
    var ended := set o | o in disk.orphans && o.to == k;
    Prune(k,
          set o | o in ended && (p < o.from || o.from == o.to) :: o.node,
          ended,
          set o | o in ended && !(p < o.from || o.from == o.to) :: Orphan(o.from, p, o.node))
  }

  /** The latest version that has been handed to the commit goroutine. */
  ghost function Base(committed: int, event: Option<Event>): int {
    if event.Some? then event.value.version else committed
  }

  lemma ApplyExtends(w: Working, edit: Edit)
    requires ValidRoot(w.root)
    ensures Apply(w, edit).version == w.version && Apply(w, edit).lastSaved == w.lastSaved
    ensures !edit.Rollback? ==> w.orphans <= Apply(w, edit).orphans
  {
  }

  /** Rollback: the working tree becomes a copy of lastSaved, version field included. */
  ghost function RollbackStep(s: State): State {
    s.(w := if s.w.version > 0 then Working(s.savedAt, s.w.lastSaved, s.w.lastSaved, [])
            else Working(0, s.w.lastSaved, None, []),
       commitOrphans := [])
  }

  /** A tree whose version is behind its history: rolled back after an asynchronous save. */
  ghost predicate Detached(history: History, version: int) {
    version < |history|
  }

  /**
   * While it is detached a tree can only be rolled back or saved again, which empty its orphan lists: they are not
   * tracked.
   */
  ghost function ChangeStep(s: State, edit: Edit): State
    requires ValidRoot(s.w.root)
  {
    var w' := Apply(s.w, edit);
    ApplyExtends(s.w, edit);
    if edit.Rollback? then RollbackStep(s)
    else if Detached(s.history, s.w.version) then s.(w := w'.(orphans := []))
    else s.(w := w', commitOrphans := s.commitOrphans + Flagged(w'.orphans[|s.w.orphans|..], s.flagged))
  }

  /** tree.orphans: of the saved nodes dropped, those whose objects carry a flag. */
  ghost function TreeOrphans(s: State): set<Tree> {
    Elements(s.w.orphans) - s.twins
  }

  /** The nodes updateBranch saves: those without a flag. */
  ghost function Unflagged(s: State): set<Tree> {
    UnsavedRoot(s.w.root, s.w.version) + s.twins * RootNodes(s.w.root)
  }

  /**
   * The existing version counts as saved again if its root on disk is the working tree's; one not yet written reads as
   * empty.
   */
  ghost predicate Accepted(s: State) {
    var version := s.w.version + 1;
    if version in s.disk.roots then s.disk.roots[version] == s.w.root else s.w.root.None?
  }

  /** SaveVersion of an existing version: accepted as it stands, or refused. */
  ghost function ResaveStep(s: State, remade: set<Tree>): State {
    if !Accepted(s) then s
    else
      s.(w := Working(s.w.version + 1, s.w.root, s.w.root, []), commitOrphans := [], savedAt := s.w.version + 1,
         twins := remade, flagged := s.flagged - remade,
         loose := s.loose + remade + (NodesAt(s.history, |s.history|) - RootNodes(s.w.root)))
  }

  ghost function HandStep(s: State): State {
    var version, moved := s.w.version + 1, if s.w.root.Some? then s.prePersist else {};
    s.(event := Some(Event(version, s.w.root, moved, s.commitOrphans, s.versions, Received, {}, {}, {})),
       tpp := if s.w.root.Some? then s.tpp[version := moved] else s.tpp,
       prePersist := s.prePersist - moved,
       flagged := s.flagged + moved, commitOrphans := [], latest := version, saver := Handed,
       loose := s.loose - RootNodes(s.w.root))
  }

  ghost function RunTaskStep(cfg: Config, s: State): State
    requires s.task.Some?
  {
    var t := s.task.value;
    var fed := if t.persist then s else FeedOrphans(s, t.version, t.orphans);
    Expire(fed, t.version - cfg.itemSize).(task := None, result := Some(t.version))
  }

  /** deleteVersionPreCheck, against the copy of tree.versions the event carries. */
  ghost predicate MayDelete(k: int, current: int, versions: set<int>, readers: set<int>) {
    k != 0 && k != current && k in versions && k !in readers
  }

  ghost function LogStep(cfg: Config, s: State, readers: set<int>): State
    requires s.event.Some?
  {
    var e := s.event.value;
    var queue := s.queue + [e.version];
    var e' := e.(phase := Logged, entries := Entries(e.orphans, Previous(s.disk.roots.Keys, e.version)));
    var logged := s.(event := Some(e'), queue := queue, heights := s.heights + {e.version});
    if |queue| <= cfg.historyNum then logged
    else
      logged.(queue := queue[1..], heights := s.heights + {e.version} - {queue[0]},
              removed := if !MayDelete(queue[0], s.w.version, e.versions, readers) then s.removed
                         else s.removed + {queue[0]})
  }

  /** persistTpp's batch: the root, the nodes and the orphan entries. */
  ghost function Commit(disk: Store, e: Event): Store {
    Store(disk.roots[e.version := e.root], disk.nodes + e.nodes, disk.orphans + e.entries)
  }

  ghost function WriteStep(s: State): State
    requires s.event.Some?
  {
    var e := s.event.value;
    s.(disk := Commit(s.disk, e),
       committed := e.version, event := Some(e.(phase := Written, early := {}, earlyEntries := {})))
  }

  ghost function Step(cfg: Config, s: State, a: Action): State
    requires Enabled(s, a)
  {
    match a
    case Change(edit) => ChangeStep(s, edit)
    case Ask => s.(saver := Waiting)
    case Skip => s.(result := None)
    case Hash(persist) =>
      s.(history := s.history + [s.w.root], prePersist := s.prePersist + Unflagged(s), saver := Hashed(persist),
         result := None)
    case Resave(remade) => ResaveStep(s, remade)
    case Feed => FeedOrphans(s, s.w.version + 1, TreeOrphans(s)).(saver := Fed)
    case Hand => HandStep(s)
    case Enqueue =>
      s.(items := s.items[s.w.version + 1 := Item(s.w.root, {})],
         task := Some(Task(s.w.version + 1, TreeOrphans(s), s.saver.Handed?)), saver := Queued)
    case Finish =>
      var version := s.w.version + 1;
      s.(w := Working(version, s.w.root, s.w.root, []),
         versions := (if s.latest == version then s.versions + {version} else s.versions) - s.removed,
         pruning := s.pruning + s.removed, removed := {}, saver := Idle, savedAt := s.w.version, twins := {})
    case RunTask => RunTaskStep(cfg, s)
    case Log(readers) => LogStep(cfg, s, readers)
    case EarlyEntry(o) =>
      s.(disk := s.disk.(orphans := s.disk.orphans + {o}),
         event := Some(s.event.value.(earlyEntries := s.event.value.earlyEntries + {o})))
    case EarlyNode(n) =>
      s.(disk := s.disk.(nodes := s.disk.nodes + {n}),
         event := Some(s.event.value.(early := s.event.value.early + {n})))
    case Write => WriteStep(s)
    case Release => s.(tpp := s.tpp - {s.event.value.version}, event := None)
    case PruneRead(k) => s.(prune := Some(PruneBatch(s.disk, k)), pruning := s.pruning - {k})
    case PruneWrite =>
      var b := s.prune.value;
      s.(disk := Store(s.disk.roots - {b.version}, s.disk.nodes - b.dead, (s.disk.orphans - b.ended) + b.moved),
         prune := None)
  }

  // ---------------------------------------------------------------- the invariant, part by part

  /** No save is under way, or it has not got past wait4Result. */
  ghost predicate Resting(saver: Saver) {
    saver.Idle? || saver.Waiting?
  }

  /**
   * The last saved tree is the one of the history, but for loose nodes; its twins are loose as long as the tree may
   * drop them.
   */
  ghost predicate BuiltOn(history: History, w: Working, resting: bool, twins: set<Tree>, loose: set<Tree>) {
    && RootNodes(w.lastSaved) <= NodesAt(history, w.version) <= RootNodes(w.lastSaved) + loose
    && twins <= RootNodes(w.lastSaved)
    && (if resting then twins <= loose else twins <= loose + RootNodes(w.root))
  }

  /**
   * Rolled back behind its history: the last saved tree, or none, and what was made of it with the same stamps again.
   */
  ghost predicate RolledBack(history: History, w: Working) {
    && w.version == |history| - 1 >= 0 && w.lastSaved == Latest(history) && w.orphans == [] && ValidRoot(w.root)
    && forall n :: n in RootNodes(w.root) ==> n.version == |history| || n in NodesAt(history, |history|)
  }

  /** The working tree belongs to the history; while a save is under way its tree is already the last of the history. */
  ghost predicate Trees(history: History, w: Working, saver: Saver, twins: set<Tree>, loose: set<Tree>) {
    && Lineage(history)
    && (if Resting(saver) && Detached(history, w.version) then RolledBack(history, w) && twins == {}
        else Balanced(w) && BuiltOn(history, w, Resting(saver), twins, loose))
    && (Resting(saver) && !Detached(history, w.version) ==> w.version == |history|)
    && (!Resting(saver) ==> w.version == |history| - 1 && w.root == history[|history| - 1])
  }

  /** The latest version's orphans have not reached the orphan cache yet. */
  ghost predicate Pending(saver: Saver, task: Option<Task>) {
    saver.Hashed? || (task.Some? && !task.value.persist)
  }

  /** The orphans of the latest version: what it dropped, but for loose nodes that are not cached either. */
  ghost predicate Dropped(history: History, orphans: set<Tree>, prePersist: set<Tree>, loose: set<Tree>) {
    var dropped := NodesAt(history, |history| - 1) - NodesAt(history, |history|);
    orphans <= dropped && dropped <= orphans + loose && (dropped - orphans) !! prePersist
  }

  ghost predicate Turns(history: History, saver: Saver, task: Option<Task>, committed: int, base: int, latest: int) {
    && 0 <= committed <= base <= |history| && latest == base
    && (saver.Hashed? || saver.Fed? || Pending(saver, task) ==> base < |history|)
    && (task.Some? ==> (Resting(saver) || saver.Queued?) && task.value.version == |history|)
  }

  ghost predicate Tasked(history: History, task: Option<Task>, prePersist: set<Tree>, loose: set<Tree>) {
    task.Some? && !task.value.persist ==> Dropped(history, task.value.orphans, prePersist, loose)
  }

  ghost predicate Shed(history: History, saver: Saver, orphans: set<Tree>, prePersist: set<Tree>, loose: set<Tree>) {
    saver.Hashed? ==> Dropped(history, orphans, prePersist, loose)
  }

  /** The channel holds the latest version once its task has run, and 0 before the first save. */
  ghost predicate Answered(history: History, version: int, saver: Saver, task: Option<Task>, result: Option<int>) {
    && (task.Some? || !(Resting(saver) || saver.Queued?) ==> result.None?)
    && (task.None? && saver.Queued? ==> result == Some(|history|))
    && (task.None? && Resting(saver) ==>
         if Detached(history, version) then result == Some(|history|) || (result.None? && saver.Waiting?)
         else result == Some(|history|) || result == Some(0))
  }

  ghost function Early(event: Option<Event>): set<Tree> {
    if event.Some? then event.value.early else {}
  }

  ghost function EarlyEntries(event: Option<Event>): set<Orphan> {
    if event.Some? then event.value.earlyEntries else {}
  }

  ghost function Booked(orphans: set<Orphan>, loose: set<Tree>): set<Orphan> {
    set o | o in orphans && o.node !in loose
  }

  /**
   * The disk is the canonical store of the committed history, plus what was written ahead of a batch. Loose nodes may
   * be there in excess, and have no entries.
   */
  ghost predicate OnDisk(history: History, committed: int, disk: Store, early: set<Tree>, earlyEntries: set<Orphan>,
                         loose: set<Tree>) {
    && 0 <= committed <= |history| && Keeps(history[..committed], disk.roots.Keys)
    && var goal := Canonical(history[..committed], disk.roots.Keys);
       && disk.roots == goal.roots
       && goal.nodes + early <= disk.nodes <= goal.nodes + early + loose
       && disk.orphans == Booked(goal.orphans, loose) + earlyEntries
  }

  /** A node of some saved version. */
  ghost predicate Saved(history: History, n: Tree) {
    exists v :: n in NodesAt(history, v)
  }

  ghost predicate Genuine(history: History, nodes: set<Tree>) {
    forall n :: n in nodes ==> Saved(history, n)
  }

  ghost function NewNodes(history: History, from: int, to: int): set<Tree> {
    set n | n in NodesAt(history, to) && n.version > from
  }

  /** A commit event carries the nodes the disk lacks and the orphans the disk has to learn about. */
  ghost predicate Carries(history: History, committed: int, e: Event, loose: set<Tree>) {
    && 1 <= e.version <= |history| && e.root == history[e.version - 1]
    && e.nodes <= NodesAt(history, e.version)
    && (e.phase.Written? <==> e.version == committed)
    && (!e.phase.Written? ==>
         && committed < e.version && NewNodes(history, committed, e.version) <= e.nodes
         && Elements(e.orphans) == NodesAt(history, committed) - NodesAt(history, e.version) - loose)
    && (e.phase.Logged? ==> e.entries == Entries(e.orphans, committed))
    && (!e.phase.Logged? ==> e.early == {} && e.earlyEntries == {})
    && e.early <= e.nodes && e.earlyEntries <= e.entries
  }

  ghost predicate InEvent(history: History, committed: int, event: Option<Event>, loose: set<Tree>) {
    event.Some? ==> Carries(history, committed, event.value, loose)
  }

  /**
   * The persisted flag marks, in the latest tree, exactly the nodes handed to the commit goroutine, loose ones aside.
   */
  ghost predicate Flags(history: History, base: int, flagged: set<Tree>, loose: set<Tree>) {
    && (forall n :: n in flagged ==> n.version <= base)
    && (forall n :: n in NodesAt(history, |history|) && n.version <= base ==> n in flagged || n in loose)
  }

  /** What the commit goroutine has yet to write is marked persisted. */
  ghost predicate Marked(event: Option<Event>, flagged: set<Tree>) {
    event.Some? && !event.value.phase.Written? ==> event.value.nodes <= flagged
  }

  /** The nodes of the latest version, and of the one before while its orphans are pending. */
  ghost function Recent(history: History, pending: bool): set<Tree> {
    NodesAt(history, |history|) + if pending then NodesAt(history, |history| - 1) else {}
  }

  /**
   * The pre-persist cache holds exactly the nodes that are neither persisted nor orphaned, and loose ones saved again.
   */
  ghost predicate Cached(history: History, base: int, pending: bool, prePersist: set<Tree>, loose: set<Tree>) {
    && prePersist <= Recent(history, pending)
    && (forall n :: n in Recent(history, pending) && n.version > base ==> n in prePersist)
    && (forall n :: n in prePersist ==> n.version > base || n in loose)
    && (base == |history| ==> prePersist == {})
  }

  /** A loose node is on disk, or on its way there with its version. */
  ghost predicate Held(loose: set<Tree>, base: int, committed: int, disk: Store, event: Option<Event>) {
    forall n :: n in loose ==>
      && n.version <= base
      && (n.version <= committed ==> n in disk.nodes)
      && (n.version > committed ==> event.Some? && n in event.value.nodes)
  }

  /** A loose node of the working tree is not marked persisted. */
  ghost predicate Unmarked(loose: set<Tree>, flagged: set<Tree>, w: Working) {
    forall n :: n in loose && n in flagged ==> n !in RootNodes(w.root) && n !in RootNodes(w.lastSaved)
  }

  /** No asynchronous save since the tree was loaded or its version saved again. */
  ghost predicate Resumed(history: History, w: Working, saver: Saver, savedAt: int) {
    Resting(saver) && w.version == |history| && savedAt == w.version
  }

  /** Loose nodes of the latest tree have been saved again, unless that is still to come; then they are twins. */
  ghost predicate Requeued(history: History, w: Working, resumed: bool, twins: set<Tree>, prePersist: set<Tree>,
                           loose: set<Tree>) {
    if resumed then forall n :: n in loose && n in RootNodes(w.lastSaved) ==> n in twins
    else forall n :: n in loose && n in NodesAt(history, |history|) ==> n in prePersist
  }

  ghost predicate Flying(tpp: map<int, set<Tree>>, event: Option<Event>) {
    tpp == if event.None? || event.value.root.None? then map[] else map[event.value.version := event.value.nodes]
  }

  /** Persisted nodes the working tree has dropped are remembered until the next commit, loose ones aside. */
  ghost predicate Recorded(history: History, base: int, root: Option<Tree>, commitOrphans: seq<Tree>,
                           loose: set<Tree>) {
    Elements(commitOrphans) == NodesAt(history, base) - RootNodes(root) - loose
  }

  ghost function FedUpTo(history: History, pending: bool): int {
    if pending then |history| - 1 else |history|
  }

  /** The last version whose orphan task has run. */
  ghost function Ran(history: History, saver: Saver, task: Option<Task>): int {
    if task.Some? || saver.Hashed? || saver.Fed? || saver.Handed? then |history| - 1 else |history|
  }

  /** The last version that has been given an item. */
  ghost function Newest(history: History, saver: Saver): int {
    if Resting(saver) || saver.Queued? then |history| else |history| - 1
  }

  /** The items are recent versions; what any of them reaches and the latest tree does not is in the orphan cache. */
  ghost predicate Itemized(history: History, newest: int, fed: int, oldest: int, items: map<int, Item>,
                           orphanCache: set<Tree>) {
    && (forall v :: v in items ==> oldest < v <= newest && 1 <= v <= |history| && items[v].root == history[v - 1])
    && (forall v, n :: v in items && n in items[v].orphans ==>
         v < fed && n in NodesAt(history, v) && n !in NodesAt(history, v + 1))
    && (forall v, d, n :: v in items && v <= d < fed && n in NodesAt(history, d) && n !in NodesAt(history, d + 1) ==>
         n in orphanCache)
  }

  /** lastSaved carries the version before the last asynchronous save; before the first one, or saved again, its own. */
  ghost predicate Dated(history: History, w: Working, saver: Saver, base: int, savedAt: int, result: Option<int>,
                        twins: set<Tree>) {
    && (savedAt == w.version || savedAt == w.version - 1)
    && (Resumed(history, w, saver, savedAt) ==> base == |history|)
    && (Resting(saver) && !Resumed(history, w, saver, savedAt) ==>
         savedAt == |history| - 1 >= 0 && result != Some(0) && twins == {} && w.lastSaved == Latest(history))
  }

  ghost predicate Increasing(q: seq<int>) {
    forall i, j :: 0 <= i < j < |q| ==> q[i] < q[j]
  }

  /** Versions on their way out. */
  ghost function Popped(removed: set<int>, pruning: set<int>, prune: Option<Prune>): set<int> {
    removed + pruning + if prune.Some? then {prune.value.version} else {}
  }

  ghost predicate Separate(removed: set<int>, pruning: set<int>, prune: Option<Prune>) {
    && removed !! pruning
    && (prune.Some? ==> prune.value.version !in removed && prune.value.version !in pruning)
  }

  /** The queue holds the committed versions in order, everything popped is older and still on disk. */
  ghost predicate Pooled(queue: seq<int>, heights: set<int>, popped: set<int>, roots: set<int>, committed: int,
                         event: Option<Event>) {
    && Increasing(queue) && heights == Elements(queue)
    && (forall q :: q in queue ==>
         1 <= q && (q in roots || (event.Some? && event.value.phase.Logged? && q == event.value.version)))
    && (committed > 0 ==> committed in queue)
    && (event.Some? && !event.value.phase.Received? ==> event.value.version in queue)
    && (forall k :: k in popped ==> 1 <= k && k in roots)
    && (forall k, q :: k in popped && q in queue ==> k < q)
  }

  /**
   * tree.versions, and the copy in an event, know every queued version, so the pre-check never refuses one for that.
   */
  ghost predicate Listed(queue: seq<int>, versions: set<int>, event: Option<Event>, saver: Saver, current: int) {
    && (forall q :: q in queue ==> q in versions || (q == current && (saver.Handed? || saver.Queued?)))
    && (event.Some? && event.value.phase.Received? ==>
         && (forall q :: q in queue ==> q in event.value.versions)
         && (event.value.version in versions || (event.value.version == current && (saver.Handed? || saver.Queued?))))
  }

  /** tree.versions lists versions that were handed to the commit goroutine. */
  ghost predicate Vetted(versions: set<int>, latest: int) {
    forall v :: v in versions ==> v <= latest
  }

  ghost predicate Batched(disk: Store, prune: Option<Prune>) {
    prune.Some? ==> prune.value == PruneBatch(disk, prune.value.version)
  }

  ghost predicate Inv(cfg: Config, s: State) {
    var base, pending := Base(s.committed, s.event), Pending(s.saver, s.task);
    && Trees(s.history, s.w, s.saver, s.twins, s.loose)
    && Turns(s.history, s.saver, s.task, s.committed, base, s.latest)
    && Tasked(s.history, s.task, s.prePersist, s.loose)
    && Shed(s.history, s.saver, TreeOrphans(s), s.prePersist, s.loose)
    && Answered(s.history, s.w.version, s.saver, s.task, s.result)
    && Dated(s.history, s.w, s.saver, base, s.savedAt, s.result, s.twins)
    && OnDisk(s.history, s.committed, s.disk, Early(s.event), EarlyEntries(s.event), s.loose)
    && InEvent(s.history, s.committed, s.event, s.loose)
    && Flags(s.history, base, s.flagged, s.loose) && Marked(s.event, s.flagged)
    && Cached(s.history, base, pending, s.prePersist, s.loose)
    && Held(s.loose, base, s.committed, s.disk, s.event) && Unmarked(s.loose, s.flagged, s.w)
    && Requeued(s.history, s.w, Resumed(s.history, s.w, s.saver, s.savedAt), s.twins, s.prePersist, s.loose)
    && Flying(s.tpp, s.event) && Genuine(s.history, s.orphanCache) && Genuine(s.history, s.loose)
    && (!(Resting(s.saver) && Detached(s.history, s.w.version)) ==>
         Recorded(s.history, base, s.w.root, s.commitOrphans, s.loose))
    && Itemized(s.history, Newest(s.history, s.saver), FedUpTo(s.history, pending),
                Ran(s.history, s.saver, s.task) - cfg.itemSize,
                s.items, s.orphanCache + s.loose)
    && Pooled(s.queue, s.heights, Popped(s.removed, s.pruning, s.prune), s.disk.roots.Keys, s.committed, s.event)
    && Separate(s.removed, s.pruning, s.prune)
    && Listed(s.queue, s.versions, s.event, s.saver, |s.history|) && Vetted(s.versions, s.latest)
    && Batched(s.disk, s.prune)
  }

  // ---------------------------------------------------------------- editing

  lemma {:induction false} FlaggedElements(orphans: seq<Tree>, flagged: set<Tree>, n: Tree)
    ensures n in Flagged(orphans, flagged) <==> n in orphans && n in flagged
  {
    if orphans != [] { FlaggedElements(orphans[1..], flagged, n); }
  }

  lemma BalancedVersion(w: Working)
    requires Balanced(w)
    ensures w.version >= 0
  {
  }

  /** The saved nodes of the working tree, its orphans and the loose nodes share out the version it is built on. */
  lemma WorkingNodes(history: History, w: Working, saver: Saver, twins: set<Tree>, loose: set<Tree>, n: Tree)
    requires Trees(history, w, saver, twins, loose) && !(Resting(saver) && Detached(history, w.version))
    ensures n in w.orphans ==>
              n in RootNodes(w.lastSaved) && n in NodesAt(history, w.version) && n !in RootNodes(w.root)
    ensures n in NodesAt(history, w.version) && n !in RootNodes(w.root) ==> n in w.orphans || n in loose
    ensures n in RootNodes(w.lastSaved) && n !in RootNodes(w.root) ==> n in w.orphans
    ensures n in RootNodes(w.root) ==> n.version == w.version + 1 || n in RootNodes(w.lastSaved)
    ensures n in RootNodes(w.lastSaved) ==> n in NodesAt(history, w.version)
  {
    hide Balanced, Lineage;
    BalancedVersion(w);
    BalancedIsExact(w);
  }

  lemma ChangeRecords(s: State, w': Working, base: int, n: Tree)
    requires Trees(s.history, s.w, Idle, s.twins, s.loose) && Trees(s.history, w', Idle, s.twins, s.loose)
    requires !Detached(s.history, s.w.version) && !Detached(s.history, w'.version)
    requires s.w.orphans <= w'.orphans && s.w.lastSaved == w'.lastSaved
    requires Flags(s.history, base, s.flagged, s.loose) && Unmarked(s.loose, s.flagged, s.w) && 0 <= base <= |s.history|
    ensures n in NodesAt(s.history, base) - RootNodes(w'.root) - s.loose <==>
            n in NodesAt(s.history, base) - RootNodes(s.w.root) - s.loose
                || n in Flagged(w'.orphans[|s.w.orphans|..], s.flagged)
  {
    hide Trees, Flagged, NodesAt, RootNodes;
    var more := w'.orphans[|s.w.orphans|..];
    assert w'.orphans == s.w.orphans + more;
    FlaggedElements(more, s.flagged, n);
    WorkingNodes(s.history, s.w, Idle, s.twins, s.loose, n);
    WorkingNodes(s.history, w', Idle, s.twins, s.loose, n);
    TreeVersions(s.history, s.w, Idle, s.twins, s.loose, base, n);
    TreeVersions(s.history, w', Idle, s.twins, s.loose, base, n);
  }

  lemma TreeVersions(history: History, w: Working, saver: Saver, twins: set<Tree>, loose: set<Tree>, u: int, n: Tree)
    requires Trees(history, w, saver, twins, loose) && 0 <= u <= |history|
    ensures w.version <= |history|
    ensures n in NodesAt(history, u) ==> 1 <= n.version <= u
    ensures n in NodesAt(history, |history|) && n.version <= u ==> n in NodesAt(history, u)
    ensures Resting(saver) && !Detached(history, w.version) ==> w.version == |history|
  {
    if n in NodesAt(history, |history|) && n.version <= u { LifetimeIsInterval(history, u, |history|, n); }
  }

  lemma EditRecords(s: State, cfg: Config, edit: Edit)
    requires Inv(cfg, s) && Enabled(s, Change(edit)) && !edit.Rollback? && !Detached(s.history, s.w.version)
    requires Trees(s.history, ChangeStep(s, edit).w, Idle, s.twins, s.loose)
    ensures var s' := ChangeStep(s, edit);
            Recorded(s.history, Base(s.committed, s.event), s'.w.root, s'.commitOrphans, s.loose)
  {
    hide Genuine, Trees, Flags, OnDisk, InEvent, Cached, Flying, Itemized, Pooled, Separate, Listed, Batched,
         Apply, Flagged, NodesAt, RootNodes, Base, Dated, Answered, Held, Requeued, Unmarked;
    var base, s' := Base(s.committed, s.event), ChangeStep(s, edit);
    ApplyExtends(s.w, edit);
    var more := Flagged(s'.w.orphans[|s.w.orphans|..], s.flagged);
    forall n ensures n in NodesAt(s.history, base) - RootNodes(s'.w.root) - s.loose <==>
          n in NodesAt(s.history, base) - RootNodes(s.w.root) - s.loose || n in more
    {
      ChangeRecords(s, s'.w, base, n);
    }
    assert Elements(s'.commitOrphans) == Elements(s.commitOrphans) + Elements(more);
  }

  lemma EditKeepsTrees(history: History, w: Working, edit: Edit, twins: set<Tree>, loose: set<Tree>)
    requires Trees(history, w, Idle, twins, loose) && !edit.Rollback? && ValidRoot(w.root)
    ensures var w' := Apply(w, edit);
            Trees(history, if Detached(history, w.version) then w'.(orphans := []) else w', Idle, twins, loose)
  {
    ApplyExtends(w, edit);
    if Detached(history, w.version) {
      DetachedEdit(history, w, edit);
    } else {
      ApplyKeepsBalance(w, edit);
    }
  }

  /** An edit of a detached tree stamps new nodes with the latest version once more. */
  lemma DetachedEdit(history: History, w: Working, edit: Edit)
    requires RolledBack(history, w) && !edit.Rollback?
    ensures RolledBack(history, Apply(w, edit).(orphans := []))
  {
    hide SetTree, RemoveTree, Nodes;
    ApplyExtends(w, edit);
    if w.root.Some? {
      var t, version := w.root.value, w.version + 1;
      match edit
      case Set(key, value) =>
        SetRefinesUpdate(t, key, value, version);
        forall n | n in RootNodes(Apply(w, edit).root) ensures n.version == version
            || n in NodesAt(history, |history|) {
          if n.version != version {
            SetConserves(t, key, value, version, n);
            CopiesAreNodes(t, n);
            CopiesAreNodes(SetTree(t, key, value, version).tree, n);
          }
        }
      case Remove(key) =>
        RemoveRefinesDeletion(t, key, version);
        forall n | n in RootNodes(Apply(w, edit).root) ensures n.version == version
            || n in NodesAt(history, |history|) {
          if n.version != version {
            RemoveConserves(t, key, version, n);
            CopiesAreNodes(t, n);
            RootCopiesAreNodes(RemoveTree(t, key, version).tree, n);
          }
        }
      case Rollback =>
    } else if edit.Set? {
      LeafIsAlone(edit.key, edit.value, w.version + 1);
    }
  }

  lemma LeafIsAlone(key: Key, value: Value, version: int)
    ensures Nodes(Leaf(key, value, version)) == {Leaf(key, value, version)} && Valid(Leaf(key, value, version))
  {
  }

  lemma BaseIsSaved(cfg: Config, s: State)
    requires Inv(cfg, s)
    ensures 0 <= s.committed <= Base(s.committed, s.event) <= |s.history| && s.latest == Base(s.committed, s.event)
  {
  }

  lemma EditKeepsInv(cfg: Config, s: State, edit: Edit)
    requires Inv(cfg, s) && Enabled(s, Change(edit)) && !edit.Rollback?
    ensures Inv(cfg, ChangeStep(s, edit))
  {
    hide Genuine, Trees, Turns, Tasked, Flags, OnDisk, InEvent, Cached, Flying, Itemized, Pooled, Separate, Listed,
         Batched, Recorded, Apply, Flagged, NodesAt, RootNodes, Base, Early, EarlyEntries, Pending, FedUpTo, Ran,
         Popped, Unmarked, Held;
    ApplyExtends(s.w, edit);
    EditKeepsTrees(s.history, s.w, edit, s.twins, s.loose);
    if !Detached(s.history, s.w.version) { EditRecords(s, cfg, edit); }
    BaseIsSaved(cfg, s);
    LooseIsOld(s.loose, Base(s.committed, s.event), s.committed, s.disk, s.event, |s.history|);
    EditUnmarked(s.history, s.w, ChangeStep(s, edit).w, s.flagged, s.twins, s.loose);
  }

  /** A loose node stamped with the latest version is one of its nodes. */
  lemma LooseIsLatest(history: History, loose: set<Tree>, n: Tree)
    requires Lineage(history) && Genuine(history, loose) && n in loose && n.version >= |history|
    ensures n in NodesAt(history, |history|)
  {
    var v :| n in NodesAt(history, v);
  }

  /** An edit brings no loose node back that is marked. */
  lemma EditUnmarked(history: History, w: Working, w': Working, flagged: set<Tree>, twins: set<Tree>, loose: set<Tree>)
    requires Trees(history, w', Idle, twins, loose) && Genuine(history, loose) && Unmarked(loose, flagged, w)
    requires w'.lastSaved == w.lastSaved && forall n :: n in loose ==> n.version <= |history|
    ensures Unmarked(loose, flagged, w')
  {
    LineageVersions(history);
    LatestIsValid(history);
    forall n | n in loose && n in flagged ensures n !in RootNodes(w'.root) && n !in RootNodes(w'.lastSaved) {
      if n.version >= |history| { LooseIsLatest(history, loose, n); }
      if !Detached(history, w'.version) { WorkingNodes(history, w', Idle, twins, loose, n); }
    }
  }

  lemma LooseIsOld(loose: set<Tree>, base: int, committed: int, disk: Store, event: Option<Event>, latest: int)
    requires Held(loose, base, committed, disk, event) && base <= latest
    ensures forall n :: n in loose ==> n.version <= latest
  {
  }

  lemma RollbackKeepsTrees(cfg: Config, s: State)
    requires Inv(cfg, s) && Enabled(s, Change(Rollback))
    ensures Trees(s.history, RollbackStep(s).w, Idle, s.twins, s.loose)
    ensures RollbackStep(s).w.root.None? || RollbackStep(s).w.root == s.w.lastSaved
    ensures Resumed(s.history, RollbackStep(s).w, Idle, s.savedAt) <==> Resumed(s.history, s.w, Idle, s.savedAt)
  {
    hide Tasked, Flags, OnDisk, InEvent, Cached, Flying, Itemized, Pooled, Separate, Listed, Batched, Recorded,
         Apply, Flagged, Balanced, Answered, Requeued, Held, Unmarked, Genuine;
    if Resumed(s.history, s.w, Idle, s.savedAt) {
      BalancedRollback(s.w);
    } else {
      LatestIsValid(s.history);
    }
  }

  lemma BalancedRollback(w: Working)
    requires Balanced(w)
    ensures w.version >= 0 && (w.version == 0 ==> w.lastSaved.None?)
    ensures Balanced(Working(w.version, w.lastSaved, w.lastSaved, []))
  {
    RollbackBalances(w);
    assert Apply(w, Rollback) == Working(w.version, w.lastSaved, w.lastSaved, []);
  }

  lemma LatestIsValid(history: History)
    requires Lineage(history)
    ensures ValidRoot(Latest(history)) && RootNodes(Latest(history)) == NodesAt(history, |history|)
  {
  }

  lemma RollbackKeepsInv(cfg: Config, s: State)
    requires Inv(cfg, s) && Enabled(s, Change(Rollback))
    ensures Inv(cfg, RollbackStep(s))
  {
    hide Genuine, Trees, Turns, Tasked, Flags, OnDisk, InEvent, Cached, Flying, Itemized, Pooled, Separate, Listed,
         Batched, Recorded, NodesAt, Base, Early, EarlyEntries, Pending, FedUpTo, Ran, Popped, Held, Lineage, Nodes,
         RolledBack;
    RollbackKeepsTrees(cfg, s);
    RollbackRecords(cfg, s);
  }

  lemma RollbackRecords(cfg: Config, s: State)
    requires Inv(cfg, s) && Enabled(s, Change(Rollback))
    ensures !Detached(s.history, RollbackStep(s).w.version) ==>
              Recorded(s.history, Base(s.committed, s.event), RollbackStep(s).w.root, [], s.loose)
    ensures |s.history| - 1 <= s.w.version <= |s.history|
  {
    hide Tasked, Flags, OnDisk, InEvent, Cached, Flying, Itemized, Pooled, Separate, Listed, Batched, Apply,
         Flagged, Balanced, Answered, Requeued, Held, Unmarked, Genuine, Lineage;
    RollbackKeepsTrees(cfg, s);
  }

  lemma ChangeKeepsInv(cfg: Config, s: State, edit: Edit)
    requires Inv(cfg, s) && Enabled(s, Change(edit))
    ensures Inv(cfg, ChangeStep(s, edit))
  {
    if edit.Rollback? { RollbackKeepsInv(cfg, s); } else { EditKeepsInv(cfg, s, edit); }
  }

  // ---------------------------------------------------------------- hashing

  lemma LongerHistory(history: History, root: Option<Tree>)
    ensures forall v :: v <= |history| ==> NodesAt(history + [root], v) == NodesAt(history, v)
    ensures NodesAt(history + [root], |history| + 1) == RootNodes(root)
    ensures forall v :: 0 <= v <= |history| ==> (history + [root])[..v] == history[..v]
  {
  }

  lemma HashKeepsTrees(history: History, w: Working, twins: set<Tree>, loose: set<Tree>, persist: bool)
    requires Trees(history, w, Waiting, twins, loose) && !Detached(history, w.version)
    ensures Trees(history + [w.root], w, Hashed(persist), twins, loose)
    ensures forall n :: n in UnsavedRoot(w.root, w.version) ==> n in RootNodes(w.root) && n.version == |history| + 1
    ensures RootNodes(w.root) <= UnsavedRoot(w.root, w.version) + RootNodes(w.lastSaved)
    ensures RootNodes(w.lastSaved) <= NodesAt(history, |history|)
  {
    hide Balanced, RootNodes, UnsavedRoot, Lineage, ValidRoot;
    LatestIsValid(history);
    LineageVersions(history);
    var own := if history == [] then [] else history[..|history| - 1] + [w.lastSaved];
    assert Extends(own, w) by { BalancedStart(w); }
    SavedNodesCovered(own, w);
    BalancedIsExact(w);
    BalancedIsValid(w);
    LongerLineage(history, w.root);
    assert (history + [w.root])[..|history|] == history;
    LongerHistory(history, w.root);
  }

  lemma LineageVersions(history: History)
    requires Lineage(history)
    ensures forall v, n :: n in NodesAt(history, v) ==> 1 <= n.version <= v
  {
  }

  lemma BalancedStart(w: Working)
    requires Balanced(w)
    ensures w.version == 0 ==> w.lastSaved.None?
  {
  }

  lemma NoNodes(root: Option<Tree>)
    ensures root.None? ==> RootNodes(root) == {}
  {
  }

  lemma HashKeepsDisk(s: State, root: Option<Tree>)
    requires OnDisk(s.history, s.committed, s.disk, Early(s.event), EarlyEntries(s.event), s.loose)
    requires InEvent(s.history, s.committed, s.event, s.loose)
    ensures OnDisk(s.history + [root], s.committed, s.disk, Early(s.event), EarlyEntries(s.event), s.loose)
    ensures InEvent(s.history + [root], s.committed, s.event, s.loose)
  {
    hide Canonical, NodesAt;
    LongerHistory(s.history, root);
  }

  /** What updateBranch saves: the nodes stamped with the new version, and the twins the tree still has. */
  lemma UnflaggedNodes(s: State)
    requires Trees(s.history, s.w, Waiting, s.twins, s.loose) && !Detached(s.history, s.w.version)
    ensures s.twins * RootNodes(s.w.root) <= Unflagged(s) <= RootNodes(s.w.root)
    ensures RootNodes(s.w.root) <= Unflagged(s) + NodesAt(s.history, |s.history|)
    ensures forall n :: n in Unflagged(s) ==> n.version == |s.history| + 1 || (n in s.twins && n in s.loose)
    ensures forall n :: n in RootNodes(s.w.root) ==> n in Unflagged(s) || n in RootNodes(s.w.lastSaved)
  {
    HashKeepsTrees(s.history, s.w, s.twins, s.loose, false);
    TwinsAreLoose(s.history, s.w, Waiting, s.twins, s.loose);
  }

  lemma HashKeepsCache(history: History, root: Option<Tree>, base: int, prePersist: set<Tree>, loose: set<Tree>,
                       saved: set<Tree>)
    requires Cached(history, base, false, prePersist, loose) && base <= |history|
    requires saved <= RootNodes(root) <= saved + NodesAt(history, |history|)
    requires forall n :: n in saved ==> n.version == |history| + 1 || n in loose
    ensures Cached(history + [root], base, true, prePersist + saved, loose)
  {
    LongerHistory(history, root);
    hide NodesAt, RootNodes;
  }

  lemma HashKeepsFlags(history: History, root: Option<Tree>, base: int, flagged: set<Tree>, loose: set<Tree>,
                       saved: set<Tree>)
    requires Flags(history, base, flagged, loose) && base <= |history|
    requires RootNodes(root) <= saved + NodesAt(history, |history|)
    requires forall n :: n in saved ==> n.version == |history| + 1 || n in loose
    ensures Flags(history + [root], base, flagged, loose)
  {
    LongerHistory(history, root);
    hide NodesAt, RootNodes;
  }

  lemma HashRequeues(history: History, w: Working, resumed: bool, twins: set<Tree>, prePersist: set<Tree>,
                     loose: set<Tree>, saved: set<Tree>)
    requires Requeued(history, w, resumed, twins, prePersist, loose)
    requires twins * RootNodes(w.root) <= saved && RootNodes(w.root) <= saved + NodesAt(history, |history|)
    requires forall n :: n in RootNodes(w.root) ==> n in saved || n in RootNodes(w.lastSaved)
    ensures Requeued(history + [w.root], w, false, twins, prePersist + saved, loose)
  {
    LongerHistory(history, w.root);
    hide NodesAt, RootNodes;
  }

  lemma TwinsAreLoose(history: History, w: Working, saver: Saver, twins: set<Tree>, loose: set<Tree>)
    requires Trees(history, w, saver, twins, loose) && Resting(saver)
    ensures twins <= loose && twins <= RootNodes(w.lastSaved) <= NodesAt(history, |history|)
  {
    LatestIsValid(history);
  }

  /**
   * The orphans of the save under way are the nodes of the version before that the new version lacks, loose ones aside.
   */
  lemma HashSheds(history: History, w: Working, twins: set<Tree>, prePersist: set<Tree>, loose: set<Tree>,
                  saved: set<Tree>)
    requires Trees(history, w, Waiting, twins, loose) && !Detached(history, w.version) && saved <= RootNodes(w.root)
    requires prePersist == {} || (twins == {} && w.lastSaved == Latest(history))
    ensures Dropped(history + [w.root], Elements(w.orphans) - twins, prePersist + saved, loose)
  {
    LongerHistory(history, w.root);
    TwinsAreLoose(history, w, Waiting, twins, loose);
    LatestIsValid(history);
    forall n ensures n in w.orphans ==> n in RootNodes(w.lastSaved) && n !in RootNodes(w.root)
             ensures n in NodesAt(history, |history|) && n !in RootNodes(w.root) ==> n in w.orphans || n in loose
             ensures n in RootNodes(w.lastSaved) && n !in RootNodes(w.root) ==> n in w.orphans
    {
      WorkingNodes(history, w, Waiting, twins, loose, n);
    }
    hide Trees, NodesAt, RootNodes, Lineage, Latest;
  }

  lemma HashKeepsItems(history: History, root: Option<Tree>, newest: int, fed: int, oldest: int, items: map<int, Item>,
                       orphanCache: set<Tree>)
    requires Itemized(history, newest, fed, oldest, items, orphanCache) && fed <= |history|
    ensures Itemized(history + [root], newest, fed, oldest, items, orphanCache)
  {
    LongerHistory(history, root);
    hide NodesAt;
  }

  lemma HashKeepsGenuine(history: History, root: Option<Tree>, nodes: set<Tree>)
    requires Genuine(history, nodes)
    ensures Genuine(history + [root], nodes)
  {
    LongerHistory(history, root);
    forall n | n in nodes ensures Saved(history + [root], n) {
      var v :| n in NodesAt(history, v);
      assert n in NodesAt(history + [root], v);
    }
  }

  lemma HashIsAttached(cfg: Config, s: State)
    requires Inv(cfg, s) && s.saver.Waiting? && s.result.Some? && Awaited(s.w.version, s.result.value)
    ensures !Detached(s.history, s.w.version) && s.task.None? && s.w.version == |s.history|
  {
    hide Tasked, Flags, OnDisk, InEvent, Cached, Flying, Itemized, Pooled, Separate, Listed, Batched, Recorded,
         Lineage, Balanced, Requeued, Held, Unmarked, Genuine, BuiltOn;
  }

  lemma HashKeepsInv(cfg: Config, s: State, persist: bool)
    requires Inv(cfg, s) && Enabled(s, Hash(persist))
    ensures Inv(cfg, Step(cfg, s, Hash(persist)))
  {
    hide Genuine, Trees, Flags, OnDisk, InEvent, Cached, Flying, Itemized, Pooled, Separate, Batched, Recorded,
         UnsavedRoot, Unflagged, Dropped, NodesAt, RootNodes, Base, Early, EarlyEntries, Popped, Held, Unmarked,
         Requeued;
    HashIsAttached(cfg, s);
    var base, h, root, saved := Base(s.committed, s.event), s.history, s.w.root, Unflagged(s);
    LongerHistory(h, root);
    HashKeepsTrees(h, s.w, s.twins, s.loose, persist);
    HashKeepsDisk(s, root);
    UnflaggedNodes(s);
    HashKeepsCache(h, root, base, s.prePersist, s.loose, saved);
    HashKeepsFlags(h, root, base, s.flagged, s.loose, saved);
    HashRequeues(h, s.w, Resumed(h, s.w, s.saver, s.savedAt), s.twins, s.prePersist, s.loose, saved);
    if Resumed(h, s.w, s.saver, s.savedAt) { NothingCached(h, base, s.prePersist, s.loose); }
    HashSheds(h, s.w, s.twins, s.prePersist, s.loose, saved);
    HashKeepsItems(h, root, |h|, |h|, |h| - cfg.itemSize, s.items, s.orphanCache + s.loose);
    HashKeepsRecord(h, root, base, s.commitOrphans, s.loose);
    HashKeepsGenuine(h, root, s.orphanCache);
    HashKeepsGenuine(h, root, s.loose);
  }

  lemma NothingCached(history: History, base: int, prePersist: set<Tree>, loose: set<Tree>)
    requires Cached(history, base, false, prePersist, loose) && base == |history|
    ensures prePersist == {}
  {
  }

  lemma HashKeepsRecord(history: History, root: Option<Tree>, base: int, commitOrphans: seq<Tree>, loose: set<Tree>)
    requires Recorded(history, base, root, commitOrphans, loose) && base <= |history|
    ensures Recorded(history + [root], base, root, commitOrphans, loose)
  {
    LongerHistory(history, root);
  }

  lemma AskKeepsInv(cfg: Config, s: State, a: Action)
    requires Inv(cfg, s) && (a.Ask? || a.Skip?) && Enabled(s, a)
    ensures Inv(cfg, Step(cfg, s, a))
  {
    hide Genuine, Flags, OnDisk, InEvent, Cached, Flying, Itemized, Pooled, Separate, Batched, Recorded, Tasked,
         NodesAt, RootNodes, Base, Early, EarlyEntries, Popped, Held, Unmarked, Requeued, TreeOrphans, Balanced,
         Lineage, RolledBack;
  }

  // ---------------------------------------------------------------- saving a version again

  /** The version asked for is the latest, it has been handed over, and nothing is cached. */
  lemma ResaveIsLatest(cfg: Config, s: State, remade: set<Tree>)
    requires Inv(cfg, s) && Enabled(s, Resave(remade))
    ensures s.w.version == |s.history| - 1 && Base(s.committed, s.event) == |s.history| && s.prePersist == {}
            && !Pending(s.saver, s.task)
    ensures RolledBack(s.history, s.w) && Lineage(s.history) && |s.history| >= 1 && ValidRoot(s.w.root)
  {
    hide Flags, OnDisk, InEvent, Flying, Itemized, Pooled, Separate, Listed, Batched, Recorded, Lineage, Balanced,
         Requeued, Held, Unmarked, Genuine, BuiltOn;
  }

  /**
   * What an accepted save makes loose are nodes of the latest version; a tree with nodes is accepted only when its root
   * is written.
   */
  lemma ResaveLoosens(cfg: Config, s: State, remade: set<Tree>)
    requires Inv(cfg, s) && Enabled(s, Resave(remade)) && Accepted(s)
    ensures remade <= RootNodes(s.w.root) <= NodesAt(s.history, |s.history|)
    ensures remade != {} ==> s.committed == |s.history|
  {
    hide Trees, Flags, InEvent, Flying, Itemized, Pooled, Separate, Listed, Batched, Recorded, Requeued, Held,
         Unmarked, Genuine, Answered, Tasked, Shed, Cached, Dated, Nodes, Early, EarlyEntries, RolledBack, Lineage;
    ResaveIsLatest(cfg, s, remade);
    RootOnDisk(s.history, s.committed, s.disk, Early(s.event), EarlyEntries(s.event), s.loose);
    NoNodes(s.w.root);
  }

  lemma RootOnDisk(history: History, committed: int, disk: Store, early: set<Tree>, entries: set<Orphan>,
                   loose: set<Tree>)
    requires OnDisk(history, committed, disk, early, entries, loose)
    ensures |history| in disk.roots ==>
              committed == |history| >= 1 && RootNodes(disk.roots[|history|]) == NodesAt(history, |history|)
  {
  }

  /** A node of the latest version has no lifetime on disk that has ended. */
  lemma AliveHasNoEntry(history: History, committed: int, kept: set<int>, n: Tree, o: Orphan)
    requires Lineage(history) && 0 <= committed <= |history| && Keeps(history[..committed], kept)
    requires n in NodesAt(history, |history|) && o in Canonical(history[..committed], kept).orphans
    ensures o.node != n
  {
    if o.node == n {
      PrefixNodes(history, committed, o.to);
      PrefixNodes(history, committed, committed);
      LifetimeIsInterval(history, committed, |history|, n);
    }
  }

  lemma PrefixNodes(history: History, c: int, v: int)
    requires 0 <= c <= |history| && v <= c
    ensures NodesAt(history[..c], v) == NodesAt(history, v)
  {
  }

  /** Making nodes of the latest version loose changes no lifetime on disk. */
  lemma LoosenKeepsDisk(history: History, committed: int, disk: Store, early: set<Tree>, entries: set<Orphan>,
                        loose: set<Tree>, more: set<Tree>)
    requires Lineage(history) && OnDisk(history, committed, disk, early, entries, loose)
             && more <= NodesAt(history, |history|)
    ensures OnDisk(history, committed, disk, early, entries, loose + more)
  {
    hide Lineage, NodesAt, Canonical;
    var goal := Canonical(history[..committed], disk.roots.Keys);
    forall o | o in goal.orphans ensures o.node !in more {
      if o.node in more { AliveHasNoEntry(history, committed, disk.roots.Keys, o.node, o); }
    }
    assert Booked(goal.orphans, loose + more) == Booked(goal.orphans, loose);
  }

  lemma LoosenKeepsEvent(history: History, committed: int, event: Option<Event>, loose: set<Tree>, more: set<Tree>)
    requires InEvent(history, committed, event, loose) && more <= NodesAt(history, |history|)
             && Base(committed, event) == |history|
    ensures InEvent(history, committed, event, loose + more)
  {
    hide NodesAt, NewNodes;
  }

  lemma LoosenIsHeld(history: History, committed: int, disk: Store, event: Option<Event>, loose: set<Tree>,
                     more: set<Tree>)
    requires Lineage(history) && OnDisk(history, committed, disk, Early(event), EarlyEntries(event), loose)
             && InEvent(history, committed, event, loose)
    requires Held(loose, |history|, committed, disk, event) && more <= NodesAt(history, |history|)
             && Base(committed, event) == |history|
    ensures Held(loose + more, |history|, committed, disk, event)
  {
    forall n | n in more
      ensures n.version <= |history| && (n.version <= committed ==> n in disk.nodes)
      ensures n.version > committed ==> event.Some? && n in event.value.nodes
    {
      LineageVersions(history);
      if n.version <= committed {
        LifetimeIsInterval(history, committed, |history|, n);
        CommittedIsOnDisk(history, committed, disk, Early(event), EarlyEntries(event), loose, committed, n);
      }
    }
    hide Lineage, OnDisk;
  }

  lemma ResaveKeepsTrees(history: History, root: Option<Tree>, remade: set<Tree>, loose: set<Tree>)
    requires Lineage(history) && ValidRoot(root) && |history| >= 1 && loose !! NodesAt(history, |history|)
    requires remade <= RootNodes(root) <= NodesAt(history, |history|)
    ensures var w, all := Working(|history|, root, root, []),
            loose + remade + (NodesAt(history, |history|) - RootNodes(root));
            && Trees(history, w, Idle, remade, all) && Recorded(history, |history|, root, [], all)
            && Requeued(history, w, true, remade, {}, all)
  {
    LineageVersions(history);
    assert SavedTree(|history|, root);
    assert Fresh(|history|, root) == Working(|history|, root, root, []);
    hide Balanced, Lineage, RootNodes, NodesAt, ValidRoot;
  }

  lemma ResaveKeepsFlags(history: History, flagged: set<Tree>, remade: set<Tree>, loose: set<Tree>, more: set<Tree>)
    requires Flags(history, |history|, flagged, loose) && remade <= more
    ensures Flags(history, |history|, flagged - remade, loose + more)
    ensures Cached(history, |history|, false, {}, loose) ==> Cached(history, |history|, false, {}, loose + more)
  {
    hide NodesAt;
  }

  lemma ResaveUnmarked(history: History, root: Option<Tree>, flagged: set<Tree>, remade: set<Tree>, loose: set<Tree>,
                       all: set<Tree>)
    requires RootNodes(root) <= NodesAt(history, |history|) && loose !! NodesAt(history, |history|)
    requires all == loose + remade + (NodesAt(history, |history|) - RootNodes(root))
    ensures Unmarked(all, flagged - remade, Working(|history|, root, root, []))
  {
    hide RootNodes, NodesAt;
  }

  lemma ResaveMarked(history: History, committed: int, event: Option<Event>, flagged: set<Tree>, remade: set<Tree>,
                     loose: set<Tree>)
    requires InEvent(history, committed, event, loose) && Marked(event, flagged) && Base(committed, event) == |history|
    requires remade != {} ==> committed == |history|
    ensures Marked(event, flagged - remade)
  {
  }

  lemma ResaveKeepsInv(cfg: Config, s: State, remade: set<Tree>)
    requires Inv(cfg, s) && Enabled(s, Resave(remade))
    ensures Inv(cfg, Step(cfg, s, Resave(remade)))
  {
    hide Genuine, Trees, OnDisk, InEvent, Flying, Itemized, Pooled, Separate, Batched, Recorded, Flags, Marked,
         Cached, NodesAt, RootNodes, Early, EarlyEntries, Popped, Held, Unmarked, Lineage, Listed, Base, Dropped,
         RolledBack, Ran, TreeOrphans;
    if Accepted(s) {
      var h, latest := s.history, NodesAt(s.history, |s.history|);
      var more, s' := remade + (latest - RootNodes(s.w.root)), ResaveStep(s, remade);
      assert s'.loose == s.loose + more;
      ResaveIsLatest(cfg, s, remade);
      ResaveLoosens(cfg, s, remade);
      assert s.loose !! latest;
      ResaveKeepsTrees(h, s.w.root, remade, s.loose);
      LoosenKeepsDisk(h, s.committed, s.disk, Early(s.event), EarlyEntries(s.event), s.loose, more);
      LoosenKeepsEvent(h, s.committed, s.event, s.loose, more);
      LoosenIsHeld(h, s.committed, s.disk, s.event, s.loose, more);
      ItemsGrow(h, |h|, |h|, Ran(h, s.saver, s.task) - cfg.itemSize, s.items, s.orphanCache + s.loose,
                s'.orphanCache + s'.loose);
      NodesAreGenuine(h, |h|, s.loose, more);
      ResaveKeepsFlags(h, s.flagged, remade, s.loose, more);
      ResaveUnmarked(h, s.w.root, s.flagged, remade, s.loose, s'.loose);
      ResaveMarked(h, s.committed, s.event, s.flagged, remade, s.loose);
    }
  }

  /** More nodes in the orphan cache do no harm. */
  lemma ItemsGrow(history: History, newest: int, fed: int, oldest: int, items: map<int, Item>, cache: set<Tree>,
                  more: set<Tree>)
    requires Itemized(history, newest, fed, oldest, items, cache) && cache <= more
    ensures Itemized(history, newest, fed, oldest, items, more)
  {
    hide NodesAt;
  }

  // ---------------------------------------------------------------- orphans

  lemma FeedKeepsCache(history: History, base: int, prePersist: set<Tree>, orphans: set<Tree>, loose: set<Tree>)
    requires Cached(history, base, true, prePersist, loose) && Dropped(history, orphans, prePersist, loose)
             && base < |history|
    ensures Cached(history, base, false, prePersist - orphans, loose)
    ensures orphans <= NodesAt(history, |history| - 1) && orphans !! NodesAt(history, |history|)
  {
    hide NodesAt;
  }

  lemma FeedKeepsItems(history: History, newest: int, oldest: int, items: map<int, Item>, cache: set<Tree>,
                       prePersist: set<Tree>, orphans: set<Tree>, loose: set<Tree>)
    requires Itemized(history, newest, |history| - 1, oldest, items, cache + loose)
             && Dropped(history, orphans, prePersist, loose)
    ensures Itemized(history, newest, |history|, oldest, FeedItems(items, |history| - 1, orphans),
                     cache + orphans + loose)
  {
    hide NodesAt;
    var items', cache' := FeedItems(items, |history| - 1, orphans), cache + orphans + loose;
    forall v, d, n | v in items' && v <= d < |history| && n in NodesAt(history, d) && n !in NodesAt(history, d + 1)
      ensures n in cache'
    {
      assert v in items;
      if d < |history| - 1 { assert n in cache + loose; } else {
        assert n in NodesAt(history, |history| - 1) - NodesAt(history, |history|);
      }
    }
  }

  lemma NodesAreGenuine(history: History, v: int, a: set<Tree>, b: set<Tree>)
    requires Genuine(history, a) && b <= NodesAt(history, v)
    ensures Genuine(history, a + b)
  {
    hide NodesAt;
  }

  lemma FewerAreGenuine(history: History, a: set<Tree>, b: set<Tree>)
    requires Genuine(history, a)
    ensures Genuine(history, a - b)
  {
  }

  lemma ExpireKeepsItems(history: History, newest: int, fed: int, expired: int, items: map<int, Item>,
                         orphanCache: set<Tree>)
    requires Itemized(history, newest, fed, expired - 1, items, orphanCache) && Lineage(history)
    ensures expired !in items ==> Itemized(history, newest, fed, expired, items, orphanCache)
    ensures expired in items ==> Itemized(history, newest, fed, expired, items - {expired},
                                          orphanCache - items[expired].orphans)
  {
    hide NodesAt, Lineage;
    if expired in items {
      var items', cache' := items - {expired}, orphanCache - items[expired].orphans;
      forall v, d, n | v in items' && v <= d < fed && n in NodesAt(history, d) && n !in NodesAt(history, d + 1)
        ensures n in cache'
      {
        if n in items[expired].orphans { StillAlive(history, expired, d, n); }
      }
    }
  }

  /** A node alive at two versions is alive in between. */
  lemma StillAlive(history: History, u: int, v: int, n: Tree)
    requires Lineage(history) && n in NodesAt(history, u) && n in NodesAt(history, v) && u < v
    ensures n in NodesAt(history, u + 1)
  {
    LifetimeIsInterval(history, u + 1, v, n);
  }

  lemma FeedKeepsInv(cfg: Config, s: State)
    requires Inv(cfg, s) && Enabled(s, Feed)
    ensures Inv(cfg, Step(cfg, s, Feed))
  {
    hide Genuine, Flags, OnDisk, InEvent, Cached, Flying, Itemized, Pooled, Separate, Batched, Recorded, FeedItems,
         Dropped, TreeOrphans, NodesAt, Base, Early, EarlyEntries, Popped, Balanced, Lineage, Latest, Held, Unmarked,
         BuiltOn, RootNodes;
    var orphans := TreeOrphans(s);
    FeedKeepsCache(s.history, Base(s.committed, s.event), s.prePersist, orphans, s.loose);
    FeedKeepsItems(s.history, |s.history| - 1, |s.history| - 1 - cfg.itemSize, s.items, s.orphanCache, s.prePersist,
                   orphans, s.loose);
    NodesAreGenuine(s.history, |s.history| - 1, s.orphanCache, orphans);
  }

  lemma EnqueueKeepsItems(history: History, fed: int, oldest: int, items: map<int, Item>, orphanCache: set<Tree>)
    requires Itemized(history, |history| - 1, fed, oldest, items, orphanCache) && oldest < |history| && 1 <= |history|
             && fed <= |history|
    ensures Itemized(history, |history|, fed, oldest, items[|history| := Item(history[|history| - 1], {})], orphanCache)
  {
    hide NodesAt;
  }

  lemma EnqueueKeepsInv(cfg: Config, s: State)
    requires Inv(cfg, s) && Enabled(s, Enqueue)
    ensures Inv(cfg, Step(cfg, s, Enqueue))
  {
    hide Genuine, Flags, OnDisk, InEvent, Cached, Flying, Itemized, Pooled, Separate, Batched, Recorded, Elements,
         TreeOrphans, Dropped, NodesAt, Base, Early, EarlyEntries, Popped, Balanced, Lineage, Latest, Held, Unmarked,
         BuiltOn, RootNodes;
    NodesOfSave(s.history, s.w, s.saver, s.twins, s.loose);
    EnqueueKeepsItems(s.history, FedUpTo(s.history, Pending(s.saver, s.task)), |s.history| - 1 - cfg.itemSize, s.items,
                      s.orphanCache + s.loose);
  }

  lemma RunTaskKeepsInv(cfg: Config, s: State)
    requires Inv(cfg, s) && Enabled(s, RunTask)
    ensures Inv(cfg, Step(cfg, s, RunTask))
  {
    hide Genuine, Flags, OnDisk, InEvent, Cached, Flying, Itemized, Pooled, Separate, Batched, Recorded, Dropped,
         TreeOrphans, NodesAt, Base, Early, EarlyEntries, Popped, Balanced, Lineage, Latest, Held, Unmarked, BuiltOn,
         RootNodes, RolledBack;
    var t, h := s.task.value, s.history;
    var fed := if t.persist then s else FeedOrphans(s, t.version, t.orphans);
    if !t.persist {
      FeedKeepsCache(h, Base(s.committed, s.event), s.prePersist, t.orphans, s.loose);
      FeedKeepsItems(h, |h|, |h| - 1 - cfg.itemSize, s.items, s.orphanCache, s.prePersist, t.orphans, s.loose);
      NodesAreGenuine(h, |h| - 1, s.orphanCache, t.orphans);
    }
    var expired := |h| - cfg.itemSize;
    ExpireKeepsItems(h, |h|, |h|, expired, fed.items, fed.orphanCache + s.loose);
    if expired in fed.items {
      var gone := fed.items[expired].orphans;
      FewerAreGenuine(h, fed.orphanCache, gone);
      ItemsGrow(h, |h|, |h|, expired, fed.items - {expired}, fed.orphanCache + s.loose - gone,
                fed.orphanCache - gone + s.loose);
    }
  }

  // ---------------------------------------------------------------- handing over a version

  lemma NodesOfSave(history: History, w: Working, saver: Saver, twins: set<Tree>, loose: set<Tree>)
    requires Trees(history, w, saver, twins, loose) && !Resting(saver)
    ensures |history| >= 1 && w.root == history[|history| - 1] && NodesAt(history, |history|) == RootNodes(w.root)
    ensures w.root.None? ==> NodesAt(history, |history|) == {}
    ensures Lineage(history)
  {
  }

  /** With nothing in flight, the cache holds what the disk lacks of the version, the record what it has in excess. */
  lemma HandCarries(history: History, committed: int, root: Option<Tree>, prePersist: set<Tree>,
                    commitOrphans: seq<Tree>, versions: set<int>, loose: set<Tree>)
    requires 1 <= |history| && committed < |history| && root == history[|history| - 1]
             && NodesAt(history, |history|) == RootNodes(root)
    requires Cached(history, committed, false, prePersist, loose)
             && Recorded(history, committed, root, commitOrphans, loose)
    ensures var e := Event(|history|, root, prePersist, commitOrphans, versions, Received, {}, {}, {});
            Carries(history, committed, e, loose - RootNodes(root))
    ensures prePersist <= RootNodes(root) && (root.None? ==> prePersist == {})
  {
    NoNodes(root);
    hide NodesAt, RootNodes;
    assert NewNodes(history, committed, |history|) <= prePersist;
  }

  lemma HandKeepsFlags(history: History, base: int, flagged: set<Tree>, prePersist: set<Tree>, loose: set<Tree>)
    requires Flags(history, base, flagged, loose) && base <= |history| && Lineage(history)
    requires Cached(history, base, false, prePersist, loose)
    requires forall n :: n in loose && n in NodesAt(history, |history|) ==> n in prePersist
    ensures Flags(history, |history|, flagged + prePersist, loose - NodesAt(history, |history|))
  {
    LineageVersions(history);
    hide Lineage, NodesAt;
  }

  /** Loose nodes of the latest version are on the books again. */
  lemma HandKeepsDisk(history: History, committed: int, disk: Store, loose: set<Tree>, event: Option<Event>)
    requires Lineage(history) && OnDisk(history, committed, disk, {}, {}, loose)
    requires Held(loose, committed, committed, disk, event)
    ensures OnDisk(history, committed, disk, {}, {}, loose - NodesAt(history, |history|))
  {
    var latest, goal := NodesAt(history, |history|), Canonical(history[..committed], disk.roots.Keys);
    forall o | o in goal.orphans ensures o.node !in latest {
      if o.node in latest { AliveHasNoEntry(history, committed, disk.roots.Keys, o.node, o); }
    }
    forall n | n in loose && n in latest ensures n in goal.nodes {
      LineageVersions(history);
      LifetimeIsInterval(history, committed, |history|, n);
      PrefixNodes(history, committed, committed);
    }
    hide Canonical, NodesAt, Lineage;
    assert Booked(goal.orphans, loose - latest) == Booked(goal.orphans, loose);
  }

  /** The orphan cache does not owe its place to nodes that are alive. */
  lemma ItemsSpare(history: History, newest: int, fed: int, oldest: int, items: map<int, Item>, cache: set<Tree>)
    requires Itemized(history, newest, fed, oldest, items, cache) && Lineage(history) && fed <= |history|
    ensures Itemized(history, newest, fed, oldest, items, cache - NodesAt(history, |history|))
  {
    hide NodesAt, Lineage;
    var cache' := cache - NodesAt(history, |history|);
    forall v, d, n | v in items && v <= d < fed && n in NodesAt(history, d)
        && n !in NodesAt(history, d + 1) ensures n in cache' {
      if n in NodesAt(history, |history|) { StillAlive(history, d, |history|, n); }
    }
  }

  lemma HandKeepsRecord(history: History, root: Option<Tree>, loose: set<Tree>)
    requires NodesAt(history, |history|) == RootNodes(root)
    ensures Recorded(history, |history|, root, [], loose)
  {
  }

  lemma HandKeepsQueue(cfg: Config, s: State)
    requires Inv(cfg, s) && Enabled(s, Hand)
    ensures var s' := HandStep(s);
            && Pooled(s'.queue, s'.heights, Popped(s'.removed, s'.pruning, s'.prune), s'.disk.roots.Keys, s'.committed,
                      s'.event)
            && Listed(s'.queue, s'.versions, s'.event, s'.saver, |s'.history|) && Vetted(s'.versions, s'.latest)
  {
    hide Tasked, Shed, Answered, Dated, Marked, Itemized, Dropped, Genuine, OnDisk, InEvent, Flags, Cached, Flying,
         Recorded, Separate, Batched, Popped, Lineage, Balanced, BuiltOn, Held, Unmarked, Requeued, RootNodes, NodesAt;
  }

  lemma HandKeepsTrees(history: History, w: Working, saver: Saver, twins: set<Tree>, loose: set<Tree>)
    requires Trees(history, w, saver, twins, loose) && saver.Fed?
    ensures Trees(history, w, Handed, twins, loose - RootNodes(w.root))
  {
    hide Balanced, Lineage;
    NodesOfSave(history, w, saver, twins, loose);
    LineageVersions(history);
    BalancedIsExact(w);
  }

  lemma HandKeepsLoose(loose: set<Tree>, root: Option<Tree>, base: int, committed: int, disk: Store,
                       event: Option<Event>, event': Option<Event>)
    requires Held(loose, base, committed, disk, event) && base == committed
    ensures forall latest :: latest >= base ==> Held(loose - RootNodes(root), latest, committed, disk, event')
  {
  }

  lemma HandUnmarked(loose: set<Tree>, flagged: set<Tree>, moved: set<Tree>, w: Working)
    requires Unmarked(loose, flagged, w) && moved <= RootNodes(w.root)
    ensures Unmarked(loose - RootNodes(w.root), flagged + moved, w)
  {
  }

  lemma HandKeepsInv(cfg: Config, s: State)
    requires Inv(cfg, s) && Enabled(s, Hand)
    ensures Inv(cfg, Step(cfg, s, Hand))
  {
    hide Genuine, Trees, Flags, OnDisk, Carries, Itemized, Pooled, Separate, Batched, Recorded, Listed, Held,
         Unmarked, NodesAt, RootNodes, NewNodes, Popped, Lineage, Dropped, TreeOrphans, Vetted, Latest;
    var h, s' := s.history, HandStep(s);
    NodesOfSave(h, s.w, s.saver, s.twins, s.loose);
    assert s.w.version + 1 == |h| by { SavingVersion(h, s.w, s.saver, s.twins, s.loose); }
    HandCarries(h, s.committed, s.w.root, s.prePersist, s.commitOrphans, s.versions, s.loose);
    HandKeepsFlags(h, s.committed, s.flagged, s.prePersist, s.loose);
    HandKeepsRecord(h, s.w.root, s'.loose);
    HandKeepsQueue(cfg, s);
    HandKeepsTrees(h, s.w, s.saver, s.twins, s.loose);
    HandKeepsLoose(s.loose, s.w.root, s.committed, s.committed, s.disk, s.event, s'.event);
    HandUnmarked(s.loose, s.flagged, s.prePersist, s.w);
    FewerAreGenuine(h, s.loose, RootNodes(s.w.root));
    HandKeepsDisk(h, s.committed, s.disk, s.loose, s.event);
    ItemsSpare(h, |h| - 1, |h|, |h| - 1 - cfg.itemSize, s.items, s.orphanCache + s.loose);
    ItemsGrow(h, |h| - 1, |h|, |h| - 1 - cfg.itemSize, s.items, s.orphanCache + s.loose - NodesAt(h, |h|),
              s.orphanCache + s'.loose);
    HandKeepsCache(h, s'.loose);
  }

  lemma SavingVersion(history: History, w: Working, saver: Saver, twins: set<Tree>, loose: set<Tree>)
    requires Trees(history, w, saver, twins, loose) && !Resting(saver)
    ensures w.version == |history| - 1
  {
  }

  lemma HandKeepsCache(history: History, loose: set<Tree>)
    requires Lineage(history)
    ensures Cached(history, |history|, false, {}, loose)
  {
    LineageVersions(history);
  }

  // ---------------------------------------------------------------- finishing a save

  lemma FinishKeepsTrees(history: History, w: Working, saver: Saver, twins: set<Tree>, loose: set<Tree>)
    requires Trees(history, w, saver, twins, loose) && !Resting(saver)
    ensures Trees(history, Working(w.version + 1, w.root, w.root, []), Idle, {}, loose)
    ensures w.version + 1 == |history| >= 1 && w.root == Latest(history)
  {
    var root := w.root;
    assert SavedTree(|history|, root) by {
      forall n | n in RootNodes(root) ensures n.version <= |history| { assert n in NodesAt(history, |history|); }
    }
    assert Working(w.version + 1, root, root, []) == Fresh(|history|, root);
  }

  lemma FinishKeepsQueue(cfg: Config, s: State)
    requires Inv(cfg, s) && Enabled(s, Finish)
    ensures var s' := Step(cfg, s, Finish);
            && Popped(s'.removed, s'.pruning, s'.prune) == Popped(s.removed, s.pruning, s.prune)
            && Separate(s'.removed, s'.pruning, s'.prune)
            && Listed(s'.queue, s'.versions, s'.event, s'.saver, |s'.history|) && Vetted(s'.versions, s'.latest)
  {
    hide Genuine, InEvent, Flags, Cached, Flying, Itemized, Recorded, Batched, Lineage, Balanced, Canonical,
         BuiltOn, Held, Unmarked, Requeued, RootNodes, NodesAt;
  }

  lemma FinishKeepsInv(cfg: Config, s: State)
    requires Inv(cfg, s) && Enabled(s, Finish)
    ensures Inv(cfg, Step(cfg, s, Finish))
  {
    hide Genuine, Trees, Flags, OnDisk, InEvent, Cached, Flying, Itemized, Pooled, Separate, Batched, Recorded,
         Listed, NodesAt, RootNodes, Base, Early, EarlyEntries, Popped, Held, Vetted, Dropped, TreeOrphans;
    FinishKeepsTrees(s.history, s.w, s.saver, s.twins, s.loose);
    FinishKeepsQueue(cfg, s);
  }

  /** What a state with the invariant knows about its versions. */
  lemma VersionFacts(cfg: Config, s: State)
    requires Inv(cfg, s)
    ensures |s.history| - 1 <= s.w.version <= |s.history| && s.w.version >= 0
    ensures !Resting(s.saver) ==> s.w.version == |s.history| - 1
    ensures s.savedAt == s.w.version || s.savedAt == s.w.version - 1
    ensures Resting(s.saver) ==> s.savedAt >= 0 && (s.w.version < |s.history| ==> s.savedAt == s.w.version)
  {
    hide Itemized, Pooled, OnDisk, Flags, Cached, Recorded, Genuine, Listed, Batched, Requeued, Unmarked, Flying,
         NodesAt, RootNodes, Lineage, Held, InEvent, Tasked, Shed, Vetted, Separate, Marked, Turns, Answered;
  }

  lemma PoolHolds(cfg: Config, s: State)
    requires Inv(cfg, s)
    ensures Pooled(s.queue, s.heights, Popped(s.removed, s.pruning, s.prune), s.disk.roots.Keys, s.committed, s.event)
  {
    hide Pooled;
  }

  lemma DiskHolds(cfg: Config, s: State)
    requires Inv(cfg, s)
    ensures OnDisk(s.history, s.committed, s.disk, Early(s.event), EarlyEntries(s.event), s.loose)
            && InEvent(s.history, s.committed, s.event, s.loose)
    ensures Batched(s.disk, s.prune) && Lineage(s.history)
  {
    hide OnDisk, InEvent, Batched, Lineage;
  }

  lemma HeldGrows(loose: set<Tree>, base: int, committed: int, disk: Store, event: Option<Event>, disk': Store,
                  event': Option<Event>)
    requires Held(loose, base, committed, disk, event) && disk.nodes <= disk'.nodes
    requires event.Some? ==> event'.Some? && event.value.nodes <= event'.value.nodes
    ensures Held(loose, base, committed, disk', event')
  {
  }

  // ---------------------------------------------------------------- the commit goroutine

  lemma LogKeepsEvent(history: History, committed: int, roots: set<int>, e: Event, loose: set<Tree>)
    requires Carries(history, committed, e, loose) && e.phase.Received?
    requires 0 <= committed <= |history| && Keeps(history[..committed], roots)
    ensures Carries(history, committed, e.(phase := Logged, entries := Entries(e.orphans, Previous(roots, e.version))),
                    loose)
  {
    hide NodesAt, NewNodes, Previous, Entries, Elements;
    PreviousIsLatest(history, roots, committed, e.version);
  }

  /** The versions in the queue are committed, in order, and end with the latest one. */
  lemma QueueEndsAtCommitted(queue: seq<int>, committed: int, roots: set<int>)
    requires Increasing(queue) && queue != [] && committed in queue
    requires forall q :: q in queue ==> q in roots
    requires forall v :: v in roots ==> v <= committed
    ensures queue[|queue| - 1] == committed
  {
    var i :| 0 <= i < |queue| && queue[i] == committed;
    assert queue[|queue| - 1] in queue;
  }

  /** The oldest of a full queue is older than the latest committed version, known and not the current version. */
  lemma LogPops(cfg: Config, s: State)
    requires Inv(cfg, s) && s.event.Some? && s.event.value.phase.Received?
    requires |s.queue| >= cfg.historyNum >= 2
    ensures s.queue[0] < s.committed && s.queue[0] != 0 && s.queue[0] != s.w.version
            && s.queue[0] in s.event.value.versions
    ensures s.queue[0] in s.disk.roots.Keys && s.queue[0] < s.queue[1]
  {
    hide Tasked, Shed, Answered, Dated, Held, Unmarked, Requeued, Vetted, Dropped, BuiltOn, RolledBack, RootNodes,
         Genuine, Lineage, Balanced, Flags, Flying, Itemized, Separate, Batched, NodesAt, NewNodes, Canonical, Previous,
         Recorded, Cached;
    VersionFacts(cfg, s);
    assert s.queue[0] in s.queue;
    assert s.committed in s.queue;
    QueueEndsAtCommitted(s.queue, s.committed, s.disk.roots.Keys);
  }

  lemma LogPushes(cfg: Config, s: State)
    requires Inv(cfg, s) && s.event.Some? && s.event.value.phase.Received?
    ensures Increasing(s.queue + [s.event.value.version])
    ensures s.event.value.version > s.committed >= 0 && s.event.value.version !in s.queue
    ensures forall k :: k in Popped(s.removed, s.pruning, s.prune) ==> k < s.event.value.version
  {
    hide Tasked, Shed, Answered, Dated, Held, Unmarked, Requeued, Vetted, Dropped, BuiltOn, RolledBack, RootNodes,
         Genuine, Lineage, Balanced, Flags, Flying, Itemized, Separate, Batched, NodesAt, NewNodes, Canonical, Previous,
         Recorded, Cached, Popped;
    assert forall v :: v in s.disk.roots.Keys ==> v <= s.committed;
    assert forall i :: 0 <= i < |s.queue| ==> s.queue[i] in s.queue;
  }

  lemma PoolPush(queue: seq<int>, heights: set<int>, popped: set<int>, roots: set<int>, committed: int, e: Event,
                 e': Event)
    requires Pooled(queue, heights, popped, roots, committed, Some(e)) && e.phase.Received?
    requires e'.version == e.version >= 1 && e'.phase.Logged?
    requires Increasing(queue + [e.version]) && forall k :: k in popped ==> k < e.version
    ensures Pooled(queue + [e.version], heights + {e.version}, popped, roots, committed, Some(e'))
  {
    assert Elements(queue + [e.version]) == Elements(queue) + {e.version};
  }

  lemma PoolPop(queue: seq<int>, heights: set<int>, popped: set<int>, roots: set<int>, committed: int, e: Event)
    requires Pooled(queue, heights, popped, roots, committed, Some(e)) && |queue| >= 1
    requires queue[0] in roots && queue[0] < committed && queue[0] < e.version
    ensures Pooled(queue[1..], heights - {queue[0]}, popped, roots, committed, Some(e))
    ensures Pooled(queue[1..], heights - {queue[0]}, popped + {queue[0]}, roots, committed, Some(e))
  {
    assert queue == [queue[0]] + queue[1..];
    assert Elements(queue) == {queue[0]} + Elements(queue[1..]);
    assert forall q :: q in queue[1..] ==> queue[0] < q;
  }

  lemma LogFields(cfg: Config, s: State, readers: set<int>)
    requires s.event.Some? && |s.queue| >= 0
    ensures var s', e := LogStep(cfg, s, readers), s.event.value;
            && s'.event.Some? && s'.event.value.version == e.version && s'.event.value.phase.Logged?
            && s'.committed == s.committed && s'.disk == s.disk
            && if |s.queue| < cfg.historyNum then
                 s'.queue == s.queue + [e.version] && s'.heights == s.heights + {e.version}
                 && Popped(s'.removed, s'.pruning, s'.prune) == Popped(s.removed, s.pruning, s.prune)
               else
                 var k := (s.queue + [e.version])[0];
                 && s'.queue == (s.queue + [e.version])[1..] && s'.heights == s.heights + {e.version} - {k}
                 && (Popped(s'.removed, s'.pruning, s'.prune) == Popped(s.removed, s.pruning, s.prune)
                     || Popped(s'.removed, s'.pruning, s'.prune) == Popped(s.removed, s.pruning, s.prune) + {k})
  {
    hide Entries, Previous, MayDelete;
    OneMorePopped(s.removed, s.pruning, s.prune, (s.queue + [s.event.value.version])[0]);
  }

  lemma LogKeepsPool(cfg: Config, s: State, readers: set<int>)
    requires s.event.Some? && s.event.value.phase.Received? && cfg.historyNum >= 2 && Inv(cfg, s)
    ensures var s' := LogStep(cfg, s, readers);
            Pooled(s'.queue, s'.heights, Popped(s'.removed, s'.pruning, s'.prune), s'.disk.roots.Keys, s'.committed,
                   s'.event)
  {
    hide Inv, Pooled, Popped, Increasing, Elements, LogStep;
    LogPushes(cfg, s);
    PoolHolds(cfg, s);
    LogFields(cfg, s, readers);
    var e, popped, s' := s.event.value, Popped(s.removed, s.pruning, s.prune), LogStep(cfg, s, readers);
    PoolPush(s.queue, s.heights, popped, s.disk.roots.Keys, s.committed, e, s'.event.value);
    if |s.queue| >= cfg.historyNum {
      LogPops(cfg, s);
      PoolPop(s.queue + [e.version], s.heights + {e.version}, popped, s.disk.roots.Keys, s.committed, s'.event.value);
    }
  }

  lemma OneMorePopped(removed: set<int>, pruning: set<int>, prune: Option<Prune>, k: int)
    ensures Popped(removed + {k}, pruning, prune) == Popped(removed, pruning, prune) + {k}
  {
  }

  lemma LogKeepsLists(queue: seq<int>, versions: set<int>, e: Event, e': Event, saver: Saver, current: int)
    requires Listed(queue, versions, Some(e), saver, current) && e.phase.Received?
    requires e'.version == e.version && e'.phase.Logged?
    ensures Listed(queue + [e.version], versions, Some(e'), saver, current)
    ensures Listed((queue + [e.version])[1..], versions, Some(e'), saver, current)
  {
  }

  lemma LogKeepsSeparate(cfg: Config, s: State)
    requires Inv(cfg, s) && s.event.Some? && s.event.value.phase.Received?
    ensures Separate(s.removed + {(s.queue + [s.event.value.version])[0]}, s.pruning, s.prune)
  {
    hide Tasked, Shed, Answered, Dated, Held, Unmarked, Requeued, Vetted, Dropped, BuiltOn, RolledBack, RootNodes,
         Genuine, Flags, OnDisk, InEvent, Cached, Flying, Itemized, Batched, Recorded, Trees, Turns, Listed, Marked;
    LogPushes(cfg, s);
    assert s.queue != [] ==> s.queue[0] in s.queue;
  }

  lemma LogKeepsInv(cfg: Config, s: State, readers: set<int>)
    requires Inv(cfg, s) && Enabled(s, Log(readers)) && cfg.historyNum >= 2
    ensures Inv(cfg, Step(cfg, s, Log(readers)))
  {
    hide Tasked, Shed, Answered, Dated, Held, Unmarked, Requeued, Vetted, Dropped, BuiltOn, RolledBack, RootNodes,
         Genuine, Trees, Turns, Flags, OnDisk, Carries, Cached, Itemized, Pooled, Separate, Batched, Recorded, Listed,
         Entries, Previous, MayDelete, Popped;
    HeldGrows(s.loose, Base(s.committed, s.event), s.committed, s.disk, s.event, s.disk,
              LogStep(cfg, s, readers).event);
    CommittedKeeps(cfg, s);
    LogKeepsEvent(s.history, s.committed, s.disk.roots.Keys, s.event.value, s.loose);
    LogKeepsPool(cfg, s, readers);
    LogKeepsLists(s.queue, s.versions, s.event.value, LogStep(cfg, s, readers).event.value, s.saver, |s.history|);
    LogKeepsSeparate(cfg, s);
    assert Early(s.event) == {} == Early(LogStep(cfg, s, readers).event) by {
      NothingEarly(s.history, s.committed, s.event.value, s.loose);
    }
    assert EarlyEntries(s.event) == {} by { NothingEarly(s.history, s.committed, s.event.value, s.loose); }
  }

  lemma NothingEarly(history: History, committed: int, e: Event, loose: set<Tree>)
    requires Carries(history, committed, e, loose) && e.phase.Received?
    ensures e.early == {} && e.earlyEntries == {}
  {
  }

  lemma CommittedKeeps(cfg: Config, s: State)
    requires Inv(cfg, s)
    ensures 0 <= s.committed <= |s.history| && Keeps(s.history[..s.committed], s.disk.roots.Keys)
  {
  }

  /** A batch being pruned is not disturbed by entries that end at other versions nor by roots above it. */
  lemma BatchStands(disk: Store, disk': Store, k: int)
    requires Previous(disk'.roots.Keys, k) == Previous(disk.roots.Keys, k)
    requires forall o: Orphan :: o.to == k ==> (o in disk'.orphans <==> o in disk.orphans)
    ensures PruneBatch(disk', k) == PruneBatch(disk, k)
  {
    assert (set o | o in disk'.orphans && o.to == k) == (set o | o in disk.orphans && o.to == k);
  }

  /** Everything on its way out is older than the latest committed version. */
  lemma PoppedAreOld(cfg: Config, s: State, k: int)
    requires Inv(cfg, s) && k in Popped(s.removed, s.pruning, s.prune)
    ensures 1 <= k < s.committed && k in s.disk.roots.Keys && k != s.latest
  {
    hide Tasked, Shed, Answered, Dated, Held, Unmarked, Requeued, Vetted, Dropped, BuiltOn, RolledBack, RootNodes,
         Genuine, Lineage, Balanced, Flags, Flying, Itemized, Separate, Batched, NodesAt, NewNodes, Canonical, Previous,
         Recorded, Cached, Popped;
  }

  lemma EarlyKeepsInv(cfg: Config, s: State, a: Action)
    requires Inv(cfg, s) && (a.EarlyEntry? || a.EarlyNode?) && Enabled(s, a)
    ensures Inv(cfg, Step(cfg, s, a))
  {
    hide Tasked, Shed, Answered, Dated, Held, Unmarked, Requeued, Vetted, Dropped, BuiltOn, RolledBack, RootNodes,
         Genuine, Trees, Turns, Flags, Cached, Itemized, Pooled, Separate, Recorded, Listed, Canonical, NodesAt,
         NewNodes, PruneBatch, Popped;
    if s.prune.Some? {
      PrunedIsPopped(s);
      PoppedAreOld(cfg, s, s.prune.value.version);
      BatchStands(s.disk, Step(cfg, s, a).disk, s.prune.value.version);
    }
    HeldGrows(s.loose, Base(s.committed, s.event), s.committed, s.disk, s.event, Step(cfg, s, a).disk,
              Step(cfg, s, a).event);
    EarlyKeepsDisk(cfg, s, a);
    EarlyKeepsPool(s.queue, s.heights, Popped(s.removed, s.pruning, s.prune), s.disk.roots.Keys, s.committed,
                   s.event.value, Step(cfg, s, a).event.value);
    EarlyKeepsLists(s.queue, s.versions, s.event.value, Step(cfg, s, a).event.value, s.saver, |s.history|);
  }

  lemma PrunedIsPopped(s: State)
    requires s.prune.Some?
    ensures s.prune.value.version in Popped(s.removed, s.pruning, s.prune)
  {
  }

  lemma EarlyKeepsDisk(cfg: Config, s: State, a: Action)
    requires Inv(cfg, s) && (a.EarlyEntry? || a.EarlyNode?) && Enabled(s, a)
    ensures var s' := Step(cfg, s, a);
            && OnDisk(s.history, s.committed, s'.disk, Early(s'.event), EarlyEntries(s'.event), s.loose)
            && InEvent(s.history, s.committed, s'.event, s.loose)
  {
    hide Tasked, Shed, Answered, Dated, Held, Unmarked, Requeued, Vetted, Dropped, BuiltOn, RolledBack, RootNodes,
         Genuine, Trees, Turns, Flags, Cached, Itemized, Pooled, Separate, Recorded, Listed, Canonical, NodesAt,
         NewNodes, Popped, Batched, Flying;
  }

  lemma EarlyKeepsPool(queue: seq<int>, heights: set<int>, popped: set<int>, roots: set<int>, committed: int, e: Event,
                       e': Event)
    requires Pooled(queue, heights, popped, roots, committed, Some(e)) && e'.version == e.version && e'.phase == e.phase
    ensures Pooled(queue, heights, popped, roots, committed, Some(e'))
  {
  }

  lemma EarlyKeepsLists(queue: seq<int>, versions: set<int>, e: Event, e': Event, saver: Saver, current: int)
    requires Listed(queue, versions, Some(e), saver, current) && !e'.phase.Received?
    ensures Listed(queue, versions, Some(e'), saver, current)
  {
  }

  /** The batch turns the exact store of the committed history into the exact store up to the event's version. */
  lemma WriteKeepsDisk(history: History, committed: int, disk: Store, e: Event, loose: set<Tree>)
    requires Lineage(history) && Carries(history, committed, e, loose) && e.phase.Logged?
    requires OnDisk(history, committed, disk, e.early, e.earlyEntries, loose)
    ensures OnDisk(history, e.version, Commit(disk, e), {}, {}, loose)
  {
    hide Canonical, Previous, NodesAt, Lineage, NewNodes, Elements, Entries, WriteVersion, Booked;
    var kept, orphaned := disk.roots.Keys, NodesAt(history, committed) - NodesAt(history, e.version);
    var goal := Canonical(history[..committed], kept);
    NewNodesSuffice(history, committed, e.version);
    PreviousIsLatest(history, kept, committed, e.version);
    JumpIsCanonical(history, kept, committed, e.version, e.nodes, orphaned);
    WriteIsExact(goal, disk, e, committed, orphaned, loose);
    assert goal.roots.Keys == kept;
  }

  lemma NewNodesSuffice(history: History, from: int, to: int)
    requires Lineage(history) && 0 <= from <= to <= |history|
    ensures NewNodes(history, from, to) <= NodesAt(history, to) <= NewNodes(history, from, to) + NodesAt(history, from)
  {
    forall n | n in NodesAt(history, to) && n.version <= from ensures n in NodesAt(history, from) {
      LifetimeIsInterval(history, from, to, n);
    }
  }

  lemma WriteIsExact(goal: Store, disk: Store, e: Event, to: int, orphaned: set<Tree>, loose: set<Tree>)
    requires e.early <= e.nodes && e.earlyEntries <= e.entries && e.entries == Entries(e.orphans, to)
    requires Elements(e.orphans) == orphaned - loose && to == Previous(goal.roots.Keys, e.version)
    requires disk.roots == goal.roots && goal.nodes + e.early <= disk.nodes <= goal.nodes + e.early + loose
    requires disk.orphans == Booked(goal.orphans, loose) + e.earlyEntries
    ensures var disk', goal' := Commit(disk, e), WriteVersion(goal, e.version, e.root, e.nodes, orphaned);
            && disk'.roots == goal'.roots && disk'.roots.Keys == goal.roots.Keys + {e.version}
            && goal'.nodes <= disk'.nodes <= goal'.nodes + loose && disk'.orphans == Booked(goal'.orphans, loose)
  {
    hide Previous;
    var disk', goal' := Commit(disk, e), WriteVersion(goal, e.version, e.root, e.nodes, orphaned);
    assert e.entries == set n | n in orphaned - loose :: Orphan(n.version, to, n);
    assert disk'.orphans == Booked(goal'.orphans, loose);
  }

  lemma WriteKeepsPool(queue: seq<int>, heights: set<int>, popped: set<int>, roots: set<int>, committed: int, e: Event,
                       e': Event)
    requires Pooled(queue, heights, popped, roots, committed, Some(e)) && e.phase.Logged?
    requires e'.version == e.version && e'.phase.Written?
    ensures Pooled(queue, heights, popped, roots + {e.version}, e.version, Some(e'))
  {
  }

  lemma WriteKeepsBatch(cfg: Config, s: State)
    requires s.event.Some? && s.event.value.phase.Logged? && Inv(cfg, s)
    ensures Batched(Commit(s.disk, s.event.value), s.prune)
  {
    hide Inv, Carries, PruneBatch, Popped, Previous, OnDisk, Lineage;
    DiskHolds(cfg, s);
    if s.prune.Some? {
      var k, e := s.prune.value.version, s.event.value;
      PrunedIsPopped(s);
      PoppedAreOld(cfg, s, k);
      EntriesEndAtCommitted(s.history, s.committed, e, s.loose);
      PreviousBelow(s.disk.roots.Keys, e.version, k);
      assert s.disk.roots[e.version := e.root].Keys == s.disk.roots.Keys + {e.version};
      BatchStands(s.disk, Commit(s.disk, e), k);
    }
  }

  lemma EntriesEndAtCommitted(history: History, committed: int, e: Event, loose: set<Tree>)
    requires Carries(history, committed, e, loose) && e.phase.Logged?
    ensures committed < e.version && forall o :: o in e.entries ==> o.to == committed
  {
  }

  lemma LineageHolds(cfg: Config, s: State)
    requires Inv(cfg, s)
    ensures Lineage(s.history)
  {
  }

  lemma WriteKeepsInv(cfg: Config, s: State)
    requires Inv(cfg, s) && Enabled(s, Write)
    ensures Inv(cfg, Step(cfg, s, Write))
  {
    hide Genuine, Trees, Flags, Cached, OnDisk, Itemized, Pooled, Separate, Recorded, Listed, Canonical, NodesAt,
         NewNodes, Popped, Batched, Elements, Entries;
    assert Lineage(s.history) by { LineageHolds(cfg, s); }
    WriteKeepsDisk(s.history, s.committed, s.disk, s.event.value, s.loose);
    WriteKeepsBatch(cfg, s);
    var e := s.event.value;
    assert WriteStep(s).disk.roots.Keys == s.disk.roots.Keys + {e.version};
    WriteKeepsPool(s.queue, s.heights, Popped(s.removed, s.pruning, s.prune), s.disk.roots.Keys, s.committed, e,
                   WriteStep(s).event.value);
    EarlyKeepsLists(s.queue, s.versions, e, WriteStep(s).event.value, s.saver, |s.history|);
  }

  lemma ReleaseKeepsInv(cfg: Config, s: State)
    requires Inv(cfg, s) && Enabled(s, Release)
    ensures Inv(cfg, Step(cfg, s, Release))
  {
    hide Genuine, Trees, Flags, Cached, OnDisk, Itemized, Separate, Recorded, Canonical, NodesAt, NewNodes, Popped,
         Batched, Elements, Entries;
  }

  // ---------------------------------------------------------------- the prune goroutine

  lemma PruneReadKeepsInv(cfg: Config, s: State, k: int)
    requires Inv(cfg, s) && Enabled(s, PruneRead(k))
    ensures Inv(cfg, Step(cfg, s, PruneRead(k)))
  {
    hide Tasked, Shed, Answered, Dated, Held, Unmarked, Requeued, Vetted, Dropped, BuiltOn, RolledBack, RootNodes,
         Genuine, Trees, Flags, Cached, OnDisk, Itemized, Recorded, Canonical, NodesAt, NewNodes, InEvent, Flying,
         Listed, Pooled, Previous;
    assert Popped(s.removed, s.pruning - {k}, Some(PruneBatch(s.disk, k))) == Popped(s.removed, s.pruning, s.prune);
  }

  /** Deleting a version from disk is deleting it from the store the disk stands for; early and loose nodes stay. */
  lemma DeletionSpares(goal: Store, disk: Store, early: set<Tree>, earlyEntries: set<Orphan>, loose: set<Tree>, k: int)
    requires disk.roots == goal.roots && goal.nodes + early <= disk.nodes <= goal.nodes + early + loose
    requires disk.orphans == Booked(goal.orphans, loose) + earlyEntries
    requires forall o :: o in earlyEntries ==> o.to != k
    requires forall o, n :: o in goal.orphans && n in early ==> o.node != n
    ensures var disk', goal' := DeleteVersion(disk, k), DeleteVersion(goal, k);
            && disk'.roots == goal'.roots && goal'.nodes + early <= disk'.nodes <= goal'.nodes + early + loose
            && disk'.orphans == Booked(goal'.orphans, loose) + earlyEntries
            && loose * disk.nodes <= disk'.nodes
  {
    hide Previous;
    var disk', goal' := DeleteVersion(disk, k), DeleteVersion(goal, k);
    assert disk'.orphans == Booked(goal'.orphans, loose) + earlyEntries;
  }

  /** A lifetime that has ended is that of a node the latest version lacks. */
  lemma CanonicalVersions(history: History, kept: set<int>, o: Orphan)
    requires Keeps(history, kept) && Lineage(history) && o in Canonical(history, kept).orphans
    ensures o.node.version <= o.to <= |history| && o.node !in NodesAt(history, |history|)
  {
  }

  lemma BatchIsDeletion(disk: Store, k: int)
    ensures var b := PruneBatch(disk, k);
            Store(disk.roots - {k}, disk.nodes - b.dead, (disk.orphans - b.ended) + b.moved) == DeleteVersion(disk, k)
  {
    hide Previous;
    var b, d := PruneBatch(disk, k), DeleteVersion(disk, k);
    assert disk.nodes - b.dead == d.nodes;
    assert (disk.orphans - b.ended) + b.moved == d.orphans;
  }

  lemma PruneIsDeletion(cfg: Config, s: State)
    requires Enabled(s, PruneWrite) && Batched(s.disk, s.prune)
    ensures Step(cfg, s, PruneWrite).disk == DeleteVersion(s.disk, s.prune.value.version)
  {
    BatchIsDeletion(s.disk, s.prune.value.version);
  }

  lemma DeletionKeepsDisk(history: History, committed: int, disk: Store, event: Option<Event>, loose: set<Tree>, k: int)
    requires OnDisk(history, committed, disk, Early(event), EarlyEntries(event), loose)
             && InEvent(history, committed, event, loose)
    requires Lineage(history) && 1 <= k < committed
    ensures OnDisk(history, committed, DeleteVersion(disk, k), Early(event), EarlyEntries(event), loose)
    ensures loose * disk.nodes <= DeleteVersion(disk, k).nodes
            && DeleteVersion(disk, k).roots.Keys == disk.roots.Keys - {k}
  {
    hide Previous, Canonical, Booked, Lineage, NodesAt, InEvent;
    var h, kept := history[..committed], disk.roots.Keys;
    PrefixKeepsLineage(history, committed);
    DeleteVersionIsCanonical(h, kept, k);
    EarlyIsNew(history, committed, event, loose);
    PrefixNodes(history, committed, committed);
    var goal, early, entries := Canonical(h, kept), Early(event), EarlyEntries(event);
    forall o, n | o in goal.orphans && n in early ensures o.node != n { CanonicalVersions(h, kept, o); }
    DeletionSpares(goal, disk, early, entries, loose, k);
    assert DeleteVersion(disk, k).roots.Keys == kept - {k};
    hide DeleteVersion, Early, EarlyEntries;
  }

  lemma PruneKeepsDisk(cfg: Config, s: State, disk': Store)
    requires Enabled(s, PruneWrite) && disk' == Step(cfg, s, PruneWrite).disk && Inv(cfg, s)
    ensures OnDisk(s.history, s.committed, disk', Early(s.event), EarlyEntries(s.event), s.loose)
    ensures s.prune.Some? && disk'.roots.Keys == s.disk.roots.Keys - {s.prune.value.version}
            && s.loose * s.disk.nodes <= disk'.nodes
  {
    hide Inv, OnDisk, InEvent, Batched, Lineage, Step, DeleteVersion, Popped;
    DiskHolds(cfg, s);
    PrunedIsPopped(s);
    PoppedAreOld(cfg, s, s.prune.value.version);
    PruneIsDeletion(cfg, s);
    DeletionKeepsDisk(s.history, s.committed, s.disk, s.event, s.loose, s.prune.value.version);
  }

  /** What is written ahead of a batch is new and ends no lifetime before the committed version. */
  lemma EarlyIsNew(history: History, committed: int, event: Option<Event>, loose: set<Tree>)
    requires InEvent(history, committed, event, loose) && Lineage(history)
    ensures forall o :: o in EarlyEntries(event) ==> o.to == committed
    ensures forall n :: n in Early(event) ==> n.version > committed || n in NodesAt(history, committed)
  {
    forall n | n in Early(event) && n.version <= committed ensures n in NodesAt(history, committed) {
      LifetimeIsInterval(history, committed, event.value.version, n);
    }
  }

  lemma PruneKeepsPool(cfg: Config, s: State, b: Prune)
    requires Inv(cfg, s) && s.prune == Some(b)
    ensures Pooled(s.queue, s.heights, Popped(s.removed, s.pruning, None), s.disk.roots.Keys - {b.version}, s.committed,
                   s.event)
    ensures Separate(s.removed, s.pruning, None)
  {
    hide Genuine, Trees, Turns, OnDisk, InEvent, Flags, Cached, Itemized, Recorded, Listed, Batched, Flying,
         Tasked, Shed, Answered, Dated, Held, Unmarked, Requeued, Vetted, Marked;
    PrunedIsPopped(s);
  }

  lemma PruneWriteKeepsInv(cfg: Config, s: State)
    requires Inv(cfg, s) && Enabled(s, PruneWrite)
    ensures Inv(cfg, Step(cfg, s, PruneWrite))
  {
    hide Genuine, Trees, Turns, OnDisk, InEvent, Flags, Cached, Itemized, Recorded, Listed, Pooled, Separate,
         Flying, Popped, PruneBatch, Early, EarlyEntries, Tasked, Shed, Answered, Dated, Unmarked, Requeued, Vetted,
         Marked;
    PruneKeepsDisk(cfg, s, Step(cfg, s, PruneWrite).disk);
    PruneKeepsPool(cfg, s, s.prune.value);
  }

  // ---------------------------------------------------------------- every run

  lemma StepKeepsInv(cfg: Config, s: State, a: Action)
    requires Inv(cfg, s) && Enabled(s, a) && cfg.historyNum >= 2
    ensures Inv(cfg, Step(cfg, s, a))
  {
    hide Inv;
    match a
    case Change(edit) => ChangeKeepsInv(cfg, s, edit);
    case Ask => AskKeepsInv(cfg, s, a);
    case Skip => AskKeepsInv(cfg, s, a);
    case Hash(persist) => HashKeepsInv(cfg, s, persist);
    case Resave(remade) => ResaveKeepsInv(cfg, s, remade);
    case Feed => FeedKeepsInv(cfg, s);
    case Hand => HandKeepsInv(cfg, s);
    case Enqueue => EnqueueKeepsInv(cfg, s);
    case Finish => FinishKeepsInv(cfg, s);
    case RunTask => RunTaskKeepsInv(cfg, s);
    case Log(readers) => LogKeepsInv(cfg, s, readers);
    case EarlyEntry(_) => EarlyKeepsInv(cfg, s, a);
    case EarlyNode(_) => EarlyKeepsInv(cfg, s, a);
    case Write => WriteKeepsInv(cfg, s);
    case Release => ReleaseKeepsInv(cfg, s);
    case PruneRead(k) => PruneReadKeepsInv(cfg, s, k);
    case PruneWrite => PruneWriteKeepsInv(cfg, s);
  }

  /** A tree just loaded at its latest persisted version, with the height queue filled from the roots on disk. */
  ghost predicate Initial(s: State) {
    && Lineage(s.history) && Keeps(s.history, s.disk.roots.Keys)
    && s.disk == Canonical(s.history, s.disk.roots.Keys)
    && s.w == Working(|s.history|, Latest(s.history), Latest(s.history), [])
    && s.flagged == NodesAt(s.history, |s.history|)
    && s.commitOrphans == [] && s.saver.Idle? && s.task.None? && s.event.None? && s.prune.None?
    && s.prePersist == {} && s.tpp == map[] && s.orphanCache == {} && s.items == map[]
    && s.committed == s.latest == s.savedAt == |s.history|
    && Increasing(s.queue) && Elements(s.queue) == s.heights == s.versions == s.disk.roots.Keys
    && s.removed == {} && s.pruning == {} && s.result == Some(0) && s.twins == {} && s.loose == {}
  }

  lemma InitialTrees(history: History)
    requires Lineage(history)
    ensures Trees(history, Working(|history|, Latest(history), Latest(history), []), Idle, {}, {})
    ensures NodesAt(history, |history|) == RootNodes(Latest(history))
  {
    var root := Latest(history);
    assert SavedTree(|history|, root) by {
      forall n | n in RootNodes(root) ensures n.version <= |history| { assert n in NodesAt(history, |history|); }
    }
    assert Working(|history|, root, root, []) == Fresh(|history|, root);
  }

  lemma InitialFlags(history: History)
    requires Lineage(history)
    ensures Flags(history, |history|, NodesAt(history, |history|), {})
  {
  }

  lemma NoneAreGenuine(history: History, nodes: set<Tree>)
    requires nodes == {}
    ensures Genuine(history, nodes)
  {
  }

  lemma InitialPool(s: State)
    requires Initial(s)
    ensures Pooled(s.queue, s.heights, Popped(s.removed, s.pruning, s.prune), s.disk.roots.Keys, s.committed, s.event)
    ensures Listed(s.queue, s.versions, s.event, s.saver, |s.history|) && Vetted(s.versions, s.latest)
  {
    hide Lineage, Canonical;
    assert forall q :: q in s.queue <==> q in Elements(s.queue);
    assert Popped(s.removed, s.pruning, s.prune) == {};
  }

  lemma InitialIsInv(cfg: Config, s: State)
    requires Initial(s)
    ensures Inv(cfg, s)
  {
    InitialTrees(s.history);
    InitialFlags(s.history);
    InitialExact(s.history, s.disk);
    InitialPool(s);
    NoneAreGenuine(s.history, s.orphanCache);
    NoneAreGenuine(s.history, s.loose);
    InitialCache(s.history);
    hide Genuine, Canonical, Increasing, Lineage, Trees, NodesAt, RootNodes, NewNodes, OnDisk, Pooled, Listed,
         Flags, Keeps, Popped, Cached;
  }

  lemma InitialCache(history: History)
    requires Lineage(history)
    ensures Cached(history, |history|, false, {}, {}) && Recorded(history, |history|, Latest(history), [], {})
  {
    LatestIsValid(history);
  }

  lemma InitialExact(history: History, disk: Store)
    requires Keeps(history, disk.roots.Keys) && disk == Canonical(history, disk.roots.Keys)
    ensures OnDisk(history, |history|, disk, {}, {}, {})
  {
    hide Canonical;
    assert history[..|history|] == history;
    assert Booked(disk.orphans, {}) == disk.orphans;
  }

  /** One interleaving of the four goroutines. */
  ghost predicate Run(cfg: Config, s: State, actions: seq<Action>, s': State)
    decreases actions
  {
    if actions == [] then s' == s
    else Enabled(s, actions[0]) && Run(cfg, Step(cfg, s, actions[0]), actions[1..], s')
  }

  lemma {:induction false} RunKeepsInv(cfg: Config, s: State, actions: seq<Action>, s': State)
    requires Inv(cfg, s) && Run(cfg, s, actions, s') && cfg.historyNum >= 2
    ensures Inv(cfg, s')
    decreases actions
  {
    hide Inv, Step;
    if actions != [] {
      StepKeepsInv(cfg, s, actions[0]);
      RunKeepsInv(cfg, Step(cfg, s, actions[0]), actions[1..], s');
    }
  }

  // ---------------------------------------------------------------- every needed node is found

  lemma NewIsCached(history: History, base: int, pending: bool, prePersist: set<Tree>, loose: set<Tree>, v: int,
                    n: Tree)
    requires Cached(history, base, pending, prePersist, loose) && n in NodesAt(history, v) && n.version > base
    requires v == |history| || (v == |history| - 1 && pending)
    ensures n in prePersist
  {
    hide NodesAt;
  }

  lemma CarriedIsInFlight(history: History, committed: int, event: Option<Event>, tpp: map<int, set<Tree>>,
                          loose: set<Tree>, n: Tree)
    requires InEvent(history, committed, event, loose) && Flying(tpp, event) && event.Some? && n in event.value.nodes
    ensures n in InFlight(tpp)
  {
    var e := event.value;
    assert e.root.Some? by { NoNodes(e.root); }
    hide NodesAt;
    assert n in tpp[e.version];
  }

  lemma NewIsInFlight(history: History, committed: int, event: Option<Event>, tpp: map<int, set<Tree>>,
                      loose: set<Tree>, n: Tree)
    requires InEvent(history, committed, event, loose) && Flying(tpp, event)
    requires n in NodesAt(history, Base(committed, event)) && n.version > committed
             && committed <= Base(committed, event)
    requires n.version <= Base(committed, event)
    ensures n in InFlight(tpp)
  {
    assert event.Some?;
    hide NodesAt, Flying;
    assert n in event.value.nodes;
    CarriedIsInFlight(history, committed, event, tpp, loose, n);
  }

  /** Nodes of the latest tree, or of the one before while its orphans are pending, are cached, in flight or on disk. */
  lemma LiveIsFound(cfg: Config, s: State, v: int, n: Tree)
    requires Inv(cfg, s) && n in NodesAt(s.history, v)
    requires v == |s.history| || (v == |s.history| - 1 && Pending(s.saver, s.task))
    ensures n in s.prePersist || n in InFlight(s.tpp) || (n in s.disk.nodes && n in NodesAt(s.history, s.committed))
  {
    hide Genuine, Trees, NodesAt, Flags, Recorded, Itemized, Pooled, Separate, Listed, Batched, OnDisk, Marked,
         InEvent, Cached, Flying, Base, InFlight, Held, Unmarked, Requeued, Dropped, RootNodes;
    var h, c, base := s.history, s.committed, Base(s.committed, s.event);
    LineageHolds(cfg, s);
    if n.version > base {
      NewIsCached(h, base, Pending(s.saver, s.task), s.prePersist, s.loose, v, n);
    } else if n.version > c {
      LifetimeIsInterval(h, base, v, n);
      NewIsInFlight(h, c, s.event, s.tpp, s.loose, n);
    } else {
      LifetimeIsInterval(h, c, v, n);
      CommittedIsOnDisk(h, c, s.disk, Early(s.event), EarlyEntries(s.event), s.loose, c, n);
    }
  }

  /** Every node of a version with a root on disk. */
  lemma CommittedIsOnDisk(history: History, committed: int, disk: Store, early: set<Tree>, earlyEntries: set<Orphan>,
                          loose: set<Tree>, v: int, n: Tree)
    requires OnDisk(history, committed, disk, early, earlyEntries, loose)
    requires (v in disk.roots.Keys || v == committed) && n in NodesAt(history, v)
    ensures n in disk.nodes
  {
    assert NodesAt(history[..committed], v) == NodesAt(history, v);
    assert v in disk.roots.Keys;
  }

  /** Every node of a version findRootHash still finds. */
  lemma ItemIsFound(cfg: Config, s: State, v: int, n: Tree)
    requires Inv(cfg, s) && v in s.items && n in NodesAt(s.history, v)
    ensures n in Places(s)
  {
    hide Genuine, Flags, Recorded, Pooled, Separate, Listed, Batched, OnDisk, InEvent, Cached, Marked, Flying,
         Balanced, Held, Unmarked, Requeued, Dropped, BuiltOn, RolledBack;
    var h := s.history;
    var d := Last(h, n);
    var pending := Pending(s.saver, s.task);
    assert n !in NodesAt(h, d + 1) && v <= d;
    hide Lineage, NodesAt, Last, Inv;
    if d == |h| || (d == |h| - 1 && pending) {
      LiveIsFound(cfg, s, d, n);
    } else {
      assert n in s.orphanCache + s.loose;
      if n in s.loose { LooseIsFound(cfg, s, n); }
    }
  }

  lemma LooseIsFound(cfg: Config, s: State, n: Tree)
    requires Inv(cfg, s) && n in s.loose
    ensures n in InFlight(s.tpp) || n in s.disk.nodes
  {
    hide Genuine, Trees, Flags, Recorded, Pooled, Separate, Listed, Batched, OnDisk, InEvent, Cached, Marked,
         Flying, Unmarked, Requeued, Dropped, Itemized, InFlight;
    if n.version > s.committed { CarriedIsInFlight(s.history, s.committed, s.event, s.tpp, s.loose, n); }
  }

  /** A node some caller may ask for by hash. */
  ghost predicate Needed(s: State, n: Tree) {
    || (n in RootNodes(s.w.root) && (n.version != s.w.version + 1 || n in NodesAt(s.history, |s.history|)))
    || (Resting(s.saver) && n in RootNodes(s.w.lastSaved))
    || (exists v :: v in s.items && n in RootNodes(s.items[v].root))
    || (exists v :: v in s.disk.roots && n in RootNodes(s.disk.roots[v]))
  }

  /** A hash lookup in one place: some node there with that hash. */
  ghost function Find(h: Hasher, nodes: set<Tree>, hash: Hash): (r: Option<Tree>)
    ensures r.Some? ==> r.value in nodes && HashOf(h, r.value) == hash
    ensures r.None? ==> forall n :: n in nodes ==> HashOf(h, n) != hash
  {
    if n :| n in nodes && HashOf(h, n) == hash then Some(n) else None
  }

  /** loadNode: the pre-persist cache, the nodes in flight, the orphan cache, then disk. */
  ghost function LoadNode(h: Hasher, s: State, hash: Hash): Option<Tree> {
    var cached, flying := Find(h, s.prePersist, hash), Find(h, InFlight(s.tpp), hash);
    var orphaned := Find(h, s.orphanCache, hash);
    if cached.Some? then cached else if flying.Some? then flying else if orphaned.Some? then orphaned
    else Find(h, s.disk.nodes, hash)
  }

  lemma DiskIsSaved(history: History, committed: int, disk: Store, early: set<Tree>, earlyEntries: set<Orphan>,
                    loose: set<Tree>, n: Tree)
    requires OnDisk(history, committed, disk, early, earlyEntries, loose) && n in disk.nodes
    ensures n in early || n in loose || Saved(history, n)
  {
    if n !in early && n !in loose {
      var v :| v in disk.roots.Keys && n in NodesAt(history[..committed], v);
      assert n in NodesAt(history, v);
    }
  }

  /** Nothing is kept anywhere that was not a node of some saved version. */
  lemma PlacesAreSaved(cfg: Config, s: State, n: Tree)
    requires Inv(cfg, s) && n in Places(s)
    ensures Saved(s.history, n)
  {
    hide Trees, OnDisk, Flags, Recorded, Itemized, Pooled, Separate, Listed, Batched, Marked, NodesAt, Base, Turns,
         Canonical, Held, Unmarked, Requeued, Dropped, Dated;
    if n in s.disk.nodes {
      DiskIsSaved(s.history, s.committed, s.disk, Early(s.event), EarlyEntries(s.event), s.loose, n);
    }
    assert n in InFlight(s.tpp) ==> n in s.event.value.nodes;
  }

  lemma SavedIsProper(history: History, n: Tree)
    requires Lineage(history) && Saved(history, n)
    ensures Proper(n)
  {
    var v :| n in NodesAt(history, v);
    assert history[v - 1] in history;
    SubtreeIsValid(history[v - 1].value, n);
    ValidIsProper(n);
  }

  lemma NeededIsFound(cfg: Config, s: State, n: Tree)
    requires Inv(cfg, s) && Needed(s, n)
    ensures n in Places(s) && Saved(s.history, n)
  {
    if n in NodesAt(s.history, |s.history|) {
      LiveIsFound(cfg, s, |s.history|, n);
    } else if v :| v in s.items && n in RootNodes(s.items[v].root) {
      ItemIsSaved(cfg, s, v, n);
      ItemIsFound(cfg, s, v, n);
    } else if v :| v in s.disk.roots && n in RootNodes(s.disk.roots[v]) {
      RootIsSaved(cfg, s, v, n);
      CommittedIsOnDisk(s.history, s.committed, s.disk, Early(s.event), EarlyEntries(s.event), s.loose, v, n);
    } else {
      WorkingIsSaved(cfg, s, n);
      assert false;
    }
  }

  /** What the working tree was not just made of is a node of the latest version. */
  lemma WorkingIsSaved(cfg: Config, s: State, n: Tree)
    requires Inv(cfg, s)
    requires (n in RootNodes(s.w.root) && n.version != s.w.version + 1)
             || (Resting(s.saver) && n in RootNodes(s.w.lastSaved))
    ensures n in NodesAt(s.history, |s.history|)
  {
    LineageHolds(cfg, s);
    LatestIsValid(s.history);
    hide Lineage, Balanced;
    if !(Resting(s.saver) && Detached(s.history, s.w.version)) {
      WorkingNodes(s.history, s.w, s.saver, s.twins, s.loose, n);
    }
  }

  lemma ItemIsSaved(cfg: Config, s: State, v: int, n: Tree)
    requires Inv(cfg, s) && v in s.items && n in RootNodes(s.items[v].root)
    ensures n in NodesAt(s.history, v)
  {
    hide Trees, OnDisk, Flags, Recorded, Pooled, Separate, Listed, Batched, Marked, Held, Unmarked, Requeued,
         Dropped, Dated, Cached, Genuine, InEvent;
  }

  lemma RootIsSaved(cfg: Config, s: State, v: int, n: Tree)
    requires Inv(cfg, s) && v in s.disk.roots && n in RootNodes(s.disk.roots[v])
    ensures n in NodesAt(s.history, v)
  {
    hide Inv;
    DiskHolds(cfg, s);
  }

  /** A lookup never yields a wrong node, and yields the node whenever it is anywhere. */
  lemma LoadIsRight(cfg: Config, h: Hasher, s: State, n: Tree)
    requires Inv(cfg, s) && Injective(h) && n in Places(s)
    ensures LoadNode(h, s, HashOf(h, n)) == Some(n)
  {
    hide Inv, HashOf, Injective;
    LineageHolds(cfg, s);
    PlacesAreSaved(cfg, s, n);
    SavedIsProper(s.history, n);
    forall m | m in Places(s) && HashOf(h, m) == HashOf(h, n) ensures m == n {
      PlacesAreSaved(cfg, s, m);
      SavedIsProper(s.history, m);
      HashIdentifiesTree(h, m, n);
    }
    hide Lineage;
  }

  /** In every interleaving, every node a caller may ask for resolves by its hash to that node. */
  lemma AsyncCommitIsSafe(cfg: Config, h: Hasher, s0: State, actions: seq<Action>, s: State, n: Tree)
    requires Initial(s0) && Run(cfg, s0, actions, s) && cfg.historyNum >= 2 && Injective(h)
    requires Needed(s, n)
    ensures LoadNode(h, s, HashOf(h, n)) == Some(n)
  {
    hide Inv, Initial, Run, Needed;
    InitialIsInv(cfg, s0);
    RunKeepsInv(cfg, s0, actions, s);
    NeededIsFound(cfg, s, n);
    LoadIsRight(cfg, h, s, n);
  }

  /** The versions saved since the start whose items have not expired. */
  ghost predicate Windowed(cfg: Config, s: State, loaded: int) {
    && 0 <= loaded <= |s.history| && Newest(s.history, s.saver) >= loaded
    && forall v :: v in s.items <==>
         loaded < v <= Newest(s.history, s.saver) && v > Ran(s.history, s.saver, s.task) - cfg.itemSize
  }

  lemma StepKeepsWindow(cfg: Config, s: State, a: Action, loaded: int)
    requires Inv(cfg, s) && Enabled(s, a) && Windowed(cfg, s, loaded)
    ensures Windowed(cfg, Step(cfg, s, a), loaded)
  {
    hide Inv, NodesAt, RootNodes, Apply, Flagged, UnsavedRoot, Elements, Commit, PruneBatch, Entries, Previous,
         MayDelete, Accepted, RunTaskStep, Windowed;
    TurnFacts(cfg, s);
    if a.RunTask? {
      RunTaskKeepsWindow(cfg, s, loaded);
    } else {
      if a.Hash? { HashIsAttached(cfg, s); }
      if a.Change? { ApplyExtends(s.w, a.edit); }
      OtherStepKeepsWindow(cfg, s, Step(cfg, s, a), a, loaded);
    }
  }

  lemma RunTaskKeepsWindow(cfg: Config, s: State, loaded: int)
    requires s.task.Some? && s.task.value.version == |s.history| && (Resting(s.saver) || s.saver.Queued?)
    requires Windowed(cfg, s, loaded)
    ensures Windowed(cfg, RunTaskStep(cfg, s), loaded)
  {
  }

  /** The other steps: a new version is awaited, given its item, or given its turn. */
  lemma OtherStepKeepsWindow(cfg: Config, s: State, s': State, a: Action, loaded: int)
    requires Windowed(cfg, s, loaded) && s'.history == s.history + (if a.Hash? then [s.w.root] else [])
    requires !a.Enqueue? ==> s'.task == s.task
    requires a.Hash? ==> s.saver.Waiting? && s'.saver.Hashed? && s.task.None?
    requires a.Enqueue? ==> s'.task.Some? && s'.saver.Queued? && (s.saver.Hashed? || s.saver.Handed?)
    requires a.Enqueue? ==> s'.items.Keys == s.items.Keys + {|s.history|}
    requires !a.Enqueue? ==> s'.items.Keys == s.items.Keys
    requires !a.Hash? && !a.Enqueue? ==>
               && (Resting(s.saver) || s.saver.Queued? <==> Resting(s'.saver) || s'.saver.Queued?)
               && (s.saver.Hashed? || s.saver.Fed? || s.saver.Handed? <==>
                    s'.saver.Hashed? || s'.saver.Fed? || s'.saver.Handed?)
    ensures Windowed(cfg, s', loaded)
  {
  }

  lemma TurnFacts(cfg: Config, s: State)
    requires Inv(cfg, s)
    ensures s.task.Some? ==> (Resting(s.saver) || s.saver.Queued?) && s.task.value.version == |s.history|
    ensures s.saver == Hashed(false) || s.saver.Handed? ==> s.w.version + 1 == |s.history|
  {
    VersionFacts(cfg, s);
    hide Itemized, Pooled, OnDisk, Flags, Cached, Recorded, Genuine, Listed, Batched, Requeued, Unmarked, Flying,
         NodesAt, RootNodes, Trees, Held, InEvent, Tasked, Shed, Vetted, Separate, Marked, Answered, Dated;
  }

  lemma {:induction false} RunKeepsWindow(cfg: Config, s: State, actions: seq<Action>, s': State, loaded: int)
    requires Inv(cfg, s) && Run(cfg, s, actions, s') && cfg.historyNum >= 2 && Windowed(cfg, s, loaded)
    ensures Windowed(cfg, s', loaded)
    decreases actions
  {
    hide Inv, Step, Windowed;
    if actions != [] {
      StepKeepsInv(cfg, s, actions[0]);
      StepKeepsWindow(cfg, s, actions[0], loaded);
      RunKeepsWindow(cfg, Step(cfg, s, actions[0]), actions[1..], s', loaded);
    }
  }

  /**
   * findRootHash finds exactly the versions saved since the start that are within the window of orphan items, counted
   * from the last version whose orphan task has run, and finds the tree saved as that version.
   */
  lemma FoundRoots(cfg: Config, s0: State, actions: seq<Action>, s: State, v: int)
    requires Initial(s0) && Run(cfg, s0, actions, s) && cfg.historyNum >= 2
    ensures v in s.items <==>
            |s0.history| < v <= Newest(s.history, s.saver) && v > Ran(s.history, s.saver, s.task) - cfg.itemSize
    ensures v in s.items ==> 1 <= v <= |s.history| && s.items[v].root == s.history[v - 1]
  {
    hide Run, Inv, Step;
    InitialIsInv(cfg, s0);
    RunKeepsInv(cfg, s0, actions, s);
    RunKeepsWindow(cfg, s0, actions, s, |s0.history|);
    if v in s.items { ItemHasTree(cfg, s, v); }
  }

  lemma ItemHasTree(cfg: Config, s: State, v: int)
    requires Inv(cfg, s) && v in s.items
    ensures 1 <= v <= |s.history| && s.items[v].root == s.history[v - 1]
  {
    hide Trees, OnDisk, Flags, Recorded, Pooled, Separate, Listed, Batched, Marked, Held, Unmarked, Requeued,
         Dropped, Dated, Cached, Genuine, InEvent, NodesAt;
  }

  // ---------------------------------------------------------------- the panics are unreachable

  /** What makes the step panic, refuse the save, or skip the event. */
  ghost predicate Panics(s: State, a: Action)
    requires Enabled(s, a)
  {
    match a
    case Hash(_) =>
      || s.w.version + 1 in s.items
      || exists n :: n in Unflagged(s) && (n in s.flagged || n in s.prePersist)
    case Hand => exists n :: n in s.prePersist && n in s.flagged
    case Enqueue => s.w.version + 1 in s.items
    case Log(_) =>
      || s.event.value.version in s.heights
      || (exists n :: n in s.event.value.nodes && n !in s.flagged)
      || (exists n :: n in s.event.value.orphans && n.version > Previous(s.disk.roots.Keys, s.event.value.version))
    case PruneRead(k) =>
      || k == s.latest
      || (exists o :: o in PruneBatch(s.disk, k).moved && o.from > o.to)
    case _ => false
  }

  lemma HashDoesNotPanic(cfg: Config, s: State, persist: bool)
    requires Inv(cfg, s) && Enabled(s, Hash(persist))
    ensures !Panics(s, Hash(persist))
  {
    hide Trees, OnDisk, InEvent, Flying, Genuine, Recorded, Pooled, Separate, Listed, Batched, Marked, UnsavedRoot,
         Held, NodesAt, RootNodes, Lineage;
    HashIsAttached(cfg, s);
    UnflaggedNodes(s);
    LineageHolds(cfg, s);
    LineageVersions(s.history);
    TwinsAreLoose(s.history, s.w, s.saver, s.twins, s.loose);
  }

  lemma HandDoesNotPanic(cfg: Config, s: State)
    requires Inv(cfg, s) && Enabled(s, Hand)
    ensures !Panics(s, Hand)
  {
    hide Trees, OnDisk, InEvent, Flying, Genuine, Itemized, Recorded, Pooled, Separate, Listed, Batched, Marked,
         NodesAt, RootNodes, Held, Tasked, Shed, Answered, Dated, Requeued, Vetted;
    NodesOfSave(s.history, s.w, s.saver, s.twins, s.loose);
  }

  lemma EnqueueDoesNotPanic(cfg: Config, s: State)
    requires Inv(cfg, s) && Enabled(s, Enqueue)
    ensures !Panics(s, Enqueue)
  {
    hide OnDisk, InEvent, Flying, Genuine, Recorded, Pooled, Separate, Listed, Batched, Marked, Lineage, Balanced,
         Flags, Cached;
  }

  lemma LogDoesNotPanic(cfg: Config, s: State, readers: set<int>)
    requires Inv(cfg, s) && Enabled(s, Log(readers))
    ensures !Panics(s, Log(readers))
  {
    hide Flying, Genuine, Recorded, Separate, Batched, Balanced, Flags, Cached, Itemized, Canonical, Previous;
    LogPushes(cfg, s);
    PreviousIsLatest(s.history, s.disk.roots.Keys, s.committed, s.event.value.version);
    forall n | n in s.event.value.orphans ensures n.version <= s.committed {
      assert n in Elements(s.event.value.orphans);
    }
  }

  lemma PruneDoesNotPanic(cfg: Config, s: State, k: int)
    requires Inv(cfg, s) && Enabled(s, PruneRead(k))
    ensures !Panics(s, PruneRead(k))
  {
    hide Inv;
    assert k in Popped(s.removed, s.pruning, s.prune);
    PoppedAreOld(cfg, s, k);
  }

  /** No reachable step panics: no node is saved twice, no lifetime is negative, the latest version is never pruned. */
  lemma NothingPanics(cfg: Config, s0: State, actions: seq<Action>, s: State, a: Action)
    requires Initial(s0) && Run(cfg, s0, actions, s) && cfg.historyNum >= 2 && Enabled(s, a)
    ensures !Panics(s, a)
  {
    InitialIsInv(cfg, s0);
    RunKeepsInv(cfg, s0, actions, s);
    hide Inv, Initial, Run;
    match a
    case Hash(persist) => HashDoesNotPanic(cfg, s, persist);
    case Hand => HandDoesNotPanic(cfg, s);
    case Enqueue => EnqueueDoesNotPanic(cfg, s);
    case Log(readers) => LogDoesNotPanic(cfg, s, readers);
    case PruneRead(k) => PruneDoesNotPanic(cfg, s, k);
    case _ =>
  }

  /** The queue and the height map agree, and the version given to pruning is the oldest, never the latest. */
  lemma OldestIsPruned(cfg: Config, s0: State, actions: seq<Action>, s: State, readers: set<int>)
    requires Initial(s0) && Run(cfg, s0, actions, s) && cfg.historyNum >= 2
    ensures Increasing(s.queue) && s.heights == Elements(s.queue)
    ensures Enabled(s, Log(readers)) && |s.queue| >= cfg.historyNum ==>
              LogStep(cfg, s, readers).removed ==
                    (if s.queue[0] in readers then s.removed else s.removed + {s.queue[0]})
    ensures forall k :: k in s.removed + s.pruning ==> k < s.committed && forall q :: q in s.queue ==> k < q
  {
    hide Initial, Run, Step, Inv;
    InitialIsInv(cfg, s0);
    RunKeepsInv(cfg, s0, actions, s);
    PoolHolds(cfg, s);
    if Enabled(s, Log(readers)) && |s.queue| >= cfg.historyNum { LogPops(cfg, s); }
    forall k | k in s.removed + s.pruning ensures k < s.committed { PoppedAreOld(cfg, s, k); }
  }

  /**
   * Whenever no commit is in flight the disk is the canonical store, but for nodes that came loose and have no entries.
   */
  lemma LeftOverIsLoose(cfg: Config, s0: State, actions: seq<Action>, s: State)
    requires Initial(s0) && Run(cfg, s0, actions, s) && cfg.historyNum >= 2
    requires s.event.None?
    ensures 0 <= s.committed <= |s.history| && Keeps(s.history[..s.committed], s.disk.roots.Keys)
    ensures var goal := Canonical(s.history[..s.committed], s.disk.roots.Keys);
            && s.disk.roots == goal.roots && goal.nodes <= s.disk.nodes <= goal.nodes + s.loose
            && s.disk.orphans == Booked(goal.orphans, s.loose)
  {
    hide Initial, Run, Canonical, Trees, Flags, Cached, Flying, Genuine, Itemized, Pooled, Listed, Batched,
         Recorded, Step, NodesAt, Held, Unmarked, Requeued, Dropped;
    InitialIsInv(cfg, s0);
    RunKeepsInv(cfg, s0, actions, s);
  }

  lemma {:induction false} NothingIsLoose(cfg: Config, s: State, actions: seq<Action>, s': State)
    requires Run(cfg, s, actions, s') && s.loose == {} && forall a :: a in actions ==> !a.Resave?
    ensures s'.loose == {}
    decreases actions
  {
    if actions != [] {
      assert actions[0] in actions;
      NothingIsLoose(cfg, Step(cfg, s, actions[0]), actions[1..], s');
    }
  }

  /** Unless a version was saved again, whenever no commit is in flight the disk is exactly the canonical store. */
  lemma NothingIsLeftOver(cfg: Config, s0: State, actions: seq<Action>, s: State)
    requires Initial(s0) && Run(cfg, s0, actions, s) && cfg.historyNum >= 2
    requires s.event.None? && forall a :: a in actions ==> !a.Resave?
    ensures 0 <= s.committed <= |s.history| && Keeps(s.history[..s.committed], s.disk.roots.Keys)
    ensures s.disk == Canonical(s.history[..s.committed], s.disk.roots.Keys)
  {
    hide Run, Canonical;
    LeftOverIsLoose(cfg, s0, actions, s);
    NothingIsLoose(cfg, s0, actions, s);
    var goal := Canonical(s.history[..s.committed], s.disk.roots.Keys);
    assert Booked(goal.orphans, {}) == goal.orphans;
  }

  /** In every run, nothing is kept in flight without a commit, nor kept to be persisted once all is handed over. */
  lemma NothingStaysInMemory(cfg: Config, s0: State, actions: seq<Action>, s: State)
    requires Initial(s0) && Run(cfg, s0, actions, s) && cfg.historyNum >= 2
    ensures s.event.None? ==> s.tpp == map[]
    ensures s.latest == |s.history| ==> s.prePersist == {}
    ensures forall v :: v in s.tpp ==> s.event.Some? && v == s.event.value.version && s.tpp[v] == s.event.value.nodes
  {
    hide Initial, Run, Canonical, Trees, Flags, Genuine, Itemized, Pooled, Listed, Batched, Recorded, Step, NodesAt,
         Held, Unmarked, Requeued, Dropped, OnDisk;
    InitialIsInv(cfg, s0);
    RunKeepsInv(cfg, s0, actions, s);
  }

  // ---------------------------------------------------------------- reading from disk later

  lemma {:induction false} RunExtendsHistory(cfg: Config, s: State, actions: seq<Action>, s': State)
    requires Run(cfg, s, actions, s')
    ensures s.history <= s'.history
    decreases actions
  {
    if actions != [] { RunExtendsHistory(cfg, Step(cfg, s, actions[0]), actions[1..], s'); }
  }

  /** A loose node the latest version lacks stays loose: no later version has it. */
  lemma StepKeepsLoose(cfg: Config, s: State, a: Action, n: Tree)
    requires Inv(cfg, s) && Enabled(s, a) && n in s.loose && n !in NodesAt(s.history, |s.history|)
    ensures var s' := Step(cfg, s, a);
            n in s'.loose && n !in NodesAt(s'.history, |s'.history|) && s.committed <= s'.committed
  {
    hide Inv, NodesAt, RootNodes;
    if a.Hash? {
      NewVersionLacks(cfg, s, n, a.persist);
    } else if a.Hand? {
      SavingRoot(cfg, s);
    } else if a.Write? {
      EventIsNewer(cfg, s);
    }
  }

  lemma NewVersionLacks(cfg: Config, s: State, n: Tree, persist: bool)
    requires Inv(cfg, s) && Enabled(s, Hash(persist)) && n in s.loose && n !in NodesAt(s.history, |s.history|)
    ensures n !in NodesAt(s.history + [s.w.root], |s.history| + 1)
  {
    hide Itemized, Pooled, OnDisk, Flags, Cached, Recorded, Listed, Batched, Requeued, Unmarked, Flying, NodesAt,
         RootNodes, InEvent, Tasked, Shed, Vetted, Separate, Marked, Answered, Dated, Trees, Genuine;
    HashIsAttached(cfg, s);
    HashKeepsTrees(s.history, s.w, s.twins, s.loose, persist);
    LongerHistory(s.history, s.w.root);
  }

  lemma SavingRoot(cfg: Config, s: State)
    requires Inv(cfg, s) && !Resting(s.saver)
    ensures NodesAt(s.history, |s.history|) == RootNodes(s.w.root)
  {
    hide Trees;
    NodesOfSave(s.history, s.w, s.saver, s.twins, s.loose);
  }

  lemma EventIsNewer(cfg: Config, s: State)
    requires Inv(cfg, s) && s.event.Some?
    ensures s.committed <= s.event.value.version
  {
  }

  lemma {:induction false} RunKeepsLoose(cfg: Config, s: State, actions: seq<Action>, s': State, n: Tree)
    requires Inv(cfg, s) && Run(cfg, s, actions, s') && cfg.historyNum >= 2
    requires n in s.loose && n !in NodesAt(s.history, |s.history|)
    ensures n in s'.loose && s.committed <= s'.committed
    decreases actions
  {
    hide Inv, Step;
    if actions != [] {
      StepKeepsInv(cfg, s, actions[0]);
      StepKeepsLoose(cfg, s, actions[0], n);
      RunKeepsLoose(cfg, Step(cfg, s, actions[0]), actions[1..], s', n);
    }
  }

  /** A node that memory misses is on disk, as part of a version with a root there or as a loose node. */
  lemma MissedIsOnDisk(cfg: Config, s: State, n: Tree) returns (u: int)
    requires Inv(cfg, s) && Needed(s, n) && n !in s.prePersist && n !in InFlight(s.tpp) && n !in s.orphanCache
    ensures n in s.disk.nodes
    ensures (u in s.disk.roots && n in NodesAt(s.history, u)) || (n in s.loose && n !in NodesAt(s.history, |s.history|))
  {
    NeededIsFound(cfg, s, n);
    u := s.committed;
    if n in NodesAt(s.history, |s.history|) {
      LiveIsFound(cfg, s, |s.history|, n);
      CommittedHasRoot(cfg, s, n);
    } else if v :| v in s.items && n in RootNodes(s.items[v].root) {
      ItemIsSaved(cfg, s, v, n);
      if n !in s.loose { ItemIsCommitted(cfg, s, v, n); CommittedHasRoot(cfg, s, n); }
    } else if v :| v in s.disk.roots && n in RootNodes(s.disk.roots[v]) {
      RootIsSaved(cfg, s, v, n);
      u := v;
    } else {
      WorkingIsSaved(cfg, s, n);
      assert false;
    }
  }

  lemma CommittedHasRoot(cfg: Config, s: State, n: Tree)
    requires Inv(cfg, s) && n in NodesAt(s.history, s.committed)
    ensures s.committed in s.disk.roots
  {
  }

  lemma ItemIsCommitted(cfg: Config, s: State, v: int, n: Tree)
    requires Inv(cfg, s) && v in s.items && n in NodesAt(s.history, v)
    requires n !in s.prePersist && n !in InFlight(s.tpp) && n !in s.orphanCache && n !in s.loose
    ensures n in NodesAt(s.history, s.committed)
  {
    hide Genuine, Flags, Recorded, Pooled, Separate, Listed, Batched, OnDisk, InEvent, Cached, Marked, Flying,
         Balanced, Held, Unmarked, Requeued, Dropped, BuiltOn, RolledBack;
    var h := s.history;
    var d := Last(h, n);
    assert n !in NodesAt(h, d + 1) && v <= d;
    hide Lineage, NodesAt, Last, Inv;
    if d == |h| || (d == |h| - 1 && Pending(s.saver, s.task)) {
      LiveIsFound(cfg, s, d, n);
    }
  }

  /**
   * loadNode leaves the lock between missing in memory and reading the disk. A node that memory misses stays on disk
   * for as long as some version that has it, with a root on disk at that moment, keeps its root; a loose node stays for
   * good.
   */
  lemma MissedNodeStaysOnDisk(cfg: Config, s: State, actions: seq<Action>, s': State, n: Tree) returns (u: int)
    requires Inv(cfg, s) && Run(cfg, s, actions, s') && cfg.historyNum >= 2
    requires Needed(s, n) && n !in s.prePersist && n !in InFlight(s.tpp) && n !in s.orphanCache
    ensures n in s.disk.nodes
    ensures n in s'.disk.nodes || (u in s.disk.roots && n in NodesAt(s.history, u) && u !in s'.disk.roots)
  {
    u := MissedIsOnDisk(cfg, s, n);
    RunExtendsHistory(cfg, s, actions, s');
    RunKeepsInv(cfg, s, actions, s');
    if u in s.disk.roots && n in NodesAt(s.history, u) {
      if u in s'.disk.roots {
        RootsAreSaved(cfg, s, u);
        SameNodes(s.history, s'.history, u);
        CommittedIsOnDisk(s'.history, s'.committed, s'.disk, Early(s'.event), EarlyEntries(s'.event), s'.loose, u, n);
      }
    } else {
      LooseIsWritten(cfg, s, n);
      RunKeepsLoose(cfg, s, actions, s', n);
      LooseStays(cfg, s', n);
    }
  }

  lemma RootsAreSaved(cfg: Config, s: State, u: int)
    requires Inv(cfg, s) && u in s.disk.roots
    ensures 1 <= u <= |s.history|
  {
  }

  lemma LooseIsWritten(cfg: Config, s: State, n: Tree)
    requires Inv(cfg, s) && n in s.loose && n !in InFlight(s.tpp)
    ensures n.version <= s.committed
  {
    hide Genuine, Trees, Flags, Recorded, Pooled, Separate, Listed, Batched, OnDisk, InEvent, Cached, Marked,
         Flying, Unmarked, Requeued, Dropped, Itemized, InFlight;
    if n.version > s.committed { CarriedIsInFlight(s.history, s.committed, s.event, s.tpp, s.loose, n); }
  }

  lemma LooseStays(cfg: Config, s: State, n: Tree)
    requires Inv(cfg, s) && n in s.loose && n.version <= s.committed
    ensures n in s.disk.nodes
  {
  }

  lemma SameNodes(history: History, longer: History, v: int)
    requires history <= longer && v <= |history|
    ensures NodesAt(longer, v) == NodesAt(history, v)
  {
  }

  // ---------------------------------------------------------------- Rollback

  /** The last of the saves and Rollbacks among the actions is a save. */
  ghost predicate SavedLast(actions: seq<Action>) {
    exists i :: && 0 <= i < |actions| && actions[i] == Finish
                && forall j :: i < j < |actions| ==> actions[j] != Change(Rollback)
  }

  /** lastSaved carries an older version than the working tree. */
  ghost predicate Lags(s: State) {
    (Resting(s.saver) ==> s.w.version == |s.history|) && s.savedAt != s.w.version
  }

  lemma StepLags(cfg: Config, s: State, a: Action)
    requires Inv(cfg, s) && Enabled(s, a)
    ensures Lags(Step(cfg, s, a)) <==> a == Finish || (Lags(s) && a != Change(Rollback))
  {
    hide Inv, Apply, Flagged, UnsavedRoot, RootNodes, NodesAt, Commit, PruneBatch, Entries, Previous, MayDelete,
         Accepted;
    VersionFacts(cfg, s);
    if a.Hash? { HashIsAttached(cfg, s); }
    if a.Resave? { ResaveIsLatest(cfg, s, a.remade); }
    if a.Change? { ApplyExtends(s.w, a.edit); }
  }

  lemma {:induction false} RunLags(cfg: Config, s: State, actions: seq<Action>, s': State)
    requires Inv(cfg, s) && Run(cfg, s, actions, s') && cfg.historyNum >= 2
    ensures Lags(s') <==> SavedLast(actions) || (Lags(s) && Change(Rollback) !in actions)
    decreases actions
  {
    hide Inv, Step, Lags;
    if actions != [] {
      var a, rest := actions[0], actions[1..];
      StepKeepsInv(cfg, s, a);
      StepLags(cfg, s, a);
      RunLags(cfg, Step(cfg, s, a), rest, s');
      SavedLastCons(a, rest);
      assert actions == [a] + rest;
    }
  }

  lemma SavedLastCons(a: Action, rest: seq<Action>)
    ensures SavedLast([a] + rest) <==> SavedLast(rest) || (a == Finish && Change(Rollback) !in rest)
  {
    var all := [a] + rest;
    if i :| 0 <= i < |all| && all[i] == Finish && forall j :: i < j < |all| ==> all[j] != Change(Rollback) {
      if i == 0 {
        forall x | x in rest ensures x != Change(Rollback) {
          var k :| 0 <= k < |rest| && rest[k] == x;
          assert all[k + 1] == x;
        }
      } else {
        assert rest[i - 1] == Finish && forall j :: i - 1 < j < |rest| ==> rest[j] == all[j + 1];
      }
    }
    if i :| 0 <= i < |rest| && rest[i] == Finish && forall j :: i < j < |rest| ==> rest[j] != Change(Rollback) {
      assert all[i + 1] == Finish && forall j :: i + 1 < j < |all| ==> all[j] == rest[j - 1];
    }
    if a == Finish && Change(Rollback) !in rest {
      assert all[0] == Finish && forall j :: 0 < j < |all| ==> all[j] in rest;
    }
  }

  /**
   * setNewWorkingTree copies the tree to lastSaved before it moves the version, so Rollback moves the version back by
   * one exactly when an asynchronous save has happened since the tree was loaded or last rolled back.
   */
  lemma RollbackKeepsVersion(cfg: Config, s0: State, actions: seq<Action>, s: State)
    requires Initial(s0) && Run(cfg, s0, actions, s) && cfg.historyNum >= 2 && s.saver.Idle?
    ensures RollbackStep(s).w.version == (if SavedLast(actions) then s.w.version - 1 else s.w.version)
    ensures SavedLast(actions) ==> s.w.version == |s.history| >= 1
  {
    hide Initial, Run, Inv, SavedLast;
    InitialIsInv(cfg, s0);
    RunKeepsInv(cfg, s0, actions, s);
    InitialLags(s0);
    RunLags(cfg, s0, actions, s);
    VersionFacts(cfg, s);
  }

  lemma InitialLags(s: State)
    requires Initial(s)
    ensures !Lags(s)
  {
  }

  lemma BlockedStep(cfg: Config, s: State, a: Action)
    requires Inv(cfg, s) && Enabled(s, a) && s.saver.Waiting? && Detached(s.history, s.w.version)
    ensures var s' := Step(cfg, s, a); s'.saver.Waiting? && s'.history == s.history && s'.w == s.w
  {
    hide Inv, Apply, Flagged, UnsavedRoot, RootNodes, NodesAt, Commit, PruneBatch, Entries, Previous, MayDelete,
         Accepted;
    if a.Hash? { HashIsAttached(cfg, s); }
  }

  /** While the tree is detached, a save that began to wait waits for ever: the version it waits for is never sent. */
  lemma {:induction false} StaysBlocked(cfg: Config, s: State, actions: seq<Action>, s': State)
    requires Inv(cfg, s) && Run(cfg, s, actions, s') && cfg.historyNum >= 2
    requires s.saver.Waiting? && Detached(s.history, s.w.version)
    ensures s'.saver.Waiting? && s'.history == s.history && s'.w == s.w
    decreases actions
  {
    hide Inv, Step;
    if actions != [] {
      StepKeepsInv(cfg, s, actions[0]);
      BlockedStep(cfg, s, actions[0]);
      StaysBlocked(cfg, Step(cfg, s, actions[0]), actions[1..], s');
    }
  }

  /** After an asynchronous save and a Rollback, saving a version that was not persisted never comes to an end. */
  lemma SaveAfterRollbackBlocks(cfg: Config, s0: State, actions: seq<Action>, s: State, more: seq<Action>, s': State)
    requires Initial(s0) && Run(cfg, s0, actions, s) && cfg.historyNum >= 2 && s.saver.Idle? && SavedLast(actions)
    requires Enabled(s, Change(Rollback)) && Enabled(RollbackStep(s), Ask)
    requires Run(cfg, Step(cfg, RollbackStep(s), Ask), more, s')
    ensures s'.saver.Waiting? && s'.history == s.history
  {
    InitialIsInv(cfg, s0);
    RunKeepsInv(cfg, s0, actions, s);
    RollbackKeepsVersion(cfg, s0, actions, s);
    hide Inv, Initial, Run, SavedLast;
    StepKeepsInv(cfg, s, Change(Rollback));
    StepKeepsInv(cfg, RollbackStep(s), Ask);
    StaysBlocked(cfg, Step(cfg, RollbackStep(s), Ask), more, s');
  }

  /** After the first asynchronous save, a second Rollback empties the tree although a tree has been saved. */
  lemma SecondRollbackEmpties(cfg: Config, s0: State, actions: seq<Action>, s: State)
    requires Initial(s0) && Run(cfg, s0, actions, s) && cfg.historyNum >= 2 && s.saver.Idle? && SavedLast(actions)
             && |s.history| == 1
    ensures var w := RollbackStep(s).w; w.version == 0 && w.root == w.lastSaved == s.history[0]
    ensures var w := RollbackStep(RollbackStep(s)).w; w.version == 0 && w.root.None? && w.lastSaved == s.history[0]
  {
    hide Initial, Run, Inv, SavedLast;
    InitialIsInv(cfg, s0);
    RunKeepsInv(cfg, s0, actions, s);
    InitialLags(s0);
    RunLags(cfg, s0, actions, s);
    RollbackKeepsVersion(cfg, s0, actions, s);
    LastIsSaved(cfg, s);
  }

  lemma LastIsSaved(cfg: Config, s: State)
    requires Inv(cfg, s) && s.saver.Idle? && Lags(s)
    ensures s.w.lastSaved == Latest(s.history)
  {
    hide Itemized, Pooled, OnDisk, Flags, Cached, Recorded, Genuine, Listed, Batched, Requeued, Unmarked, Flying,
         NodesAt, RootNodes, Lineage, Held, InEvent, Trees;
  }

  /** A tree without versions. */
  ghost function NewTree(): State {
    State([], Working(0, None, None, []), [], {}, Idle, {}, map[], {}, map[], None, None,
          0, Store(map[], {}, {}), 0, [], {}, {}, {}, {}, None, 0, Some(0), {}, {})
  }

  lemma NewTreeIsInitial()
    ensures Initial(NewTree())
  {
    assert Canonical([], {}).nodes == {} && Canonical([], {}).orphans == {};
  }

  /** The steps of the first asynchronous save of one key, without persisting. */
  ghost function SaveOne(key: Key, value: Value): seq<Action> {
    [Change(Set(key, value)), Ask, Hash(false), Enqueue, Finish]
  }

  lemma RunCons(cfg: Config, s: State, a: Action, rest: seq<Action>, s': State)
    requires Enabled(s, a) && Run(cfg, Step(cfg, s, a), rest, s')
    ensures Run(cfg, s, [a] + rest, s')
  {
    assert ([a] + rest)[1..] == rest;
  }

  lemma SaveOneSteps(cfg: Config, key: Key, value: Value) returns (s1: State, s2: State, s3: State, s4: State, s: State)
    ensures Enabled(NewTree(), Change(Set(key, value))) && s1 == Step(cfg, NewTree(), Change(Set(key, value)))
    ensures Enabled(s1, Ask) && s2 == Step(cfg, s1, Ask) && Enabled(s2, Hash(false)) && s3 == Step(cfg, s2, Hash(false))
    ensures Enabled(s3, Enqueue) && s4 == Step(cfg, s3, Enqueue) && Enabled(s4, Finish) && s == Step(cfg, s4, Finish)
    ensures s.saver.Idle? && s.w.version == 1 && s.w.root == Some(Leaf(key, value, 1)) && RollbackStep(s).w.version == 0
  {
    hide Unflagged, TreeOrphans, NodesAt, RootNodes;
    s1 := Step(cfg, NewTree(), Change(Set(key, value)));
    s2 := Step(cfg, s1, Ask);
    s3 := Step(cfg, s2, Hash(false));
    s4 := Step(cfg, s3, Enqueue);
    s := Step(cfg, s4, Finish);
  }

  /** One asynchronous save of a tree with one key, then Rollback: version 1 becomes version 0. */
  lemma RollbackAfterOneSave(cfg: Config, key: Key, value: Value) returns (s: State)
    ensures Initial(NewTree()) && Run(cfg, NewTree(), SaveOne(key, value), s)
    ensures s.saver.Idle? && s.w.version == 1 && s.w.root == Some(Leaf(key, value, 1)) && RollbackStep(s).w.version == 0
  {
    hide Initial, Run, Step, NewTree, Enabled;
    NewTreeIsInitial();
    var s1, s2, s3, s4, s5 := SaveOneSteps(cfg, key, value);
    s := s5;
    var hash, all := [Hash(false), Enqueue, Finish], SaveOne(key, value);
    assert [Finish] + [] == [Finish] && [Enqueue] + [Finish] == hash[1..] && [Hash(false)] + hash[1..] == hash;
    assert [Ask] + hash == all[1..] && [Change(Set(key, value))] + all[1..] == all;
    RunNothing(cfg, s);
    RunCons(cfg, s4, Finish, [], s);
    RunCons(cfg, s3, Enqueue, [Finish], s);
    RunCons(cfg, s2, Hash(false), hash[1..], s);
    RunCons(cfg, s1, Ask, hash, s);
    RunCons(cfg, NewTree(), Change(Set(key, value)), all[1..], s);
  }

  lemma RunNothing(cfg: Config, s: State)
    ensures Run(cfg, s, [], s)
  {
  }

  // ---------------------------------------------------------------- saving a version again

  /**
   * In every run, SaveVersion of a version that tree.versions lists is about the latest version, and accepts the
   * working tree exactly if it is the tree saved as that version, once its root is written; before that, exactly if it
   * is empty. What is accepted is the last saved tree again, at that version.
   */
  lemma SavedAgainExactly(cfg: Config, s0: State, actions: seq<Action>, s: State, remade: set<Tree>)
    requires Initial(s0) && Run(cfg, s0, actions, s) && cfg.historyNum >= 2 && Enabled(s, Resave(remade))
    ensures |s.history| >= 1 && s.w.version + 1 == |s.history|
    ensures var s', version := Step(cfg, s, Resave(remade)), |s.history|;
            if s.w.root == (if s.committed == version then s.history[version - 1] else None)
            then s'.w == Working(version, s.w.root, s.w.root, []) && s'.savedAt == version && s'.commitOrphans == []
            else s' == s
  {
    hide Inv, Initial, Run, NodesAt, RootNodes, RolledBack, Lineage, ValidRoot;
    InitialIsInv(cfg, s0);
    RunKeepsInv(cfg, s0, actions, s);
    ResaveIsLatest(cfg, s, remade);
    WrittenRoot(cfg, s);
  }

  lemma WrittenRoot(cfg: Config, s: State)
    requires Inv(cfg, s) && |s.history| >= 1
    ensures |s.history| in s.disk.roots <==> s.committed == |s.history|
    ensures |s.history| in s.disk.roots ==> s.disk.roots[|s.history|] == s.history[|s.history| - 1]
  {
    hide Inv, NodesAt, RootNodes, Lineage, InEvent, Batched;
    DiskHolds(cfg, s);
  }

  lemma {:induction false} RunOneMore(cfg: Config, s: State, actions: seq<Action>, s': State, a: Action)
    requires Run(cfg, s, actions, s') && Enabled(s', a)
    ensures Run(cfg, s, actions + [a], Step(cfg, s', a))
    decreases actions
  {
    hide Step, Enabled;
    if actions == [] {
      assert actions + [a] == [a] && [a][1..] == [];
    } else {
      RunOneMore(cfg, Step(cfg, s, actions[0]), actions[1..], s', a);
      assert (actions + [a])[0] == actions[0] && (actions + [a])[1..] == actions[1..] + [a];
    }
  }

  /** One key, saved as version 1 and written. */
  ghost function PersistedOne(leaf: Tree): State {
    var root := Some(leaf);
    State([root], Working(1, root, root, []), [], {leaf}, Idle, {}, map[1 := {leaf}], {}, map[1 := Item(root, {})],
          Some(Task(1, {}, true)), Some(Event(1, root, {leaf}, [], {}, Written, {}, {}, {})), 1,
          Store(map[1 := root], {leaf}, {}), 1, [1], {1}, {1}, {}, {}, None, 0, None, {}, {})
  }

  /** One key, being saved as version 1, with the event just handed over. */
  ghost function HandedOne(leaf: Tree): State {
    var root := Some(leaf);
    State([root], Working(0, None, root, []), [], {leaf}, Handed, {}, map[1 := {leaf}], {}, map[], None,
          Some(Event(1, root, {leaf}, [], {}, Received, {}, {}, {})), 0, Store(map[], {}, {}), 1, [], {}, {}, {}, {},
          None, 0, None, {}, {})
  }

  /** One key, hashed to be persisted as version 1. */
  ghost function HashedOne(leaf: Tree): State {
    var root := Some(leaf);
    State([root], Working(0, None, root, []), [], {}, Hashed(true), {leaf}, map[], {}, map[], None, None, 0,
          Store(map[], {}, {}), 0, [], {}, {}, {}, {}, None, 0, None, {}, {})
  }

  /** The states of the save up to the hashing. */
  lemma HashOne(cfg: Config, key: Key, value: Value) returns (s1: State, s2: State)
    ensures Enabled(NewTree(), Change(Set(key, value))) && s1 == Step(cfg, NewTree(), Change(Set(key, value)))
    ensures Enabled(s1, Ask) && s2 == Step(cfg, s1, Ask)
    ensures Enabled(s2, Hash(true)) && Step(cfg, s2, Hash(true)) == HashedOne(Leaf(key, value, 1))
  {
    s1 := Step(cfg, NewTree(), Change(Set(key, value)));
    s2 := Step(cfg, s1, Ask);
    var leaf := Leaf(key, value, 1);
    assert UnsavedRoot(s2.w.root, 0) == {leaf} && RootNodes(s2.w.root) == {leaf};
    assert Unflagged(s2) == {leaf};
    assert s2.commitOrphans == [] && s2.w.orphans == [];
  }

  /** The states from there to the hand-over. */
  lemma HandOne(cfg: Config, leaf: Tree) returns (s: State)
    ensures Enabled(HashedOne(leaf), Feed) && s == Step(cfg, HashedOne(leaf), Feed)
    ensures Enabled(s, Hand) && Step(cfg, s, Hand) == HandedOne(leaf)
  {
    hide UnsavedRoot, Flagged, PruneBatch, Canonical;
    s := Step(cfg, HashedOne(leaf), Feed);
    assert TreeOrphans(HashedOne(leaf)) == {};
    assert s.prePersist == {leaf} && s.orphanCache == {} && s.items == map[];
    var s' := Step(cfg, s, Hand);
    assert s'.prePersist == {} && s'.flagged == {leaf} && s'.tpp == map[1 := {leaf}] && s'.loose == {};
  }

  /** The states from there to the end of the save. */
  lemma FinishOne(cfg: Config, leaf: Tree) returns (s1: State, s2: State)
    ensures Enabled(HandedOne(leaf), Enqueue) && s1 == Step(cfg, HandedOne(leaf), Enqueue)
    ensures Enabled(s1, Finish) && s2 == Step(cfg, s1, Finish)
    ensures var root := Some(leaf);
            s2 == HandedOne(leaf).(w := Working(1, root, root, []), saver := Idle, items := map[1 := Item(root, {})],
                                   task := Some(Task(1, {}, true)), versions := {1})
  {
    hide NodesAt, RootNodes, UnsavedRoot, Flagged, PruneBatch, Canonical;
    s1 := Step(cfg, HandedOne(leaf), Enqueue);
    assert TreeOrphans(HandedOne(leaf)) == {};
    s2 := Step(cfg, s1, Finish);
  }

  /** The states from there to the written version. */
  lemma WriteOne(cfg: Config, leaf: Tree, s: State) returns (s': State)
    requires cfg.historyNum >= 2
    requires var root := Some(leaf);
             s == HandedOne(leaf).(w := Working(1, root, root, []), saver := Idle, items := map[1 := Item(root, {})],
                                   task := Some(Task(1, {}, true)), versions := {1})
    ensures Enabled(s, Log({})) && s' == Step(cfg, s, Log({}))
    ensures Enabled(s', Write) && Step(cfg, s', Write) == PersistedOne(leaf)
  {
    hide NodesAt, RootNodes, UnsavedRoot, Flagged, PruneBatch, Canonical;
    s' := Step(cfg, s, Log({}));
    assert s'.queue == [1] && s'.heights == {1} && s'.event.value.entries == {};
  }

  /**
   * A run after which the version is saved again: the first save of one key, persisted and written, and a Rollback. The
   * tree is at version 1 again, as it was before the Rollback.
   */
  lemma PersistedIsSavedAgain(cfg: Config, key: Key, value: Value) returns (actions: seq<Action>, s: State)
    requires cfg.historyNum >= 2
    ensures Initial(NewTree()) && Run(cfg, NewTree(), actions, s) && Enabled(s, Resave({}))
    ensures s.w.version == 0 && Step(cfg, s, Resave({})).w == Working(1, s.w.root, s.w.root, [])
    ensures s.w.root == Some(Leaf(key, value, 1))
  {
    hide Initial, Run, Step, Enabled, HandedOne, PersistedOne;
    var leaf, s0 := Leaf(key, value, 1), NewTree();
    NewTreeIsInitial();
    actions := RunHand(cfg, key, value);
    var s6, s7 := FinishOne(cfg, leaf);
    var s8 := WriteOne(cfg, leaf, s7);
    RunOneMore(cfg, s0, actions, HandedOne(leaf), Enqueue);
    actions := actions + [Enqueue];
    RunOneMore(cfg, s0, actions, s6, Finish);
    actions := actions + [Finish];
    RunOneMore(cfg, s0, actions, s7, Log({}));
    actions := actions + [Log({})];
    RunOneMore(cfg, s0, actions, s8, Write);
    actions := actions + [Write];
    RollBackOne(cfg, leaf);
    RunOneMore(cfg, s0, actions, PersistedOne(leaf), Change(Rollback));
    actions := actions + [Change(Rollback)];
    s := Step(cfg, PersistedOne(leaf), Change(Rollback));
  }

  lemma RunHand(cfg: Config, key: Key, value: Value) returns (actions: seq<Action>)
    ensures Run(cfg, NewTree(), actions, HandedOne(Leaf(key, value, 1)))
  {
    hide Run, Step, Enabled, HashedOne, HandedOne;
    var s0, leaf := NewTree(), Leaf(key, value, 1);
    var s1, s2 := HashOne(cfg, key, value);
    RunNothing(cfg, s0);
    RunOneMore(cfg, s0, [], s0, Change(Set(key, value)));
    actions := [] + [Change(Set(key, value))];
    RunOneMore(cfg, s0, actions, s1, Ask);
    actions := actions + [Ask];
    RunOneMore(cfg, s0, actions, s2, Hash(true));
    actions := actions + [Hash(true)];
    var s3 := HandOne(cfg, leaf);
    RunOneMore(cfg, s0, actions, HashedOne(leaf), Feed);
    actions := actions + [Feed];
    RunOneMore(cfg, s0, actions, s3, Hand);
    actions := actions + [Hand];
  }

  lemma RollBackOne(cfg: Config, leaf: Tree)
    requires leaf.Leaf? && leaf.version == 1
    ensures Enabled(PersistedOne(leaf), Change(Rollback))
    ensures var s := Step(cfg, PersistedOne(leaf), Change(Rollback));
            && s.w == Working(0, Some(leaf), Some(leaf), []) && Enabled(s, Resave({}))
            && Step(cfg, s, Resave({})).w == Working(1, Some(leaf), Some(leaf), [])
  {
    hide NodesAt, RootNodes;
  }
}
