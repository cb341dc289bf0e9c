/** Reads through the flat index agree with walking the tree, in synchronous and in asynchronous runs. */
module FastReads {
  import opened ByteOrder
  import opened Tree
  import opened TreeUpdate
  import opened Orphans
  import opened VersionStore
  import opened NodeRead
  import opened FastChanges

  // ---------------------------------------------------------------- state

  /** How far the commit goroutine is with a change set. */
  datatype Phase = Sent | Staged | Written

  datatype Flight = Flight(changes: Changes, phase: Phase)

  datatype State = State(
    async: bool,
    history: History,            // every tree saved so far
    w: Working,                  // the working tree and the last saved one
    savedAt: int,                // the version field of lastSaved
    emptied: bool,               // rolled back at version 0 although a version was saved
    sending: bool,               // persist is yet to hand the latest version to the commit goroutine
    listed: bool,                // tree.versions lists the latest version; not told for synchronous runs
    merged: int,                 // the last version whose changes have left `unsaved`
    unsaved: Changes,            // tree.unsavedFastNodes
    pending: Changes,            // ndb.prePersistFastNode
    flight: Option<Flight>,      // ndb.tpfv
    cache: Index,                // ndb.fastNodeCache
    disk: Index,
    memory: int,                 // latestMemoryVersion, which never goes back
    forgotten: map<Key, int>)    // keys of the index whose removal was dropped, with the last version they suit

  function InFlight(flight: Option<Flight>): Changes {
    if flight.Some? then flight.value.changes else map[]
  }

  /** The index below the unsaved changes, all layers applied. */
  function Live(s: State): Index {
    Overlay(s.pending, Overlay(InFlight(s.flight), s.disk))
  }

  // ---------------------------------------------------------------- steps

  datatype Action =
    | Change(edit: Edit)          // Set, Remove or Rollback
    | SaveSync(keep: set<Key>)    // SaveVersionSync; the cache keeps at most `keep`
    | SaveAsync(persist: bool)    // SaveVersionAsync: updateBranchFastNode and the new memory version
    | Resave                      // SaveVersion of a version tree.versions lists
    | Send                        // the rest of persist: the pending changes of a tree go to the commit goroutine
    | Stage(keep: set<Key>)       // saveFastNodeVersion: fill the batch, update the cache
    | Write                       // the batch commit
    | Release                     // asyncPersistTppFinised
    | Read(key: Key, keep: set<Key>)   // GetFastNode may fill the cache

  /**
   * A tree whose version is behind its history: rolled back after an asynchronous save. Saving it blocks or saves
   * again.
   */
  ghost predicate Detached(s: State) {
    s.w.version < |s.history|
  }

  ghost predicate Enabled(s: State, a: Action) {
    match a
    case Change(edit) => ValidRoot(s.w.root) && !s.sending
    case SaveSync(_) => !s.async
    case SaveAsync(_) => s.async && !Detached(s) && !s.sending
    case Resave => s.async && Detached(s) && s.listed && !s.sending
    case Send => s.sending && s.flight.None?
    case Stage(_) => s.flight.Some? && s.flight.value.phase.Sent?
    case Write => s.flight.Some? && s.flight.value.phase.Staged?
    case Release => s.flight.Some? && s.flight.value.phase.Written?
    case Read(_, _) => true
  }

  /**
   * addUnsavedAddition and addUnsavedRemoval: an edit that changes nothing records nothing. Rollback is not tracked
   * here.
   */
  function Track(unsaved: Changes, w: Working, edit: Edit): Changes
    requires ValidRoot(w.root)
  {
    match edit
    case Set(key, value) => unsaved[key := Some(FastNode(key, w.version + 1, value))]
    case Remove(key) =>
      if w.root.None? || RemoveTree(w.root.value, key, w.version + 1).orphans == [] then unsaved
          else unsaved[key := None]
    case Rollback => unsaved
  }

  function Restrict(index: Index, keep: set<Key>): Index {
    map k | k in index && k in keep :: index[k]
  }

  /** Saved additions are cached, removed keys uncached, and any of the rest may be evicted. */
  function CacheChanges(cache: Index, c: Changes, keep: set<Key>): Index {
    Restrict(Overlay(c, cache), keep)
  }

  function Saved(w: Working): Working {
    Working(w.version + 1, w.root, w.root, [])
  }

  /** Every key of the index that no unsaved change is for is forgotten. */
  ghost function Forget(s: State, unsaved: Changes): map<Key, int> {
    s.forgotten + map k | k in Live(s) && k !in s.forgotten && k !in unsaved :: s.merged
  }

  /**
   * Rollback: the working tree becomes a copy of lastSaved, version field included, or empty at version 0. An empty
   * tree saved asynchronously had its removals among the changes dropped here.
   */
  ghost function RollbackStep(s: State): State {
    var root := if s.w.version > 0 then s.w.lastSaved else None;
    s.(w := Working(if s.w.version > 0 then s.savedAt else 0, s.w.lastSaved, root, []), unsaved := map[],
       emptied := s.w.version == 0 && |s.history| > 0,
       forgotten := if s.w.version > 0 && s.w.lastSaved.None? then Forget(s, map[]) else s.forgotten)
  }

  /** A version handed over whose batch the commit goroutine has not committed. */
  predicate Unwritten(flight: Option<Flight>) {
    flight.Some? && !flight.value.phase.Written?
  }

  /** The root that SaveVersion finds on disk for the latest version; one not yet written reads as empty. */
  ghost function RootOnDisk(s: State): Option<Tree> {
    if Unwritten(s.flight) then None else Latest(s.history)
  }

  /** The latest version counts as saved again if its root on disk is the working tree's. */
  ghost function ResaveStep(s: State): State {
    if s.w.root != RootOnDisk(s) then s
    else
      s.(w := Saved(s.w), savedAt := s.w.version + 1, emptied := false,
         forgotten := if Unwritten(s.flight) then Forget(s, s.unsaved) else s.forgotten)
  }

  function SaveSyncStep(s: State, keep: set<Key>): State {
    s.(history := s.history + [s.w.root], w := Saved(s.w), merged := s.w.version + 1,
       memory := Max(s.memory, s.w.version + 1),
       savedAt := s.w.version + 1, cache := CacheChanges(s.cache, s.unsaved, keep),
       disk := Overlay(s.unsaved, s.disk), unsaved := map[])
  }

  /** An empty tree leaves the changes of the flat index where they are. */
  function SaveAsyncStep(s: State, persist: bool): State {
    var empty := s.w.root.None?;
    s.(history := s.history + [s.w.root], w := Saved(s.w), memory := Max(s.memory, s.w.version + 1),
       savedAt := s.w.version, sending := persist, listed := persist,
       merged := if empty then s.merged else s.w.version + 1,
       pending := if empty then s.pending else Beneath(s.unsaved, s.pending),
       unsaved := if empty then s.unsaved else map[],
       forgotten := if empty then s.forgotten else s.forgotten - s.unsaved.Keys)
  }

  /** The steps of the commit goroutine and of readers. */
  ghost function OtherStep(s: State, a: Action): State
    requires Enabled(s, a)
  {
    match a
    case Send =>
      var empty := Latest(s.history).None?;
      s.(sending := false, flight := if empty then None else Some(Flight(s.pending, Sent)),
         pending := if empty then s.pending else map[])
    case Stage(keep) =>
      s.(flight := Some(s.flight.value.(phase := Staged)), cache := CacheChanges(s.cache, s.flight.value.changes, keep))
    case Write =>
      s.(flight := Some(s.flight.value.(phase := Written)), disk := Overlay(s.flight.value.changes, s.disk))
    case Release => s.(flight := None)
    case Read(key, keep) =>
      var miss := key != [] && key !in s.pending && key !in InFlight(s.flight) && key !in s.cache && key in s.disk;
      s.(cache := if miss then Restrict(s.cache[key := s.disk[key]], keep) else s.cache)
    case _ => s
  }

  ghost function Step(s: State, a: Action): State
    requires Enabled(s, a)
  {
    match a
    case Change(edit) =>
      if edit.Rollback? then RollbackStep(s) else s.(w := Apply(s.w, edit), unsaved := Track(s.unsaved, s.w, edit))
    case SaveSync(keep) => SaveSyncStep(s, keep)
    case SaveAsync(persist) => SaveAsyncStep(s, persist)
    case Resave => ResaveStep(s)
    case _ => OtherStep(s, a)
  }

  /** They leave the trees and the unsaved changes alone. */
  lemma OtherStepKeeps(s: State, a: Action)
    requires Enabled(s, a)
    ensures var s' := OtherStep(s, a);
            && s'.async == s.async && s'.history == s.history && s'.w == s.w && s'.savedAt == s.savedAt
            && s'.merged == s.merged && s'.unsaved == s.unsaved && s'.memory == s.memory
            && s'.emptied == s.emptied && s'.listed == s.listed && s'.forgotten == s.forgotten
  {
    hide Enabled, CacheChanges, Overlay, Restrict;
  }

  // ---------------------------------------------------------------- reads

  datatype Fetched = Failed | Fetched(node: Option<FastNode>)

  /** GetFastNode: pending changes, changes in flight, the cache, then disk; an empty key is an error. */
  function GetFastNode(s: State, key: Key): Fetched {
    if key == [] then Failed
    else if key in s.pending then Fetched(s.pending[key])
    else if key in InFlight(s.flight) then Fetched(InFlight(s.flight)[key])
    else if key in s.cache then Fetched(Some(s.cache[key]))
    else if key in s.disk then Fetched(Some(s.disk[key]))
    else Fetched(None)
  }

  /** GetWithIndex: the tree walk. */
  function Walk(root: Option<Tree>, key: Key): Option<Value> {
    if root.None? then None else Get(root.value, key).1
  }

  /** ImmutableTree.Get */
  function ImmutableGet(s: State, root: Option<Tree>, version: int, key: Key): Option<Value> {
    if root.None? then None
    else
      var fetched := GetFastNode(s, key);
      if fetched.Failed? then Walk(root, key)
      else if fetched.node.None? then (if version == s.memory then None else Walk(root, key))
      else if fetched.node.value.version <= version then Some(fetched.node.value.value)
      else Walk(root, key)
  }

  /** MutableTree.Get */
  function WorkingGet(s: State, key: Key): Option<Value> {
    if s.w.root.None? then None
    else if key in s.unsaved then (if s.unsaved[key].Some? then Some(s.unsaved[key].value.value) else None)
    else ImmutableGet(s, s.w.root, s.w.version, key)
  }

  /**
   * MutableTree.GetVersioned, for a version that exists: the value only. The index is for a tree at the latest version.
   */
  function GetVersioned(s: State, version: int, key: Key): Option<Value>
    requires 1 <= version <= |s.history|
  {
    var fetched := GetFastNode(s, key);
    var node := if fetched.Failed? then None else fetched.node;
    if s.w.version != s.memory then Walk(s.history[version - 1], key)
    else if node.None? && version == s.memory then None
    else if node.Some? && node.value.version <= version then Some(node.value.value)
    else Walk(s.history[version - 1], key)
  }

  // ---------------------------------------------------------------- the invariant

  ghost function At(history: History, v: int): map<Key, Value> {
    if 1 <= v <= |history| then RootContents(history[v - 1]) else map[]
  }

  /** The last version an entry is right for. */
  ghost function Good(forgotten: map<Key, int>, merged: int, k: Key): int {
    if k in forgotten then forgotten[k] else merged
  }

  /** An entry is right from its date to its last good version; no later version has its key. */
  ghost predicate Right(live: Index, history: History, merged: int, forgotten: map<Key, int>) {
    forall k :: k in live ==>
      && live[k].key == k && 1 <= live[k].version <= Good(forgotten, merged, k) <= |history|
      && forall v :: 1 <= v <= |history| ==>
           && (live[k].version <= v <= Good(forgotten, merged, k) ==>
                k in At(history, v) && At(history, v)[k] == live[k].value)
           && (v > Good(forgotten, merged, k) ==> k !in At(history, v))
  }

  /** The index has every key of the latest version. */
  ghost predicate Covers(live: Index, history: History) {
    forall k :: k in At(history, |history|) ==> k in live
  }

  /**
   * The unsaved changes on top of what the index has not forgotten give the map; on top of nothing after a Rollback at
   * version 0.
   */
  ghost predicate Tracks(unsaved: Changes, live: Index, forgotten: map<Key, int>, emptied: bool, m: map<Key, Value>) {
    forall k ::
      if k in unsaved then (unsaved[k].Some? <==> k in m) && (k in m ==> unsaved[k].value.value == m[k])
      else (k in m <==> !emptied && k in live && k !in forgotten) && (k in m ==> live[k].value == m[k])
  }

  /** An unsaved addition is dated with the next version, or with the latest one, which has it. */
  ghost predicate Stamped(unsaved: Changes, history: History, version: int) {
    forall k :: k in unsaved && unsaved[k].Some? ==>
      var n := unsaved[k].value;
      && n.key == k && 1 <= n.version <= version + 1
      && (version < |history| ==> n.version == |history|)
      && (version == |history| ==>
           forall v :: n.version <= v <= |history| ==> k in At(history, v) && At(history, v)[k] == n.value)
  }

  ghost predicate Placed(history: History, w: Working, memory: int, savedAt: int, async: bool) {
    && w.version >= 0 && |history| - 1 <= w.version <= |history| <= memory
    && ValidRoot(w.root) && ValidRoot(w.lastSaved) && (forall r :: r in history ==> ValidRoot(r))
    && (w.lastSaved == Latest(history) || (async && w.lastSaved.None?))
    && (if savedAt == |history| then w.version == |history|
        else async && savedAt == |history| - 1 && w.lastSaved == Latest(history))
  }

  /** Versions after `merged` were saved empty, with their changes still unsaved or forgotten. */
  ghost predicate Behind(history: History, merged: int, live: Index, unsaved: Changes, forgotten: map<Key, int>) {
    && 0 <= merged <= |history|
    && (forall i :: merged <= i < |history| ==> history[i].None?)
    && (merged < |history| ==> forall k :: k in live ==> k in unsaved || k in forgotten)
  }

  /** Only of an emptied tree is a key forgotten that its latest version has. */
  ghost predicate Settled(history: History, lastSaved: Option<Tree>, forgotten: map<Key, int>, live: Index) {
    && forgotten.Keys <= live.Keys
    && (lastSaved.Some? ==> forall k :: k in forgotten ==> forgotten[k] < |history|)
  }

  ghost predicate Coherent(cache: Index, disk: Index, flight: Option<Flight>) {
    var c := InFlight(flight);
    && (forall k :: k in cache && k !in c ==> k in disk && cache[k] == disk[k])
    && (flight.Some? && !flight.value.phase.Sent? ==> forall k :: k in cache && k in c ==> c[k] == Some(cache[k]))
    && (flight.Some? && flight.value.phase.Written? ==> Overlay(c, disk) == disk)
  }

  ghost predicate Inv(s: State) {
    && Placed(s.history, s.w, s.memory, s.savedAt, s.async)
    && Behind(s.history, s.merged, Live(s), s.unsaved, s.forgotten)
    && (s.emptied ==> s.w.version == 0 < |s.history|)
    && (!s.async ==>
         !s.sending && s.merged == |s.history| && s.pending == map[] && s.flight.None? && s.forgotten == map[])
    && Right(Live(s), s.history, s.merged, s.forgotten) && Covers(Live(s), s.history)
    && Tracks(s.unsaved, Live(s), s.forgotten, s.emptied, RootContents(s.w.root))
    && Stamped(s.unsaved, s.history, s.w.version)
    && Settled(s.history, s.w.lastSaved, s.forgotten, Live(s))
    && Coherent(s.cache, s.disk, s.flight)
  }

  // ---------------------------------------------------------------- edits

  /** One Set or Remove on a valid tree. */
  lemma EditIsUpdate(w: Working, edit: Edit)
    requires ValidRoot(w.root) && !edit.Rollback?
    ensures var w' := Apply(w, edit);
            && w'.version == w.version && w'.lastSaved == w.lastSaved && ValidRoot(w'.root)
            && RootContents(w'.root) == Edited(map[], RootContents(w.root), edit)
  {
    hide SetTree, RemoveTree;
    if w.root.Some? {
      match edit
      case Set(key, value) => SetRefinesUpdate(w.root.value, key, value, w.version + 1);
      case Remove(key) => RemoveRefinesDeletion(w.root.value, key, w.version + 1);
      case Rollback =>
    }
  }

  /** An edit records a removal exactly when the key is there. */
  lemma RemoveRecords(w: Working, key: Key)
    requires ValidRoot(w.root)
    ensures w.root.None? || RemoveTree(w.root.value, key, w.version + 1).orphans == [] <==> key !in RootContents(w.root)
    ensures key !in RootContents(w.root) ==> RootContents(w.root) - {key} == RootContents(w.root)
  {
    hide RemoveTree;
    if w.root.Some? { RemoveRefinesDeletion(w.root.value, key, w.version + 1); }
  }

  lemma SetTracks(s: State, m: map<Key, Value>, node: FastNode)
    requires Tracks(s.unsaved, Live(s), s.forgotten, s.emptied, m) && Stamped(s.unsaved, s.history, s.w.version)
    requires |s.history| - 1 <= s.w.version && 0 <= s.w.version && node.version == s.w.version + 1
    ensures Tracks(s.unsaved[node.key := Some(node)], Live(s), s.forgotten, s.emptied, m[node.key := node.value])
    ensures Stamped(s.unsaved[node.key := Some(node)], s.history, s.w.version)
  {
    hide Live, At;
  }

  lemma RemoveTracks(s: State, m: map<Key, Value>, key: Key)
    requires Tracks(s.unsaved, Live(s), s.forgotten, s.emptied, m) && Stamped(s.unsaved, s.history, s.w.version)
    ensures Tracks(s.unsaved[key := None], Live(s), s.forgotten, s.emptied, m - {key})
    ensures Stamped(s.unsaved[key := None], s.history, s.w.version)
  {
    hide Live, At;
  }

  lemma EditKeepsInv(s: State, edit: Edit)
    requires Inv(s) && Enabled(s, Change(edit)) && !edit.Rollback?
    ensures Inv(Step(s, Change(edit)))
  {
    hide RemoveTree, Apply, RootContents, Overlay, Coherent, Tracks, Stamped, Right, Covers, InFlight, Settled,
         RollbackStep, ResaveStep, SaveAsyncStep, SaveSyncStep, OtherStep;
    EditIsUpdate(s.w, edit);
    var m := RootContents(s.w.root);
    match edit
    case Set(key, value) => SetTracks(s, m, FastNode(key, s.w.version + 1, value));
    case Remove(key) =>
      RemoveRecords(s.w, key);
      RemoveTracks(s, m, key);
    case Rollback =>
  }

  /**
   * What the last saved tree has, the index has and has not forgotten; what it has besides is about to be forgotten.
   */
  lemma LastSavedIsIndexed(s: State, k: Key)
    requires Inv(s)
    ensures k in RootContents(s.w.lastSaved) ==>
              k in Live(s) && k !in s.forgotten && Live(s)[k].value == RootContents(s.w.lastSaved)[k]
    ensures s.w.lastSaved.Some? && k in Live(s) && k !in s.forgotten ==> k in RootContents(s.w.lastSaved)
    ensures s.w.lastSaved.Some? ==> s.merged == |s.history| && |s.history| > 0
  {
    hide Coherent, Tracks, Stamped, Live, Contents;
    if s.w.lastSaved.Some? { assert At(s.history, |s.history|) == RootContents(s.w.lastSaved); }
  }

  lemma RollbackTracks(s: State, root: Option<Tree>, emptied: bool, forgotten: map<Key, int>)
    requires Inv(s) && root == (if s.w.version > 0 then s.w.lastSaved else None)
             && emptied == (s.w.version == 0 && |s.history| > 0)
    requires forgotten == if s.w.version > 0 && root.None? then Forget(s, map[]) else s.forgotten
    ensures Tracks(map[], Live(s), forgotten, emptied, RootContents(root))
  {
    hide Inv, Live, RootContents;
    StartIsEmpty(s);
    forall k
      ensures k in RootContents(root) ==>
                !emptied && k in Live(s) && k !in s.forgotten && Live(s)[k].value == RootContents(root)[k]
      ensures s.w.lastSaved.Some? && k in Live(s) && k !in s.forgotten && !emptied ==> k in RootContents(root)
    {
      LastSavedIsIndexed(s, k);
    }
  }

  lemma StartIsEmpty(s: State)
    requires Inv(s)
    ensures s.w.version >= 0 && (|s.history| == 0 ==> s.w.lastSaved.None? && Live(s) == map[])
    ensures RootContents(None) == map[]
  {
    hide Covers, Tracks, Coherent, Settled, Stamped, Live;
    assert |s.history| == 0 ==> forall k :: k !in Live(s);
  }

  lemma ForgetKeepsRight(s: State, forgotten: map<Key, int>)
    requires Right(Live(s), s.history, s.merged, s.forgotten)
    requires s.forgotten.Keys <= forgotten.Keys <= Live(s).Keys + s.forgotten.Keys
    requires forall k :: k in forgotten ==> forgotten[k] == Good(s.forgotten, s.merged, k)
    ensures Right(Live(s), s.history, s.merged, forgotten)
  {
    hide Live, At;
  }

  lemma RollbackKeepsInv(s: State)
    requires Inv(s) && Enabled(s, Change(Rollback))
    ensures Inv(RollbackStep(s))
  {
    hide RootContents, Overlay, Coherent, Tracks, Right, Covers, InFlight, Behind, Live;
    var s' := RollbackStep(s);
    RollbackTracks(s, s'.w.root, s'.emptied, s'.forgotten);
    ForgetKeepsRight(s, s'.forgotten);
    RollbackBehind(s);
    SameLive(s, s');
  }

  lemma SameLive(s: State, s': State)
    requires s'.pending == s.pending && s'.flight == s.flight && s'.disk == s.disk
    ensures Live(s') == Live(s)
  {
  }

  lemma RollbackBehind(s: State)
    requires Inv(s)
    ensures Behind(s.history, s.merged, Live(s), map[], RollbackStep(s).forgotten)
    ensures !s.async ==> RollbackStep(s).forgotten == map[]
  {
    var s' := RollbackStep(s);
    RollbackTracks(s, s'.w.root, s'.emptied, s'.forgotten);
    hide Overlay, Coherent, Covers, InFlight, Stamped, Live, Contents;
    forall k | k in Live(s) && s.merged < |s.history| ensures k in s'.forgotten { LastSavedIsIndexed(s, k); }
    forall k | k in Live(s) && !s.async ensures s.w.lastSaved.Some? { assert k in At(s.history, |s.history|); }
  }

  // ---------------------------------------------------------------- saves

  lemma LongerAt(history: History, root: Option<Tree>)
    ensures forall v :: v <= |history| ==> At(history + [root], v) == At(history, v)
    ensures At(history + [root], |history| + 1) == RootContents(root)
  {
  }

  lemma OverlayNothing(index: Index)
    ensures Overlay(map[], index) == index
  {
  }

  lemma SavedIsPlaced(history: History, w: Working, memory: int, savedAt: int, savedAt': int, async: bool)
    requires Placed(history, w, memory, savedAt, async) && w.version == |history|
    requires savedAt' == |history| + 1 || (async && savedAt' == |history|)
    ensures Placed(history + [w.root], Saved(w), Max(memory, w.version + 1), savedAt', async)
  {
    forall r | r in history + [w.root] ensures ValidRoot(r) {}
  }

  /** Merging the unsaved changes: every entry but the forgotten ones is right for the new version as well. */
  lemma MergeIsRight(live: Index, history: History, merged: int, forgotten: map<Key, int>, unsaved: Changes,
                     root: Option<Tree>, live': Index, forgotten': map<Key, int>)
    requires Right(live, history, merged, forgotten) && Behind(history, merged, live, unsaved, forgotten)
             && Stamped(unsaved, history, |history|)
    requires Tracks(unsaved, live, forgotten, false, RootContents(root))
    requires live' == Overlay(unsaved, live) && forgotten' == forgotten - unsaved.Keys
    ensures Right(live', history + [root], |history| + 1, forgotten')
  {
    LongerAt(history, root);
    hide At, RootContents;
    var h' := history + [root];
    forall k | k in live'
      ensures live'[k].key == k && 1 <= live'[k].version <= Good(forgotten', |h'|, k) <= |h'|
      ensures forall v :: 1 <= v <= |h'| ==>
                && (live'[k].version <= v <= Good(forgotten', |h'|, k) ==>
                     k in At(h', v) && At(h', v)[k] == live'[k].value)
                && (v > Good(forgotten', |h'|, k) ==> k !in At(h', v))
    {
      assert k !in unsaved ==> k in live && live'[k] == live[k];
    }
  }

  lemma MergeTracks(live: Index, forgotten: map<Key, int>, unsaved: Changes, m: map<Key, Value>, live': Index,
                    forgotten': map<Key, int>)
    requires Tracks(unsaved, live, forgotten, false, m) && forgotten.Keys <= live.Keys
    requires live' == Overlay(unsaved, live) && forgotten' == forgotten - unsaved.Keys
    ensures Tracks(map[], live', forgotten', false, m) && forgotten'.Keys <= live'.Keys
    ensures forall k :: k in m ==> k in live'
  {
  }

  lemma SaveMerges(s: State, live': Index, forgotten': map<Key, int>)
    requires Inv(s) && s.w.version == |s.history| && !s.emptied
    requires live' == Overlay(s.unsaved, Live(s)) && forgotten' == s.forgotten - s.unsaved.Keys
    ensures var h', m := s.history + [s.w.root], RootContents(s.w.root);
            && Right(live', h', |h'|, forgotten') && Covers(live', h') && Tracks(map[], live', forgotten', false, m)
            && forgotten'.Keys <= live'.Keys && (forall k :: k in forgotten' ==> forgotten'[k] < |h'|)
  {
    hide Coherent, At, RootContents, Live, Placed, Overlay, Tracks, Stamped, Behind;
    MergeIsRight(Live(s), s.history, s.merged, s.forgotten, s.unsaved, s.w.root, live', forgotten');
    MergeTracks(Live(s), s.forgotten, s.unsaved, RootContents(s.w.root), live', forgotten');
    LongerAt(s.history, s.w.root);
    assert forall k :: k in forgotten' ==> k in Live(s) && forgotten'[k] == Good(s.forgotten, s.merged, k);
  }

  lemma SaveSyncKeepsInv(s: State, keep: set<Key>)
    requires Inv(s) && Enabled(s, SaveSync(keep))
    ensures Inv(Step(s, SaveSync(keep)))
  {
    hide Coherent, Overlay, At, RootContents, Right, Covers, Tracks, CacheChanges;
    SavedIsPlaced(s.history, s.w, s.memory, s.savedAt, s.savedAt + 1, false);
    SaveMerges(s, Overlay(s.unsaved, Live(s)), s.forgotten - s.unsaved.Keys);
    OverlayNothing(s.disk);
    OverlayNothing(Overlay(s.unsaved, s.disk));
    CacheStaysCoherent(s.cache, s.disk, s.unsaved, keep);
    assert s.forgotten - s.unsaved.Keys == map[];
  }

  lemma CacheStaysCoherent(cache: Index, disk: Index, c: Changes, keep: set<Key>)
    requires Coherent(cache, disk, None)
    ensures Coherent(CacheChanges(cache, c, keep), Overlay(c, disk), None)
  {
  }

  lemma SaveAsyncKeepsInv(s: State, persist: bool)
    requires Inv(s) && Enabled(s, SaveAsync(persist))
    ensures Inv(Step(s, SaveAsync(persist)))
  {
    hide Coherent, Overlay, At, RootContents, Right, Covers, Tracks;
    SavedIsPlaced(s.history, s.w, s.memory, s.savedAt, s.w.version, true);
    if s.w.root.Some? {
      SaveMerges(s, Overlay(s.unsaved, Live(s)), s.forgotten - s.unsaved.Keys);
      BeneathIsSequence(s.unsaved, s.pending, Overlay(InFlight(s.flight), s.disk));
    } else {
      EmptySave(s);
    }
  }

  /**
   * Saving an empty tree leaves the index where it was: the unsaved changes must be removing all that is not forgotten.
   */
  lemma EmptySave(s: State)
    requires Inv(s) && s.w.root.None? && s.w.version == |s.history|
    ensures var h' := s.history + [None];
            && Behind(h', s.merged, Live(s), s.unsaved, s.forgotten) && Stamped(s.unsaved, h', |h'|)
            && Right(Live(s), h', s.merged, s.forgotten) && Covers(Live(s), h')
            && Tracks(s.unsaved, Live(s), s.forgotten, false, RootContents(None))
  {
    LongerAt(s.history, None);
    hide Coherent, Live, At, Placed;
  }

  lemma ResaveKeepsInv(s: State)
    requires Inv(s) && Enabled(s, Resave)
    ensures Inv(Step(s, Resave))
  {
    hide RootContents, Overlay, Coherent, Tracks, Right, Covers, InFlight, Stamped, Settled, Live, Forget,
         RollbackStep, SaveAsyncStep, SaveSyncStep, OtherStep;
    if s.w.root == RootOnDisk(s) {
      ResaveTracks(s);
      ForgetIsRight(s, ResaveStep(s).forgotten);
      SameLive(s, ResaveStep(s));
    }
  }

  /** Forgetting more keys leaves every entry right up to the same version. */
  lemma ForgetIsRight(s: State, forgotten: map<Key, int>)
    requires Inv(s) && (forgotten == s.forgotten || forgotten == Forget(s, s.unsaved))
    ensures Right(Live(s), s.history, s.merged, forgotten)
    ensures Behind(s.history, s.merged, Live(s), s.unsaved, forgotten)
  {
    hide RootContents, Overlay, Coherent, Tracks, Right, Covers, InFlight, Stamped, Live, Placed;
    if forgotten != s.forgotten { ForgetKeepsRight(s, forgotten); }
  }

  lemma ResaveTracks(s: State)
    requires Inv(s) && Enabled(s, Resave) && s.w.root == RootOnDisk(s)
    ensures var forgotten := ResaveStep(s).forgotten;
            && Tracks(s.unsaved, Live(s), forgotten, false, RootContents(s.w.root))
            && Stamped(s.unsaved, s.history, |s.history|) && Settled(s.history, s.w.root, forgotten, Live(s))
  {
    hide Coherent, Live, At, RootContents, Right, Covers, Behind;
    var forgotten := ResaveStep(s).forgotten;
    if !Unwritten(s.flight) {
      forall k | s.emptied && k in Live(s) ensures k in s.forgotten || k in RootContents(s.w.root) {
        EmptiedIsIndexed(s, k);
      }
    }
    assert s.w.root.None? ==> RootContents(s.w.root) == map[] by { StartIsEmpty(s); }
    assert s.w.root.Some? ==> s.w.lastSaved == s.w.root;
    ResaveStamps(s.unsaved, Live(s), s.forgotten, s.emptied, s.history, s.w.version, s.w.root);
    ForgetTracks(s.unsaved, Live(s), s.forgotten, s.emptied, RootContents(s.w.root), forgotten);
  }

  /** A tree emptied by Rollback has one version behind it: the index has nothing else. */
  lemma EmptiedIsIndexed(s: State, k: Key)
    requires Inv(s) && s.emptied && k in Live(s)
    ensures k in s.forgotten || k in RootContents(Latest(s.history))
  {
    hide Coherent, Tracks, Stamped, Live, Contents;
    assert At(s.history, 1) == RootContents(Latest(s.history));
  }

  lemma ForgetTracks(unsaved: Changes, live: Index, forgotten: map<Key, int>, emptied: bool, m: map<Key, Value>,
                     forgotten': map<Key, int>)
    requires Tracks(unsaved, live, forgotten, emptied, m)
    requires forall k :: k in forgotten' <==> k in forgotten || (k in live && k !in unsaved && k !in m)
    ensures Tracks(unsaved, live, forgotten', false, m)
  {
  }

  /** The additions of a tree that is the latest version once more are in that version. */
  lemma ResaveStamps(unsaved: Changes, live: Index, forgotten: map<Key, int>, emptied: bool, history: History,
                     version: int, root: Option<Tree>)
    requires Tracks(unsaved, live, forgotten, emptied, RootContents(root)) && Stamped(unsaved, history, version)
             && version < |history|
    requires root.None? || root == Latest(history)
    ensures Stamped(unsaved, history, |history|)
  {
    assert root.Some? ==> At(history, |history|) == RootContents(root);
    assert root.None? ==> RootContents(root) == map[];
    hide At, RootContents;
  }

  // ---------------------------------------------------------------- the commit goroutine and the cache

  lemma FlightKeepsInv(s: State, a: Action)
    requires Inv(s) && (a.Send? || a.Stage? || a.Write? || a.Release?) && Enabled(s, a)
    ensures Inv(OtherStep(s, a))
  {
    hide Placed, Overlay, At, RootContents, Right, Covers, Tracks, Settled, Behind, Stamped, Coherent, CacheChanges,
         RollbackStep, ResaveStep, SaveAsyncStep, SaveSyncStep, Latest;
    var c := InFlight(s.flight);
    match a
    case Send =>
      if Latest(s.history).Some? {
        OverlayNothing(s.disk);
        OverlayNothing(Overlay(s.pending, s.disk));
        SendIsCoherent(s.cache, s.disk, s.pending);
      }
    case Stage(keep) => StageIsCoherent(s.cache, s.disk, c, keep);
    case Write =>
      WriteIsCoherent(s.cache, s.disk, c);
      assert Overlay(c, Overlay(c, s.disk)) == Overlay(c, s.disk);
    case Release =>
      ReleaseIsCoherent(s.cache, s.disk, c);
      OverlayNothing(s.disk);
  }

  lemma SendIsCoherent(cache: Index, disk: Index, c: Changes)
    requires Coherent(cache, disk, None)
    ensures Coherent(cache, disk, Some(Flight(c, Sent)))
  {
  }

  lemma StageIsCoherent(cache: Index, disk: Index, c: Changes, keep: set<Key>)
    requires Coherent(cache, disk, Some(Flight(c, Sent)))
    ensures Coherent(CacheChanges(cache, c, keep), disk, Some(Flight(c, Staged)))
  {
  }

  lemma WriteIsCoherent(cache: Index, disk: Index, c: Changes)
    requires Coherent(cache, disk, Some(Flight(c, Staged)))
    ensures Coherent(cache, Overlay(c, disk), Some(Flight(c, Written)))
    ensures Overlay(c, Overlay(c, disk)) == Overlay(c, disk)
  {
  }

  lemma ReleaseIsCoherent(cache: Index, disk: Index, c: Changes)
    requires Coherent(cache, disk, Some(Flight(c, Written)))
    ensures Coherent(cache, disk, None) && Overlay(c, disk) == disk
  {
    forall k | k in cache ensures k in disk && cache[k] == disk[k] {
      if k in c { assert k in Overlay(c, disk); }
    }
  }

  lemma ReadKeepsInv(s: State, key: Key, keep: set<Key>)
    requires Inv(s) && Enabled(s, Read(key, keep))
    ensures Inv(Step(s, Read(key, keep)))
  {
    hide Placed, Overlay, At, RootContents, Right, Covers, Tracks, Settled, Behind, Stamped;
  }

  // ---------------------------------------------------------------- every run

  lemma StepKeepsInv(s: State, a: Action)
    requires Inv(s) && Enabled(s, a)
    ensures Inv(Step(s, a))
  {
    hide Inv;
    match a
    case Change(edit) => if edit.Rollback? { RollbackKeepsInv(s); } else { EditKeepsInv(s, edit); }
    case SaveSync(keep) => SaveSyncKeepsInv(s, keep);
    case SaveAsync(persist) => SaveAsyncKeepsInv(s, persist);
    case Resave => ResaveKeepsInv(s);
    case Send => FlightKeepsInv(s, a);
    case Stage(_) => FlightKeepsInv(s, a);
    case Write => FlightKeepsInv(s, a);
    case Release => FlightKeepsInv(s, a);
    case Read(key, keep) => ReadKeepsInv(s, key, keep);
  }

  /**
   * A loaded tree whose flat index is that of its latest version, every node dated no earlier than its last change.
   * latestMemoryVersion is that version, or a later one that was there before LoadVersionForOverwriting.
   */
  ghost predicate Initial(s: State) {
    && Placed(s.history, s.w, s.memory, s.savedAt, s.async) && s.w.root == s.w.lastSaved == Latest(s.history)
    && s.savedAt == s.merged == |s.history| && !s.emptied && !s.sending && s.forgotten == map[]
    && s.unsaved == map[] && s.pending == map[] && s.flight.None? && s.cache == map[]
    && Right(s.disk, s.history, |s.history|, map[]) && Covers(s.disk, s.history)
  }

  lemma InitialIsInv(s: State)
    requires Initial(s)
    ensures Inv(s)
  {
    OverlayNothing(s.disk);
    assert Live(s) == s.disk;
    assert At(s.history, |s.history|) == RootContents(s.w.root);
    hide Live, Overlay, RootContents, At;
  }

  /**
   * LoadVersionForOverwriting: entries dated after version `v` are dropped, and every entry of the loaded tree is
   * written, dated `v`.
   */
  ghost function Rewritten(index: Index, v: int, m: map<Key, Value>): Index {
    Overlay(map k | k in m :: Some(FastNode(k, v, m[k])), DatedBefore(index, v + 1))
  }

  /** An index that mirrored the latest version then mirrors version `v`: no key of a later version is left. */
  lemma RewrittenMirrors(index: Index, history: History, v: int)
    requires Right(index, history, |history|, map[]) && 1 <= v <= |history|
    ensures var m := At(history, v);
            Rewritten(index, v, m) == map k | k in m :: FastNode(k, v, m[k])
    ensures var index' := Rewritten(index, v, At(history, v));
            Right(index', history[..v], v, map[]) && Covers(index', history[..v])
  {
    var m := At(history, v);
    assert At(history[..v], v) == m;
    var index' := Rewritten(index, v, m);
    forall k ensures k in index' <==> k in m { MirrorsKey(index, history, v, k); }
    hide At;
  }

  /**
   * A run can start after LoadVersionForOverwriting, which leaves latestMemoryVersion where it was: all that is said of
   * runs holds of this one.
   */
  lemma OverwrittenStarts(s: State, v: int, listed: bool)
    requires Initial(s) && 1 <= v <= |s.history|
    ensures var h', disk := s.history[..v], Rewritten(s.disk, v, At(s.history, v));
            var w := Working(v, Latest(h'), Latest(h'), []);
            Initial(s.(history := h', w := w, savedAt := v, merged := v, listed := listed, disk := disk))
  {
    RewrittenMirrors(s.disk, s.history, v);
    hide Right, Covers, Rewritten, At;
    forall r | r in s.history[..v] ensures ValidRoot(r) { assert r in s.history; }
    assert Latest(s.history[..v]) in s.history[..v];
  }

  lemma MirrorsKey(index: Index, history: History, v: int, k: Key)
    requires Right(index, history, |history|, map[]) && 1 <= v <= |history|
    ensures k in Rewritten(index, v, At(history, v)) <==> k in At(history, v)
  {
    hide At;
  }

  ghost predicate Run(s: State, actions: seq<Action>, s': State)
    decreases actions
  {
    if actions == [] then s' == s
    else Enabled(s, actions[0]) && Run(Step(s, actions[0]), actions[1..], s')
  }

  lemma {:induction false} RunKeepsInv(s: State, actions: seq<Action>, s': State)
    requires Inv(s) && Run(s, actions, s')
    ensures Inv(s')
    decreases actions
  {
    hide Inv, Step;
    if actions != [] {
      StepKeepsInv(s, actions[0]);
      RunKeepsInv(Step(s, actions[0]), actions[1..], s');
    }
  }

  // ---------------------------------------------------------------- fast reads are tree reads

  /** Every layer consulted in turn gives the entry of the whole index. */
  lemma FetchIsLive(s: State, key: Key)
    requires Inv(s) && key != []
    ensures GetFastNode(s, key) == Fetched(if key in Live(s) then Some(Live(s)[key]) else None)
  {
    hide Placed, At, RootContents, Right, Covers, Tracks, Settled, Behind, Stamped;
  }

  lemma WalkIsLookup(root: Option<Tree>, key: Key)
    requires ValidRoot(root)
    ensures Walk(root, key) == if key in RootContents(root) then Some(RootContents(root)[key]) else None
  {
    if root.Some? { GetIsLookup(root.value, key); }
  }

  /** What the index says about a saved version: an entry of no later date is right up to its last good version. */
  lemma IndexIsDecisive(s: State, v: int, key: Key)
    requires Inv(s) && 1 <= v <= |s.history|
    ensures s.memory >= |s.history| && ValidRoot(s.history[v - 1])
    ensures key in Live(s) ==> Live(s)[key].version <= Good(s.forgotten, s.merged, key)
    ensures key in Live(s) && Live(s)[key].version <= v <= Good(s.forgotten, s.merged, key) ==>
              key in RootContents(s.history[v - 1]) && RootContents(s.history[v - 1])[key] == Live(s)[key].value
    ensures key in Live(s) && v > Good(s.forgotten, s.merged, key) ==> key !in RootContents(s.history[v - 1])
    ensures v == |s.history| && key !in Live(s) ==> key !in RootContents(s.history[v - 1])
    ensures v > s.merged ==> s.history[v - 1].None?
  {
    hide Coherent, Overlay, RootContents, Live, ValidRoot, Tracks, Stamped;
    assert s.history[v - 1] in s.history;
    assert At(s.history, v) == RootContents(s.history[v - 1]);
    hide At;
  }

  lemma EmptyKeyFails(s: State)
    ensures GetFastNode(s, []) == Failed
  {
  }

  /**
   * Reading a saved version v through the flat index equals walking its tree, unless the key was forgotten before v.
   */
  lemma SavedGetIsWalk(s: State, v: int, key: Key)
    requires Inv(s) && 1 <= v <= |s.history|
    ensures ImmutableGet(s, s.history[v - 1], v, key) == Walk(s.history[v - 1], key) <==>
            !(key != [] && s.history[v - 1].Some? && key in s.forgotten && s.forgotten[key] < v)
  {
    hide Inv, Get, RootContents, GetFastNode, Live;
    IndexIsDecisive(s, v, key);
    ForgottenIsIndexed(s, key);
    WalkIsLookup(s.history[v - 1], key);
    if key != [] { FetchIsLive(s, key); } else { EmptyKeyFails(s); }
  }

  lemma ForgottenIsIndexed(s: State, key: Key)
    requires Inv(s)
    ensures key in s.forgotten ==> key in Live(s)
  {
  }

  /** What the index says about the latest version. */
  lemma KeysAreRight(s: State, k: Key)
    requires Inv(s)
    ensures k in Live(s) ==> Live(s)[k].key == k
    ensures k in s.unsaved && s.unsaved[k].Some? ==> s.unsaved[k].value.key == k
    ensures var latest := At(s.history, |s.history|);
            && (k in latest <==> k in Live(s) && Good(s.forgotten, s.merged, k) >= |s.history|)
            && (k in latest ==> Live(s)[k].value == latest[k])
    ensures |s.history| <= s.memory && (s.emptied ==> s.w.version < s.memory)
  {
    hide Coherent, Live, RootContents, Tracks;
    assert |s.history| == 0 ==> At(s.history, |s.history|) == map[];
    hide At;
  }

  /** What the working tree has, and what the index says about it. */
  lemma WorkingIsTracked(s: State, key: Key)
    requires Inv(s)
    ensures s.memory >= |s.history| >= s.w.version && ValidRoot(s.w.root)
    ensures key in s.unsaved ==>
              && (s.unsaved[key].Some? <==> key in RootContents(s.w.root))
              && (s.unsaved[key].Some? ==> s.unsaved[key].value.value == RootContents(s.w.root)[key])
    ensures key !in s.unsaved && !s.emptied ==>
              && (key in RootContents(s.w.root) <==> key in Live(s) && key !in s.forgotten)
              && (key in RootContents(s.w.root) ==> Live(s)[key].value == RootContents(s.w.root)[key])
    ensures s.emptied ==> s.w.version == 0 < |s.history|
    ensures key in Live(s) ==> Live(s)[key].version >= 1
  {
    hide Coherent, Live, RootContents, At, Stamped;
  }

  /** Reading the working tree through the flat index equals walking it, unless it answers with a forgotten key. */
  lemma WorkingGetIsWalk(s: State, key: Key)
    requires Inv(s)
    ensures WorkingGet(s, key) == Walk(s.w.root, key) <==> !Misread(s, key)
  {
    hide Inv, Get, RootContents, GetFastNode, Live;
    WorkingIsTracked(s, key);
    ForgottenIsIndexed(s, key);
    WalkIsLookup(s.w.root, key);
    if key != [] { FetchIsLive(s, key); } else { EmptyKeyFails(s); }
  }

  /** The index answers for the working tree with an entry whose removal was dropped. */
  ghost predicate Misread(s: State, key: Key) {
    && key != [] && s.w.root.Some? && key !in s.unsaved
    && key in s.forgotten && key in Live(s) && Live(s)[key].version <= s.w.version
  }

  /**
   * In every run, Get on the working tree and on every saved version agrees with the tree, unless the index has
   * forgotten the key (`ForgottenExactly`).
   */
  lemma FastReadsAreTreeReads(s0: State, actions: seq<Action>, s: State, v: int, key: Key)
    requires Initial(s0) && Run(s0, actions, s) && 1 <= v <= |s.history|
    ensures WorkingGet(s, key) == Walk(s.w.root, key) <==> !Misread(s, key)
    ensures ImmutableGet(s, s.history[v - 1], v, key) == Walk(s.history[v - 1], key) <==>
            !(key != [] && s.history[v - 1].Some? && key in s.forgotten && s.forgotten[key] < v)
  {
    hide Inv, Initial, Run, WorkingGet, Walk, ImmutableGet, Misread;
    InitialIsInv(s0);
    RunKeepsInv(s0, actions, s);
    WorkingGetIsWalk(s, key);
    SavedGetIsWalk(s, v, key);
  }

  /** Nothing is forgotten and the last saved tree is the latest version. */
  ghost predicate Remembers(s: State) {
    s.forgotten == map[] && s.merged == |s.history| && s.w.lastSaved == Latest(s.history)
  }

  lemma StepRemembers(s: State, a: Action)
    requires Inv(s) && Enabled(s, a) && Remembers(s) && !(a.Resave? && Unwritten(s.flight) && s.w.root.None?)
    requires |Step(s, a).history| > |s.history| ==> s.w.root.Some?
    ensures Remembers(Step(s, a))
  {
    if a == Change(Rollback) && s.w.lastSaved.None? { NothingIndexed(s); }
    if a.Change? && !a.edit.Rollback? { EditIsUpdate(s.w, a.edit); }
    hide Inv, Live, RootContents, Apply, OtherStep, Beneath, Overlay, CacheChanges, Track;
    OtherStepKeeps(s, a);
  }

  lemma NothingIndexed(s: State)
    requires Inv(s) && Remembers(s) && s.w.lastSaved.None?
    ensures Live(s) == map[]
  {
    assert At(s.history, |s.history|) == map[];
    hide Live, Coherent, Tracks, Stamped, At;
    assert |s.history| == 0 ==> Live(s) == map[];
    forall k ensures k !in Live(s) {}
  }

  /** No empty tree is saved over a version not yet written. */
  ghost predicate SavesOverWritten(s: State, actions: seq<Action>)
    decreases actions
  {
    actions == [] ||
    (&& Enabled(s, actions[0]) && !(actions[0].Resave? && Unwritten(s.flight) && s.w.root.None?)
     && SavesOverWritten(Step(s, actions[0]), actions[1..]))
  }

  lemma {:induction false} RunRemembers(s: State, actions: seq<Action>, s': State)
    requires Inv(s) && Run(s, actions, s') && Remembers(s) && SavesOverWritten(s, actions)
    requires forall i :: |s.history| <= i < |s'.history| ==> s'.history[i].Some?
    ensures Remembers(s')
    decreases actions
  {
    hide Inv, Remembers, Enabled;
    if actions != [] {
      var a, s1 := actions[0], Step(s, actions[0]);
      StepKeepsInv(s, a);
      RunExtends(s1, actions[1..], s');
      StepExtends(s, a);
      if |s1.history| > |s.history| { assert s1.history[|s.history|] == s'.history[|s.history|]; }
      StepRemembers(s, a);
      hide Step;
      RunRemembers(s1, actions[1..], s');
    }
  }

  lemma SaveAppends(s: State, keep: set<Key>, persist: bool)
    ensures SaveSyncStep(s, keep).history == SaveAsyncStep(s, persist).history == s.history + [s.w.root]
  {
    hide CacheChanges, Overlay, Beneath;
  }

  lemma RollbackAndResave(s: State)
    ensures RollbackStep(s).history == ResaveStep(s).history == s.history
  {
    hide Live, Forget, Latest;
  }

  lemma StepExtends(s: State, a: Action)
    requires Enabled(s, a)
    ensures var s' := Step(s, a); s.history <= s'.history <= s.history + [s.w.root]
  {
    hide Enabled, Live, Apply, Track, RollbackStep, ResaveStep, SaveAsyncStep, SaveSyncStep, OtherStep;
    match a
    case SaveSync(keep) => SaveAppends(s, keep, false);
    case SaveAsync(persist) => SaveAppends(s, {}, persist);
    case Change(_) => RollbackAndResave(s);
    case Resave => RollbackAndResave(s);
    case _ => OtherStepKeeps(s, a);
  }

  lemma {:induction false} RunExtends(s: State, actions: seq<Action>, s': State)
    requires Run(s, actions, s')
    ensures s.history <= s'.history
    decreases actions
  {
    hide Step, Enabled;
    if actions != [] {
      StepExtends(s, actions[0]);
      RunExtends(Step(s, actions[0]), actions[1..], s');
    }
  }

  /**
   * A run that saves no empty tree, neither as a new version nor over one not yet written, forgets nothing: all reads
   * are tree reads.
   */
  lemma FullRunsReadTrees(s0: State, actions: seq<Action>, s: State, v: int, key: Key)
    requires Initial(s0) && Run(s0, actions, s) && 1 <= v <= |s.history| && SavesOverWritten(s0, actions)
    requires forall i :: |s0.history| <= i < |s.history| ==> s.history[i].Some?
    ensures s.forgotten == map[] && WorkingGet(s, key) == Walk(s.w.root, key)
    ensures ImmutableGet(s, s.history[v - 1], v, key) == Walk(s.history[v - 1], key)
  {
    hide Inv, Run, WorkingGet, Walk, ImmutableGet, SavesOverWritten;
    InitialIsInv(s0);
    RunRemembers(s0, actions, s);
    FastReadsAreTreeReads(s0, actions, s, v, key);
  }

  // ---------------------------------------------------------------- what is forgotten

  /** Rollback to an empty tree saved, or an empty tree saved over a version not yet written, drops an indexed key. */
  ghost predicate Drops(s: State, a: Action, key: Key) {
    && key in Live(s)
    && (|| (a == Change(Rollback) && s.w.version > 0 && s.w.lastSaved.None?)
        || (a == Resave && Unwritten(s.flight) && s.w.root.None? && key !in s.unsaved))
  }

  /** A tree is saved with a change for the key. */
  ghost predicate Restores(s: State, a: Action, key: Key) {
    a.SaveAsync? && s.w.root.Some? && key in s.unsaved
  }

  ghost predicate Restored(s: State, actions: seq<Action>, key: Key)
    decreases actions
  {
    actions != [] && Enabled(s, actions[0]) &&
    (Restores(s, actions[0], key) || Restored(Step(s, actions[0]), actions[1..], key))
  }

  /** Some action drops the key, and none after it restores it. */
  ghost predicate Forgets(s: State, actions: seq<Action>, key: Key)
    decreases actions
  {
    && actions != [] && Enabled(s, actions[0])
    && var s', rest := Step(s, actions[0]), actions[1..];
       Forgets(s', rest, key) || (Drops(s, actions[0], key) && !Restored(s', rest, key))
  }

  lemma ForgetMore(s: State, unsaved: Changes, key: Key)
    ensures key in Forget(s, unsaved) <==> key in s.forgotten || (key in Live(s) && key !in unsaved)
  {
    hide Live;
  }

  lemma RollbackForgets(s: State, key: Key)
    ensures key in RollbackStep(s).forgotten <==> Drops(s, Change(Rollback), key) || key in s.forgotten
  {
    hide Live, Forget;
    ForgetMore(s, map[], key);
  }

  lemma ResaveForgets(s: State, key: Key)
    ensures key in ResaveStep(s).forgotten <==> Drops(s, Resave, key) || key in s.forgotten
  {
    hide Live, Forget, Latest;
    ForgetMore(s, s.unsaved, key);
  }

  lemma SaveForgets(s: State, key: Key, keep: set<Key>, persist: bool)
    ensures SaveSyncStep(s, keep).forgotten == s.forgotten
    ensures key in SaveAsyncStep(s, persist).forgotten <==>
            key in s.forgotten && !Restores(s, SaveAsync(persist), key)
  {
    hide CacheChanges, Overlay, Beneath;
  }

  lemma StepForgets(s: State, a: Action, key: Key)
    requires Enabled(s, a)
    ensures key in Step(s, a).forgotten <==> Drops(s, a, key) || (key in s.forgotten && !Restores(s, a, key))
  {
    hide Enabled, Live, Apply, Track, RollbackStep, ResaveStep, SaveAsyncStep, SaveSyncStep, OtherStep;
    match a
    case Change(edit) => if edit.Rollback? { RollbackForgets(s, key); }
    case Resave => ResaveForgets(s, key);
    case SaveSync(keep) => SaveForgets(s, key, keep, false);
    case SaveAsync(persist) => SaveForgets(s, key, {}, persist);
    case _ => OtherStepKeeps(s, a);
  }

  lemma {:induction false} RunForgets(s: State, actions: seq<Action>, s': State, key: Key)
    requires Run(s, actions, s')
    ensures key in s'.forgotten <==>
            Forgets(s, actions, key) || (key in s.forgotten && !Restored(s, actions, key))
    decreases actions
  {
    hide Step, Enabled, Drops, Restores;
    if actions != [] {
      StepForgets(s, actions[0], key);
      RunForgets(Step(s, actions[0]), actions[1..], s', key);
    }
  }

  /** The index has forgotten a key exactly when an action of the run drops it and none after that restores it. */
  lemma ForgottenExactly(s0: State, actions: seq<Action>, s: State, key: Key)
    requires Initial(s0) && Run(s0, actions, s)
    ensures key in s.forgotten <==> Forgets(s0, actions, key)
  {
    hide Run, Forgets, Restored;
    RunForgets(s0, actions, s, key);
  }

  // ---------------------------------------------------------------- versioned reads

  /**
   * GetVersioned skips the empty-root test and drops GetFastNode's error. It differs from the tree exactly when the
   * working tree is at the latest version, so that the index is used, and the key is a present empty key of that
   * version, or the version is past the last good one of the key's entry, as an empty version is whose removals never
   * reached the index.
   */
  lemma VersionedReadsAreTreeReads(s0: State, actions: seq<Action>, s: State, v: int, key: Key)
    requires Initial(s0) && Run(s0, actions, s) && 1 <= v <= |s.history|
    ensures GetVersioned(s, v, key) == Walk(s.history[v - 1], key) <==>
            !(&& s.w.version == s.memory
              && if key == [] then v == s.memory && key in RootContents(s.history[v - 1])
                 else key in Live(s) && v > Good(s.forgotten, s.merged, key))
  {
    hide Inv, Initial, Run, Get, GetFastNode, Live;
    InitialIsInv(s0);
    RunKeepsInv(s0, actions, s);
    IndexIsDecisive(s, v, key);
    WalkIsLookup(s.history[v - 1], key);
    if key != [] { FetchIsLive(s, key); } else { EmptyKeyFails(s); }
  }

  /** The index is behind exactly while the latest tree saved is an empty one, saved asynchronously since the start. */
  ghost predicate BehindExactly(s: State, loaded: int) {
    && 0 <= loaded <= |s.history| && s.merged <= |s.history|
    && (s.merged < |s.history| <==> s.async && |s.history| > loaded && Latest(s.history).None?)
  }

  lemma StepBehindExactly(s: State, a: Action, loaded: int)
    requires Inv(s) && Enabled(s, a) && BehindExactly(s, loaded)
    ensures BehindExactly(Step(s, a), loaded)
  {
    hide Inv, Live, Apply, RootContents, Overlay, Beneath, CacheChanges, Track, Forget, OtherStep, ValidRoot;
    VersionIsLatest(s);
    OtherStepKeeps(s, a);
    if a.Change? && !a.edit.Rollback? { EditIsUpdate(s.w, a.edit); }
  }

  lemma VersionIsLatest(s: State)
    requires Inv(s)
    ensures !Detached(s) ==> s.w.version == |s.history|
    ensures !s.async ==> s.merged == |s.history| == s.w.version
  {
    hide Right, Covers, Tracks, Coherent, Settled, Stamped, Live;
  }

  lemma {:induction false} RunBehindExactly(s: State, actions: seq<Action>, s': State, loaded: int)
    requires Inv(s) && Run(s, actions, s') && BehindExactly(s, loaded)
    ensures BehindExactly(s', loaded)
    decreases actions
  {
    hide Inv, Step, BehindExactly;
    if actions != [] {
      StepKeepsInv(s, actions[0]);
      StepBehindExactly(s, actions[0], loaded);
      RunBehindExactly(Step(s, actions[0]), actions[1..], s', loaded);
    }
  }

  /** The index falls behind exactly by saving an empty tree asynchronously. */
  lemma BehindIsEmpty(s0: State, actions: seq<Action>, s: State)
    requires Initial(s0) && Run(s0, actions, s)
    ensures s.merged <= |s.history|
    ensures s.merged < |s.history| <==> s.async && |s.history| > |s0.history| && Latest(s.history).None?
  {
    hide Run, Inv;
    InitialIsInv(s0);
    RunBehindExactly(s0, actions, s, |s0.history|);
  }

  // ---------------------------------------------------------------- the layers reach the disk

  /**
   * Whenever persist is to hand over a tree, and the commit goroutine is idle, four steps bring all of the index to
   * disk: nothing is pending and nothing in flight afterwards.
   */
  lemma DiskCatchesUp(s: State, keep: set<Key>) returns (s': State)
    requires Inv(s) && Enabled(s, Send) && Latest(s.history).Some?
    ensures Run(s, [Send] + [Stage(keep), Write] + [Release], s')
    ensures s'.disk == Live(s) && s'.pending == map[] && s'.flight.None? && !s'.sending
    ensures s'.w == s.w && s'.history == s.history && s'.unsaved == s.unsaved
  {
    hide Inv, Run, Overlay, CacheChanges, Latest;
    var s1 := Step(s, Send);
    var s2 := Step(s1, Stage(keep));
    var s3 := Step(s2, Write);
    s' := Step(s3, Release);
    RunOne(s, Send);
    RunTwo(s1, Stage(keep), Write);
    RunOn(s, [Send], s1, [Stage(keep), Write], s3);
    RunOne(s3, Release);
    RunOn(s, [Send] + [Stage(keep), Write], s3, [Release], s');
    OverlayNothing(s.disk);
  }

  /**
   * A read that has to go to disk leaves what it finds in the cache, if there is room; a failed one changes nothing.
   */
  lemma ReadsAreCached(s: State, key: Key, keep: set<Key>)
    requires Inv(s)
    ensures key == [] ==> Step(s, Read(key, keep)) == s
    ensures key != [] && key in Live(s) && key !in s.pending && key !in InFlight(s.flight) && key in keep ==>
              var s' := Step(s, Read(key, keep)); key in s'.cache && s'.cache[key] == Live(s)[key]
  {
    hide Placed, At, RootContents, Right, Covers, Tracks, Settled, Behind, Stamped;
  }

  // ---------------------------------------------------------------- where reads go wrong

  function Empty(async: bool): State {
    State(async, [], Working(0, None, None, []), 0, false, false, false, 0, map[], map[], None, map[], map[], 0, map[])
  }

  lemma EmptyIsInitial(async: bool)
    ensures Initial(Empty(async))
  {
  }

  lemma RunTwo(s: State, a: Action, b: Action)
    requires Enabled(s, a) && Enabled(Step(s, a), b)
    ensures Run(s, [a, b], Step(Step(s, a), b))
  {
    assert [a, b][1..] == [b] && [b][1..] == [];
    assert Run(Step(s, a), [b], Step(Step(s, a), b));
  }

  lemma RunOne(s: State, a: Action)
    requires Enabled(s, a)
    ensures Run(s, [a], Step(s, a))
  {
    assert Run(Step(s, a), [a][1..], Step(s, a));
  }

  lemma {:induction false} RunOn(s: State, a: seq<Action>, s1: State, b: seq<Action>, s2: State)
    requires Run(s, a, s1) && Run(s1, b, s2)
    ensures Run(s, a + b, s2)
    decreases a
  {
    hide Step, Enabled;
    if a == [] {
      assert a + b == b;
    } else {
      RunOn(Step(s, a[0]), a[1..], s1, b, s2);
      assert (a + b)[0] == a[0] && (a + b)[1..] == a[1..] + b;
    }
  }

  /** The value of an empty key is not found at the latest version. */
  lemma EmptyKeyIsMissed(value: Value)
    ensures Initial(Empty(false))
    ensures exists s :: Run(Empty(false), [Change(Set([], value)), SaveSync({})], s) && |s.history| == 1
                        && GetVersioned(s, 1, []) == None && Walk(s.history[0], []) == Some(value)
  {
    EmptyIsInitial(false);
    var s1 := Step(Empty(false), Change(Set([], value)));
    var s2 := Step(s1, SaveSync({}));
    RunTwo(Empty(false), Change(Set([], value)), SaveSync({}));
    assert Walk(s2.history[0], []) == Some(value);
  }

  /** One key saved asynchronously. */
  ghost function OneKey(key: Key, value: Value, persist: bool): State {
    var root, node := Some(Leaf(key, value, 1)), Some(FastNode(key, 1, value));
    State(true, [root], Working(1, root, root, []), 0, false, persist, persist, 1, map[], map[key := node], None,
          map[], map[], 1, map[])
  }

  lemma SaveOneKey(key: Key, value: Value, persist: bool)
    ensures Initial(Empty(true))
    ensures Run(Empty(true), [Change(Set(key, value)), SaveAsync(persist)], OneKey(key, value, persist))
  {
    EmptyIsInitial(true);
    RunTwo(Empty(true), Change(Set(key, value)), SaveAsync(persist));
    var s := Step(Step(Empty(true), Change(Set(key, value))), SaveAsync(persist));
    assert s.pending == map[key := Some(FastNode(key, 1, value))];
    assert s.forgotten == map[];
  }

  /** The same key removed again, and the empty tree saved asynchronously. */
  ghost function NoKey(key: Key, value: Value): State {
    var s := OneKey(key, value, false);
    s.(history := s.history + [None], w := Working(2, None, None, []), savedAt := 1, unsaved := map[key := None],
       memory := 2)
  }

  lemma SaveNoKey(key: Key, value: Value)
    ensures Run(OneKey(key, value, false), [Change(Remove(key)), SaveAsync(false)], NoKey(key, value))
    ensures Live(NoKey(key, value)) == map[key := FastNode(key, 1, value)]
  {
    LessIrreflexive(key);
    RunTwo(OneKey(key, value, false), Change(Remove(key)), SaveAsync(false));
  }

  /** After an asynchronous save of an emptied tree, the removed key is still found at that version. */
  lemma RemovedKeyIsFound(key: Key, value: Value)
    requires key != []
    ensures exists s, t :: Initial(Empty(true)) && Run(Empty(true), [Change(Set(key, value)), SaveAsync(false)], s)
                           && Run(s, [Change(Remove(key)), SaveAsync(false)], t) && |t.history| == 2
                           && GetVersioned(t, 2, key) == Some(value) && Walk(t.history[1], key) == None
  {
    SaveOneKey(key, value, false);
    SaveNoKey(key, value);
  }

  /** A tree rolled back behind its history with another key set: the leaf of that key alone. */
  lemma SetOther(s: State, other: Key, value: Value)
    requires s.w.root.None? && !s.sending
    ensures Enabled(s, Change(Set(other, value)))
    ensures var t := Step(s, Change(Set(other, value)));
            && t.w.root == Some(Leaf(other, value, s.w.version + 1)) && t.w.version == s.w.version
            && t.unsaved == s.unsaved[other := Some(FastNode(other, s.w.version + 1, value))]
            && t.pending == s.pending && t.flight == s.flight
  {
  }

  /** Reading a key that the index dates no later than a tree with one other key. */
  lemma OldKeyIsRead(s: State, key: Key, other: Key, value: Value)
    requires key != [] && other != key && s.w.root == Some(Leaf(other, value, 2)) && key !in s.unsaved
    requires GetFastNode(s, key) == Fetched(Some(FastNode(key, 1, value))) && s.w.version == 1
    ensures WorkingGet(s, key) == Some(value) && Walk(s.w.root, key) == None
  {
    LessTotal(key, other);
    assert Walk(s.w.root, key) == Get(Leaf(other, value, 2), key).1;
  }

  lemma RollbackNoKey(key: Key, value: Value)
    ensures var t := RollbackStep(NoKey(key, value));
            && t.w == Working(1, None, None, []) && t.unsaved == map[] && t.pending == NoKey(key, value).pending
  {
    hide Forget;
  }

  /** After a Rollback of an empty tree saved asynchronously, Get finds a key the working tree does not have. */
  lemma ForgottenKeyIsRead(key: Key, other: Key, value: Value) returns (actions: seq<Action>, s: State)
    requires key != [] && other != key
    ensures Initial(Empty(true)) && Run(Empty(true), actions, s)
    ensures WorkingGet(s, key) == Some(value) && Walk(s.w.root, key) == None
  {
    hide Initial, Run, Walk, WorkingGet;
    SaveOneKey(key, value, false);
    SaveNoKey(key, value);
    RollbackNoKey(key, value);
    var a, b := [Change(Set(key, value)), SaveAsync(false)], [Change(Remove(key)), SaveAsync(false)];
    var c := [Change(Rollback), Change(Set(other, value))];
    RunOn(Empty(true), a, OneKey(key, value, false), b, NoKey(key, value));
    var t := RollbackStep(NoKey(key, value));
    SetOther(t, other, value);
    s := Step(t, Change(Set(other, value)));
    RunTwo(NoKey(key, value), Change(Rollback), Change(Set(other, value)));
    actions := a + b + c;
    RunOn(Empty(true), a + b, NoKey(key, value), c, s);
    OldKeyIsRead(s, key, other, value);
  }

  /** One key saved and handed to the commit goroutine, and two Rollbacks. */
  ghost function SentAndRolledBack(key: Key, value: Value): State {
    RollbackStep(RollbackStep(Step(OneKey(key, value, true), Send)))
  }

  lemma SendAndRollBack(key: Key, value: Value) returns (actions: seq<Action>)
    ensures Run(OneKey(key, value, true), actions, SentAndRolledBack(key, value))
    ensures var t, s := SentAndRolledBack(key, value), OneKey(key, value, true);
            && t.w == Working(0, Some(Leaf(key, value, 1)), None, []) && t.unsaved == map[] && t.async && t.listed
            && !t.sending && t.history == s.history && t.pending == map[] && t.flight == Some(Flight(s.pending, Sent))
  {
    hide Forget;
    var s := OneKey(key, value, true);
    var s1 := Step(s, Send);
    RunTwo(s, Send, Change(Rollback));
    RunOne(RollbackStep(s1), Change(Rollback));
    actions := [Send, Change(Rollback)] + [Change(Rollback)];
    RunOn(s, [Send, Change(Rollback)], RollbackStep(s1), [Change(Rollback)], RollbackStep(RollbackStep(s1)));
  }

  /** The same after a second Rollback and a save over version 1 before it is written. */
  lemma UnwrittenKeyIsRead(key: Key, other: Key, value: Value) returns (actions: seq<Action>, s: State)
    requires key != [] && other != key
    ensures Initial(Empty(true)) && Run(Empty(true), actions, s)
    ensures WorkingGet(s, key) == Some(value) && Walk(s.w.root, key) == None
  {
    hide Initial, Run, Walk, WorkingGet, Forget, OneKey, SentAndRolledBack;
    SaveOneKey(key, value, true);
    OneKeyParts(key, value);
    var a, c := [Change(Set(key, value)), SaveAsync(true)], [Resave, Change(Set(other, value))];
    var b := SendAndRollBack(key, value);
    var t := SentAndRolledBack(key, value);
    RunOn(Empty(true), a, OneKey(key, value, true), b, t);
    var t' := ResaveStep(t);
    SetOther(t', other, value);
    s := Step(t', Change(Set(other, value)));
    RunTwo(t, Resave, Change(Set(other, value)));
    actions := a + b + c;
    RunOn(Empty(true), a + b, t, c, s);
    OldKeyIsRead(s, key, other, value);
  }

  lemma OneKeyParts(key: Key, value: Value)
    ensures var s := OneKey(key, value, true);
            s.pending == map[key := Some(FastNode(key, 1, value))] && s.history == [Some(Leaf(key, value, 1))]
  {
  }
}
