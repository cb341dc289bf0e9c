/** The merging iterator: sorted disk entries overlaid with pending additions and removals, in either direction. */
module FastIterator {
  import opened ByteOrder
  import opened Tree
  import opened FastChanges
  import FastReads
  import Orphans

  // ---------------------------------------------------------------- order

  predicate Precedes(ascending: bool, a: Key, b: Key) {
    if ascending then Less(a, b) else Less(b, a)
  }

  lemma PrecedesIsOrder(ascending: bool, a: Key, b: Key, c: Key)
    ensures !Precedes(ascending, a, a)
    ensures Precedes(ascending, a, b) && Precedes(ascending, b, c) ==> Precedes(ascending, a, c)
    ensures Precedes(ascending, a, b) || a == b || Precedes(ascending, b, a)
  {
    LessIrreflexive(a);
    LessTotal(a, b);
    if ascending && Less(a, b) && Less(b, c) { LessTransitive(a, b, c); }
    if !ascending && Less(b, a) && Less(c, b) { LessTransitive(c, b, a); }
  }

  ghost predicate Sorted(ascending: bool, nodes: seq<FastNode>) {
    forall i, j :: 0 <= i < j < |nodes| ==> Precedes(ascending, nodes[i].key, nodes[j].key)
  }

  /** `key` comes before every node. */
  ghost predicate Heads(ascending: bool, key: Key, nodes: seq<FastNode>) {
    forall n :: n in nodes ==> Precedes(ascending, key, n.key)
  }

  predicate InRange(start: Option<Key>, end: Option<Key>, key: Key) {
    (start.None? || AtMost(start.value, key)) && (end.None? || Less(key, end.value))
  }

  // ---------------------------------------------------------------- the merge

  /** What the iterator still has to yield from the rest of the disk entries and of the sorted additions. */
  function Merge(ascending: bool, disk: seq<FastNode>, added: seq<FastNode>, removed: set<Key>): seq<FastNode>
    decreases |disk| + |added|
  {
    if disk == [] && added == [] then []
    else if disk != [] && disk[0].key in removed then Merge(ascending, disk[1..], added, removed)
    else if added == [] || (disk != [] && Precedes(ascending, disk[0].key, added[0].key)) then
      [disk[0]] + Merge(ascending, disk[1..], added, removed)
    else
      var both := disk != [] && disk[0].key == added[0].key;
      [added[0]] + Merge(ascending, if both then disk[1..] else disk, added[1..], removed)
  }

  /** An entry of the overlaid index: an addition, or a disk entry nothing pending decides. */
  ghost predicate Overlaid(n: FastNode, disk: seq<FastNode>, added: seq<FastNode>, removed: set<Key>) {
    n in added || (n in disk && n.key !in removed && forall a :: a in added ==> a.key != n.key)
  }

  ghost predicate Mergeable(ascending: bool, disk: seq<FastNode>, added: seq<FastNode>, removed: set<Key>) {
    Sorted(ascending, disk) && Sorted(ascending, added) && forall a :: a in added ==> a.key !in removed
  }

  lemma TailFacts(ascending: bool, nodes: seq<FastNode>)
    requires Sorted(ascending, nodes) && nodes != []
    ensures Sorted(ascending, nodes[1..]) && Heads(ascending, nodes[0].key, nodes[1..])
    ensures forall n :: n in nodes <==> n == nodes[0] || n in nodes[1..]
  {
    assert nodes == [nodes[0]] + nodes[1..];
  }

  lemma HeadsFurther(ascending: bool, key: Key, nodes: seq<FastNode>)
    requires Sorted(ascending, nodes) && nodes != [] && Precedes(ascending, key, nodes[0].key)
    ensures Heads(ascending, key, nodes)
  {
    TailFacts(ascending, nodes);
    forall n | n in nodes ensures Precedes(ascending, key, n.key) {
      PrecedesIsOrder(ascending, key, nodes[0].key, n.key);
    }
  }

  lemma ConsSorted(ascending: bool, n: FastNode, nodes: seq<FastNode>)
    requires Sorted(ascending, nodes) && Heads(ascending, n.key, nodes)
    ensures Sorted(ascending, [n] + nodes)
  {
  }

  /** The merge is sorted and yields exactly the entries of the overlaid index. */
  lemma {:induction false} MergeIsOverlay(ascending: bool, disk: seq<FastNode>, added: seq<FastNode>, removed: set<Key>)
    requires Mergeable(ascending, disk, added, removed)
    ensures Sorted(ascending, Merge(ascending, disk, added, removed))
    ensures forall n :: n in Merge(ascending, disk, added, removed) <==> Overlaid(n, disk, added, removed)
    decreases |disk| + |added|
  {
    if disk != [] { TailFacts(ascending, disk); }
    if added != [] { TailFacts(ascending, added); }
    if disk == [] && added == [] {
    } else if disk != [] && disk[0].key in removed {
      MergeIsOverlay(ascending, disk[1..], added, removed);
    } else if added == [] || (disk != [] && Precedes(ascending, disk[0].key, added[0].key)) {
      DiskFirst(ascending, disk, added, removed);
      MergeIsOverlay(ascending, disk[1..], added, removed);
      ConsSorted(ascending, disk[0], Merge(ascending, disk[1..], added, removed));
    } else {
      var rest := if disk != [] && disk[0].key == added[0].key then disk[1..] else disk;
      AddedFirst(ascending, disk, added, removed);
      MergeIsOverlay(ascending, rest, added[1..], removed);
      ConsSorted(ascending, added[0], Merge(ascending, rest, added[1..], removed));
    }
  }

  lemma DiskFirst(ascending: bool, disk: seq<FastNode>, added: seq<FastNode>, removed: set<Key>)
    requires Mergeable(ascending, disk, added, removed) && disk != [] && disk[0].key !in removed
    requires added == [] || Precedes(ascending, disk[0].key, added[0].key)
    ensures forall n :: Overlaid(n, disk[1..], added, removed) ==> Precedes(ascending, disk[0].key, n.key)
    ensures forall n :: Overlaid(n, disk, added, removed) <==> n == disk[0] || Overlaid(n, disk[1..], added, removed)
  {
    TailFacts(ascending, disk);
    if added != [] { HeadsFurther(ascending, disk[0].key, added); }
    PrecedesIsOrder(ascending, disk[0].key, disk[0].key, disk[0].key);
  }

  lemma AddedFirst(ascending: bool, disk: seq<FastNode>, added: seq<FastNode>, removed: set<Key>)
    requires Mergeable(ascending, disk, added, removed) && added != []
    requires disk == [] || !Precedes(ascending, disk[0].key, added[0].key)
    ensures var rest := if disk != [] && disk[0].key == added[0].key then disk[1..] else disk;
            && Sorted(ascending, rest) && Heads(ascending, added[0].key, rest)
            && Heads(ascending, added[0].key, added[1..])
            && forall n :: Overlaid(n, disk, added, removed) <==>
                 n == added[0] || Overlaid(n, rest, added[1..], removed)
  {
    TailFacts(ascending, added);
    var rest := if disk != [] && disk[0].key == added[0].key then disk[1..] else disk;
    if disk != [] {
      TailFacts(ascending, disk);
      PrecedesIsOrder(ascending, disk[0].key, added[0].key, disk[0].key);
      if disk[0].key != added[0].key { HeadsFurther(ascending, added[0].key, disk); }
    }
    PrecedesIsOrder(ascending, added[0].key, added[0].key, added[0].key);
    assert Heads(ascending, added[0].key, rest);
    forall n ensures Overlaid(n, disk, added, removed) <==> n == added[0] || Overlaid(n, rest, added[1..], removed) {
      if n in rest { assert n.key != added[0].key; }
    }
  }

  // ---------------------------------------------------------------- sorting the additions

  /** sort.Slice: one node put in its place. */
  function Insert(ascending: bool, n: FastNode, nodes: seq<FastNode>): (r: seq<FastNode>)
    ensures forall m :: m in r <==> m == n || m in nodes
  {
    if nodes == [] then [n]
    else if Precedes(ascending, n.key, nodes[0].key) then [n] + nodes
    else
      var rest := Insert(ascending, n, nodes[1..]);
      assert forall m :: m in [nodes[0]] + rest <==> m == nodes[0] || m in rest;
      [nodes[0]] + rest
  }

  lemma {:induction false} InsertSorts(ascending: bool, n: FastNode, nodes: seq<FastNode>)
    requires Sorted(ascending, nodes) && forall m :: m in nodes ==> m.key != n.key
    ensures Sorted(ascending, Insert(ascending, n, nodes))
  {
    if nodes != [] {
      TailFacts(ascending, nodes);
      PrecedesIsOrder(ascending, n.key, nodes[0].key, n.key);
      if Precedes(ascending, n.key, nodes[0].key) {
        HeadsFurther(ascending, n.key, nodes);
        ConsSorted(ascending, n, nodes);
      } else {
        InsertSorts(ascending, n, nodes[1..]);
        ConsSorted(ascending, nodes[0], Insert(ascending, n, nodes[1..]));
      }
    }
  }

  /** The additions inside the range, sorted. */
  method SortAdditions(additions: map<Key, FastNode>, start: Option<Key>, end: Option<Key>, ascending: bool)
    returns (sorted: seq<FastNode>)
    requires forall k :: k in additions ==> additions[k].key == k
    ensures Sorted(ascending, sorted)
    ensures forall n :: n in sorted <==>
              && n.key in additions && additions[n.key] == n
              && (start.None? || AtMost(start.value, n.key)) && (end.None? || Less(n.key, end.value))
  {
    sorted := [];
    var todo := additions.Keys;
    while todo != {}
      invariant todo <= additions.Keys && Sorted(ascending, sorted)
      invariant forall n :: n in sorted <==>
                  n.key in additions && n.key !in todo && additions[n.key] == n && InRange(start, end, n.key)
      decreases todo
    {
      var k :| k in todo;
      LessTotal(k, if start.Some? then start.value else k);
      if !(start.Some? && Less(k, start.value)) && !(end.Some? && !Less(k, end.value)) {
        InsertSorts(ascending, additions[k], sorted);
        sorted := Insert(ascending, additions[k], sorted);
      }
      todo := todo - {k};
    }
  }

  // ---------------------------------------------------------------- the iterator

  class UnsavedFastIterator {
    const start: Option<Key>
    const end: Option<Key>
    const ascending: bool
    const removals: set<Key>
    const added: seq<FastNode>         // unsavedFastNodesToSort, with their nodes
    const disk: seq<FastNode>          // what the disk iterator yields
    var pos: nat                       // the disk iterator
    var nextUnsavedNodeIdx: nat
    var next: Option<FastNode>         // nextKey and nextVal

    ghost predicate Valid()
      reads this
    {
      pos <= |disk| && nextUnsavedNodeIdx <= |added|
    }

    /** Everything the iterator yields after the current entry. */
    ghost function Remaining(): seq<FastNode>
      requires Valid()
      reads this
    {
      Merge(ascending, disk[pos..], added[nextUnsavedNodeIdx..], removals)
    }

    /** The current entry and everything after it. */
    ghost function ToCome(): seq<FastNode>
      requires Valid()
      reads this
    {
      (if next.Some? then [next.value] else []) + Remaining()
    }

    constructor (start: Option<Key>, end: Option<Key>, ascending: bool, entries: seq<FastNode>, added: seq<FastNode>,
                 removals: set<Key>)
      ensures Valid() && this.start == start && this.end == end && this.ascending == ascending
      ensures next.None? ==> pos == |disk| && nextUnsavedNodeIdx == |this.added|
      ensures ToCome() == Merge(ascending, entries, added, removals)
    {
      this.start, this.end, this.ascending, this.removals := start, end, ascending, removals;
      this.added, this.disk := added, entries;
      pos, nextUnsavedNodeIdx, next := 0, 0, None;
      new;
      assert disk[0..] == entries && this.added[0..] == added;
      Next();
    }

    /** Valid of the iterator interface. */
    predicate IsValid()
      reads this
    {
      && (start.Some? && end.Some? ==> Less(start.value, end.value))
      && (pos < |disk| || nextUnsavedNodeIdx < |added| || next.Some?)
    }

    /** One step: the next entry that is not removed, or none when both sources are exhausted. */
    method Next()
      requires Valid()
      modifies this
      ensures Valid()
      ensures next.None? ==> pos == |disk| && nextUnsavedNodeIdx == |added|
      ensures old(Remaining()) == [] ==> next.None? && Remaining() == []
      ensures old(Remaining()) != [] ==> next == Some(old(Remaining())[0]) && Remaining() == old(Remaining())[1..]
      decreases |disk| - pos
    {
      ghost var left, more := disk[pos..], added[nextUnsavedNodeIdx..];
      if pos < |disk| && nextUnsavedNodeIdx < |added| {
        var diskKey := disk[pos].key;
        if diskKey in removals {
          pos := pos + 1;
          assert disk[pos..] == left[1..];
          Next();
          return;
        }
        var nextUnsaved := added[nextUnsavedNodeIdx];
        var isUnsavedNext := if ascending then AtMost(nextUnsaved.key, diskKey) else AtMost(diskKey, nextUnsaved.key);
        if isUnsavedNext {
          if diskKey == nextUnsaved.key { pos := pos + 1; }
          next := Some(nextUnsaved);
          nextUnsavedNodeIdx := nextUnsavedNodeIdx + 1;
          assert added[nextUnsavedNodeIdx..] == more[1..];
          assert disk[pos..] == if diskKey == nextUnsaved.key then left[1..] else left;
          return;
        }
        next := Some(disk[pos]);
        pos := pos + 1;
        assert disk[pos..] == left[1..];
        return;
      }
      if pos < |disk| {
        if disk[pos].key in removals {
          pos := pos + 1;
          assert disk[pos..] == left[1..];
          Next();
          return;
        }
        next := Some(disk[pos]);
        pos := pos + 1;
        assert disk[pos..] == left[1..];
        return;
      }
      if nextUnsavedNodeIdx < |added| {
        next := Some(added[nextUnsavedNodeIdx]);
        nextUnsavedNodeIdx := nextUnsavedNodeIdx + 1;
        assert added[nextUnsavedNodeIdx..] == more[1..];
        return;
      }
      next := None;
    }
  }

  // ---------------------------------------------------------------- iterating over all pending layers

  /** The entries of an index in a range, in order. */
  ghost predicate Lists(nodes: seq<FastNode>, index: Index, start: Option<Key>, end: Option<Key>, ascending: bool) {
    && Sorted(ascending, nodes)
    && forall n :: n in nodes <==> n.key in index && index[n.key] == n && InRange(start, end, n.key)
  }

  /** What the merge lists is the index overlaid with the changes. */
  lemma MergeListsOverlay(additions: map<Key, FastNode>, removals: set<Key>, index: Index, entries: seq<FastNode>,
                          added: seq<FastNode>, start: Option<Key>, end: Option<Key>, ascending: bool)
    requires additions.Keys !! removals && forall k :: k in additions ==> additions[k].key == k
    requires Lists(entries, index, start, end, ascending) && Sorted(ascending, added)
    requires forall n :: n in added <==> n.key in additions && additions[n.key] == n && InRange(start, end, n.key)
    ensures Lists(Merge(ascending, entries, added, removals), Overlay(ChangesOf(additions, removals), index),
                  start, end, ascending)
  {
    MergeIsOverlay(ascending, entries, added, removals);
    hide Merge, InRange, Sorted;
    var merged, view := Merge(ascending, entries, added, removals), Overlay(ChangesOf(additions, removals), index);
    forall n ensures n in merged <==> n.key in view && view[n.key] == n && InRange(start, end, n.key) {
      if n.key in additions && InRange(start, end, n.key) {
        assert additions[n.key] in added;
      } else {
        assert forall a :: a in added ==> a.key != n.key || !InRange(start, end, n.key);
      }
    }
  }

  /** An inverted or empty range lists nothing. */
  lemma EmptyRange(nodes: seq<FastNode>, index: Index, start: Key, end: Key, ascending: bool)
    requires Lists(nodes, index, Some(start), Some(end), ascending) && !Less(start, end)
    ensures nodes == []
  {
    if nodes != [] {
      assert nodes[0] in nodes;
      AtMostThenLess(start, nodes[0].key, end);
    }
  }

  lemma AtMostThenLess(a: Key, b: Key, c: Key)
    requires AtMost(a, b) && Less(b, c)
    ensures Less(a, c)
  {
    LessTotal(a, b);
    if Less(a, b) { LessTransitive(a, b, c); }
  }

  lemma NothingToMerge(iter: UnsavedFastIterator)
    requires iter.Valid()
    ensures iter.pos == |iter.disk| && iter.nextUnsavedNodeIdx == |iter.added| ==> iter.Remaining() == []
  {
  }

  /** Run to exhaustion: the loop of MutableTree.Iterate with a callback that never stops. */
  method Drain(iter: UnsavedFastIterator, ghost index: Index) returns (out: seq<FastNode>)
    requires iter.Valid() && (iter.next.None? ==> iter.pos == |iter.disk| && iter.nextUnsavedNodeIdx == |iter.added|)
    requires Lists(iter.ToCome(), index, iter.start, iter.end, iter.ascending)
    modifies iter
    ensures out == old(iter.ToCome())
  {
    hide Merge, Less, Lists;
    out := [];
    ghost var all := iter.ToCome();
    if iter.start.Some? && iter.end.Some? && !Less(iter.start.value, iter.end.value) {
      EmptyRange(all, index, iter.start.value, iter.end.value, iter.ascending);
    }
    while iter.IsValid()
      invariant iter.Valid() && (iter.next.None? ==> iter.pos == |iter.disk| && iter.nextUnsavedNodeIdx == |iter.added|)
      invariant all == out + iter.ToCome()
      decreases |iter.ToCome()|
    {
      out := out + [iter.next.value];
      iter.Next();
    }
    NothingToMerge(iter);
  }

  /**
   * NewUnsavedFastIteratorWithCache run to exhaustion: the unsaved changes, the pending ones beneath, all versions in
   * flight beneath those, over what the disk iterator yields.
   */
  method IterateAll(start: Option<Key>, end: Option<Key>, ascending: bool, unsaved: FastNodeChanges,
                    pending: FastNodeChanges, flying: FastNodeChangesWithVersion, entries: seq<FastNode>,
                    ghost index: Index)
    returns (out: seq<FastNode>)
    requires unsaved.Valid() && pending.Valid() && flying.Valid() && Lists(entries, index, start, end, ascending)
    ensures Lists(out, Overlay(unsaved.Model(), Overlay(pending.Model(), OverlayLayers(flying.Layers(), index))),
                  start, end, ascending)
    ensures var view := Overlay(unsaved.Model(), Overlay(pending.Model(), OverlayLayers(flying.Layers(), index)));
            forall n :: n in out <==>
              && n.key in view && view[n.key] == n
              && (start.None? || AtMost(start.value, n.key)) && (end.None? || Less(n.key, end.value))
  {
    hide Overlay, ChangesOf, Lists, Beneath, FastNodeChangesWithVersion.Stack, FastNodeChangesWithVersion.Stacked;
    ghost var layers, u, p := flying.Layers(), unsaved.Model(), pending.Model();
    var fnc := unsaved.Clone();
    fnc.MergePrev(pending);
    var all := flying.Expand(fnc);
    FlattenIsLayered(Beneath(u, p), layers, index, []);
    BeneathIsSequence(u, p, OverlayLayers(layers, index));
    out := MergeAll(start, end, ascending, all, entries, index);
    ListedExactly(out, Overlay(u, Overlay(p, OverlayLayers(layers, index))), start, end, ascending);
  }

  /** A range has its start in it and not its end. */
  lemma ListedExactly(out: seq<FastNode>, view: Index, start: Option<Key>, end: Option<Key>, ascending: bool)
    requires Lists(out, view, start, end, ascending)
    ensures forall n :: n in out <==>
              && n.key in view && view[n.key] == n
              && (start.None? || AtMost(start.value, n.key)) && (end.None? || Less(n.key, end.value))
  {
  }

  method MergeAll(start: Option<Key>, end: Option<Key>, ascending: bool, all: FastNodeChanges, entries: seq<FastNode>,
                  ghost index: Index)
    returns (out: seq<FastNode>)
    requires all.Valid() && Lists(entries, index, start, end, ascending)
    ensures Lists(out, Overlay(all.Model(), index), start, end, ascending)
  {
    hide Overlay, ChangesOf, Lists, Merge;
    var added := SortAdditions(all.additions, start, end, ascending);
    MergeListsOverlay(all.additions, all.removals, index, entries, added, start, end, ascending);
    var iter := new UnsavedFastIterator(start, end, ascending, entries, added, all.removals);
    out := Drain(iter, Overlay(all.Model(), index));
  }

  /** The keys of the entries listed. */
  ghost predicate ListsKeys(out: seq<FastNode>, keys: set<Key>, start: Option<Key>, end: Option<Key>) {
    forall k :: (exists n :: n in out && n.key == k) <==> k in keys && InRange(start, end, k)
  }

  lemma ListedKeys(out: seq<FastNode>, view: Index, start: Option<Key>, end: Option<Key>, ascending: bool)
    requires Lists(out, view, start, end, ascending) && forall k :: k in view ==> view[k].key == k
    ensures ListsKeys(out, view.Keys, start, end)
  {
    forall k ensures (exists n :: n in out && n.key == k) <==> k in view.Keys && InRange(start, end, k) {
      if k in view && InRange(start, end, k) { assert view[k] in out; }
    }
  }

  /** Listing more keys than those of the map in the range, or not. */
  lemma ListsExactly(out: seq<FastNode>, listed: set<Key>, keys: set<Key>, start: Option<Key>, end: Option<Key>)
    requires ListsKeys(out, listed, start, end) && keys <= listed
    ensures ListsKeys(out, keys, start, end) <==> !exists k :: k in listed && k !in keys && InRange(start, end, k)
  {
    if k :| k in listed && k !in keys && InRange(start, end, k) { assert exists n :: n in out && n.key == k; }
  }

  /**
   * In every run, iterating the working tree through the flat index, which is done while it is at the latest version,
   * yields the entries of the tree in the range exactly when none of the keys the index has forgotten is in the range.
   */
  lemma IterationIsContents(s0: FastReads.State, actions: seq<FastReads.Action>, s: FastReads.State, out: seq<FastNode>,
                            start: Option<Key>, end: Option<Key>, ascending: bool)
    requires FastReads.Initial(s0) && FastReads.Run(s0, actions, s) && s.w.version == s.memory
    requires Lists(out, Overlay(s.unsaved, FastReads.Live(s)), start, end, ascending)
    ensures Sorted(ascending, out)
    ensures ListsKeys(out, RootContents(s.w.root).Keys, start, end) <==>
            !exists k :: k in s.forgotten && k !in s.unsaved && InRange(start, end, k)
    ensures forall n :: n in out && n.key in RootContents(s.w.root) ==> RootContents(s.w.root)[n.key] == n.value
  {
    hide FastReads.Initial, FastReads.Run, FastReads.Inv, FastReads.Live, RootContents;
    FastReads.InitialIsInv(s0);
    FastReads.RunKeepsInv(s0, actions, s);
    var live, m := FastReads.Live(s), RootContents(s.w.root);
    var view := Overlay(s.unsaved, live);
    forall k
      ensures k in view <==> k in m || (k in s.forgotten && k !in s.unsaved)
      ensures k in view ==> view[k].key == k && (k in m ==> view[k].value == m[k])
      ensures k in s.forgotten && k !in s.unsaved ==> k !in m
    {
      FastReads.WorkingIsTracked(s, k);
      FastReads.ForgottenIsIndexed(s, k);
      FastReads.KeysAreRight(s, k);
    }
    ListedKeys(out, view, start, end, ascending);
    ListsExactly(out, view.Keys, m.Keys, start, end);
  }

  /**
   * Iterating a saved tree goes through the flat index only at the latest version, and without the unsaved changes. It
   * yields that version's entries exactly when the index has no key in the range that is good only for earlier
   * versions.
   */
  lemma SavedIterationIsContents(s0: FastReads.State, actions: seq<FastReads.Action>, s: FastReads.State,
                                 out: seq<FastNode>, start: Option<Key>, end: Option<Key>, ascending: bool)
    requires FastReads.Initial(s0) && FastReads.Run(s0, actions, s)
    requires Lists(out, FastReads.Live(s), start, end, ascending)
    ensures var latest := FastReads.At(s.history, |s.history|);
            && (ListsKeys(out, latest.Keys, start, end) <==>
                 !exists k :: && k in FastReads.Live(s) && InRange(start, end, k)
                              && FastReads.Good(s.forgotten, s.merged, k) < |s.history|)
            && forall n :: n in out && n.key in latest ==> latest[n.key] == n.value
  {
    hide FastReads.Initial, FastReads.Run, FastReads.Inv, FastReads.Live, FastReads.At;
    FastReads.InitialIsInv(s0);
    FastReads.RunKeepsInv(s0, actions, s);
    var live, latest := FastReads.Live(s), FastReads.At(s.history, |s.history|);
    forall k
      ensures k in latest <==> k in live && FastReads.Good(s.forgotten, s.merged, k) >= |s.history|
      ensures k in live ==> live[k].key == k && (k in latest ==> live[k].value == latest[k])
    {
      FastReads.KeysAreRight(s, k);
    }
    ListedKeys(out, live, start, end, ascending);
    ListsExactly(out, live.Keys, latest.Keys, start, end);
  }

  /** Without forgotten keys that is: when the index is not behind, or has nothing in the range. */
  lemma SavedIterationBehind(s: FastReads.State, start: Option<Key>, end: Option<Key>)
    requires s.forgotten == map[] && s.merged <= |s.history|
    ensures (exists k :: && k in FastReads.Live(s) && InRange(start, end, k)
                         && FastReads.Good(s.forgotten, s.merged, k) < |s.history|) <==>
            s.merged != |s.history| && exists k :: k in FastReads.Live(s) && InRange(start, end, k)
  {
    hide FastReads.Live;
  }

  /** After an asynchronous save of an emptied tree, iterating that version lists the removed key. */
  lemma RemovedKeyIsListed(key: Key, value: Value, out: seq<FastNode>, ascending: bool)
      returns (actions: seq<FastReads.Action>, s: FastReads.State)
    requires Lists(out, map[key := FastNode(key, 1, value)], None, None, ascending)
    ensures FastReads.Initial(FastReads.Empty(true)) && FastReads.Run(FastReads.Empty(true), actions, s)
    ensures Lists(out, FastReads.Live(s), None, None, ascending) && out != [] && |s.history| == 2
            && FastReads.At(s.history, 2) == map[]
  {
    FastReads.SaveOneKey(key, value, false);
    FastReads.SaveNoKey(key, value);
    s := FastReads.NoKey(key, value);
    var a := [FastReads.Change(Orphans.Set(key, value)), FastReads.SaveAsync(false)];
    var b := [FastReads.Change(Orphans.Remove(key)), FastReads.SaveAsync(false)];
    actions := a + b;
    FastReads.RunOn(FastReads.Empty(true), a, FastReads.OneKey(key, value, false), b, s);
    var view := map[key := FastNode(key, 1, value)];
    assert view[key] in out;
  }
}
