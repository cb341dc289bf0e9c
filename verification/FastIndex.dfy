/**
 * The flat index as the node database holds it: objects for the pending layers and the cache, over the entries on disk.
 */
module FastIndex {
  import opened ByteOrder
  import opened Tree
  import opened FastChanges
  import opened FastNodeCache
  import FastReads

  class FastIndex {
    var prePersistFastNode: FastNodeChanges
    const tpfv: FastNodeChangesWithVersion
    const fastNodeCache: FastNodeCache
    var disk: Index

    ghost predicate Valid()
      reads this, prePersistFastNode, tpfv, tpfv.fncMap.Values, fastNodeCache
    {
      && prePersistFastNode.Valid() && tpfv.Valid() && fastNodeCache.Valid()
      && prePersistFastNode !in tpfv.fncMap.Values
      && forall k :: k in disk ==> disk[k].key == k
    }

    constructor (disk: Index)
      requires forall k :: k in disk ==> disk[k].key == k
      ensures Valid() && this.disk == disk && prePersistFastNode.Model() == map[] && tpfv.Layers() == []
              && fastNodeCache.items == map[]
    {
      prePersistFastNode := new FastNodeChanges();
      tpfv := new FastNodeChangesWithVersion();
      fastNodeCache := new FastNodeCache();
      this.disk := disk;
    }

    /** The whole index: the pending changes over those in flight, newest on top, over the entries on disk. */
    ghost function Whole(): Index
      requires Valid()
      reads this, prePersistFastNode, tpfv, tpfv.fncMap.Values, fastNodeCache
    {
      Overlay(prePersistFastNode.Model(), OverlayLayers(tpfv.Layers(), disk))
    }

    /** Some pending layer adds or removes the key. */
    ghost predicate Decided(key: Key)
      requires Valid()
      reads this, prePersistFastNode, tpfv, tpfv.fncMap.Values, fastNodeCache
    {
      key in prePersistFastNode.Model() || exists c :: c in tpfv.Layers() && key in c
    }

    static function Stored(cached: Index, disk: Index, key: Key): Option<FastNode> {
      if key in cached then Some(cached[key]) else if key in disk then Some(disk[key]) else None
    }

    /** The layers that are not on disk yet: what they say is what the whole index says. */
    method GetPending(key: Key) returns (r: Option<Option<FastNode>>)
      requires Valid()
      ensures r.Some? <==> Decided(key)
      ensures Lookup(Whole(), key) == if r.Some? then r.value else Lookup(disk, key)
    {
      hide FindLayers, OverlayLayers, ChangesOf, FastNodeChangesWithVersion.Stack;
      LayersDecide(tpfv.Layers(), disk, key);
      r := prePersistFastNode.Get(key);
      if r.None? { r := tpfv.Get(key); }
    }

    /** The cache, then disk; an entry read from disk is cached, which may evict others. */
    method GetStored(key: Key, cacheSize: nat) returns (r: Option<FastNode>)
      requires fastNodeCache.Valid() && forall k :: k in disk ==> disk[k].key == k
      modifies fastNodeCache
      ensures fastNodeCache.Valid() && r == Stored(old(fastNodeCache.items), disk, key)
      ensures forall k :: k in fastNodeCache.items ==>
                Some(fastNodeCache.items[k]) == Stored(old(fastNodeCache.items), disk, k)
    {
      hide Without, Distinct;
      r := fastNodeCache.Get(key, true);
      if r.Some? || key !in disk { return; }
      fastNodeCache.Cache(disk[key], cacheSize);
      r := Some(disk[key]);
    }

    /**
     * GetFastNode: what the whole index has for the key, if a pending layer decides it or the cache has nothing but
     * what disk has. The cache only ever gains what disk has.
     */
    method GetFastNode(key: Key, cacheSize: nat) returns (r: FastReads.Fetched)
      requires Valid()
      modifies fastNodeCache
      ensures Valid() && (r.Failed? <==> key == [])
      ensures key != [] && (old(Decided(key)) || old(key in fastNodeCache.items ==> Cached(key))) ==>
                r.node == Lookup(old(Whole()), key)
      ensures forall k :: k in fastNodeCache.items ==>
                Some(fastNodeCache.items[k]) == Stored(old(fastNodeCache.items), disk, k)
    {
      hide Decided, Whole, ChangesOf, FastNodeChangesWithVersion.Stack, Distinct;
      if |key| == 0 { return FastReads.Failed; }
      var decided := GetPending(key);
      if decided.Some? { return FastReads.Fetched(decided.value); }
      var stored := GetStored(key, cacheSize);
      return FastReads.Fetched(stored);
    }

    /** updateBranchForFastNode and the reset of the unsaved changes: they go on top of the pending ones. */
    method UpdateBranchForFastNode(unsaved: FastNodeChanges)
      requires Valid() && unsaved.Valid() && unsaved != prePersistFastNode && unsaved !in tpfv.fncMap.Values
      modifies prePersistFastNode, unsaved
      ensures Valid() && tpfv.Layers() == old(tpfv.Layers())
      ensures prePersistFastNode.Model() == Beneath(old(unsaved.Model()), old(prePersistFastNode.Model()))
              && unsaved.Model() == map[]
    {
      hide ChangesOf, Beneath;
      prePersistFastNode.MergeLater(unsaved);
      unsaved.Reset();
      assert forall v :: v in tpfv.fncMap ==> tpfv.fncMap[v] in tpfv.fncMap.Values;
    }

    /** asyncPersistTppStart: the pending changes become the newest layer in flight. */
    method PersistStart(version: int) returns (moved: FastNodeChanges)
      requires Valid() && version !in tpfv.versions
      modifies this, tpfv
      ensures Valid() && moved == old(prePersistFastNode) && fresh(prePersistFastNode)
              && prePersistFastNode.Model() == map[]
      ensures tpfv.Layers() == old(tpfv.Layers()) + [moved.Model()] && disk == old(disk)
    {
      moved := prePersistFastNode;
      tpfv.Add(version, moved);
      prePersistFastNode := new FastNodeChanges();
    }

    /** Cached entries are old ones, or additions of a batch; keys the batch removes are not cached. */
    ghost predicate Staged(before: Index, batch: Changes)
      reads fastNodeCache
    {
      forall k :: k in fastNodeCache.items ==>
        if k in batch then batch[k] == Some(fastNodeCache.items[k])
            else k in before && fastNodeCache.items[k] == before[k]
    }

    /**
     * saveFastNodeVersion: every addition is put into the batch and cached, every removal is put into it and uncached.
     */
    method SaveFastNodeVersion(fnc: FastNodeChanges, cacheSize: nat) returns (batch: Changes)
      requires fastNodeCache.Valid() && fnc.Valid()
      modifies fastNodeCache
      ensures fastNodeCache.Valid() && batch == fnc.Model() && Staged(old(fastNodeCache.items), batch)
    {
      hide Without, Distinct, ChangesOf;
      batch := map[];
      var todo := fnc.additions.Keys;
      ChangesOfParts(fnc.additions, fnc.removals);
      while todo != {}
        invariant fastNodeCache.Valid() && todo <= fnc.additions.Keys
        invariant batch == ChangesOf(fnc.additions - todo, {}) && Staged(old(fastNodeCache.items), batch)
        decreases todo
      {
        var k :| k in todo;
        OneMoreAddition(fnc.additions, todo, k);
        fastNodeCache.Cache(fnc.additions[k], cacheSize);
        batch, todo := batch[k := Some(fnc.additions[k])], todo - {k};
      }
      batch := StageRemovals(fnc, batch, old(fastNodeCache.items));
    }

    static lemma UpdateLast(a: Changes, b: Changes, k: Key)
      ensures (a + b)[k := None] == a + b[k := None]
    {
    }

    method RemoveOne(batch: Changes, k: Key, ghost before: Index)
      requires fastNodeCache.Valid() && Staged(before, batch)
      modifies fastNodeCache
      ensures fastNodeCache.Valid() && Staged(before, batch[k := None])
    {
      hide Without, Distinct;
      fastNodeCache.Uncache(k);
    }

    method StageRemovals(fnc: FastNodeChanges, additions: Changes, ghost before: Index) returns (batch: Changes)
      requires fastNodeCache.Valid() && fnc.Valid() && additions == ChangesOf(fnc.additions, {})
               && Staged(before, additions)
      modifies fastNodeCache
      ensures fastNodeCache.Valid() && batch == fnc.Model() && Staged(before, batch)
    {
      hide Without, Distinct, ChangesOf;
      batch := additions;
      var todo := fnc.removals;
      ChangesOfParts(fnc.additions, fnc.removals);
      assert additions + map[] == additions;
      while todo != {}
        invariant fastNodeCache.Valid() && todo <= fnc.removals
        invariant batch == additions + ChangesOf(map[], fnc.removals - todo) && Staged(before, batch)
        decreases todo
      {
        var k :| k in todo;
        OneMoreRemoval(fnc.removals, todo, k);
        UpdateLast(additions, ChangesOf(map[], fnc.removals - todo), k);
        RemoveOne(batch, k, before);
        batch, todo := batch[k := None], todo - {k};
      }
    }

    /** The cached entry is the stored one. */
    ghost predicate Cached(key: Key)
      reads this, fastNodeCache
    {
      key in fastNodeCache.items && key in disk && disk[key] == fastNodeCache.items[key]
    }

    /** Every cached entry is the stored one. */
    ghost predicate CacheAgrees()
      reads this, fastNodeCache
    {
      forall k :: k in fastNodeCache.items ==> Cached(k)
    }

    /** The batch commit. */
    method Commit(batch: Changes)
      requires Valid() && forall k :: k in batch && batch[k].Some? ==> batch[k].value.key == k
      modifies this`disk
      ensures Valid() && disk == Overlay(batch, old(disk))
    {
      disk := map k | k in disk.Keys + batch.Keys && (k in batch ==> batch[k].Some?) ::
            if k in batch then batch[k].value else disk[k];
    }

    /**
     * persistTpp's fast part: the batch is filled, the cache updated, the batch committed. The cache agrees with disk
     * again, and a stored lookup of any key finds what the change set says, or else what it found before.
     */
    method Persist(fnc: FastNodeChanges, cacheSize: nat)
      requires Valid() && CacheAgrees() && fnc.Valid() && fnc != prePersistFastNode
      modifies this`disk, fastNodeCache
      ensures Valid() && CacheAgrees() && disk == Overlay(fnc.Model(), old(disk))
      ensures forall k :: Stored(fastNodeCache.items, disk, k) ==
                if k in fnc.Model() then fnc.Model()[k] else old(Stored(fastNodeCache.items, disk, k))
    {
      hide FastNodeChangesWithVersion.Stack, Distinct, Without;
      var batch := SaveFastNodeVersion(fnc, cacheSize);
      assert forall k :: k in batch && batch[k].Some? ==> batch[k].value.key == k;
      Commit(batch);
    }
  }
}
