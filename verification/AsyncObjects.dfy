/**
 * The objects the asynchronous commit works on, keyed by hash, and that their methods do what AsyncCommit's steps say.
 */
module AsyncObjects {
  import opened ByteOrder
  import opened Tree
  import opened Hashing
  import AsyncCommit

  // ---------------------------------------------------------------- nodes by hash

  type NodeMap = map<Hash, Tree>

  ghost predicate Keyed(h: Hasher, m: NodeMap) {
    forall k :: k in m ==> HashOf(h, m[k]) == k && Proper(m[k])
  }

  lemma PutNode(h: Hasher, m: NodeMap, n: Tree)
    requires Injective(h) && Keyed(h, m) && Proper(n)
    ensures Keyed(h, m[HashOf(h, n) := n]) && m[HashOf(h, n) := n].Values == m.Values + {n}
  {
    hide HashOf, Injective, Proper;
    var hash, m' := HashOf(h, n), m[HashOf(h, n) := n];
    assert m'[hash] in m'.Values;
    if hash in m { HashIdentifiesTree(h, m[hash], n); }
    forall t | t in m.Values ensures t in m'.Values {
      var k :| k in m && m[k] == t;
      assert m'[k] == t;
    }
  }

  lemma DropNode(h: Hasher, m: NodeMap, n: Tree)
    requires Injective(h) && Keyed(h, m) && Proper(n)
    ensures Keyed(h, m - {HashOf(h, n)}) && (m - {HashOf(h, n)}).Values == m.Values - {n}
  {
    hide HashOf, Injective, Proper;
    var hash := HashOf(h, n);
    var m' := m - {hash};
    if hash in m { HashIdentifiesTree(h, m[hash], n); }
    forall t | t in m.Values && t != n ensures t in m'.Values {
      var k :| k in m && m[k] == t;
      assert k != hash && m'[k] == t;
    }
  }

  /** A lookup by hash finds the node of that hash, if it is there. */
  lemma FoundNode(h: Hasher, m: NodeMap, n: Tree)
    requires Injective(h) && Keyed(h, m) && Proper(n)
    ensures HashOf(h, n) in m <==> n in m.Values
    ensures HashOf(h, n) in m ==> m[HashOf(h, n)] == n
  {
    hide HashOf, Injective, Proper;
    var hash := HashOf(h, n);
    if hash in m { HashIdentifiesTree(h, m[hash], n); }
  }

  ghost predicate AllProper(nodes: seq<Tree>) {
    forall n :: n in nodes ==> Proper(n)
  }

  // ---------------------------------------------------------------- OrphanInfo

  datatype OrphanItem = OrphanItem(root: Option<Tree>, orphans: seq<Tree>)

  function ItemsOf(items: map<int, OrphanItem>): map<int, AsyncCommit.Item> {
    map v | v in items :: AsyncCommit.Item(items[v].root, set n | n in items[v].orphans)
  }

  class OrphanInfo {
    const h: Hasher
    const itemSize: nat
    var orphanNodeCache: NodeMap
    var orphanItemMap: map<int, OrphanItem>

    ghost predicate Valid()
      reads this
    {
      && Injective(h) && Keyed(h, orphanNodeCache)
      && forall v :: v in orphanItemMap ==> AllProper(orphanItemMap[v].orphans)
    }

    constructor (h: Hasher, itemSize: nat)
      requires Injective(h)
      ensures Valid() && this.h == h && this.itemSize == itemSize && orphanNodeCache == map[] && orphanItemMap == map[]
    {
      this.h, this.itemSize, orphanNodeCache, orphanItemMap := h, itemSize, map[], map[];
    }

    /** addOrphanItem; false where it panics. */
    method AddOrphanItem(version: int, root: Option<Tree>) returns (ok: bool)
      requires Valid()
      modifies this`orphanItemMap
      ensures Valid() && (ok <==> version !in old(orphanItemMap))
      ensures ItemsOf(orphanItemMap) == if ok then ItemsOf(old(orphanItemMap))[version := AsyncCommit.Item(root, {})]
              else ItemsOf(old(orphanItemMap))
    {
      if version in orphanItemMap { return false; }
      orphanItemMap := orphanItemMap[version := OrphanItem(root, [])];
      assert ItemsOf(orphanItemMap)[version].orphans == {};
      return true;
    }

    method FeedOrphansMap(version: int, orphans: seq<Tree>)
      requires Valid() && AllProper(orphans)
      modifies this`orphanItemMap
      ensures Valid() && ItemsOf(orphanItemMap) ==
                AsyncCommit.FeedItems(old(ItemsOf(orphanItemMap)), version, AsyncCommit.Elements(orphans))
    {
      if version !in orphanItemMap { return; }
      orphanItemMap := orphanItemMap[version := orphanItemMap[version].(orphans := orphans)];
    }

    method FeedOrphanNodeCache(node: Tree)
      requires Valid() && Proper(node)
      modifies this`orphanNodeCache
      ensures Valid() && orphanNodeCache.Values == old(orphanNodeCache.Values) + {node}
    {
      PutNode(h, orphanNodeCache, node);
      orphanNodeCache := orphanNodeCache[HashOf(h, node) := node];
    }

    /** The orphans filed under a version. */
    ghost function OrphansAt(version: int): set<Tree>
      reads this
    {
      if version in orphanItemMap then set n | n in orphanItemMap[version].orphans else {}
    }

    /** removeOldOrphans: the orphans of the version that falls out of the window leave the cache, its item goes. */
    method RemoveOldOrphans(version: int)
      requires Valid()
      modifies this
      ensures Valid() && ItemsOf(orphanItemMap) == old(ItemsOf(orphanItemMap)) - {version - itemSize}
      ensures orphanNodeCache.Values == old(orphanNodeCache.Values) - old(OrphansAt(version - itemSize))
    {
      var expired := version - itemSize;
      if expired !in orphanItemMap { return; }
      var orphans := orphanItemMap[expired].orphans;
      var i := 0;
      while i < |orphans|
        invariant 0 <= i <= |orphans| && Valid() && orphanItemMap == old(orphanItemMap)
        invariant orphanNodeCache.Values == old(orphanNodeCache.Values) - AsyncCommit.Elements(orphans[..i])
      {
        DropNode(h, orphanNodeCache, orphans[i]);
        orphanNodeCache := orphanNodeCache - {HashOf(h, orphans[i])};
        assert AsyncCommit.Elements(orphans[..i + 1]) == AsyncCommit.Elements(orphans[..i]) + {orphans[i]};
        i := i + 1;
      }
      assert orphans[..i] == orphans;
      orphanItemMap := orphanItemMap - {expired};
    }
  }

  // ---------------------------------------------------------------- tempPrePersistNodes

  class TempPrePersistNodes {
    var tppMap: map<int, NodeMap>
    var tppVersionList: seq<int>

    ghost predicate Valid(h: Hasher)
      reads this
    {
      && (forall i :: 0 <= i < |tppVersionList| ==> tppVersionList[i] in tppMap)
      && (forall v :: v in tppMap ==> v in tppVersionList && Keyed(h, tppMap[v]))
      && forall i, j :: 0 <= i < j < |tppVersionList| ==> tppVersionList[i] != tppVersionList[j]
    }

    ghost function Nodes(): map<int, set<Tree>>
      reads this
    {
      map v | v in tppMap :: tppMap[v].Values
    }

    constructor ()
      ensures tppMap == map[] && tppVersionList == []
    {
      tppMap, tppVersionList := map[], [];
    }

    method PushToTpp(version: int, nodes: NodeMap, ghost h: Hasher)
      requires Valid(h) && Keyed(h, nodes) && version !in tppMap
      modifies this
      ensures Valid(h) && Nodes() == old(Nodes())[version := nodes.Values]
    {
      tppVersionList := tppVersionList + [version];
      tppMap := tppMap[version := nodes];
    }

    method RemoveFromTpp(version: int, ghost h: Hasher)
      requires Valid(h)
      modifies this
      ensures Valid(h) && Nodes() == old(Nodes()) - {version}
    {
      if i :| 0 <= i < |tppVersionList| && tppVersionList[i] == version {
        tppVersionList := tppVersionList[..i] + tppVersionList[i + 1..];
      }
      tppMap := tppMap - {version};
    }

    /** getNode: the versions from the newest to the oldest. */
    method GetNode(hash: Hash, ghost h: Hasher) returns (r: Option<Tree>)
      requires Valid(h)
      ensures r.Some? ==> HashOf(h, r.value) == hash && exists v :: v in tppMap && r.value in tppMap[v].Values
      ensures r.None? ==> forall v :: v in tppMap ==> hash !in tppMap[v]
    {
      var i := |tppVersionList|;
      while i > 0
        invariant 0 <= i <= |tppVersionList|
        invariant forall j :: i <= j < |tppVersionList| ==> hash !in tppMap[tppVersionList[j]]
      {
        i := i - 1;
        var version := tppVersionList[i];
        if hash in tppMap[version] {
          assert version in tppMap && Keyed(h, tppMap[version]) && tppMap[version][hash] in tppMap[version].Values;
          return Some(tppMap[version][hash]);
        }
      }
      return None;
    }
  }

  // ---------------------------------------------------------------- the node database in memory

  class NodeMemory {
    const h: Hasher
    var prePersistNodeCache: NodeMap
    const tpp: TempPrePersistNodes
    const oi: OrphanInfo

    ghost predicate Valid()
      reads this, tpp, oi
    {
      Injective(h) && oi.h == h && Keyed(h, prePersistNodeCache) && tpp.Valid(h) && oi.Valid()
    }

    constructor (h: Hasher, itemSize: nat)
      requires Injective(h)
      ensures Valid() && this.h == h && oi.itemSize == itemSize
    {
      this.h, prePersistNodeCache := h, map[];
      tpp := new TempPrePersistNodes();
      oi := new OrphanInfo(h, itemSize);
    }

    method SaveNodeToPrePersistCache(node: Tree)
      requires Valid() && Proper(node)
      modifies this
      ensures Valid() && prePersistNodeCache.Values == old(prePersistNodeCache.Values) + {node}
    {
      PutNode(h, prePersistNodeCache, node);
      prePersistNodeCache := prePersistNodeCache[HashOf(h, node) := node];
    }

    /** saveNewOrphans: the three effects of AsyncCommit.FeedOrphans. */
    method SaveNewOrphans(version: int, orphans: seq<Tree>)
      requires Valid() && AllProper(orphans)
      modifies this, oi
      ensures Valid()
      ensures ItemsOf(oi.orphanItemMap) ==
                AsyncCommit.FeedItems(old(ItemsOf(oi.orphanItemMap)), version - 1, AsyncCommit.Elements(orphans))
      ensures oi.orphanNodeCache.Values == old(oi.orphanNodeCache.Values) + AsyncCommit.Elements(orphans)
      ensures prePersistNodeCache.Values == old(prePersistNodeCache.Values) - AsyncCommit.Elements(orphans)
    {
      oi.FeedOrphansMap(version - 1, orphans);
      ghost var items := oi.orphanItemMap;
      var i := 0;
      while i < |orphans|
        invariant 0 <= i <= |orphans| && Valid() && oi.orphanItemMap == items
        invariant oi.orphanNodeCache.Values == old(oi.orphanNodeCache.Values) + AsyncCommit.Elements(orphans[..i])
        invariant prePersistNodeCache.Values == old(prePersistNodeCache.Values) - AsyncCommit.Elements(orphans[..i])
      {
        oi.FeedOrphanNodeCache(orphans[i]);
        DropNode(h, prePersistNodeCache, orphans[i]);
        prePersistNodeCache := prePersistNodeCache - {HashOf(h, orphans[i])};
        assert AsyncCommit.Elements(orphans[..i + 1]) == AsyncCommit.Elements(orphans[..i]) + {orphans[i]};
        i := i + 1;
      }
      assert orphans[..i] == orphans;
    }

    /** asyncPersistTppStart: the pre-persist cache becomes the version's nodes in flight. */
    method PersistTppStart(version: int) returns (moved: NodeMap)
      requires Valid() && version !in tpp.tppMap
      modifies this, tpp
      ensures Valid() && moved == old(prePersistNodeCache) && prePersistNodeCache == map[]
      ensures tpp.Nodes() == old(tpp.Nodes())[version := moved.Values]
    {
      moved := prePersistNodeCache;
      prePersistNodeCache := map[];
      tpp.PushToTpp(version, moved, h);
    }

    /** getNodeFromMemory, the node cache aside: the node of the hash if any of the three places has it. */
    method GetNodeFromMemory(hash: Hash) returns (r: Option<Tree>)
      requires Valid()
      ensures r.Some? ==> HashOf(h, r.value) == hash
      ensures r.Some? <==> || hash in prePersistNodeCache || hash in oi.orphanNodeCache
                           || exists v :: v in tpp.tppMap && hash in tpp.tppMap[v]
    {
      if hash in prePersistNodeCache { return Some(prePersistNodeCache[hash]); }
      r := tpp.GetNode(hash, h);
      if r.Some? { return; }
      if hash in oi.orphanNodeCache { return Some(oi.orphanNodeCache[hash]); }
      return None;
    }
  }

  // ---------------------------------------------------------------- the pool of committed heights

  ghost predicate NoRepetition(queue: seq<int>) {
    forall i, j :: 0 <= i < j < |queue| ==> queue[i] != queue[j]
  }

  lemma OnePushed(queue: seq<int>, version: int)
    ensures AsyncCommit.Elements(queue + [version]) == AsyncCommit.Elements(queue) + {version}
    ensures NoRepetition(queue) && version !in AsyncCommit.Elements(queue) ==> NoRepetition(queue + [version])
  {
  }

  lemma OnePopped(queue: seq<int>)
    requires queue != []
    ensures queue == [queue[0]] + queue[1..]
    ensures NoRepetition(queue) ==>
      && NoRepetition(queue[1..])
      && AsyncCommit.Elements(queue[1..]) == AsyncCommit.Elements(queue) - {queue[0]}
    ensures AsyncCommit.Increasing(queue) ==>
      AsyncCommit.Increasing(queue[1..]) && forall q :: q in AsyncCommit.Elements(queue[1..]) ==> queue[0] < q
  {
    assert forall q :: q in queue <==> q == queue[0] || q in queue[1..];
  }

  class HeightPool {
    var committedHeightQueue: seq<int>
    var committedHeightMap: set<int>
    var removedVersions: set<int>
    const historyStateNum: nat

    /** Queue and map hold the same versions, each once. */
    ghost predicate Valid()
      reads this
    {
      && committedHeightMap == AsyncCommit.Elements(committedHeightQueue)
      && historyStateNum >= 1
      && NoRepetition(committedHeightQueue)
    }

    /** The pool filled from the roots on disk in order. */
    constructor (queue: seq<int>, historyStateNum: nat)
      requires AsyncCommit.Increasing(queue) && historyStateNum >= 1
      ensures Valid() && committedHeightQueue == queue && removedVersions == {}
              && this.historyStateNum == historyStateNum
    {
      committedHeightQueue, committedHeightMap, removedVersions := queue, set v | v in queue, {};
      this.historyStateNum := historyStateNum;
    }

    /**
     * updateCommittedStateHeightPool, which the commit goroutine calls for a version not in the pool. Queue and map
     * stay in step; the pool keeps the latest versions, and what leaves it is the one pushed first, marked if it may
     * go.
     */
    method Update(version: int, current: int, versions: set<int>, readers: set<int>) returns (popped: Option<int>)
      requires Valid() && version !in committedHeightMap
      modifies this
      ensures Valid() && version in committedHeightMap
      ensures popped.Some? <==> |old(committedHeightQueue)| >= historyStateNum
      ensures old(committedHeightQueue) + [version] ==
              (if popped.Some? then [popped.value] else []) + committedHeightQueue
      ensures popped.Some? ==> popped.value !in committedHeightMap
      ensures var deleted := popped.Some? && AsyncCommit.MayDelete(popped.value, current, versions, readers);
              removedVersions == old(removedVersions) + if deleted then {popped.value} else {}
      ensures AsyncCommit.Increasing(old(committedHeightQueue) + [version]) ==>
                && AsyncCommit.Increasing(committedHeightQueue)
                && forall q :: popped.Some? && q in committedHeightMap ==> popped.value < q
    {
      committedHeightQueue := committedHeightQueue + [version];
      committedHeightMap := committedHeightMap + {version};
      ghost var pushed := committedHeightQueue;
      OnePushed(old(committedHeightQueue), version);
      hide AsyncCommit.Elements, AsyncCommit.Increasing;
      popped := None;
      if |committedHeightQueue| > historyStateNum {
        var oldVersion := committedHeightQueue[0];
        popped := Some(oldVersion);
        committedHeightQueue := committedHeightQueue[1..];
        committedHeightMap := committedHeightMap - {oldVersion};
        OnePopped(pushed);
        if oldVersion != 0 && oldVersion != current && oldVersion in versions && oldVersion !in readers {
          removedVersions := removedVersions + {oldVersion};
        }
      }
    }
  }
}
