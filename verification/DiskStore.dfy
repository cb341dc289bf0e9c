/** nodeDB's writes: records, roots and orphan entries keyed by hash, refining the store of VersionStore. */
module DiskStore {
  import opened ByteOrder
  import opened Tree
  import opened Orphans
  import opened VersionStore
  import opened Hashing
  import opened NodeHeap
  import opened FastChanges

  /** What is on disk, as a value. */
  datatype Raw = Raw(disk: Disk, roots: map<int, Hash>, entries: set<Entry>)

  ghost function RawOf(db: NodeDB): Raw
    reads db
  {
    Raw(db.disk, db.roots, db.entries)
  }

  /** An empty root is stored as the empty byte string. */
  ghost function RootHash(h: Hasher, root: Option<Tree>): Hash {
    if root.None? then [] else HashOf(h, root.value)
  }

  ghost function EntryOf(h: Hasher, o: Orphan): Entry {
    Entry(o.from, o.to, HashOf(h, o.node))
  }

  /** Every tree the store speaks of is proper, so that hashes identify nodes. */
  ghost predicate Tidy(st: Store) {
    && (forall s :: s in st.nodes ==> Proper(s))
    && (forall o :: o in st.orphans ==> o.node in st.nodes)
  }

  /** The bytes on disk are exactly those of the store: no record, root or entry more or less. */
  ghost predicate Represents(h: Hasher, raw: Raw, st: Store) {
    && (forall hash :: hash in raw.disk <==> exists s :: s in st.nodes && hash == HashOf(h, s))
    && (forall s :: s in st.nodes ==> HashOf(h, s) in raw.disk && raw.disk[HashOf(h, s)] == RecordOf(h, s))
    && raw.roots.Keys == st.roots.Keys
    && (forall v :: v in st.roots ==> raw.roots[v] == RootHash(h, st.roots[v]))
    && (forall e :: e in raw.entries <==> exists o :: o in st.orphans && e == EntryOf(h, o))
  }

  // ---------------------------------------------------------------- deletion by hash

  /** Entries that end in [from, to) either lose their node or move back to version `p`. */
  function Expire(raw: Raw, from: int, to: int, p: int): Raw {
    Raw(raw.disk - set e | e in raw.entries && from <= e.to < to && e.from > p :: e.hash,
        map v | v in raw.roots && !(from <= v < to) :: raw.roots[v],
        (set e | e in raw.entries && !(from <= e.to < to)) +
        set e | e in raw.entries && from <= e.to < to && e.from <= p :: Entry(e.from, p, e.hash))
  }

  lemma SameHashSameNode(h: Hasher, st: Store, a: Tree, b: Tree)
    requires Injective(h) && Tidy(st) && a in st.nodes && b in st.nodes && HashOf(h, a) == HashOf(h, b)
    ensures a == b
  {
    HashIdentifiesTree(h, a, b);
  }

  /** Deleting by hash does on disk what DeleteRange does to the store. */
  lemma ExpireRefinesDeleteRange(h: Hasher, raw: Raw, st: Store, from: int, to: int)
    requires Injective(h) && Tidy(st) && Represents(h, raw, st)
    ensures Represents(h, Expire(raw, from, to, Previous(raw.roots.Keys, from)), DeleteRange(st, from, to))
  {
    var p := Previous(raw.roots.Keys, from);
    var raw', st' := Expire(raw, from, to, p), DeleteRange(st, from, to);
    hide HashOf, Injective, RecordOf, Previous, Tidy;
    forall s | s in st.nodes ensures HashOf(h, s) in raw'.disk <==> s in st'.nodes {
      ExpiredNode(h, raw, st, from, to, p, s);
    }
    forall e ensures e in raw'.entries <==> exists o :: o in st'.orphans && e == EntryOf(h, o) {
      ExpiredEntry(h, raw, st, from, to, p, e);
    }
  }

  lemma ExpiredNode(h: Hasher, raw: Raw, st: Store, from: int, to: int, p: int, s: Tree)
    requires Injective(h) && Tidy(st) && Represents(h, raw, st) && s in st.nodes
    requires p == Previous(st.roots.Keys, from)
    ensures HashOf(h, s) in Expire(raw, from, to, p).disk <==> s in DeleteRange(st, from, to).nodes
  {
    hide HashOf, Injective, RecordOf, Previous, Proper;
    var hash := HashOf(h, s);
    if e :| e in raw.entries && from <= e.to < to && e.from > p && e.hash == hash {
      var o :| o in st.orphans && e == EntryOf(h, o);
      SameHashSameNode(h, st, o.node, s);
    }
    if o :| o in st.orphans && from <= o.to < to && o.from > p && o.node == s {
      assert EntryOf(h, o) in raw.entries;
    }
  }

  lemma ExpiredEntry(h: Hasher, raw: Raw, st: Store, from: int, to: int, p: int, e: Entry)
    requires Represents(h, raw, st) && p == Previous(st.roots.Keys, from)
    ensures e in Expire(raw, from, to, p).entries <==>
            exists o :: o in DeleteRange(st, from, to).orphans && e == EntryOf(h, o)
  {
    hide HashOf, Previous, RecordOf;
    var raw', st' := Expire(raw, from, to, p), DeleteRange(st, from, to);
    if e in raw'.entries {
      if e in raw.entries && !(from <= e.to < to) {
        var o :| o in st.orphans && e == EntryOf(h, o);
        assert o in st'.orphans;
      } else {
        var e0 :| e0 in raw.entries && from <= e0.to < to && e0.from <= p && e == Entry(e0.from, p, e0.hash);
        var o :| o in st.orphans && e0 == EntryOf(h, o);
        assert Orphan(o.from, p, o.node) in st'.orphans;
      }
    }
    if o :| o in st'.orphans && e == EntryOf(h, o) {
      if o in st.orphans && !(from <= o.to < to) {
        assert EntryOf(h, o) in raw.entries;
      } else {
        var o0 :| o0 in st.orphans && from <= o0.to < to && o0.from <= p && o == Orphan(o0.from, p, o0.node);
        assert EntryOf(h, o0) in raw.entries;
      }
    }
  }

  /** getPreviousVersion: the last root key below that of `version`, 0 if there is none. */
  method GetPreviousVersion(db: NodeDB, version: int) returns (p: int)
    ensures p == PreviousRoot(db.roots.Keys, version)
  {
    p := 0;
    var todo := db.roots.Keys;
    while todo != {}
      invariant todo <= db.roots.Keys && (p == 0 || (p in db.roots && 1 <= p && KeyBelow(p, version)))
      invariant forall u :: u in db.roots && u !in todo && 1 <= u && KeyBelow(u, version) ==> u <= p
      decreases todo
    {
      HasMember(todo);
      var u :| u in todo;
      if p < u && KeyBelow(u, version) { p := u; }
      todo := todo - {u};
    }
  }

  /** The callback deleteOrphans and DeleteVersionsRange run over the entries that end at `version`. */
  method ExpireEntries(entries: set<Entry>, version: int, p: int, disk: Disk, kept: set<Entry>)
    returns (disk': Disk, kept': set<Entry>)
    ensures disk' == disk - set e | e in entries && e.to == version && e.from > p :: e.hash
    ensures kept' == (kept - set e | e in entries && e.to == version) +
                     set e | e in entries && e.to == version && e.from <= p :: Entry(e.from, p, e.hash)
  {
    var todo := set e | e in entries && e.to == version;
    ghost var done: set<Entry> := {};
    disk', kept' := disk, kept;
    while todo != {}
      invariant todo !! done && todo + done == set e | e in entries && e.to == version
      invariant disk' == disk - set e | e in done && e.from > p :: e.hash
      invariant kept' == (kept - done) + set e | e in done && e.from <= p :: Entry(e.from, p, e.hash)
      decreases todo
    {
      var e :| e in todo;
      todo, done := todo - {e}, done + {e};
      kept' := kept' - {e};
      if e.from > p {
        disk' := disk' - {e.hash};
      } else {
        kept' := kept' + {Entry(e.from, p, e.hash)};
      }
    }
  }

  /**
   * deleteVersion: deleteOrphans and deleteRoot. deleteOrphans also deletes when from == to, which p < version implies.
   */
  method DeleteOneVersion(db: NodeDB, version: int)
    requires version >= 1 && version != db.latest
    modifies db`disk, db`roots, db`entries
    ensures RawOf(db) == old(Expire(RawOf(db), version, version + 1, Previous(db.roots.Keys, version)))
  {
    var p := GetPreviousVersion(db, version);
    var disk, entries := ExpireEntries(db.entries, version, p, db.disk, db.entries);
    ghost var goal := Expire(RawOf(db), version, version + 1, p);
    assert disk == goal.disk && entries == goal.entries;
    db.disk, db.entries, db.roots := disk, entries, db.roots - {version};
    assert db.roots == goal.roots;
  }

  /** A root key in [Key(from), Key(to)). */
  predicate InKeyRange(v: int, from: int, to: int) {
    !KeyBelow(v, from) && KeyBelow(v, to)
  }

  /** What DeleteVersionsRange writes: entries are taken version by version, roots by the range of their keys. */
  ghost function ExpireRange(raw: Raw, from: int, to: int): Raw {
    Expire(raw, from, to, PreviousRoot(raw.roots.Keys, from)).(
      roots := map v | v in raw.roots && !InKeyRange(v, from, to) :: raw.roots[v])
  }

  /** From version 0 on that is the expiry of the range. */
  lemma ExpireRangeIsExpire(raw: Raw, from: int, to: int)
    requires 0 <= from < to && forall v :: v in raw.roots ==> v >= 0
    ensures ExpireRange(raw, from, to) == Expire(raw, from, to, Previous(raw.roots.Keys, from))
  {
    assert PreviousRoot(raw.roots.Keys, from) == Previous(raw.roots.Keys, from);
    assert ExpireRange(raw, from, to).roots == Expire(raw, from, to, Previous(raw.roots.Keys, from)).roots;
  }

  /**
   * A range that starts below 0: its first key is past every root key. The predecessor is the latest root, entries that
   * end in the range are moved up to end there, and no root and no node is deleted.
   */
  lemma NegativeStartMovesEntries(raw: Raw, from: int, to: int, latest: int)
    requires from < 0 < to <= latest && latest in raw.roots && forall v :: v in raw.roots ==> 1 <= v <= latest
    requires forall e :: e in raw.entries ==> 1 <= e.from <= e.to
    ensures var raw' := ExpireRange(raw, from, to);
            && PreviousRoot(raw.roots.Keys, from) == latest && raw'.roots == raw.roots && raw'.disk == raw.disk
            && raw'.entries == set e | e in raw.entries :: if e.to < to then Entry(e.from, latest, e.hash) else e
  {
    assert PreviousRoot(raw.roots.Keys, from) == latest;
    var raw' := ExpireRange(raw, from, to);
    assert raw'.disk == raw.disk;
    forall e | e in raw.entries ensures e.to < to ==> Entry(e.from, latest, e.hash) in raw'.entries {}
    assert raw'.entries == set e | e in raw.entries :: if e.to < to then Entry(e.from, latest, e.hash) else e;
  }

  /** One key set three times, and saved each time. */
  function ThreeSaves(key: Key, a: Value, b: Value, c: Value): History {
    [Some(Leaf(key, a, 1)), Some(Leaf(key, b, 2)), Some(Leaf(key, c, 3))]
  }

  lemma ThreeSavesStore(key: Key, a: Value, b: Value, c: Value)
    ensures var history := ThreeSaves(key, a, b, c);
            && Lineage(history) && Keeps(history, {1, 2, 3})
            && Canonical(history, {1, 2, 3}).orphans == {Orphan(1, 1, Leaf(key, a, 1)), Orphan(2, 2, Leaf(key, b, 2))}
  {
    var history := ThreeSaves(key, a, b, c);
    assert NodesAt(history, 1) == {Leaf(key, a, 1)};
    assert NodesAt(history, 2) == {Leaf(key, b, 2)};
    assert NodesAt(history, 3) == {Leaf(key, c, 3)};
  }

  lemma TwoEntries(h: Hasher, raw: Raw, st: Store, a: Orphan, b: Orphan)
    requires Represents(h, raw, st) && st.orphans == {a, b}
    ensures raw.entries == {EntryOf(h, a), EntryOf(h, b)}
  {
    hide HashOf, RecordOf;
    assert a in st.orphans && b in st.orphans;
    forall e ensures e in raw.entries <==> e == EntryOf(h, a) || e == EntryOf(h, b) {
      if e in raw.entries { var o :| o in st.orphans && e == EntryOf(h, o); }
    }
  }

  /** The entry of version 1 moved up to version 3. */
  lemma FirstMovesUp(raw: Raw, first: Entry, second: Entry)
    requires raw.entries == {first, second} && raw.roots.Keys == {1, 2, 3}
    requires first.from == first.to == 1 && second.from == second.to == 2
    ensures ExpireRange(raw, -5, 2) == raw.(entries := {Entry(1, 3, first.hash), second})
  {
    hide ExpireRange;
    NegativeStartMovesEntries(raw, -5, 2, 3);
    assert first in raw.entries && second in raw.entries;
    assert ExpireRange(raw, -5, 2).entries == {Entry(1, 3, first.hash), second};
  }

  /**
   * On the disk of that history, deleting from -5 up to 2 keeps the root of version 1 and has its leaf live up to
   * version 3.
   */
  lemma NegativeStartIsNotExact(h: Hasher, raw: Raw, key: Key, a: Value, b: Value, c: Value)
    requires Keeps(ThreeSaves(key, a, b, c), {1, 2, 3})
    requires Represents(h, raw, Canonical(ThreeSaves(key, a, b, c), {1, 2, 3}))
    ensures var first, second := HashOf(h, Leaf(key, a, 1)), HashOf(h, Leaf(key, b, 2));
            && raw.roots.Keys == {1, 2, 3} && raw.entries == {Entry(1, 1, first), Entry(2, 2, second)}
            && ExpireRange(raw, -5, 2) == raw.(entries := {Entry(1, 3, first), Entry(2, 2, second)})
  {
    ThreeSavesStore(key, a, b, c);
    var st := Canonical(ThreeSaves(key, a, b, c), {1, 2, 3});
    assert st.roots.Keys == {1, 2, 3};
    var one, two := Orphan(1, 1, Leaf(key, a, 1)), Orphan(2, 2, Leaf(key, b, 2));
    TwoEntries(h, raw, st, one, two);
    hide Canonical, HashOf, Represents, ExpireRange, ThreeSaves;
    FirstMovesUp(raw, EntryOf(h, one), EntryOf(h, two));
  }

  /**
   * nodeDB.DeleteVersionsRange: versions from <= v < to in one batch; `readers` are the versions with active readers.
   * `enforce` allows the latest version in the range.
   */
  method DeleteVersionsRange(db: NodeDB, from: int, to: int, readers: set<int>, enforce: bool) returns (ok: bool)
    modifies db`disk, db`roots, db`entries
    ensures var p := PreviousRoot(old(db.roots).Keys, from);
            ok <==> && from < to && to != 0 && (enforce || to <= db.latest)
                    && forall v :: v in readers ==> v <= p || to <= v
    ensures RawOf(db) == old(if ok then ExpireRange(RawOf(db), from, to) else RawOf(db))
  {
    if from >= to || to == 0 || (!enforce && db.latest < to) {
      return false;
    }
    var p := GetPreviousVersion(db, from);
    if exists v :: v in readers && v < to && v > p { return false; }
    var disk, entries := db.disk, db.entries;
    ghost var raw := RawOf(db);
    ExpireNothing(raw, from, p);
    hide Expire;
    for v := from to to
      invariant RawOf(db) == raw
      invariant disk == Expire(raw, from, v, p).disk && entries == Expire(raw, from, v, p).entries
    {
      disk, entries := ExpireEntries(db.entries, v, p, disk, entries);
      ExpireOneMore(raw, from, v, p);
    }
    db.disk, db.entries, db.roots := disk, entries, map v | v in db.roots && !InKeyRange(v, from, to) :: db.roots[v];
    return true;
  }

  lemma ExpireNothing(raw: Raw, from: int, p: int)
    ensures Expire(raw, from, from, p) == raw
  {
    var r := Expire(raw, from, from, p);
    assert r.disk == raw.disk && r.roots == raw.roots && r.entries == raw.entries;
  }

  /** Batching one more version into the range: the entries to expire are read from disk, not from the batch. */
  lemma ExpireOneMore(raw: Raw, from: int, v: int, p: int)
    requires from <= v
    ensures var now, next := Expire(raw, from, v, p), Expire(raw, from, v + 1, p);
            && next.disk == now.disk - (set e | e in raw.entries && e.to == v && e.from > p :: e.hash)
            && next.entries == (now.entries - set e | e in raw.entries && e.to == v) +
                               set e | e in raw.entries && e.to == v && e.from <= p :: Entry(e.from, p, e.hash)
  {
    assert forall e: Entry :: from <= e.to < v + 1 <==> from <= e.to < v || e.to == v;
  }

  // ---------------------------------------------------------------- deleting all versions from one on

  /** What DeleteVersionsFrom writes, `latest` being the nodes of the latest version. Roots go by their keys. */
  ghost function CutFrom(h: Hasher, raw: Raw, version: int, latest: set<Tree>): Raw {
    Raw(raw.disk - (set s | s in latest && s.version >= version :: HashOf(h, s))
                 - set e | e in raw.entries && e.from >= version :: e.hash,
        map v | v in raw.roots && KeyBelow(v, version) :: raw.roots[v],
        set e | e in raw.entries && e.from < version && e.to < version - 1)
  }

  /** It represents the deletion from a version on, unless the version is negative: then the roots stay. */
  lemma CutRefinesDeleteFrom(h: Hasher, raw: Raw, st: Store, version: int, latest: set<Tree>)
    requires Injective(h) && Tidy(st) && Represents(h, raw, st) && latest <= st.nodes
    requires forall v :: v in st.roots ==> v >= 1
    ensures Represents(h, CutFrom(h, raw, version, latest), DeleteFrom(st, version, latest)) <==>
            version >= 0 || st.roots == map[]
  {
    var raw', st' := CutFrom(h, raw, version, latest), DeleteFrom(st, version, latest);
    hide HashOf, Injective, RecordOf, Tidy;
    forall s | s in st.nodes ensures HashOf(h, s) in raw'.disk <==> s in st'.nodes {
      CutNode(h, raw, st, version, latest, s);
    }
    forall e ensures e in raw'.entries <==> exists o :: o in st'.orphans && e == EntryOf(h, o) {
      if o :| o in st.orphans && e == EntryOf(h, o) && o.from < version && o.to < version - 1 {
        assert o in st'.orphans;
      }
    }
    CutRoots(h, raw, st, version, latest);
  }

  lemma CutRoots(h: Hasher, raw: Raw, st: Store, version: int, latest: set<Tree>)
    requires raw.roots.Keys == st.roots.Keys && forall v :: v in st.roots ==> v >= 1
    ensures CutFrom(h, raw, version, latest).roots.Keys == DeleteFrom(st, version, latest).roots.Keys <==>
            version >= 0 || st.roots == map[]
  {
    hide HashOf;
    var kept, goal := CutFrom(h, raw, version, latest).roots, DeleteFrom(st, version, latest).roots;
    if version < 0 && st.roots != map[] {
      var v :| v in st.roots;
      assert v in kept && v !in goal;
    } else {
      forall v ensures v in kept <==> v in goal {}
    }
  }

  lemma CutNode(h: Hasher, raw: Raw, st: Store, version: int, latest: set<Tree>, s: Tree)
    requires Injective(h) && Tidy(st) && Represents(h, raw, st) && s in st.nodes && latest <= st.nodes
    ensures HashOf(h, s) in CutFrom(h, raw, version, latest).disk <==> s in DeleteFrom(st, version, latest).nodes
  {
    hide HashOf, Injective, RecordOf, Proper;
    var hash := HashOf(h, s);
    if n :| n in latest && n.version >= version && HashOf(h, n) == hash {
      SameHashSameNode(h, st, n, s);
    }
    if e :| e in raw.entries && e.from >= version && e.hash == hash {
      var o :| o in st.orphans && e == EntryOf(h, o);
      SameHashSameNode(h, st, o.node, s);
    }
    if o :| o in st.orphans && o.from >= version && o.node == s {
      assert EntryOf(h, o) in raw.entries;
    }
  }

  /** The hashes of the nodes of `t` stamped `version` or later. */
  ghost function HashesFrom(h: Hasher, t: Tree, version: int): set<Hash> {
    set s | s in Nodes(t) && s.version >= version :: HashOf(h, s)
  }

  lemma LaterHashes(h: Hasher, t: Tree, version: int)
    requires t.Inner?
    ensures HashesFrom(h, t, version) ==
            HashesFrom(h, t.left, version) + HashesFrom(h, t.right, version) +
            if t.version >= version then {HashOf(h, t)} else {}
  {
    hide HashOf;
  }

  /** deleteNodesFrom: walk the stored tree by hash and drop the nodes stamped `version` or later. */
  method DeleteNodesFrom(db: NodeDB, hash: Hash, version: int, disk: Disk, ghost t: Tree) returns (disk': Disk)
    requires hash == HashOf(db.h, t) && Stores(db.h, db.disk, t)
    ensures disk' == disk - HashesFrom(db.h, t, version)
    decreases t
  {
    disk' := disk;
    match db.disk[hash] {
      case LeafRecord(_, _, v) =>
        if v >= version { disk' := disk' - {hash}; }
      case InnerRecord(_, _, _, v, left, right) =>
        disk' := DeleteNodesFrom(db, left, version, disk', t.left);
        disk' := DeleteNodesFrom(db, right, version, disk', t.right);
        if v >= version { disk' := disk' - {hash}; }
        LaterHashes(db.h, t, version);
    }
  }

  /**
   * nodeDB.DeleteVersionsFrom: nothing to do past the latest version; refused if the latest root is missing or a
   * version that would go has readers. Entries `fast` of the flat index go by their dates.
   */
  method DeleteVersionsFrom(db: NodeDB, version: int, readers: set<int>, fast: Index, ghost latest: Option<Tree>)
    returns (ok: bool, fast': Index)
    requires db.latest in db.roots ==> db.roots[db.latest] == RootHash(db.h, latest)
    requires db.latest in db.roots && latest.Some? ==> Stores(db.h, db.disk, latest.value) && Injective(db.h)
    modifies db`disk, db`roots, db`entries
    ensures ok <==> db.latest < version || (db.latest in old(db.roots) && forall v :: v in readers ==> v < version)
    ensures RawOf(db) == old(if ok && version <= db.latest then CutFrom(db.h, RawOf(db), version, RootNodes(latest))
                             else RawOf(db))
    ensures fast' == if ok && version <= db.latest then DatedBefore(fast, version) else fast
  {
    if db.latest < version { return true, fast; }
    if db.latest !in db.roots { return false, fast; }
    if exists v :: v in readers && v >= version { return false, fast; }
    ghost var raw := RawOf(db);
    var disk, root := db.disk, db.roots[db.latest];
    if root != [] {
      disk := DeleteNodesFrom(db, root, version, disk, latest.value);
    }
    assert disk == db.disk - set s | s in RootNodes(latest) && s.version >= version :: HashOf(db.h, s);
    var disk', kept := CutEntries(db.entries, version, disk);
    db.disk, db.entries, db.roots := disk', kept, map v | v in db.roots && KeyBelow(v, version) :: db.roots[v];
    return true, map k | k in fast && !(version <= fast[k].version) :: fast[k];
  }

  /** The callback DeleteVersionsFrom runs over all entries. */
  method CutEntries(entries: set<Entry>, version: int, disk: Disk) returns (disk': Disk, kept: set<Entry>)
    ensures disk' == disk - set e | e in entries && e.from >= version :: e.hash
    ensures kept == set e | e in entries && e.from < version && e.to < version - 1
  {
    var todo := entries;
    disk', kept := disk, entries;
    ghost var done: set<Entry> := {};
    while todo != {}
      invariant todo !! done && todo + done == entries
      invariant disk' == disk - set e | e in done && e.from >= version :: e.hash
      invariant kept == todo + set e | e in done && e.from < version && e.to < version - 1
      decreases todo
    {
      var e :| e in todo;
      todo, done := todo - {e}, done + {e};
      if e.from >= version {
        kept, disk' := kept - {e}, disk' - {e.hash};
      } else if e.to >= version - 1 {
        kept := kept - {e};
      }
    }
  }
}
