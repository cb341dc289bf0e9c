/** Pending changes of the flat key/value index: one set of additions and removals, and a stack of them by version. */
module FastChanges {
  import opened ByteOrder
  import opened Tree

  datatype FastNode = FastNode(key: Key, version: int, value: Value)

  /** The contents of a flat index. */
  type Index = map<Key, FastNode>

  /** The entries dated before `version`. */
  function DatedBefore(index: Index, version: int): Index {
    map k | k in index && index[k].version < version :: index[k]
  }

  // ---------------------------------------------------------------- what a change set means

  /** What pending changes say about the keys they decide: the node to be added, or None for a removal. */
  type Changes = map<Key, Option<FastNode>>

  /** The index `base` after the changes. */
  function Overlay(c: Changes, base: Index): Index {
    map k | k in base.Keys + c.Keys && (k in c ==> c[k].Some?) :: if k in c then c[k].value else base[k]
  }

  /** `newer` on top of `older`, as one change set. */
  function Beneath(newer: Changes, older: Changes): Changes {
    older + newer
  }

  /** Merging two change sets applies them one after the other. */
  lemma BeneathIsSequence(newer: Changes, older: Changes, base: Index)
    ensures Overlay(Beneath(newer, older), base) == Overlay(newer, Overlay(older, base))
  {
    var a, b := Overlay(Beneath(newer, older), base), Overlay(newer, Overlay(older, base));
    assert forall k :: k in a <==> k in b;
  }

  function Find(c: Changes, key: Key): Option<Option<FastNode>> {
    if key in c then Some(c[key]) else None
  }

  // ---------------------------------------------------------------- layers, oldest first

  /** Newest layer first. */
  function FindLayers(layers: seq<Changes>, key: Key): Option<Option<FastNode>>
    decreases layers
  {
    if layers == [] then None
    else
      var top := layers[|layers| - 1];
      if key in top then Some(top[key]) else FindLayers(layers[..|layers| - 1], key)
  }

  function OverlayLayers(layers: seq<Changes>, base: Index): Index
    decreases layers
  {
    if layers == [] then base else Overlay(layers[|layers| - 1], OverlayLayers(layers[..|layers| - 1], base))
  }

  /** expand: every layer, newest first, put beneath what has been collected. */
  function Flatten(top: Changes, layers: seq<Changes>): Changes
    decreases layers
  {
    if layers == [] then top
    else Flatten(Beneath(top, layers[|layers| - 1]), layers[..|layers| - 1])
  }

  /** Flattening gives the same lookups as searching the layers newest first, and the same index. */
  lemma {:induction false} FlattenIsLayered(top: Changes, layers: seq<Changes>, base: Index, key: Key)
    ensures Find(Flatten(top, layers), key) == if key in top then Some(top[key]) else FindLayers(layers, key)
    ensures Overlay(Flatten(top, layers), base) == Overlay(top, OverlayLayers(layers, base))
    decreases layers
  {
    if layers != [] {
      var last, rest := layers[|layers| - 1], layers[..|layers| - 1];
      BeneathIsSequence(top, last, OverlayLayers(rest, base));
      FlattenIsLayered(Beneath(top, last), rest, base, key);
    }
  }

  /** The entry of a key, if there is one. */
  function Lookup(index: Index, key: Key): Option<FastNode> {
    if key in index then Some(index[key]) else None
  }

  /** What the newest layer that decides a key says is what the whole index has; without one, the base decides. */
  lemma {:induction false} LayersDecide(layers: seq<Changes>, base: Index, key: Key)
    ensures var found := FindLayers(layers, key);
            && (found.Some? <==> exists c :: c in layers && key in c)
            && Lookup(OverlayLayers(layers, base), key) == if found.Some? then found.value else Lookup(base, key)
    decreases layers
  {
    if layers != [] {
      var last, rest := layers[|layers| - 1], layers[..|layers| - 1];
      LayersDecide(rest, base, key);
      assert forall c :: c in layers <==> c == last || c in rest;
    }
  }

  lemma FlattenOne(top: Changes, layers: seq<Changes>, i: int)
    requires 0 <= i < |layers|
    ensures Flatten(top, layers[..i + 1]) == Flatten(Beneath(top, layers[i]), layers[..i])
  {
    assert layers[..i + 1][..i] == layers[..i];
  }

  lemma FlattenNone(top: Changes, layers: seq<Changes>)
    ensures Flatten(top, layers[..0]) == top
  {
  }

  // ---------------------------------------------------------------- fastNodeChanges

  function ChangesOf(additions: map<Key, FastNode>, removals: set<Key>): Changes {
    map k | k in additions.Keys + removals :: if k in additions then Some(additions[k]) else None
  }

  lemma ChangesOfParts(additions: map<Key, FastNode>, removals: set<Key>)
    requires additions.Keys !! removals
    ensures ChangesOf(additions, {}) + ChangesOf(map[], removals) == ChangesOf(additions, removals)
    ensures ChangesOf(map[], removals) + ChangesOf(additions, {}) == ChangesOf(additions, removals)
    ensures ChangesOf(additions - additions.Keys, {}) == map[] == ChangesOf(map[], removals - removals)
    ensures additions - {} == additions && removals - {} == removals
  {
    assert additions - additions.Keys == map[];
  }

  lemma OneMoreAddition(additions: map<Key, FastNode>, todo: set<Key>, k: Key)
    requires k in todo && k in additions
    ensures ChangesOf(additions - (todo - {k}), {}) == ChangesOf(additions - todo, {})[k := Some(additions[k])]
  {
  }

  lemma OneMoreRemoval(removals: set<Key>, todo: set<Key>, k: Key)
    requires k in todo && k in removals
    ensures ChangesOf(map[], removals - (todo - {k})) == ChangesOf(map[], removals - todo)[k := None]
  {
  }

  lemma IsDecided(additions: map<Key, FastNode>, removals: set<Key>, k: Key)
    ensures k in ChangesOf(additions, removals) <==> k in additions || k in removals
  {
  }

  class FastNodeChanges {
    var additions: map<Key, FastNode>
    var removals: set<Key>

    ghost function Model(): Changes
      reads this
    {
      ChangesOf(additions, removals)
    }

    /** No key is both added and removed, and additions are filed under their own key. */
    ghost predicate Valid()
      reads this
    {
      additions.Keys !! removals && forall k :: k in additions ==> additions[k].key == k
    }

    constructor ()
      ensures Valid() && Model() == map[]
    {
      additions, removals := map[], {};
    }

    method Get(key: Key) returns (r: Option<Option<FastNode>>)
      ensures r == Find(Model(), key)
    {
      if key in additions { return Some(Some(additions[key])); }
      if key in removals { return Some(None); }
      return None;
    }

    method Add(node: FastNode)
      requires Valid()
      modifies this
      ensures Valid() && Model() == old(Model())[node.key := Some(node)]
    {
      additions := additions[node.key := node];
      removals := removals - {node.key};
    }

    method Remove(key: Key)
      requires Valid()
      modifies this
      ensures Valid() && Model() == old(Model())[key := None]
    {
      removals := removals + {key};
      additions := additions - {key};
    }

    method Clone() returns (c: FastNodeChanges)
      requires Valid()
      ensures fresh(c) && c.Valid() && c.Model() == Model()
    {
      c := new FastNodeChanges();
      c.additions, c.removals := additions, removals;
    }

    method Reset()
      modifies this
      ensures Valid() && Model() == map[]
    {
      additions, removals := map[], {};
    }

    /** mergePrev: `prev` is older. Each of its keys counts only where nothing newer decides. */
    method MergePrev(prev: FastNodeChanges)
      requires Valid() && prev.Valid() && prev != this
      modifies this
      ensures Valid() && Model() == Beneath(old(Model()), prev.Model())
    {
      hide ChangesOf;
      MergePrevAdditions(prev);
      MergePrevRemovals(prev);
      ChangesOfParts(prev.additions, prev.removals);
      ghost var r, a, m := ChangesOf(map[], prev.removals), ChangesOf(prev.additions, {}), old(Model());
      assert r + (a + m) == (r + a) + m;
    }

    method MergePrevAdditions(prev: FastNodeChanges)
      requires Valid() && prev.Valid() && prev != this
      modifies this
      ensures Valid() && Model() == ChangesOf(prev.additions, {}) + old(Model())
    {
      hide ChangesOf;
      var todo := prev.additions.Keys;
      ChangesOfParts(prev.additions, prev.removals);
      while todo != {}
        invariant todo <= prev.additions.Keys && Valid()
        invariant Model() == ChangesOf(prev.additions - todo, {}) + old(Model())
        decreases todo
      {
        var k :| k in todo;
        OneMoreAddition(prev.additions, todo, k);
        IsDecided(prev.additions - todo, {}, k);
        IsDecided(additions, removals, k);
        if k !in additions && k !in removals { Add(prev.additions[k]); }
        todo := todo - {k};
      }
    }

    method MergePrevRemovals(prev: FastNodeChanges)
      requires Valid() && prev.Valid() && prev != this
      modifies this
      ensures Valid() && Model() == ChangesOf(map[], prev.removals) + old(Model())
    {
      hide ChangesOf;
      var todo := prev.removals;
      ChangesOfParts(prev.additions, prev.removals);
      while todo != {}
        invariant todo <= prev.removals && Valid()
        invariant Model() == ChangesOf(map[], prev.removals - todo) + old(Model())
        decreases todo
      {
        var k :| k in todo;
        OneMoreRemoval(prev.removals, todo, k);
        IsDecided(map[], prev.removals - todo, k);
        IsDecided(additions, removals, k);
        if k !in additions && k !in removals { Remove(k); }
        todo := todo - {k};
      }
    }

    /** mergeLater: `later` is newer and overrides. */
    method MergeLater(later: FastNodeChanges)
      requires Valid() && later.Valid() && later != this
      modifies this
      ensures Valid() && Model() == Beneath(later.Model(), old(Model()))
    {
      hide ChangesOf;
      MergeLaterAdditions(later);
      MergeLaterRemovals(later);
      ChangesOfParts(later.additions, later.removals);
    }

    method MergeLaterAdditions(later: FastNodeChanges)
      requires Valid() && later.Valid() && later != this
      modifies this
      ensures Valid() && Model() == old(Model()) + ChangesOf(later.additions, {})
    {
      hide ChangesOf;
      var todo := later.additions.Keys;
      ChangesOfParts(later.additions, later.removals);
      while todo != {}
        invariant todo <= later.additions.Keys && Valid()
        invariant Model() == old(Model()) + ChangesOf(later.additions - todo, {})
        decreases todo
      {
        var k :| k in todo;
        OneMoreAddition(later.additions, todo, k);
        Add(later.additions[k]);
        todo := todo - {k};
      }
    }

    method MergeLaterRemovals(later: FastNodeChanges)
      requires Valid() && later.Valid() && later != this
      modifies this
      ensures Valid() && Model() == old(Model()) + ChangesOf(map[], later.removals)
    {
      hide ChangesOf;
      var todo := later.removals;
      ChangesOfParts(later.additions, later.removals);
      while todo != {}
        invariant todo <= later.removals && Valid()
        invariant Model() == old(Model()) + ChangesOf(map[], later.removals - todo)
        decreases todo
      {
        var k :| k in todo;
        OneMoreRemoval(later.removals, todo, k);
        Remove(k);
        todo := todo - {k};
      }
    }
  }

  // ---------------------------------------------------------------- fastNodeChangesWithVersion

  class FastNodeChangesWithVersion {
    var versions: seq<int>
    var fncMap: map<int, FastNodeChanges>

    ghost predicate Valid()
      reads this, fncMap.Values
    {
      && (forall i, j :: 0 <= i < j < |versions| ==> versions[i] != versions[j])
      && (forall i :: 0 <= i < |versions| ==> versions[i] in fncMap)
      && (forall v :: v in fncMap ==> v in versions && fncMap[v].Valid())
    }

    /** The change sets, oldest first. */
    ghost function Layers(): seq<Changes>
      reads this, fncMap.Values
      requires forall i :: 0 <= i < |versions| ==> versions[i] in fncMap
    {
      Stack(versions, fncMap)
    }

    static ghost function Stack(vs: seq<int>, m: map<int, FastNodeChanges>): (layers: seq<Changes>)
      requires forall i :: 0 <= i < |vs| ==> vs[i] in m
      reads m.Values
      ensures |layers| == |vs| && forall i :: 0 <= i < |vs| ==> layers[i] == m[vs[i]].Model()
    {
      if vs == [] then [] else Stack(vs[..|vs| - 1], m) + [m[vs[|vs| - 1]].Model()]
    }

    /** `layers` are the change sets of the versions, one by one. */
    ghost predicate Stacked(layers: seq<Changes>)
      reads this, fncMap.Values
    {
      && |layers| == |versions|
      && forall j :: 0 <= j < |versions| ==>
           versions[j] in fncMap && fncMap[versions[j]].Valid() && fncMap[versions[j]].Model() == layers[j]
    }

    constructor ()
      ensures Valid() && Layers() == [] && fncMap == map[]
    {
      versions, fncMap := [], map[];
    }

    method Add(version: int, fnc: FastNodeChanges)
      requires Valid() && fnc.Valid() && version !in versions
      modifies this
      ensures Valid() && Layers() == old(Layers()) + [fnc.Model()]
    {
      hide ChangesOf, Stack;
      ghost var layers := Layers();
      versions := versions + [version];
      fncMap := fncMap[version := fnc];
      assert Layers()[..|layers|] == layers;
    }

    /** Only the oldest version can be removed; any other request is ignored. */
    method Remove(version: int)
      requires Valid()
      modifies this
      ensures Valid()
      ensures Layers() == if |old(versions)| >= 1 && version == old(versions)[0] then old(Layers())[1..]
                          else old(Layers())
    {
      if |versions| < 1 || version != versions[0] { return; }
      versions := versions[1..];
      fncMap := fncMap - {version};
    }

    /** Newest version first. */
    method Get(key: Key) returns (r: Option<Option<FastNode>>)
      requires Valid()
      ensures r == FindLayers(Layers(), key)
    {
      hide Stack, ChangesOf;
      LayersAreStacked();
      var i := |versions| - 1;
      ghost var layers := Layers();
      assert layers[..|layers|] == layers;
      while i >= 0
        invariant -1 <= i < |versions|
        invariant FindLayers(layers, key) == FindLayers(layers[..i + 1], key)
      {
        var found := fncMap[versions[i]].Get(key);
        assert layers[..i + 1][..i] == layers[..i];
        if found.Some? { return found; }
        i := i - 1;
      }
      return None;
    }

    /** All layers beneath a copy of `changes`; a missing change set counts as empty. */
    method Expand(changes: FastNodeChanges?) returns (ret: FastNodeChanges)
      requires Valid() && (changes != null ==> changes.Valid())
      ensures fresh(ret) && ret.Valid()
      ensures ret.Model() == Flatten(if changes == null then map[] else changes.Model(), Layers())
    {
      hide ChangesOf, Beneath, Stack, Flatten, Stacked;
      ghost var layers := Layers();
      LayersAreStacked();
      if changes == null { ret := new FastNodeChanges(); } else { ret := changes.Clone(); }
      var i := |versions| - 1;
      ghost var top := ret.Model();
      assert layers[..|layers|] == layers;
      while i >= 0
        invariant -1 <= i < |versions| && fresh(ret) && ret.Valid()
        invariant Stacked(layers)
        invariant Flatten(top, layers) == Flatten(ret.Model(), layers[..i + 1])
      {
        FlattenOne(ret.Model(), layers, i);
        MergeLayer(ret, i, layers);
        i := i - 1;
      }
      FlattenNone(ret.Model(), layers);
    }

    method MergeLayer(ret: FastNodeChanges, i: int, ghost layers: seq<Changes>)
      requires Stacked(layers) && 0 <= i < |versions| && ret !in fncMap.Values && ret.Valid()
      modifies ret
      ensures Stacked(layers) && ret.Valid() && ret.Model() == Beneath(old(ret.Model()), layers[i])
    {
      hide ChangesOf, Beneath;
      ret.MergePrev(fncMap[versions[i]]);
    }

    lemma LayersAreStacked()
      requires Valid()
      ensures Stacked(Layers())
    {
    }
  }
}
