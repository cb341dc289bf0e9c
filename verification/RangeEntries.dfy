/** The keys and values a range query returns beside its proof. */
module RangeEntries {
  import opened ByteOrder
  import opened Tree
  import opened NodeRead
  import opened Hashing
  import opened ProofPath
  import opened KeySuccessor
  import opened RangeProof
  import opened ProofQuery
  import Traversal

  function KeysOf(leaves: seq<Tree>): seq<Key> {
    if leaves == [] then [] else [leaves[0].key] + KeysOf(leaves[1..])
  }

  function ValuesOf(leaves: seq<Tree>): seq<Value> {
    if leaves == [] then [] else [LeafValue(leaves[0])] + ValuesOf(leaves[1..])
  }

  /** Which of the leaves shown the callback adds to keys and values, when `count` leaves came before. */
  function Taken(leaves: seq<Tree>, q: Query, count: int): seq<Tree> {
    if leaves == [] || !HasRoom(q, count) || !BeforeEnd(q, leaves[0]) then []
    else [leaves[0]] + if q.EndsAt(leaves[0].key) then [] else Taken(leaves[1..], q, count + 1)
  }

  /** One more leaf is returned after `count` leaves; the last leaf within the limit is proved, not returned. */
  predicate HasRoom(q: Query, count: int) {
    q.limit <= 0 || count + 1 < q.limit
  }

  predicate BeforeEnd(q: Query, leaf: Tree) {
    Traversal.BeforeEnd(RangeOf(q), leaf.key)
  }

  lemma {:induction false} FoldTakes(h: Hasher, path: PathToLeaf, q: Query, b: Builder, nodes: seq<Tree>)
    ensures var b', taken := Fold(h, path, q, b, nodes), Taken(Traversal.LeavesOf(nodes), q, b.leafCount);
            b'.keys == b.keys + KeysOf(taken) && b'.values == b.values + ValuesOf(taken)
    decreases nodes
  {
    if nodes != [] {
      var r, rest := OnNode(h, path, q, b, nodes[0]), nodes[1..];
      if nodes[0].Inner? {
        FoldTakes(h, path, q, r.0, rest);
        assert Traversal.LeavesOf(nodes) == [] + Traversal.LeavesOf(rest) == Traversal.LeavesOf(rest);
      } else {
        var leaves: seq<Tree> := [nodes[0]] + Traversal.LeavesOf(rest);
        assert leaves[1..] == Traversal.LeavesOf(rest);
        if !r.1 {
          FoldTakes(h, path, q, r.0, rest);
          var more := Taken(leaves[1..], q, b.leafCount + 1);
          assert ([nodes[0]] + more)[1..] == more;
          Traversal.Associates(b.keys, [nodes[0].key], KeysOf(more));
          Traversal.Associates(b.values, [nodes[0].value], ValuesOf(more));
        } else if r.0.keys != b.keys {
          assert [nodes[0]][1..] == [];
        }
      }
    }
  }

  function RangeOf(q: Query): Traversal.Range {
    Traversal.Range(q.keyStart, q.keyEnd, true, false, false)
  }

  /** What the limit leaves of the entries behind the first leaf, when `count` leaves came before. */
  function Cut(entries: seq<Tree>, q: Query, count: int): seq<Tree> {
    var room := q.limit - 1 - count;
    if q.limit <= 0 || |entries| <= room then entries else if room <= 0 then [] else entries[..room]
  }

  lemma CutParts(first: Tree, rest: seq<Tree>, q: Query, count: int)
    requires count >= 0 && q.limit >= 0
    ensures Cut([first] + rest, q, count) == if HasRoom(q, count) then [first] + Cut(rest, q, count + 1) else []
    ensures Cut([], q, count) == []
  {
  }

  // ---------------------------------------------------------------- stopping early

  /** Leaf `i` ends the traversal although the leaf behind it is due. */
  ghost predicate EndsEarly(leaves: seq<Tree>, q: Query, count: int, i: int) {
    0 <= i < |leaves| - 1 && HasRoom(q, count + i + 1) && BeforeEnd(q, leaves[i + 1]) && q.EndsAt(leaves[i].key)
  }

  ghost predicate SomeEndsEarly(leaves: seq<Tree>, q: Query, count: int) {
    exists i :: EndsEarly(leaves, q, count, i)
  }

  lemma EarlierIsBeforeEnd(leaves: seq<Tree>, q: Query, i: nat, j: nat)
    requires Ascending(leaves) && i <= j < |leaves| && BeforeEnd(q, leaves[j])
    ensures BeforeEnd(q, leaves[i])
  {
    if i < j && q.keyEnd.Some? { LessTransitive(leaves[i].key, leaves[j].key, q.keyEnd.value); }
  }

  lemma AscendingTail(leaves: seq<Tree>)
    requires leaves != [] && Ascending(leaves)
    ensures Ascending(leaves[1..])
  {
  }

  lemma NoneBeforeEnd(leaves: seq<Tree>, q: Query)
    requires Ascending(leaves) && leaves != [] && !BeforeEnd(q, leaves[0])
    ensures Traversal.Within(leaves, RangeOf(q)) == []
  {
    hide Ascending, Less;
    forall l | l in leaves ensures !Traversal.InRange(RangeOf(q), l.key) {
      var j :| 0 <= j < |leaves| && leaves[j] == l;
      if BeforeEnd(q, l) { EarlierIsBeforeEnd(leaves, q, 0, j); }
    }
    Traversal.NoneWithin(leaves, RangeOf(q));
  }

  ghost predicate AllStarted(leaves: seq<Tree>, q: Query) {
    forall l :: l in leaves ==> Traversal.StartOrAfter(RangeOf(q), l.key)
  }

  /** The entries due behind the leaves seen. */
  ghost function Due(leaves: seq<Tree>, q: Query, count: int): seq<Tree> {
    Cut(Traversal.Within(leaves, RangeOf(q)), q, count)
  }

  lemma DueParts(leaves: seq<Tree>, q: Query, count: int)
    requires Ascending(leaves) && AllStarted(leaves, q) && count >= 0 && q.limit >= 0
    ensures leaves == [] || !HasRoom(q, count) || !BeforeEnd(q, leaves[0]) ==> Due(leaves, q, count) == []
    ensures leaves != [] && HasRoom(q, count) && BeforeEnd(q, leaves[0]) ==>
              Due(leaves, q, count) == [leaves[0]] + Due(leaves[1..], q, count + 1)
    ensures leaves != [] ==> Ascending(leaves[1..]) && AllStarted(leaves[1..], q)
  {
    hide Ascending, Cut, HasRoom;
    var r := RangeOf(q);
    if leaves == [] {
      CutParts(Leaf([], [], 0), [], q, count);
    } else {
      AscendingTail(leaves);
      assert leaves[0] in leaves;
      CutParts(leaves[0], Traversal.Within(leaves[1..], r), q, count);
      if !BeforeEnd(q, leaves[0]) { NoneBeforeEnd(leaves, q); }
    }
  }

  /** What is taken is what is due, unless a leaf ends the traversal early; then entries are lost. */
  lemma {:induction false} TakenExactly(leaves: seq<Tree>, q: Query, count: int)
    requires Ascending(leaves) && AllStarted(leaves, q) && count >= 0 && q.limit >= 0
    ensures if SomeEndsEarly(leaves, q, count) then |Taken(leaves, q, count)| < |Due(leaves, q, count)|
            else Taken(leaves, q, count) == Due(leaves, q, count)
  {
    hide Ascending, AllStarted, Due, Less, Incr, SomeEndsEarly;
    DueParts(leaves, q, count);
    if leaves == [] || !HasRoom(q, count) || !BeforeEnd(q, leaves[0]) {
      NothingEndsEarly(leaves, q, count);
    } else {
      var rest := leaves[1..];
      DueParts(rest, q, count + 1);
      if q.EndsAt(leaves[0].key) {
        EndsAtFirst(leaves, q, count);
      } else {
        TakenExactly(rest, q, count + 1);
        EndsLater(leaves, q, count);
      }
    }
  }

  lemma NothingEndsEarly(leaves: seq<Tree>, q: Query, count: int)
    requires Ascending(leaves) && (leaves == [] || !HasRoom(q, count) || !BeforeEnd(q, leaves[0]))
    ensures !SomeEndsEarly(leaves, q, count)
  {
    if i :| EndsEarly(leaves, q, count, i) { EarlierIsBeforeEnd(leaves, q, 0, i + 1); }
  }

  lemma EndsAtFirst(leaves: seq<Tree>, q: Query, count: int)
    requires Ascending(leaves) && leaves != [] && q.EndsAt(leaves[0].key)
    ensures SomeEndsEarly(leaves, q, count) <==> |leaves| > 1 && HasRoom(q, count + 1) && BeforeEnd(q, leaves[1])
  {
    if i :| EndsEarly(leaves, q, count, i) { EarlierIsBeforeEnd(leaves, q, 1, i + 1); }
    if |leaves| > 1 && HasRoom(q, count + 1) && BeforeEnd(q, leaves[1]) { assert EndsEarly(leaves, q, count, 0); }
  }

  lemma EndsLater(leaves: seq<Tree>, q: Query, count: int)
    requires leaves != [] && !q.EndsAt(leaves[0].key)
    ensures SomeEndsEarly(leaves, q, count) <==> SomeEndsEarly(leaves[1..], q, count + 1)
  {
    if i :| EndsEarly(leaves, q, count, i) { assert EndsEarly(leaves[1..], q, count + 1, i - 1); }
    var rest, seen := leaves[1..], count + 1;
    if i :| EndsEarly(rest, q, seen, i) { assert EndsEarly(leaves, q, count, i + 1); }
  }

  // ---------------------------------------------------------------- the range among the leaves

  /** Where the range starts among the leaves: nothing before the first leaf, everything behind it from the start on. */
  lemma RangeStarts(t: Tree, q: Query, p: nat)
    requires Ordered(t) && p == Position(t, q.Start())
    ensures forall i :: 0 <= i < p ==> !Traversal.StartOrAfter(RangeOf(q), Leaves(t)[i].key)
    ensures forall i :: p < i < |Leaves(t)| ==> Traversal.StartOrAfter(RangeOf(q), Leaves(t)[i].key)
  {
    hide Ordered, Ascending, Leaves, Position, Less;
    var start := q.Start();
    StartFacts(t, start);
    var leaves := Leaves(t);
    forall i | 0 <= i < p ensures !Traversal.StartOrAfter(RangeOf(q), leaves[i].key) {
      BeforeStart(leaves, start, i, p, q);
    }
    forall i | p < i < |leaves| ensures Traversal.StartOrAfter(RangeOf(q), leaves[i].key) {
      BehindStart(leaves, start, i, p);
    }
  }

  lemma StartFacts(t: Tree, start: Key)
    requires Ordered(t)
    ensures var p, leaves := Position(t, start), Leaves(t);
            && Ascending(leaves) && (Less(start, leaves[p].key) ==> p == 0)
            && (Less(leaves[p].key, start) && p + 1 < |leaves| ==> Less(start, leaves[p + 1].key))
  {
    hide Ordered, Ascending, Leaves, Position, Less, Keys, Contents;
    LeavesAreContents(t);
    PositionIsNeighbour(t, start);
    LessIrreflexive(start);
  }

  lemma BeforeStart(leaves: seq<Tree>, start: Key, i: nat, p: nat, q: Query)
    requires Ascending(leaves) && i < p < |leaves| && (Less(start, leaves[p].key) ==> p == 0)
    requires q.keyStart.Some? ==> start == q.keyStart.value
    requires q.keyStart.None? ==> start == []
    ensures q.keyStart.Some? && Less(leaves[i].key, start)
  {
    assert Less(leaves[i].key, leaves[p].key);
    assert AtMost(leaves[p].key, start);
    AtMostLeft(leaves[i].key, leaves[p].key, start);
  }

  lemma BehindStart(leaves: seq<Tree>, start: Key, i: nat, p: nat)
    requires Ascending(leaves) && p < i < |leaves|
    requires Less(leaves[p].key, start) && p + 1 < |leaves| ==> Less(start, leaves[p + 1].key)
    ensures AtMost(start, leaves[i].key)
  {
    LessTotal(leaves[p].key, start);
    if Less(leaves[p].key, start) {
      if p + 1 < i { LessTransitive(start, leaves[p + 1].key, leaves[i].key); }
      LessAsymmetric(start, leaves[i].key);
    } else {
      if Less(start, leaves[p].key) { LessTransitive(start, leaves[p].key, leaves[i].key); }
      LessAsymmetric(start, leaves[i].key);
    }
  }

  /** The entries in the range begin with the first leaf, if it is in the range, and go on behind it. */
  lemma EntriesFrom(t: Tree, q: Query, p: nat)
    requires Ordered(t) && p == Position(t, q.Start())
    ensures var leaves, r := Leaves(t), RangeOf(q);
            Traversal.Within(leaves, r) ==
            (if Traversal.InRange(r, leaves[p].key) then [leaves[p]] else []) + Traversal.Within(leaves[p + 1..], r)
  {
    hide Ordered, Traversal.InRange, Position, Leaves;
    var leaves, r := Leaves(t), RangeOf(q);
    RangeStarts(t, q, p);
    NoneBefore(leaves[..p], r);
    Traversal.WithinParts(leaves[..p], leaves[p..], r);
    assert leaves == leaves[..p] + leaves[p..];
    assert leaves[p..][1..] == leaves[p + 1..];
  }

  lemma NoneBefore(leaves: seq<Tree>, r: Traversal.Range)
    requires forall i :: 0 <= i < |leaves| ==> !Traversal.StartOrAfter(r, leaves[i].key)
    ensures Traversal.Within(leaves, r) == []
  {
    forall l | l in leaves ensures !Traversal.InRange(r, l.key) {
      var i :| 0 <= i < |leaves| && leaves[i] == l;
    }
    Traversal.NoneWithin(leaves, r);
  }

  /** How many of the entries in the range a query returns. */
  function Returned(q: Query, entries: int, firstInRange: bool): int {
    var most := (if firstInRange then 1 else 0) + if q.limit <= 2 then 0 else q.limit - 2;
    if q.limit == 0 || entries <= most then entries else most
  }

  lemma {:induction false} KeysParts(a: seq<Tree>, b: seq<Tree>)
    ensures KeysOf(a + b) == KeysOf(a) + KeysOf(b) && ValuesOf(a + b) == ValuesOf(a) + ValuesOf(b)
  {
    if a == [] {
      assert a + b == b;
    } else {
      KeysParts(a[1..], b);
      assert (a + b)[0] == a[0] && (a + b)[1..] == a[1..] + b;
      Traversal.Associates([a[0].key], KeysOf(a[1..]), KeysOf(b));
      Traversal.Associates([LeafValue(a[0])], ValuesOf(a[1..]), ValuesOf(b));
    }
  }

  // ---------------------------------------------------------------- what a query returns

  /**
   * The leaf behind leaf `i` is due, but `i` ends the traversal, or `i` is the first leaf and the traversal starts
   * behind the next one.
   */
  ghost predicate Loses(leaves: seq<Tree>, q: Query, p: nat, i: int) {
    && p <= i < |leaves| - 1 && HasRoom(q, i - p + 1) && BeforeEnd(q, leaves[i + 1])
    && (q.EndsAt(leaves[i].key) || (i == p && Less(leaves[p + 1].key, Incr(leaves[p].key))))
  }

  ghost predicate Misses(t: Tree, q: Query) {
    exists i :: Loses(Leaves(t), q, Position(t, q.Start()), i)
  }

  /** The leaves whose keys and values are returned behind the first one. */
  ghost function TakenBehind(t: Tree, q: Query, p: nat): seq<Tree>
    requires p < |Leaves(t)|
  {
    var left := Leaves(t)[p].key;
    if q.StopsAt(left) then [] else Taken(Traversal.Within(Leaves(t), From(Incr(left))), q, 1)
  }

  /** The leaf behind the first one is due. */
  predicate NextIsDue(leaves: seq<Tree>, q: Query, p: nat) {
    p + 1 < |leaves| && HasRoom(q, 1) && BeforeEnd(q, leaves[p + 1])
  }

  lemma NothingDue(t: Tree, q: Query, p: nat)
    requires Ordered(t) && p == Position(t, q.Start()) && q.limit >= 0 && !NextIsDue(Leaves(t), q, p)
    ensures TakenBehind(t, q, p) == [] && !Misses(t, q)
  {
    hide Ordered, Less, Leaves, Position, Keys, Contents, Incr, Traversal.Within;
    var leaves := Leaves(t);
    var after := Incr(leaves[p].key);
    LeavesAreContents(t);
    if i :| Loses(leaves, q, p, i) { EarlierIsBeforeEnd(leaves, q, p + 1, i + 1); }
    Traversal.WithinIsFilter(leaves, From(after));
    var shown := Traversal.Within(leaves, From(after));
    if shown != [] && BeforeEnd(q, shown[0]) {
      assert shown[0] in shown;
      var j :| 0 <= j < |leaves| && leaves[j] == shown[0];
      IsBehind(leaves, p, j);
      EarlierIsBeforeEnd(leaves, q, p + 1, j);
    }
  }

  /** A leaf from the increment of the first leaf's key on is behind the first leaf. */
  lemma IsBehind(leaves: seq<Tree>, p: nat, j: nat)
    requires Ascending(leaves) && p < |leaves| && j < |leaves| && AtMost(Incr(leaves[p].key), leaves[j].key)
    ensures p < j
  {
    IncrIsNext(leaves[p].key, leaves[p].key);
    if j < p { LessTransitive(leaves[j].key, leaves[p].key, Incr(leaves[p].key)); }
  }

  /** The next leaf is due but not fetched. */
  lemma NextIsLost(t: Tree, q: Query, p: nat)
    requires Ordered(t) && p == Position(t, q.Start()) && q.limit >= 0 && NextIsDue(Leaves(t), q, p)
    requires q.EndsAt(Leaves(t)[p].key) || Less(Leaves(t)[p + 1].key, Incr(Leaves(t)[p].key))
    ensures Misses(t, q)
    ensures TakenBehind(t, q, p) != [] ==> TakenBehind(t, q, p)[0].key != Leaves(t)[p + 1].key
  {
    hide Ordered, Less, Leaves, Position, Incr, Traversal.Within;
    var leaves := Leaves(t);
    assert Loses(leaves, q, p, p);
    var after := Incr(leaves[p].key);
    Traversal.WithinIsFilter(leaves, From(after));
    var shown := Traversal.Within(leaves, From(after));
    if shown != [] { assert shown[0] in shown; }
  }

  /** From there on, missing an entry is ending early. */
  lemma MissesBehind(leaves: seq<Tree>, q: Query, p: nat)
    requires p + 1 < |leaves| && !q.EndsAt(leaves[p].key) && AtMost(Incr(leaves[p].key), leaves[p + 1].key)
    ensures (exists i :: Loses(leaves, q, p, i)) <==> SomeEndsEarly(leaves[p + 1..], q, 1)
  {
    hide HasRoom, BeforeEnd;
    var behind := leaves[p + 1..];
    if i :| Loses(leaves, q, p, i) { assert EndsEarly(behind, q, 1, i - p - 1); }
    if i :| EndsEarly(behind, q, 1, i) { assert Loses(leaves, q, p, p + 1 + i); }
  }

  /** When the traversal starts at the next leaf, it shows all leaves behind the first. */
  lemma AllShown(h: Hasher, t: Tree, p: nat)
    requires Ordered(t) && p + 1 < |Leaves(t)| && AtMost(Incr(Leaves(t)[p].key), Leaves(t)[p + 1].key)
    ensures Traversal.Within(Leaves(t), From(Incr(Leaves(t)[p].key))) == Leaves(t)[p + 1..]
  {
    hide Ordered, Less, Leaves, Incr, Traversal.Within, Traversal.Visit, Traversal.LeavesOf;
    var after := Incr(Leaves(t)[p].key);
    IncrSeparates(t, p);
    LeavesShown(h, t, p, after);
    ShownLeaves(t, after);
  }

  /** The next leaf is due and fetched: so are all others, unless one ends the traversal early. */
  lemma NextIsFetched(h: Hasher, t: Tree, q: Query, p: nat)
    requires Ordered(t) && p == Position(t, q.Start()) && q.limit >= 0 && NextIsDue(Leaves(t), q, p)
    requires !q.EndsAt(Leaves(t)[p].key) && AtMost(Incr(Leaves(t)[p].key), Leaves(t)[p + 1].key)
    requires AllStarted(Leaves(t)[p + 1..], q) && Ascending(Leaves(t)[p + 1..])
    ensures var behind := Leaves(t)[p + 1..];
            if Misses(t, q) then |TakenBehind(t, q, p)| < |Due(behind, q, 1)|
                else TakenBehind(t, q, p) == Due(behind, q, 1)
  {
    hide Ordered, Less, Leaves, Position, Incr, Due, Taken, AllStarted, Ascending, Loses, SomeEndsEarly, BeforeEnd,
         Traversal.Within;
    AllShown(h, t, p);
    TakenExactly(Leaves(t)[p + 1..], q, 1);
    MissesBehind(Leaves(t), q, p);
  }

  lemma SuffixAscends(leaves: seq<Tree>, p: nat)
    requires Ascending(leaves) && p <= |leaves|
    ensures Ascending(leaves[p..])
  {
  }

  lemma {:induction false} NoLeavesAmongInner(nodes: seq<Tree>)
    requires forall n :: n in nodes ==> n.Inner?
    ensures Traversal.LeavesOf(nodes) == []
  {
    if nodes != [] {
      NoLeavesAmongInner(nodes[1..]);
      assert nodes[0] in nodes;
    }
  }

  /** The leaves the builder's traversal shows are those behind the first one. */
  lemma LeavesShown(h: Hasher, t: Tree, p: nat, after: Key)
    requires Ordered(t) && p < |Leaves(t)| && Separates(t, p, after)
    ensures Traversal.LeavesOf(Traversal.Visit(t, From(after))) == Leaves(t)[p + 1..]
  {
    hide Ordered, Separates, Traversal.Visit, Traversal.LeavesOf;
    PathNodesLength(h, t, p, after);
    VisitsAfter(h, t, p, after);
    var shown := PathNodes(t, p)[..Shown(t, p, after)];
    forall n | n in shown ensures n.Inner? {
      var i :| 0 <= i < |shown| && shown[i] == n;
      PathNodesAreOnPath(h, t, p, i);
    }
    NoLeavesAmongInner(shown);
    Traversal.LeavesOfParts(shown, After(t, p));
    LeavesOfAfter(t, p);
  }

  lemma FirstIsInRange(q: Query, key: Key)
    ensures Traversal.InRange(RangeOf(q), key) ==
            ((q.keyStart.None? || AtMost(q.keyStart.value, key)) && (q.keyEnd.None? || Less(key, q.keyEnd.value)))
  {
  }

  /** The first entries: the first leaf, if it is in the range, and what is due behind it. */
  lemma FirstAndCut(left: Tree, rest: seq<Tree>, inRange: bool, q: Query)
    requires q.limit >= 0
    ensures var first := if inRange then [left] else [];
            var n := Returned(q, |first + rest|, inRange);
            && 0 <= n <= |first + rest|
            && KeysOf((first + rest)[..n]) == KeysOf(first) + KeysOf(Cut(rest, q, 1))
            && ValuesOf((first + rest)[..n]) == ValuesOf(first) + ValuesOf(Cut(rest, q, 1))
  {
    var first := if inRange then [left] else [];
    var n := Returned(q, |first + rest|, inRange);
    assert (first + rest)[..n] == first + Cut(rest, q, 1);
    KeysParts(first, Cut(rest, q, 1));
  }

  lemma BehindIsStarted(t: Tree, q: Query, p: nat)
    requires Ordered(t) && p == Position(t, q.Start())
    ensures AllStarted(Leaves(t)[p + 1..], q) && Ascending(Leaves(t)[p + 1..])
  {
    hide Ordered, Leaves, Position, Less, Contents, Keys;
    var leaves, behind := Leaves(t), Leaves(t)[p + 1..];
    LeavesAreContents(t);
    SuffixAscends(leaves, p + 1);
    RangeStarts(t, q, p);
    forall l | l in behind ensures Traversal.StartOrAfter(RangeOf(q), l.key) {
      var i :| 0 <= i < |behind| && behind[i] == l;
      assert leaves[p + 1 + i] == l;
    }
  }

  /** Behind the first leaf the query returns what is due, or something with other keys. */
  lemma TakenBehindExactly(h: Hasher, t: Tree, q: Query, p: nat)
    requires Ordered(t) && p == Position(t, q.Start()) && q.limit >= 0
    ensures var taken, due := TakenBehind(t, q, p), Due(Leaves(t)[p + 1..], q, 1);
            KeysOf(taken) == KeysOf(due) <==> !Misses(t, q)
    ensures !Misses(t, q) ==> TakenBehind(t, q, p) == Due(Leaves(t)[p + 1..], q, 1)
  {
    hide Ordered, Leaves, Position, Less, Incr, TakenBehind, Due, AllStarted, Misses;
    var leaves, behind := Leaves(t), Leaves(t)[p + 1..];
    BehindIsStarted(t, q, p);
    DueParts(behind, q, 1);
    KeysLength(TakenBehind(t, q, p));
    KeysLength(Due(behind, q, 1));
    if !NextIsDue(leaves, q, p) {
      NothingDue(t, q, p);
    } else if q.EndsAt(leaves[p].key) || Less(leaves[p + 1].key, Incr(leaves[p].key)) {
      NextIsLost(t, q, p);
    } else {
      NextIsFetched(h, t, q, p);
    }
  }

  lemma {:induction false} KeysLength(leaves: seq<Tree>)
    ensures |KeysOf(leaves)| == |leaves| && (leaves != [] ==> KeysOf(leaves)[0] == leaves[0].key)
  {
    if leaves != [] { KeysLength(leaves[1..]); }
  }

  /** What the query returns: the first leaf, if it is in the range, and what is taken behind it. */
  lemma BuiltEntries(h: Hasher, t: Tree, q: Query, p: nat)
    requires Ordered(t) && p == Position(t, q.Start())
    ensures var left := Leaves(t)[p];
            var first := if Traversal.InRange(RangeOf(q), left.key) then [left] else [];
            && Built(h, t, q).1 == KeysOf(first) + KeysOf(TakenBehind(t, q, p))
            && Built(h, t, q).2 == ValuesOf(first) + ValuesOf(TakenBehind(t, q, p))
  {
    hide Ordered, Fold, Traversal.InRange, Traversal.Within, Traversal.Visit, Traversal.LeavesOf, Leaves, Position,
         Path, Taken, Incr, Less;
    PathToIsPath(h, t, q.Start());
    var left := Leaves(t)[p];
    var after := Incr(left.key);
    FirstIsInRange(q, left.key);
    assert [left][1..] == [];
    ShownLeaves(t, after);
    FoldTakes(h, Path(h, t, p), q, FirstLeaf(h, t, q), Traversal.Visit(t, From(after)));
  }

  /**
   * The keys and values of a range query are the first entries of the tree in the range if and only if no due leaf is
   * missed: all entries without a limit; with one, the first leaf, if it is in the range, and at most limit - 2 behind
   * it.
   */
  lemma ReturnsExactly(h: Hasher, t: Tree, q: Query) returns (n: nat)
    requires Ordered(t) && q.limit >= 0
    ensures var entries, first := Traversal.Within(Leaves(t), RangeOf(q)), Leaves(t)[Position(t, q.Start())];
            && n == Returned(q, |entries|, Traversal.InRange(RangeOf(q), first.key)) && n <= |entries|
            && (Built(h, t, q).1 == KeysOf(entries[..n]) <==> !Misses(t, q))
            && (Built(h, t, q).2 == ValuesOf(entries[..n]) <== !Misses(t, q))
  {
    hide Ordered, Built, Traversal.InRange, Traversal.Within, Leaves, Position, Cut, TakenBehind, Misses;
    var p, r := Position(t, q.Start()), RangeOf(q);
    var left, behind := Leaves(t)[p], Leaves(t)[p + 1..];
    EntriesFrom(t, q, p);
    BuiltEntries(h, t, q, p);
    TakenBehindExactly(h, t, q, p);
    var rest, inRange := Traversal.Within(behind, r), Traversal.InRange(r, left.key);
    FirstAndCut(left, rest, inRange, q);
    n := Returned(q, |Traversal.Within(Leaves(t), r)|, inRange);
    Cancels(KeysOf(if inRange then [left] else []), KeysOf(TakenBehind(t, q, p)), KeysOf(Due(behind, q, 1)));
  }

  lemma Cancels<T>(a: seq<T>, x: seq<T>, y: seq<T>)
    ensures a + x == a + y <==> x == y
  {
    assert (a + x)[|a|..] == x && (a + y)[|a|..] == y;
  }

  /** With keys of one length nothing is missed. */
  lemma OneLengthMissesNothing(t: Tree, q: Query, width: nat)
    requires Ordered(t) && FixedWidth(t, width)
    ensures !Misses(t, q)
  {
    hide Ordered, FixedWidth, Leaves, Position, Incr, Less;
    var leaves, p := Leaves(t), Position(t, q.Start());
    if i :| Loses(leaves, q, p, i) {
      OneLengthNeverSkips(t, i, width);
      if q.EndsAt(leaves[i].key) { Between(Incr(leaves[i].key), leaves[i + 1].key, q.keyEnd.value); }
    }
  }

  // ---------------------------------------------------------------- entries left out

  /**
   * With the keys [1], [1, 0] and [2] a query for everything returns [1] and [2]: the traversal starts behind [1, 0].
   */
  lemma SkippedEntryIsMissed(h: Hasher)
    ensures var t, q := ThreeKeys(), Query(None, None, 0);
            Valid(t) && [1, 0] in Keys(t) && Misses(t, q) && Built(h, t, q).1 == [[1], [2]]
  {
    hide Built, Position, Leaves, ThreeKeys, Misses, TakenBehind;
    var t, q := ThreeKeys(), Query(None, None, 0);
    ThreeLeaves();
    EmptyIsFirst(t);
    ThreeMiss(t, q);
    BuiltEntries(h, t, q, 0);
    KeysOfOne(Leaves(t)[0]);
    KeysOfOne(Leaves(t)[2]);
  }

  lemma ThreeMiss(t: Tree, q: Query)
    requires Leaves(t) == [Leaf([1], [], 1), Leaf([1, 0], [], 1), Leaf([2], [], 1)] && q == Query(None, None, 0)
             && Position(t, []) == 0
    ensures Misses(t, q) && TakenBehind(t, q, 0) == [Leaves(t)[2]]
  {
    hide Less, Incr, Leaves, Position, Taken, Traversal.Within;
    SmallKeys();
    assert q.Start() == [] && Loses(Leaves(t), q, Position(t, q.Start()), 0);
    ShownOfThree(Leaves(t)[0], Leaves(t)[1], Leaves(t)[2]);
  }

  lemma ThreeLeaves()
    ensures Leaves(ThreeKeys()) == [Leaf([1], [], 1), Leaf([1, 0], [], 1), Leaf([2], [], 1)]
    ensures [1, 0] in Keys(ThreeKeys()) && Valid(ThreeKeys())
  {
    SmallKeys();
    TripleIsValid([1], [1, 0], [2]);
    PairIsValid([1], [1, 0]);
  }

  lemma ShownOfThree(a: Tree, b: Tree, c: Tree)
    requires a.key == [1] && b.key == [1, 0] && c.key == [2]
    ensures Taken(Traversal.Within([a, b, c], From(Incr([1]))), Query(None, None, 0), 1) == [c]
  {
    SmallKeys();
    hide Less, Incr;
    assert [a, b, c][1..] == [b, c] && [b, c][1..] == [c] && [c][1..] == [];
    assert Traversal.Within([c], From([2])) == [c];
    assert Traversal.Within([b, c], From([2])) == [c];
    assert Traversal.Within([a, b, c], From([2])) == [c];
  }

  lemma KeysOfOne(leaf: Tree)
    ensures KeysOf([leaf]) == [leaf.key]
  {
    assert [leaf][1..] == [];
  }

  /**
   * With the keys [1] and [1, 0] a query up to [2] returns [1] alone: its increment is the end, so nothing is fetched
   * behind it.
   */
  lemma EarlyEndMisses(h: Hasher)
    ensures var t, q := Pair([1], [1, 0]), Query(None, Some([2]), 0);
            Valid(t) && [1, 0] in Keys(t) && Misses(t, q) && Built(h, t, q).1 == [[1]]
  {
    hide Built, Less, Incr, Position, Valid;
    var t, q := Pair([1], [1, 0]), Query(None, Some([2]), 0);
    SmallKeys();
    PairIsValid([1], [1, 0]);
    EmptyIsFirst(t) by { assert Ordered(t) by { PairIsOrdered([1], [1, 0]); } }
    assert Loses(Leaves(t), q, 0, 0);
    BuiltEntries(h, t, q, 0) by { PairIsOrdered([1], [1, 0]); }
    KeysOfOne(Leaf([1], [], 1));
  }

  lemma PairIsOrdered(a: Key, b: Key)
    requires Less(a, b)
    ensures Ordered(Pair(a, b))
  {
    PairIsValid(a, b);
  }
}
