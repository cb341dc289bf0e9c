/** DeleteVersions: the run-grouping of a list of versions into intervals. */
module VersionGroups {

  ghost predicate Distinct(versions: seq<int>) {
    forall i, j :: 0 <= i < j < |versions| ==> versions[i] != versions[j]
  }

  ghost predicate Increasing(versions: seq<int>) {
    forall i, j :: 0 <= i < j < |versions| ==> versions[i] < versions[j]
  }

  /** sort.Slice: the same versions, in strictly increasing order if they are distinct. */
  function Sort(versions: seq<int>): (sorted: seq<int>)
    ensures forall v :: v in sorted <==> v in versions
    ensures Distinct(versions) ==> Increasing(sorted)
  {
    if versions == [] then []
    else
      assert forall v :: v in versions <==> v == versions[0] || v in versions[1..];
      Insert(versions[0], Sort(versions[1..]))
  }

  function Insert(v: int, sorted: seq<int>): (r: seq<int>)
    ensures forall u :: u in r <==> u == v || u in sorted
    ensures Increasing(sorted) && v !in sorted ==> Increasing(r)
  {
    if sorted == [] || v <= sorted[0] then [v] + sorted
    else
      assert forall u :: u in sorted <==> u == sorted[0] || u in sorted[1..];
      var rest := Insert(v, sorted[1..]);
      assert forall i :: 0 <= i < |rest| ==> rest[i] in rest;
      [sorted[0]] + rest
  }

  /** Interval start to length, and the start of the run being extended. */
  datatype Runs = Runs(intervals: map<int, int>, from: int)

  function Length(r: Runs, from: int): int {
    if from in r.intervals then r.intervals[from] else 0
  }

  /** One turn of the grouping loop. */
  function Extend(r: Runs, version: int): Runs {
    var from := if version - r.from != Length(r, r.from) then version else r.from;
    Runs(r.intervals[from := Length(r, from) + 1], from)
  }

  function Group(versions: seq<int>): Runs {
    if versions == [] then Runs(map[], 0) else Extend(Group(versions[..|versions| - 1]), versions[|versions| - 1])
  }

  /** Some interval deletes version `v`. */
  ghost predicate Covers(intervals: map<int, int>, v: int) {
    exists from :: from in intervals && from <= v < from + intervals[from]
  }

  /** No version is forgotten, whatever the list. */
  lemma {:induction false} GroupCovers(versions: seq<int>, v: int)
    requires v in versions
    ensures Covers(Group(versions).intervals, v)
  {
    var rest, last := versions[..|versions| - 1], versions[|versions| - 1];
    var r, r' := Group(rest), Group(versions);
    LengthsArePositive(rest);
    if v in rest {
      GroupCovers(rest, v);
      var from :| from in r.intervals && from <= v < from + r.intervals[from];
      assert from in r'.intervals && from <= v < from + r'.intervals[from];
    } else {
      assert v == last;
      assert r'.from in r'.intervals && r'.from <= v < r'.from + r'.intervals[r'.from];
    }
  }

  lemma {:induction false} LengthsArePositive(versions: seq<int>)
    ensures forall from :: from in Group(versions).intervals ==> Group(versions).intervals[from] >= 1
  {
    if versions != [] { LengthsArePositive(versions[..|versions| - 1]); }
  }

  /** For distinct versions in order, the intervals delete exactly those versions. */
  lemma {:induction false} GroupIsExact(versions: seq<int>, v: int)
    requires Increasing(versions)
    ensures Covers(Group(versions).intervals, v) <==> v in versions
  {
    if versions != [] {
      var rest, last := versions[..|versions| - 1], versions[|versions| - 1];
      GroupIsExact(rest, v);
      LastRun(rest);
      LastRun(versions);
      LengthsArePositive(rest);
      var r, r' := Group(rest), Group(versions);
      assert v in versions <==> v in rest || v == last;
      if Covers(r.intervals, v) {
        var from :| from in r.intervals && from <= v < from + r.intervals[from];
        assert from in r'.intervals && from <= v < from + r'.intervals[from];
      }
      if v == last {
        assert r'.from in r'.intervals && r'.from <= v < r'.from + r'.intervals[r'.from];
      }
      if Covers(r'.intervals, v) && v != last {
        var from :| from in r'.intervals && from <= v < from + r'.intervals[from];
        assert from in r.intervals && from <= v < from + r.intervals[from];
      }
    }
  }

  /** The run being extended ends at the last version seen. */
  lemma {:induction false} LastRun(versions: seq<int>)
    requires Increasing(versions)
    ensures var r := Group(versions);
            if versions == [] then r == Runs(map[], 0)
            else
              var last := versions[|versions| - 1];
              && r.from in r.intervals && r.from + r.intervals[r.from] == last + 1
              && forall from :: from in r.intervals ==> from + r.intervals[from] <= last + 1 && from <= r.from <= last
  {
    if versions != [] { LastRun(versions[..|versions| - 1]); }
  }

  /** A repeated version is not harmless: [3, 3] is grouped as the interval 3..4 and deletes version 4 as well. */
  lemma RepeatedVersionOvershoots()
    ensures Group([3, 3]).intervals == map[3 := 2] && Covers(Group([3, 3]).intervals, 4)
  {
    assert [3, 3][..1] == [3] && [3][..0] == [];
    assert Group([3]) == Runs(map[3 := 1], 3);
    assert Group([3, 3]) == Runs(map[3 := 2], 3);
    assert 3 in map[3 := 2] && 3 <= 4 < 3 + 2;
  }

  /** No interval starts inside another. */
  lemma {:induction false} GroupIsDisjoint(versions: seq<int>, f: int, g: int)
    requires Increasing(versions)
    requires f in Group(versions).intervals && g in Group(versions).intervals && f < g
    ensures f + Group(versions).intervals[f] <= g
  {
    var rest := versions[..|versions| - 1];
    LastRun(rest);
    LastRun(versions);
    if g in Group(rest).intervals { GroupIsDisjoint(rest, f, g); }
  }

  /** Distinct versions are grouped into disjoint intervals that together delete exactly the list. */
  lemma DistinctVersionsGroupExactly(versions: seq<int>, intervals: map<int, int>)
    requires Distinct(versions) && intervals == Group(Sort(versions)).intervals
    ensures forall v :: Covers(intervals, v) <==> v in versions
    ensures forall from :: from in intervals ==>
              intervals[from] >= 1 && from in versions && from + intervals[from] - 1 in versions
    ensures forall f, g :: f in intervals && g in intervals && f < g ==> f + intervals[f] <= g
  {
    hide Sort, Group, Increasing, Distinct;
    var sorted := Sort(versions);
    LengthsArePositive(sorted);
    forall v ensures Covers(intervals, v) <==> v in versions { GroupIsExact(sorted, v); }
    forall from | from in intervals ensures from in versions && from + intervals[from] - 1 in versions {
      assert Covers(intervals, from) && Covers(intervals, from + intervals[from] - 1);
    }
    forall f, g | f in intervals && g in intervals && f < g ensures f + intervals[f] <= g {
      GroupIsDisjoint(sorted, f, g);
    }
  }

  // ---------------------------------------------------------------- lists with repetitions

  ghost predicate Nondecreasing(versions: seq<int>) {
    && (forall i :: 0 <= i < |versions| ==> versions[i] >= 1)
    && (forall i, j :: 0 <= i < j < |versions| ==> versions[i] <= versions[j])
  }

  ghost function Count(versions: seq<int>, v: int): nat {
    multiset(versions)[v]
  }

  /** The first `v` of the list extends the run before it. */
  ghost predicate Continues(versions: seq<int>, v: int)
    decreases v
  {
    v >= 2 && (Count(versions, v - 1) == 1 || (Count(versions, v - 1) == 2 && Continues(versions, v - 1)))
  }

  /** How many of the list's `v` open and lengthen an interval of their own. */
  ghost function Own(versions: seq<int>, v: int): int {
    Count(versions, v) - if Continues(versions, v) then 1 else 0
  }

  /** Wherever a version is repeated, the versions its interval reaches are in the list as well. */
  ghost predicate Harmless(versions: seq<int>) {
    forall v, u :: v in versions && v < u < v + Own(versions, v) ==> u in versions
  }

  /** Up to the last version, each interval of repetitions is followed by the next version. */
  ghost predicate Tame(versions: seq<int>) {
    forall v :: v in versions && v < versions[|versions| - 1] && Own(versions, v) >= 2 ==> v + 1 in versions
  }

  /**
   * The grouping of a tame list: the open interval ends at the last version or repeats it; the others are runs or
   * repetitions.
   */
  ghost predicate Grouped(versions: seq<int>, r: Runs)
    requires versions != []
  {
    var x := versions[|versions| - 1];
    && r.from in r.intervals
    && (Own(versions, x) == 0 ==>
         && r.from < x && r.from + r.intervals[r.from] == x + 1 && Own(versions, r.from) == 1
         && forall u :: r.from <= u <= x ==> u in versions)
    && (Own(versions, x) >= 1 ==> r.from == x && r.intervals[x] == Own(versions, x))
    && (forall f :: f in r.intervals <==> f in versions && Own(versions, f) >= 1)
    && (forall f :: f in r.intervals && f != r.from ==>
         if Own(versions, f) >= 2 then r.intervals[f] == Own(versions, f)
         else forall u :: f <= u < f + r.intervals[f] ==> u in versions)
  }

  lemma CountOneMore(versions: seq<int>, x: int, v: int)
    ensures Count(versions + [x], v) == Count(versions, v) + if v == x then 1 else 0
    ensures v in versions <==> Count(versions, v) > 0
  {
  }

  lemma OwnIsNatural(versions: seq<int>, v: int)
    requires v in versions
    ensures Own(versions, v) >= 0
  {
    CountOneMore(versions, v, v);
  }

  /** Later versions do not change what is said about earlier ones. */
  lemma {:induction false} OwnOneMore(versions: seq<int>, x: int, v: int)
    requires v <= x
    ensures Continues(versions + [x], v) == Continues(versions, v)
    ensures Own(versions + [x], v) == Own(versions, v) + if v == x then 1 else 0
    decreases v
  {
    CountOneMore(versions, x, v);
    CountOneMore(versions, x, v - 1);
    if v >= 2 { OwnOneMore(versions, x, v - 1); }
  }

  lemma NothingBeyond(versions: seq<int>, v: int)
    requires Nondecreasing(versions) && (versions == [] || v > versions[|versions| - 1])
    ensures v !in versions && Count(versions, v) == 0
  {
    CountOneMore(versions, v, v);
  }

  lemma BoundedByLast(versions: seq<int>, v: int)
    requires Nondecreasing(versions) && v in versions
    ensures 1 <= v <= versions[|versions| - 1]
  {
    var i :| 0 <= i < |versions| && versions[i] == v;
  }

  lemma PrefixNondecreasing(versions: seq<int>, x': int)
    requires Nondecreasing(versions + [x']) && versions != []
    ensures Nondecreasing(versions) && 1 <= versions[|versions| - 1] <= x'
  {
    var all := versions + [x'];
    assert forall i :: 0 <= i < |versions| ==> all[i] == versions[i];
    assert all[|versions| - 1] <= all[|versions|];
  }

  lemma PrefixFacts(versions: seq<int>, x': int)
    requires Nondecreasing(versions + [x']) && versions != []
    ensures Nondecreasing(versions) && 1 <= versions[|versions| - 1] <= x'
    ensures forall v :: v in versions ==> 1 <= v <= versions[|versions| - 1]
    ensures forall v :: v in versions + [x'] <==> v in versions || v == x'
    ensures Group(versions + [x']) == Extend(Group(versions), x')
  {
    PrefixNondecreasing(versions, x');
    hide Nondecreasing, Extend;
    var all := versions + [x'];
    assert all[..|all| - 1] == versions;
    forall v | v in versions ensures 1 <= v <= versions[|versions| - 1] { BoundedByLast(versions, v); }
  }

  /** What the newest version owns. */
  lemma NewestOwn(versions: seq<int>, x': int)
    requires Nondecreasing(versions + [x']) && versions != []
    ensures var x := versions[|versions| - 1];
            x' > x ==> Own(versions + [x'], x') == (if x' == x + 1 && Own(versions, x) <= 1 then 0 else 1)
  {
    hide Count, Group, Nondecreasing;
    var x := versions[|versions| - 1];
    PrefixFacts(versions, x');
    CountOneMore(versions, x', x');
    CountOneMore(versions, x', x' - 1);
    CountOneMore(versions, x', x);
    OwnOneMore(versions, x', x);
    if x' > x { NothingBeyond(versions, x'); }
    if x' > x + 1 { NothingBeyond(versions, x' - 1); }
  }

  /** One more version keeps the description, as long as the list stays tame. */
  lemma GroupedOneMore(versions: seq<int>, x': int)
    requires Nondecreasing(versions + [x']) && versions != [] && Tame(versions + [x'])
    requires Grouped(versions, Group(versions))
    ensures Grouped(versions + [x'], Group(versions + [x']))
  {
    hide Group, Count, Continues, Grouped, Own, Nondecreasing, Extend, Tame;
    var x, all, r := versions[|versions| - 1], versions + [x'], Group(versions);
    PrefixFacts(versions, x');
    forall f | f in versions ensures Own(all, f) == Own(versions, f) + if f == x' then 1 else 0 {
      OwnOneMore(versions, x', f);
    }
    NewestOwn(versions, x');
    assert x in versions;
    OwnIsNatural(versions, x);
    if x' == x {
      GroupedRepeat(versions, x, all, r);
    } else if x' == x + 1 {
      GroupedNext(versions, x, all, r);
    } else {
      assert Own(versions, x) <= 1 by { TameGap(versions, x, x'); }
      GroupedGap(versions, x, x', all, r);
    }
  }

  lemma TameGap(versions: seq<int>, x: int, x': int)
    requires Nondecreasing(versions + [x']) && versions != [] && x == versions[|versions| - 1] && x' > x + 1
             && Tame(versions + [x'])
    ensures Own(versions, x) <= 1
  {
    hide Group, Grouped;
    PrefixFacts(versions, x');
    OwnOneMore(versions, x', x);
    NothingBeyond(versions, x + 1);
    assert x in versions + [x'];
  }

  ghost predicate Unchanged(versions: seq<int>, all: seq<int>, x': int) {
    && (forall f :: f in versions ==> Own(all, f) == Own(versions, f) + if f == x' then 1 else 0)
    && (forall v :: v in all <==> v in versions || v == x')
    && all != [] && all[|all| - 1] == x'
  }

  lemma GroupedRepeat(versions: seq<int>, x: int, all: seq<int>, r: Runs)
    requires versions != [] && x == versions[|versions| - 1] && Grouped(versions, r) && Unchanged(versions, all, x)
             && Own(versions, x) >= 0
    ensures Grouped(all, Extend(r, x))
  {
    hide Count, Continues, Own;
    assert x in versions;
  }

  lemma GroupedNext(versions: seq<int>, x: int, all: seq<int>, r: Runs)
    requires versions != [] && x == versions[|versions| - 1] && Grouped(versions, r) && Unchanged(versions, all, x + 1)
             && Own(versions, x) >= 0
    requires x + 1 !in versions && Own(all, x + 1) == if Own(versions, x) <= 1 then 0 else 1
    ensures Grouped(all, Extend(r, x + 1))
  {
    hide Count, Continues, Own;
    assert x in versions;
  }

  lemma GroupedGap(versions: seq<int>, x: int, x': int, all: seq<int>, r: Runs)
    requires versions != [] && x == versions[|versions| - 1] && Grouped(versions, r) && Unchanged(versions, all, x')
             && Own(versions, x) >= 0
    requires x' > x + 1 && x' !in versions && Own(versions, x) <= 1 && Own(all, x') == 1
    ensures Grouped(all, Extend(r, x'))
  {
    hide Count, Continues, Own;
    assert x in versions;
  }

  lemma TamePrefix(versions: seq<int>, x': int)
    requires Nondecreasing(versions + [x']) && versions != [] && Tame(versions + [x'])
    ensures Tame(versions)
  {
    hide Own, Group, Nondecreasing;
    PrefixFacts(versions, x');
    var x, all := versions[|versions| - 1], versions + [x'];
    assert x in versions;
    forall v | v in versions && v < x && Own(versions, v) >= 2 ensures v + 1 in versions {
      OwnOneMore(versions, x', v);
      assert v in all && v < all[|all| - 1];
    }
  }

  lemma SplitLast(versions: seq<int>) returns (rest: seq<int>, last: int)
    requires versions != []
    ensures versions == rest + [last] && |rest| == |versions| - 1 && last == versions[|versions| - 1]
  {
    rest, last := versions[..|versions| - 1], versions[|versions| - 1];
  }

  lemma {:induction false} TameIsGrouped(versions: seq<int>)
    requires Nondecreasing(versions) && versions != [] && Tame(versions)
    ensures Grouped(versions, Group(versions))
    decreases |versions|
  {
    var rest, last := SplitLast(versions);
    if rest == [] {
      OneGroup(last);
    } else {
      hide Group, Grouped, Own, Tame, Nondecreasing;
      PrefixFacts(rest, last);
      TamePrefix(rest, last);
      TameIsGrouped(rest);
      GroupedOneMore(rest, last);
    }
  }

  lemma OneGroup(x: int)
    requires x >= 1
    ensures Grouped([x], Group([x]))
  {
    assert [x][..0] == [] && Group([x]) == Runs(map[x := 1], x);
    CountOneMore([], x, x);
    CountOneMore([], x, x - 1);
    assert [] + [x] == [x];
  }

  lemma CoversGrow(versions: seq<int>, x': int, u: int)
    requires Covers(Group(versions).intervals, u)
    ensures Covers(Group(versions + [x']).intervals, u)
  {
    var all := versions + [x'];
    assert all[..|all| - 1] == versions;
    var r, r' := Group(versions), Extend(Group(versions), x');
    var f :| f in r.intervals && f <= u < f + r.intervals[f];
    assert f in r'.intervals && f <= u < f + r'.intervals[f];
  }

  /** What makes a list wild was there before its last version, or that version comes after a gap. */
  lemma WildStep(versions: seq<int>, x': int)
    requires Nondecreasing(versions + [x']) && !Tame(versions + [x'])
    ensures versions != []
    ensures Tame(versions) ==> var x := versions[|versions| - 1]; Own(versions, x) >= 2 && x + 1 < x'
  {
    hide Own, Nondecreasing;
    var all := versions + [x'];
    var v :| v in all && v < x' && Own(all, v) >= 2 && v + 1 !in all;
    assert v in versions;
    PrefixFacts(versions, x');
    OwnOneMore(versions, x', v);
    var x := versions[|versions| - 1];
    assert x in versions;
    if Tame(versions) { assert v == x; }
  }

  /** A list that is not tame deletes a version that is not in it. */
  lemma {:induction false} WildOvershoots(versions: seq<int>) returns (u: int)
    requires Nondecreasing(versions) && versions != [] && !Tame(versions)
    ensures u < versions[|versions| - 1] && u !in versions && Covers(Group(versions).intervals, u)
    decreases |versions|
  {
    hide Own, Group, Nondecreasing, Tame, Covers;
    var rest, last := SplitLast(versions);
    WildStep(rest, last);
    PrefixFacts(rest, last);
    if Tame(rest) {
      u := rest[|rest| - 1] + 1;
      LastReaches(rest);
    } else {
      u := WildOvershoots(rest);
    }
    CoversGrow(rest, last, u);
  }

  /** Repetitions of the last version of a tame list reach beyond it. */
  lemma LastReaches(versions: seq<int>)
    requires Nondecreasing(versions) && versions != [] && Tame(versions)
    requires Own(versions, versions[|versions| - 1]) >= 2
    ensures Covers(Group(versions).intervals, versions[|versions| - 1] + 1)
  {
    hide Own, Group, Nondecreasing, Tame;
    TameIsGrouped(versions);
    var x, r := versions[|versions| - 1], Group(versions);
    assert x in r.intervals && x <= x + 1 < x + r.intervals[x];
  }

  /** In a tame list the versions deleted are the list and what its repetitions reach. */
  lemma TameCovers(versions: seq<int>, u: int)
    requires Nondecreasing(versions) && versions != [] && Tame(versions) && u !in versions
    ensures Covers(Group(versions).intervals, u) <==> exists v :: v in versions && v < u < v + Own(versions, v)
  {
    hide Own, Group, Nondecreasing, Tame;
    TameIsGrouped(versions);
    var r, x := Group(versions), versions[|versions| - 1];
    OwnIsNatural(versions, x);
    assert x in versions;
    if v :| v in versions && v < u < v + Own(versions, v) {
      assert v in r.intervals && v <= u < v + r.intervals[v];
    }
    if f :| f in r.intervals && f <= u < f + r.intervals[f] {
      assert f in versions && f < u < f + Own(versions, f);
    }
  }

  lemma SortedGroupsExactlyIffHarmless(versions: seq<int>)
    requires Nondecreasing(versions)
    ensures (forall u :: Covers(Group(versions).intervals, u) <==> u in versions) <==> Harmless(versions)
  {
    forall u | u in versions ensures Covers(Group(versions).intervals, u) { GroupCovers(versions, u); }
    if versions != [] {
      if Tame(versions) {
        forall u | u !in versions
          ensures Covers(Group(versions).intervals, u) <==> exists v :: v in versions && v < u < v + Own(versions, v)
        {
          TameCovers(versions, u);
        }
      } else {
        var u := WildOvershoots(versions);
      }
    }
  }

  lemma {:induction false} InsertAdds(v: int, sorted: seq<int>)
    ensures multiset(Insert(v, sorted)) == multiset(sorted) + multiset{v}
  {
    if sorted != [] && v > sorted[0] {
      assert sorted == [sorted[0]] + sorted[1..];
      InsertAdds(v, sorted[1..]);
    }
  }

  lemma {:induction false} InsertOrders(v: int, sorted: seq<int>)
    requires Nondecreasing(sorted) && v >= 1
    ensures Nondecreasing(Insert(v, sorted))
  {
    if sorted != [] && v > sorted[0] {
      InsertOrders(v, sorted[1..]);
      var rest := Insert(v, sorted[1..]);
      assert forall u :: u in rest ==> u >= sorted[0];
      hide Insert;
      ConsOrders(sorted[0], rest);
    }
  }

  lemma ConsOrders(first: int, rest: seq<int>)
    requires Nondecreasing(rest) && first >= 1 && forall u :: u in rest ==> u >= first
    ensures Nondecreasing([first] + rest)
  {
    forall i | 0 <= i < |rest| ensures rest[i] >= first { assert rest[i] in rest; }
  }

  lemma {:induction false} SortOrders(versions: seq<int>)
    requires forall i :: 0 <= i < |versions| ==> versions[i] >= 1
    ensures Nondecreasing(Sort(versions)) && multiset(Sort(versions)) == multiset(versions)
  {
    if versions != [] {
      assert versions == [versions[0]] + versions[1..];
      SortOrders(versions[1..]);
      InsertOrders(versions[0], Sort(versions[1..]));
      InsertAdds(versions[0], Sort(versions[1..]));
    }
  }

  lemma {:induction false} SameOwn(versions: seq<int>, sorted: seq<int>, v: int)
    requires multiset(versions) == multiset(sorted)
    ensures Continues(versions, v) == Continues(sorted, v) && Own(versions, v) == Own(sorted, v)
    decreases v
  {
    if v >= 2 { SameOwn(versions, sorted, v - 1); }
  }

  /**
   * DeleteVersions deletes exactly the versions it is given if and only if repetitions reach only versions of the list.
   */
  lemma GroupsExactlyIffHarmless(versions: seq<int>)
    requires forall i :: 0 <= i < |versions| ==> versions[i] >= 1
    ensures (forall u :: Covers(Group(Sort(versions)).intervals, u) <==> u in versions) <==> Harmless(versions)
  {
    var sorted := Sort(versions);
    SortOrders(versions);
    SortedGroupsExactlyIffHarmless(sorted);
    assert Harmless(sorted) == Harmless(versions) by {
      forall v ensures Own(versions, v) == Own(sorted, v) { SameOwn(versions, sorted, v); }
    }
  }
}
