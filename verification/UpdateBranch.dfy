/** Hashing the unsaved part of a tree: one after the other, and with goroutines feeding a channel. */
module UpdateBranch {
  import opened ByteOrder
  import opened Tree
  import opened Orphans
  import opened VersionStore
  import opened Hashing
  import Traversal

  // ---------------------------------------------------------------- sequential

  /** updateBranch: the nodes put into the pre-persist cache, children first; nodes with a flag end the walk. */
  ghost function Branch(t: Tree, unsaved: set<Tree>): seq<Tree> {
    if t !in unsaved then []
    else (if t.Leaf? then [] else Branch(t.left, unsaved) + Branch(t.right, unsaved)) + [t]
  }

  /** A node with a flag has only such nodes below it. */
  ghost predicate FlagsReachDown(t: Tree, unsaved: set<Tree>) {
    if t !in unsaved then Nodes(t) !! unsaved
    else t.Inner? ==> FlagsReachDown(t.left, unsaved) && FlagsReachDown(t.right, unsaved)
  }

  /** The nodes cached are exactly those without a flag, whatever their stamps. */
  lemma {:induction false} BranchIsUnflagged(t: Tree, unsaved: set<Tree>, n: Tree)
    requires FlagsReachDown(t, unsaved)
    ensures n in Branch(t, unsaved) <==> n in Nodes(t) && n in unsaved
  {
    if t.Inner? && t in unsaved { BranchIsUnflagged(t.left, unsaved, n); BranchIsUnflagged(t.right, unsaved, n); }
  }

  /** With flags by stamps, those are the nodes SaveBranch saves. */
  lemma BranchIsUnsaved(t: Tree, version: int, n: Tree)
    ensures n in Branch(t, Unsaved(t, version)) <==> n in Unsaved(t, version)
  {
    UnsavedIsLater(t, version);
    BranchByStamps(t, version, Unsaved(t, version), n);
  }

  lemma {:induction false} UnsavedIsLater(t: Tree, version: int)
    ensures forall n :: n in Unsaved(t, version) ==> n.version > version
  {
    if t.Inner? { UnsavedIsLater(t.left, version); UnsavedIsLater(t.right, version); }
  }

  lemma {:induction false} BranchByStamps(t: Tree, version: int, unsaved: set<Tree>, n: Tree)
    requires Unsaved(t, version) <= unsaved && forall m :: m in unsaved ==> m.version > version
    ensures n in Branch(t, unsaved) <==> n in Unsaved(t, version)
  {
    if t.Inner? && t.version > version {
      BranchByStamps(t.left, version, unsaved, n);
      BranchByStamps(t.right, version, unsaved, n);
    }
  }

  /** No node is cached twice. */
  lemma {:induction false} BranchIsDistinct(t: Tree, unsaved: set<Tree>, n: Tree)
    ensures Reported(Branch(t, unsaved), n) <= Copies(t, n)
  {
    hide Reported;
    ReportedParts([], [], n);
    ReportedOne(t, n);
    if t in unsaved {
      if t.Leaf? {
        assert Branch(t, unsaved) == [t];
      } else {
        BranchIsDistinct(t.left, unsaved, n);
        BranchIsDistinct(t.right, unsaved, n);
        ReportedParts(Branch(t.left, unsaved), Branch(t.right, unsaved), n);
        ReportedParts(Branch(t.left, unsaved) + Branch(t.right, unsaved), [t], n);
      }
    }
  }

  // ---------------------------------------------------------------- one collector, up to two goroutines

  /** A channel message: a node, or nil at the end of a goroutine's stream. */
  datatype Message = Message(left: bool, item: Option<Tree>)

  /** What updateBranchRoutine sends for a child. */
  ghost function Stream(t: Tree, unsaved: set<Tree>): seq<Option<Tree>> {
    Items(Branch(t, unsaved)) + [None]
  }

  function Items(nodes: seq<Tree>): seq<Option<Tree>> {
    if nodes == [] then [] else [Some(nodes[0])] + Items(nodes[1..])
  }

  /** What a goroutine has yet to do: walk a subtree, or hash a node whose children are done and send it. */
  datatype Frame = Enter(t: Tree) | Leave(t: Tree)

  /**
   * A goroutine: its call stack, the hashes its calls have returned, whether it has sent nil, and whether it has signed
   * off.
   */
  datatype Routine = Routine(frames: seq<Frame>, hashes: seq<Hash>, ended: bool, joined: bool)

  /** The call updateBranchRoutine(t, ch). */
  function Call(t: Tree): Routine {
    Routine([Enter(t)], [], false, false)
  }

  /** updateBranchConcurrency on a node: goroutines for the children in memory, the channel, and the collecting loop. */
  datatype State = State(
    left: Option<Routine>, right: Option<Routine>,
    channel: seq<Message>,
    got: seq<Message>,            // what the loop has received
    leftHash: Hash, rightHash: Hash,
    cache: seq<Tree>,             // nodes saved to the pre-persist cache, in order
    result: Option<Hash>)

  function Needed(s: State): int {
    (if s.left.Some? then 1 else 0) + if s.right.Some? then 1 else 0
  }

  /** The number of nil markers. */
  function Nils(items: seq<Option<Tree>>): nat {
    if items == [] then 0 else (if items[0].None? then 1 else 0) + Nils(items[1..])
  }

  function Received(ms: seq<Message>): seq<Option<Tree>> {
    if ms == [] then [] else [ms[0].item] + Received(ms[1..])
  }

  /** The loop ends when it has counted one marker per goroutine; without goroutines it does not start. */
  predicate Stopped(s: State) {
    Nils(Received(s.got)) == Needed(s)
  }

  datatype Action = Walk(left: bool) | Send(left: bool) | Receive | Assign(left: bool) | Finish

  function RoutineOf(s: State, left: bool): Option<Routine> {
    if left then s.left else s.right
  }

  /** A goroutine sends when a node is ready, and nil when the walk is over. */
  predicate Sends(g: Routine) {
    if g.frames == [] then !g.ended else g.frames[0].Leave?
  }

  predicate Enabled(capacity: nat, s: State, a: Action) {
    match a
    case Walk(left) => var g := RoutineOf(s, left); g.Some? && g.value.frames != [] && g.value.frames[0].Enter?
    case Send(left) => var g := RoutineOf(s, left); g.Some? && Sends(g.value) && |s.channel| < capacity
    case Receive => !Stopped(s) && s.channel != []
    case Assign(left) => var g := RoutineOf(s, left);
        g.Some? && g.value.frames == [] && g.value.ended && !g.value.joined
    case Finish =>
      Stopped(s) && s.result.None? && (s.left.Some? ==> s.left.value.joined) && (s.right.Some? ==> s.right.value.joined)
  }

  /** node._hash with the hashes the calls on the children returned; the last hash comes first. */
  function HashNode(h: Hasher, t: Tree, hashes: seq<Hash>): seq<Hash> {
    if t.Leaf? then [h.node(LeafImage(t.version, t.key, h.value(t.value)))] + hashes
    else if |hashes| < 2 then []
    else [h.node(Image(t.height, t.size, t.version, hashes[1], hashes[0]))] + hashes[2..]
  }

  /** One step of the walk: a saved node returns its hash, an unsaved one goes on to its children. */
  function WalkOn(h: Hasher, unsaved: set<Tree>, g: Routine): Routine
    requires g.frames != [] && g.frames[0].Enter?
  {
    var t, rest := g.frames[0].t, g.frames[1..];
    if t !in unsaved then g.(frames := rest, hashes := [HashOf(h, t)] + g.hashes)
    else if t.Leaf? then g.(frames := [Leave(t)] + rest)
    else g.(frames := [Enter(t.left), Enter(t.right), Leave(t)] + rest)
  }

  /** One send: the node just hashed, or nil. */
  function SendOn(h: Hasher, g: Routine): (Routine, Option<Tree>)
    requires Sends(g)
  {
    if g.frames == [] then (g.(ended := true), None)
    else (g.(frames := g.frames[1..], hashes := HashNode(h, g.frames[0].t, g.hashes)), Some(g.frames[0].t))
  }

  function WithRoutine(s: State, left: bool, g: Routine): State {
    if left then s.(left := Some(g)) else s.(right := Some(g))
  }

  function Step(h: Hasher, t: Tree, unsaved: set<Tree>, capacity: nat, s: State, a: Action): State
    requires Enabled(capacity, s, a)
  {
    match a
    case Walk(left) => WithRoutine(s, left, WalkOn(h, unsaved, RoutineOf(s, left).value))
    case Send(left) =>
      var (g, item) := SendOn(h, RoutineOf(s, left).value);
      WithRoutine(s.(channel := s.channel + [Message(left, item)]), left, g)
    case Receive =>
      var m := s.channel[0];
      s.(channel := s.channel[1..], got := s.got + [m],
         cache := if m.item.Some? then s.cache + [m.item.value] else s.cache)
    case Assign(left) =>
      var g := RoutineOf(s, left).value;
      var hash := if g.hashes == [] then [] else g.hashes[0];
      var s' := WithRoutine(s, left, g.(joined := true));
      if left then s'.(leftHash := hash) else s'.(rightHash := hash)
    case Finish =>
      var image := if t.Leaf? then LeafImage(t.version, t.key, h.value(t.value))
                   else Image(t.height, t.size, t.version, s.leftHash, s.rightHash);
      s.(result := Some(h.node(image)), cache := s.cache + [t])
  }

  // ---------------------------------------------------------------- a goroutine's walk

  /** The nodes a call stack has yet to send. */
  ghost function Emits(frames: seq<Frame>, unsaved: set<Tree>): seq<Tree> {
    if frames == [] then []
    else (if frames[0].Enter? then Branch(frames[0].t, unsaved) else [frames[0].t]) + Emits(frames[1..], unsaved)
  }

  /** What a goroutine has yet to send. */
  ghost function Rest(g: Routine, unsaved: set<Tree>): seq<Option<Tree>> {
    Items(Emits(g.frames, unsaved)) + if g.ended then [] else [None]
  }

  /** The hashes a call stack returns in the end. */
  ghost function Returns(h: Hasher, frames: seq<Frame>, hashes: seq<Hash>): seq<Hash> {
    if frames == [] then hashes
    else
      var t := frames[0].t;
      Returns(h, frames[1..], if frames[0].Enter? then [HashOf(h, t)] + hashes else HashNode(h, t, hashes))
  }

  lemma Cons(h: Hasher, f: Frame, rest: seq<Frame>, hashes: seq<Hash>, unsaved: set<Tree>)
    ensures Emits([f] + rest, unsaved) == (if f.Enter? then Branch(f.t, unsaved) else [f.t]) + Emits(rest, unsaved)
    ensures Returns(h, [f] + rest, hashes) ==
            Returns(h, rest, if f.Enter? then [HashOf(h, f.t)] + hashes else HashNode(h, f.t, hashes))
    ensures Weight([f] + rest) == (if f.Enter? then 4 * NodeCount(f.t) else 2) + Weight(rest)
  {
    assert ([f] + rest)[1..] == rest;
  }

  lemma WalkIntoChildren(h: Hasher, unsaved: set<Tree>, t: Tree, rest: seq<Frame>, hashes: seq<Hash>)
    requires t.Inner? && t in unsaved
    ensures var before, after := [Enter(t)] + rest, [Enter(t.left), Enter(t.right), Leave(t)] + rest;
            && Emits(after, unsaved) == Emits(before, unsaved)
            && Returns(h, after, hashes) == Returns(h, before, hashes)
            && Weight(after) < Weight(before)
  {
    var l, r, e := Branch(t.left, unsaved), Branch(t.right, unsaved), Emits(rest, unsaved);
    assert Branch(t, unsaved) == l + r + [t];
    assert l + (r + ([t] + e)) == (l + r + [t]) + e;
    assert NodeCount(t) == 1 + NodeCount(t.left) + NodeCount(t.right);
    TwoHashes(h, t, hashes);
    hide HashOf, HashNode, Emits, Returns, Weight, Branch, NodeCount;
    var one := [Leave(t)] + rest;
    var two := [Enter(t.right)] + one;
    assert [Enter(t.left), Enter(t.right), Leave(t)] + rest == [Enter(t.left)] + two;
    Cons(h, Enter(t), rest, hashes, unsaved);
    Cons(h, Enter(t.left), two, hashes, unsaved);
    Cons(h, Enter(t.right), one, [HashOf(h, t.left)] + hashes, unsaved);
    Cons(h, Leave(t), rest, [HashOf(h, t.right)] + ([HashOf(h, t.left)] + hashes), unsaved);
  }

  /** A step of the walk changes neither what will be sent nor what will be returned, and leaves less to do. */
  lemma WalkChangesNothing(h: Hasher, unsaved: set<Tree>, g: Routine)
    requires g.frames != [] && g.frames[0].Enter?
    ensures var g' := WalkOn(h, unsaved, g);
            && Rest(g', unsaved) == Rest(g, unsaved)
            && Returns(h, g'.frames, g'.hashes) == Returns(h, g.frames, g.hashes)
            && Weight(g'.frames) < Weight(g.frames)
  {
    hide HashOf, HashNode, Items, Emits, Returns, Weight;
    var t, rest := g.frames[0].t, g.frames[1..];
    Cons(h, Enter(t), rest, g.hashes, unsaved);
    assert g.frames == [Enter(t)] + rest;
    if t !in unsaved {
      assert [] + Emits(rest, unsaved) == Emits(rest, unsaved);
    } else if t.Leaf? {
      Cons(h, Leave(t), rest, g.hashes, unsaved);
      LeafHashed(h, t, g.hashes);
      assert Branch(t, unsaved) == [t];
    } else {
      WalkIntoChildren(h, unsaved, t, rest, g.hashes);
    }
  }

  lemma LeafHashed(h: Hasher, t: Tree, hashes: seq<Hash>)
    requires t.Leaf?
    ensures HashNode(h, t, hashes) == [HashOf(h, t)] + hashes
  {
  }

  lemma TwoHashes(h: Hasher, t: Tree, hashes: seq<Hash>)
    requires t.Inner?
    ensures HashNode(h, t, [HashOf(h, t.right)] + ([HashOf(h, t.left)] + hashes)) == [HashOf(h, t)] + hashes
  {
    var all := [HashOf(h, t.right)] + ([HashOf(h, t.left)] + hashes);
    assert all[2..] == hashes;
  }

  /** A send takes the first item off what is to be sent, and changes nothing that will be returned. */
  lemma SendTakesFirst(h: Hasher, unsaved: set<Tree>, g: Routine)
    requires Sends(g)
    ensures var (g', item) := SendOn(h, g);
            && Rest(g, unsaved) != [] && item == Rest(g, unsaved)[0] && Rest(g', unsaved) == Rest(g, unsaved)[1..]
            && Returns(h, g'.frames, g'.hashes) == Returns(h, g.frames, g.hashes)
  {
    if g.frames != [] {
      var t, e := g.frames[0].t, Emits(g.frames[1..], unsaved);
      assert ([t] + e)[1..] == e;
      assert Items([t] + e) == [Some(t)] + Items(e);
    } else {
      assert Items([]) == [];
    }
  }

  /** A goroutine with nothing left to send has returned. */
  lemma NothingToSend(g: Routine, unsaved: set<Tree>)
    ensures Rest(g, unsaved) == [] ==> g.ended
    ensures g.frames == [] && g.ended ==> Rest(g, unsaved) == []
  {
  }

  // ---------------------------------------------------------------- the invariant

  /** The messages of one goroutine. */
  function From(ms: seq<Message>, left: bool): seq<Option<Tree>> {
    if ms == [] then [] else (if ms[0].left == left then [ms[0].item] else []) + From(ms[1..], left)
  }

  function NodesIn(items: seq<Option<Tree>>): seq<Tree> {
    if items == [] then [] else (if items[0].Some? then [items[0].value] else []) + NodesIn(items[1..])
  }

  lemma {:induction false} FromOneMore(ms: seq<Message>, m: Message, left: bool)
    ensures From(ms + [m], left) == From(ms, left) + if m.left == left then [m.item] else []
  {
    if ms == [] {
      assert [m][1..] == [] && ms + [m] == [m];
    } else {
      FromOneMore(ms[1..], m, left);
      assert (ms + [m])[0] == ms[0] && (ms + [m])[1..] == ms[1..] + [m];
    }
  }

  lemma {:induction false} ReceivedOneMore(ms: seq<Message>, m: Message)
    ensures Received(ms + [m]) == Received(ms) + [m.item]
  {
    if ms == [] {
      assert [m][1..] == [] && ms + [m] == [m];
    } else {
      ReceivedOneMore(ms[1..], m);
      assert (ms + [m])[0] == ms[0] && (ms + [m])[1..] == ms[1..] + [m];
    }
  }

  lemma {:induction false} ItemsParts(a: seq<Option<Tree>>, b: seq<Option<Tree>>)
    ensures Nils(a + b) == Nils(a) + Nils(b) && NodesIn(a + b) == NodesIn(a) + NodesIn(b)
  {
    if a == [] {
      assert a + b == b;
    } else {
      ItemsParts(a[1..], b);
      assert (a + b)[0] == a[0] && (a + b)[1..] == a[1..] + b;
      Traversal.Associates(if a[0].Some? then [a[0].value] else [], NodesIn(a[1..]), NodesIn(b));
    }
  }

  lemma OneItem(item: Option<Tree>)
    ensures Nils([item]) == (if item.None? then 1 else 0)
            && NodesIn([item]) == (if item.Some? then [item.value] else [])
  {
    assert [item][1..] == [];
  }

  lemma {:induction false} ItemsHaveNoNil(nodes: seq<Tree>)
    ensures Nils(Items(nodes)) == 0 && NodesIn(Items(nodes)) == nodes
  {
    if nodes != [] {
      ItemsHaveNoNil(nodes[1..]);
      assert Items(nodes)[1..] == Items(nodes[1..]);
    }
  }

  /** The marker is the last of a stream: once it has been seen, everything has. */
  lemma StreamEndsWithNil(t: Tree, unsaved: set<Tree>, seen: seq<Option<Tree>>, rest: seq<Option<Tree>>)
    requires seen + rest == Stream(t, unsaved)
    ensures Nils(seen) <= 1 && (Nils(seen) == 1 <==> rest == [])
    ensures rest == [] ==> NodesIn(seen) == Branch(t, unsaved)
  {
    var nodes := Items(Branch(t, unsaved));
    ItemsHaveNoNil(Branch(t, unsaved));
    ItemsParts(nodes, [None]);
    OneItem(None);
    ItemsParts(seen, rest);
    if rest == [] {
      assert seen == nodes + [None];
    } else {
      var last := rest[|rest| - 1];
      assert last == (seen + rest)[|seen + rest| - 1] == None;
      assert rest == rest[..|rest| - 1] + [last];
      ItemsParts(rest[..|rest| - 1], [last]);
    }
  }

  lemma {:induction false} ReceivedBySide(ms: seq<Message>, n: Tree)
    ensures Nils(Received(ms)) == Nils(From(ms, true)) + Nils(From(ms, false))
    ensures Reported(NodesIn(Received(ms)), n) ==
            Reported(NodesIn(From(ms, true)), n) + Reported(NodesIn(From(ms, false)), n)
  {
    hide Reported;
    ReportedParts([], [], n);
    if ms != [] {
      ReceivedBySide(ms[1..], n);
      OneItem(ms[0].item);
      var one, rest := NodesIn([ms[0].item]), NodesIn(Received(ms[1..]));
      var l, r := From(ms[1..], true), From(ms[1..], false);
      ItemsParts([ms[0].item], Received(ms[1..]));
      ItemsParts([ms[0].item], l);
      ItemsParts([ms[0].item], r);
      ReportedParts(one, rest, n);
      ReportedParts(one, NodesIn(l), n);
      ReportedParts(one, NodesIn(r), n);
      assert [] + l == l && [] + r == r;
    }
  }

  /** One side of the node: its stream is split between what was received, the channel, and what is yet to be sent. */
  ghost predicate Side(h: Hasher, child: Tree, unsaved: set<Tree>, g: Option<Routine>, got: seq<Option<Tree>>,
                       channel: seq<Option<Tree>>, hash: Hash) {
    if g.None? then child !in unsaved && hash == HashOf(h, child) && got == [] && channel == []
    else
      && got + channel + Rest(g.value, unsaved) == Stream(child, unsaved)
      && Returns(h, g.value.frames, g.value.hashes) == [HashOf(h, child)]
      && (g.value.ended ==> g.value.frames == [])
      && (g.value.joined ==> g.value.ended && hash == HashOf(h, child))
  }

  ghost predicate Inv(h: Hasher, t: Tree, unsaved: set<Tree>, s: State) {
    && (t.Leaf? ==> s.left.None? && s.right.None? && s.got == [] && s.channel == [])
    && (t.Inner? ==>
         && Side(h, t.left, unsaved, s.left, From(s.got, true), From(s.channel, true), s.leftHash)
         && Side(h, t.right, unsaved, s.right, From(s.got, false), From(s.channel, false), s.rightHash))
    && s.cache == NodesIn(Received(s.got)) + (if s.result.Some? then [t] else [])
    && (s.result.Some? ==> Stopped(s) && s.result == Some(HashOf(h, t)))
  }

  /** The state in which the collecting loop starts: a child not in memory is saved, its hash known. */
  ghost predicate Start(h: Hasher, t: Tree, unsaved: set<Tree>, s: State) {
    && s.channel == [] && s.got == [] && s.cache == [] && s.result.None?
    && (t.Leaf? ==> s.left.None? && s.right.None?)
    && (t.Inner? ==>
         && (if s.left.None? then t.left !in unsaved && s.leftHash == HashOf(h, t.left)
             else s.left == Some(Call(t.left)))
         && (if s.right.None? then t.right !in unsaved && s.rightHash == HashOf(h, t.right)
             else s.right == Some(Call(t.right))))
  }

  lemma CallStarts(h: Hasher, t: Tree, unsaved: set<Tree>)
    ensures Rest(Call(t), unsaved) == Stream(t, unsaved) && Returns(h, Call(t).frames, Call(t).hashes) == [HashOf(h, t)]
  {
    Cons(h, Enter(t), [], [], unsaved);
    assert [Enter(t)] + [] == [Enter(t)] && Branch(t, unsaved) + [] == Branch(t, unsaved);
  }

  lemma StartIsInv(h: Hasher, t: Tree, unsaved: set<Tree>, s: State)
    requires Start(h, t, unsaved, s)
    ensures Inv(h, t, unsaved, s)
  {
    hide Rest, Returns;
    if t.Inner? { CallStarts(h, t.left, unsaved); CallStarts(h, t.right, unsaved); }
    assert forall items: seq<Option<Tree>> :: [] + [] + items == items;
  }

  lemma WalkKeepsInv(h: Hasher, t: Tree, unsaved: set<Tree>, capacity: nat, s: State, left: bool)
    requires Inv(h, t, unsaved, s) && Enabled(capacity, s, Walk(left))
    ensures Inv(h, t, unsaved, Step(h, t, unsaved, capacity, s, Walk(left)))
  {
    hide HashOf, Stream, Nils, NodesIn, Received, Rest, Returns, From;
    WalkChangesNothing(h, unsaved, RoutineOf(s, left).value);
  }

  lemma SendKeepsInv(h: Hasher, t: Tree, unsaved: set<Tree>, capacity: nat, s: State, left: bool)
    requires Inv(h, t, unsaved, s) && Enabled(capacity, s, Send(left)) && s.result.None?
    ensures Inv(h, t, unsaved, Step(h, t, unsaved, capacity, s, Send(left)))
  {
    hide HashOf, Stream, Nils, NodesIn, Received, Rest, Returns;
    var g := RoutineOf(s, left).value;
    SendTakesFirst(h, unsaved, g);
    var m := Message(left, SendOn(h, g).1);
    FromOneMore(s.channel, m, true);
    FromOneMore(s.channel, m, false);
    MoveOne(From(s.got, left), From(s.channel, left), Rest(g, unsaved));
    assert From(s.channel, !left) + [] == From(s.channel, !left);
  }

  lemma MoveOne(a: seq<Option<Tree>>, b: seq<Option<Tree>>, c: seq<Option<Tree>>)
    requires c != []
    ensures a + (b + [c[0]]) + c[1..] == a + b + c
  {
    assert c == [c[0]] + c[1..];
  }

  lemma ReceiveKeepsInv(h: Hasher, t: Tree, unsaved: set<Tree>, capacity: nat, s: State)
    requires Inv(h, t, unsaved, s) && Enabled(capacity, s, Receive) && s.result.None?
    ensures Inv(h, t, unsaved, Step(h, t, unsaved, capacity, s, Receive))
  {
    hide HashOf, Stream, Nils;
    var m := s.channel[0];
    FromOneMore(s.got, m, true);
    FromOneMore(s.got, m, false);
    ReceivedOneMore(s.got, m);
    ItemsParts(Received(s.got), [m.item]);
    OneItem(m.item);
    hide NodesIn, Received, Rest;
    if t.Inner? {
      ReceiveOnSide(h, t.left, unsaved, s.left, s, true, s.leftHash);
      ReceiveOnSide(h, t.right, unsaved, s.right, s, false, s.rightHash);
    }
  }

  /** A message received has only moved on. */
  lemma ReceiveOnSide(h: Hasher, child: Tree, unsaved: set<Tree>, g: Option<Routine>, s: State, left: bool, hash: Hash)
    requires s.channel != [] && Side(h, child, unsaved, g, From(s.got, left), From(s.channel, left), hash)
    ensures Side(h, child, unsaved, g, From(s.got + [s.channel[0]], left), From(s.channel[1..], left), hash)
  {
    hide HashOf, Stream, Rest;
    var m := s.channel[0];
    FromOneMore(s.got, m, left);
    ShiftOne(s, left);
    Traversal.Associates(From(s.got, left), if m.left == left then [m.item] else [], From(s.channel[1..], left));
  }

  lemma ShiftOne(s: State, left: bool)
    requires s.channel != []
    ensures var m := s.channel[0];
            From(s.channel, left) == (if m.left == left then [m.item] else []) + From(s.channel[1..], left)
  {
  }

  /** When the loop stops, every stream has been received to its end. */
  lemma StoppedIsDrained(h: Hasher, t: Tree, unsaved: set<Tree>, s: State, n: Tree)
    requires Inv(h, t, unsaved, s) && Stopped(s)
    ensures s.left.Some? ==> Rest(s.left.value, unsaved) == [] && From(s.channel, true) == []
    ensures s.right.Some? ==> Rest(s.right.value, unsaved) == [] && From(s.channel, false) == []
    ensures t in unsaved ==>
              Reported(NodesIn(Received(s.got)), n) + Reported([t], n) == Reported(Branch(t, unsaved), n)
  {
    hide HashOf, Stream, Reported;
    ReceivedBySide(s.got, n);
    if t.Inner? {
      SideIsDrained(h, t.left, unsaved, s.left, From(s.got, true), From(s.channel, true), s.leftHash);
      SideIsDrained(h, t.right, unsaved, s.right, From(s.got, false), From(s.channel, false), s.rightHash);
      ReportedParts(Branch(t.left, unsaved), Branch(t.right, unsaved), n);
      ReportedParts(Branch(t.left, unsaved) + Branch(t.right, unsaved), [t], n);
    } else {
      ReportedParts([], [t], n);
    }
  }

  lemma SideIsDrained(h: Hasher, child: Tree, unsaved: set<Tree>, g: Option<Routine>, got: seq<Option<Tree>>,
                      channel: seq<Option<Tree>>, hash: Hash)
    requires Side(h, child, unsaved, g, got, channel, hash)
    ensures Nils(got) <= if g.Some? then 1 else 0
    ensures g.Some? && Nils(got) == 1 ==> channel == [] && Rest(g.value, unsaved) == []
    ensures (g.None? || Nils(got) == 1) ==> NodesIn(got) == Branch(child, unsaved)
    ensures g.Some? && channel == [] && Rest(g.value, unsaved) == [] ==> Nils(got) == 1
  {
    hide HashOf, Rest;
    if g.Some? {
      var rest := Rest(g.value, unsaved);
      assert got + channel + rest == got + (channel + rest);
      StreamEndsWithNil(child, unsaved, got, channel + rest);
    }
  }

  lemma AssignKeepsInv(h: Hasher, t: Tree, unsaved: set<Tree>, capacity: nat, s: State, left: bool)
    requires Inv(h, t, unsaved, s) && Enabled(capacity, s, Assign(left))
    ensures Inv(h, t, unsaved, Step(h, t, unsaved, capacity, s, Assign(left)))
  {
    hide HashOf, Stream, NodesIn, From;
  }

  lemma FinishKeepsInv(h: Hasher, t: Tree, unsaved: set<Tree>, capacity: nat, s: State)
    requires Inv(h, t, unsaved, s) && Enabled(capacity, s, Finish)
    ensures Inv(h, t, unsaved, Step(h, t, unsaved, capacity, s, Finish))
  {
    hide Stream, NodesIn, From;
  }

  lemma StepKeepsInv(h: Hasher, t: Tree, unsaved: set<Tree>, capacity: nat, s: State, a: Action)
    requires Inv(h, t, unsaved, s) && Enabled(capacity, s, a)
    ensures Inv(h, t, unsaved, Step(h, t, unsaved, capacity, s, a))
  {
    match a
    case Walk(left) => WalkKeepsInv(h, t, unsaved, capacity, s, left);
    case Send(left) =>
      assert s.result.None? by { if s.result.Some? { StoppedIsDrained(h, t, unsaved, s, t);
          SendTakesFirst(h, unsaved, RoutineOf(s, left).value); } }
      SendKeepsInv(h, t, unsaved, capacity, s, left);
    case Receive =>
      ReceiveKeepsInv(h, t, unsaved, capacity, s);
    case Assign(left) => AssignKeepsInv(h, t, unsaved, capacity, s, left);
    case Finish => FinishKeepsInv(h, t, unsaved, capacity, s);
  }

  // ---------------------------------------------------------------- every interleaving

  ghost predicate Run(h: Hasher, t: Tree, unsaved: set<Tree>, capacity: nat, s: State, actions: seq<Action>, s': State)
    decreases actions
  {
    if actions == [] then s' == s
    else
      && Enabled(capacity, s, actions[0])
      && Run(h, t, unsaved, capacity, Step(h, t, unsaved, capacity, s, actions[0]), actions[1..], s')
  }

  lemma {:induction false} RunKeepsInv(h: Hasher, t: Tree, unsaved: set<Tree>, capacity: nat, s: State,
                                       actions: seq<Action>, s': State)
    requires Inv(h, t, unsaved, s) && Run(h, t, unsaved, capacity, s, actions, s')
    ensures Inv(h, t, unsaved, s')
    decreases actions
  {
    hide Inv, Step;
    if actions != [] {
      StepKeepsInv(h, t, unsaved, capacity, s, actions[0]);
      RunKeepsInv(h, t, unsaved, capacity, Step(h, t, unsaved, capacity, s, actions[0]), actions[1..], s');
    }
  }

  /** The channel never holds more than it has room for. */
  lemma {:induction false} ChannelIsBounded(h: Hasher, t: Tree, unsaved: set<Tree>, capacity: nat, s: State,
                                            actions: seq<Action>, s': State)
    requires |s.channel| <= capacity && Run(h, t, unsaved, capacity, s, actions, s')
    ensures |s'.channel| <= capacity
    decreases actions
  {
    if actions != [] {
      StepBoundsChannel(h, t, unsaved, capacity, s, actions[0]);
      hide Step;
      ChannelIsBounded(h, t, unsaved, capacity, Step(h, t, unsaved, capacity, s, actions[0]), actions[1..], s');
    }
  }

  lemma StepBoundsChannel(h: Hasher, t: Tree, unsaved: set<Tree>, capacity: nat, s: State, a: Action)
    requires |s.channel| <= capacity && Enabled(capacity, s, a)
    ensures |Step(h, t, unsaved, capacity, s, a).channel| <= capacity
  {
    hide HashNode, WalkOn, SendOn, HashOf, Nils, Received;
  }

  /** A finished run has the root hash of the sequential update and has cached the same nodes, each as often. */
  lemma ConcurrentIsSequential(h: Hasher, t: Tree, unsaved: set<Tree>, capacity: nat, s0: State, actions: seq<Action>,
                               s: State, n: Tree)
    requires t in unsaved && Start(h, t, unsaved, s0) && Run(h, t, unsaved, capacity, s0, actions, s)
             && s.result.Some?
    ensures s.result == Some(HashOf(h, t))
    ensures Reported(s.cache, n) == Reported(Branch(t, unsaved), n)
    ensures From(s.channel, true) == From(s.channel, false) == []
  {
    StartIsInv(h, t, unsaved, s0);
    RunKeepsInv(h, t, unsaved, capacity, s0, actions, s);
    StoppedIsDrained(h, t, unsaved, s, n);
    ReportedParts(NodesIn(Received(s.got)), [t], n);
  }

  /** How much is left to do: every step lowers it, so every interleaving ends. */
  function Work(s: State): nat {
    Left(s.left) + Left(s.right) + |s.channel| + if s.result.Some? then 0 else 1
  }

  function Left(g: Option<Routine>): nat {
    if g.None? then 0 else Weight(g.value.frames) + (if g.value.ended then 0 else 2) + if g.value.joined then 0 else 1
  }

  function Weight(frames: seq<Frame>): nat {
    if frames == [] then 0 else (if frames[0].Enter? then 4 * NodeCount(frames[0].t) else 2) + Weight(frames[1..])
  }

  /** A goroutine that has not returned can walk or send. */
  lemma GoroutineGoesOn(h: Hasher, t: Tree, unsaved: set<Tree>, capacity: nat, s: State, left: bool) returns (a: Action)
    requires Inv(h, t, unsaved, s) && RoutineOf(s, left).Some? && Rest(RoutineOf(s, left).value, unsaved) != []
             && s.channel == [] && capacity >= 1
    ensures Enabled(capacity, s, a)
  {
    hide Rest, Returns, Stream, From, NodesIn, Received, HashOf;
    var g := RoutineOf(s, left).value;
    NothingToSend(g, unsaved);
    a := if g.frames != [] && g.frames[0].Enter? then Walk(left) else Send(left);
  }

  /** Until the hash is there some step can be taken. */
  lemma SomeStep(h: Hasher, t: Tree, unsaved: set<Tree>, capacity: nat, s: State) returns (a: Action)
    requires Inv(h, t, unsaved, s) && s.result.None? && capacity >= 1
    ensures Enabled(capacity, s, a)
  {
    hide Rest, Returns, Stream, From, NodesIn, Received, HashOf, Nils;
    if !Stopped(s) && s.channel != [] {
      a := Receive;
    } else if s.left.Some? && Rest(s.left.value, unsaved) != [] && s.channel == [] {
      a := GoroutineGoesOn(h, t, unsaved, capacity, s, true);
    } else if s.right.Some? && Rest(s.right.value, unsaved) != [] && s.channel == [] {
      a := GoroutineGoesOn(h, t, unsaved, capacity, s, false);
    } else {
      EndIsStopped(h, t, unsaved, s);
      if s.left.Some? { NothingToSend(s.left.value, unsaved); }
      if s.right.Some? { NothingToSend(s.right.value, unsaved); }
      a := if s.left.Some? && !s.left.value.joined then Assign(true)
          else if s.right.Some? && !s.right.value.joined then Assign(false) else Finish;
    }
  }

  /** No deadlock: until the hash is there some step can be taken, and each step brings the end closer. */
  lemma AlwaysProgress(h: Hasher, t: Tree, unsaved: set<Tree>, capacity: nat, s: State)
    requires Inv(h, t, unsaved, s) && s.result.None? && capacity >= 1
    ensures exists a :: Enabled(capacity, s, a) && Work(Step(h, t, unsaved, capacity, s, a)) < Work(s)
  {
    hide Inv, Step, Work, Enabled;
    var a := SomeStep(h, t, unsaved, capacity, s);
    StepIsWork(h, t, unsaved, capacity, s, a);
  }

  lemma StepIsWork(h: Hasher, t: Tree, unsaved: set<Tree>, capacity: nat, s: State, a: Action)
    requires Inv(h, t, unsaved, s) && Enabled(capacity, s, a)
    ensures Work(Step(h, t, unsaved, capacity, s, a)) < Work(s)
  {
    if a.Walk? { WalkChangesNothing(h, unsaved, RoutineOf(s, a.left).value); }
    hide HashOf, Stream, NodesIn, From, Received, Nils, Inv, WalkOn, HashNode;
  }

  /** With nothing to receive and nothing to send, all markers have been counted. */
  lemma EndIsStopped(h: Hasher, t: Tree, unsaved: set<Tree>, s: State)
    requires Inv(h, t, unsaved, s)
    requires || Stopped(s)
             || (&& s.channel == [] && (s.left.Some? ==> Rest(s.left.value, unsaved) == [])
                 && (s.right.Some? ==> Rest(s.right.value, unsaved) == []))
    ensures Stopped(s) && (s.left.Some? ==> Rest(s.left.value, unsaved) == [])
            && (s.right.Some? ==> Rest(s.right.value, unsaved) == [])
  {
    hide HashOf, Stream, Reported;
    if Stopped(s) {
      StoppedIsDrained(h, t, unsaved, s, t);
    } else {
      ReceivedBySide(s.got, t);
      if t.Inner? {
        SideIsDrained(h, t.left, unsaved, s.left, From(s.got, true), From(s.channel, true), s.leftHash);
        SideIsDrained(h, t.right, unsaved, s.right, From(s.got, false), From(s.channel, false), s.rightHash);
      }
    }
  }

  // ---------------------------------------------------------------- two collectors at once

  /**
   * What updateBranchMoreConcurrency starts for a child: nothing, a call that returns at once, or a concurrent update.
   */
  datatype Task = Absent | Saved | Running(s: State)

  datatype Pair = Pair(left: Task, right: Task, leftHash: Hash, rightHash: Hash, leftJoined: bool, rightJoined: bool,
                       cache: seq<Tree>, result: Option<Hash>)

  datatype PairAction = In(left: bool, a: Action) | Join(left: bool) | End

  function TaskOf(p: Pair, left: bool): Task { if left then p.left else p.right }

  predicate Returned(task: Task) { task.Saved? || (task.Running? && task.s.result.Some?) }

  predicate PairEnabled(capacity: nat, p: Pair, a: PairAction) {
    match a
    case In(left, a') => TaskOf(p, left).Running? && Enabled(capacity, TaskOf(p, left).s, a')
    case Join(left) => Returned(TaskOf(p, left)) && !(if left then p.leftJoined else p.rightJoined)
    case End => p.result.None? && (p.left.Absent? || p.leftJoined) && (p.right.Absent? || p.rightJoined)
  }

  /** A step of either update puts its nodes into the one shared cache. */
  function PairStep(h: Hasher, t: Tree, unsaved: set<Tree>, capacity: nat, p: Pair, a: PairAction): Pair
    requires t.Inner? && PairEnabled(capacity, p, a)
  {
    match a
    case In(left, a') =>
      var s := TaskOf(p, left).s;
      var s' := Step(h, if left then t.left else t.right, unsaved, capacity, s, a');
      var p' := p.(cache := p.cache + if |s'.cache| > |s.cache| then s'.cache[|s.cache|..] else []);
      if left then p'.(left := Running(s')) else p'.(right := Running(s'))
    case Join(left) =>
      var task := TaskOf(p, left);
      var hash := if task.Saved? then HashOf(h, if left then t.left else t.right) else task.s.result.value;
      if left then p.(leftHash := hash, leftJoined := true) else p.(rightHash := hash, rightJoined := true)
    case End =>
      p.(result := Some(h.node(Image(t.height, t.size, t.version, p.leftHash, p.rightHash))),
         cache := p.cache + [t])
  }

  ghost predicate TaskInv(h: Hasher, child: Tree, unsaved: set<Tree>, task: Task, hash: Hash, joined: bool) {
    match task
    case Absent => child !in unsaved && hash == HashOf(h, child)
    case Saved => child !in unsaved && (joined ==> hash == HashOf(h, child))
    case Running(s) =>
      && child in unsaved && Inv(h, child, unsaved, s)
      && (joined ==> s.result.Some? && hash == HashOf(h, child))
  }

  function CacheOf(task: Task): seq<Tree> { if task.Running? then task.s.cache else [] }

  ghost predicate PairInv(h: Hasher, t: Tree, unsaved: set<Tree>, p: Pair, n: Tree)
    requires t.Inner?
  {
    && TaskInv(h, t.left, unsaved, p.left, p.leftHash, p.leftJoined)
    && TaskInv(h, t.right, unsaved, p.right, p.rightHash, p.rightJoined)
    && Reported(p.cache, n) ==
       Reported(CacheOf(p.left), n) + Reported(CacheOf(p.right), n) + (if p.result.Some? && n == t then 1 else 0)
    && (p.result.Some? ==>
         p.result == Some(HashOf(h, t)) && (p.left.Absent? || p.leftJoined) && (p.right.Absent? || p.rightJoined))
  }

  lemma CacheGrows(h: Hasher, t: Tree, unsaved: set<Tree>, capacity: nat, s: State, a: Action, n: Tree)
    requires Enabled(capacity, s, a)
    ensures var s' := Step(h, t, unsaved, capacity, s, a);
            Reported(s'.cache, n) ==
            Reported(s.cache, n) + Reported(if |s'.cache| > |s.cache| then s'.cache[|s.cache|..] else [], n)
    ensures s.result.Some? ==> Step(h, t, unsaved, capacity, s, a).result == s.result
  {
    hide Reported;
    var s' := Step(h, t, unsaved, capacity, s, a);
    ReportedParts(s.cache, s'.cache[|s.cache|..], n);
    assert s'.cache == s.cache + s'.cache[|s.cache|..];
  }

  lemma InKeepsInv(h: Hasher, t: Tree, unsaved: set<Tree>, capacity: nat, p: Pair, left: bool, a: Action, n: Tree)
    requires t.Inner? && PairInv(h, t, unsaved, p, n) && PairEnabled(capacity, p, In(left, a))
    ensures PairInv(h, t, unsaved, PairStep(h, t, unsaved, capacity, p, In(left, a)), n)
  {
    hide Reported, Inv, Step, Enabled, HashOf;
    var s, child := TaskOf(p, left).s, if left then t.left else t.right;
    var s' := Step(h, child, unsaved, capacity, s, a);
    StepKeepsInv(h, child, unsaved, capacity, s, a);
    CacheGrows(h, child, unsaved, capacity, s, a, n);
    ReportedParts(p.cache, if |s'.cache| > |s.cache| then s'.cache[|s.cache|..] else [], n);
    ResultIsHash(h, child, unsaved, s');
  }

  lemma ResultIsHash(h: Hasher, t: Tree, unsaved: set<Tree>, s: State)
    requires Inv(h, t, unsaved, s)
    ensures s.result.Some? ==> s.result == Some(HashOf(h, t))
  {
  }

  lemma JoinKeepsInv(h: Hasher, t: Tree, unsaved: set<Tree>, capacity: nat, p: Pair, left: bool, n: Tree)
    requires t.Inner? && PairInv(h, t, unsaved, p, n) && PairEnabled(capacity, p, Join(left))
    ensures PairInv(h, t, unsaved, PairStep(h, t, unsaved, capacity, p, Join(left)), n)
  {
    hide Reported, Inv, Step, Enabled, HashOf;
    if TaskOf(p, left).Running? { ResultIsHash(h, if left then t.left else t.right, unsaved, TaskOf(p, left).s); }
  }

  lemma EndKeepsInv(h: Hasher, t: Tree, unsaved: set<Tree>, capacity: nat, p: Pair, n: Tree)
    requires t.Inner? && PairInv(h, t, unsaved, p, n) && PairEnabled(capacity, p, End)
    ensures PairInv(h, t, unsaved, PairStep(h, t, unsaved, capacity, p, End), n)
  {
    hide Reported, Inv, Step, Enabled;
    ReportedParts(p.cache, [t], n);
    ReportedOne(t, n);
  }

  ghost predicate PairRun(h: Hasher, t: Tree, unsaved: set<Tree>, capacity: nat, p: Pair, actions: seq<PairAction>,
                          p': Pair)
    requires t.Inner?
    decreases actions
  {
    if actions == [] then p' == p
    else
      && PairEnabled(capacity, p, actions[0])
      && PairRun(h, t, unsaved, capacity, PairStep(h, t, unsaved, capacity, p, actions[0]), actions[1..], p')
  }

  lemma {:induction false} PairRunKeepsInv(h: Hasher, t: Tree, unsaved: set<Tree>, capacity: nat, p: Pair,
                                           actions: seq<PairAction>, p': Pair, n: Tree)
    requires t.Inner? && PairInv(h, t, unsaved, p, n) && PairRun(h, t, unsaved, capacity, p, actions, p')
    ensures PairInv(h, t, unsaved, p', n)
    decreases actions
  {
    hide PairInv, PairStep, PairEnabled;
    if actions != [] {
      match actions[0] {
        case In(left, a) => InKeepsInv(h, t, unsaved, capacity, p, left, a, n);
        case Join(left) => JoinKeepsInv(h, t, unsaved, capacity, p, left, n);
        case End => EndKeepsInv(h, t, unsaved, capacity, p, n);
      }
      PairRunKeepsInv(h, t, unsaved, capacity, PairStep(h, t, unsaved, capacity, p, actions[0]), actions[1..], p', n);
    }
  }

  ghost predicate TaskStart(h: Hasher, child: Tree, unsaved: set<Tree>, task: Task, hash: Hash) {
    match task
    case Absent => child !in unsaved && hash == HashOf(h, child)
    case Saved => child !in unsaved
    case Running(s) => child in unsaved && Start(h, child, unsaved, s)
  }

  ghost predicate PairStart(h: Hasher, t: Tree, unsaved: set<Tree>, p: Pair)
    requires t.Inner?
  {
    && TaskStart(h, t.left, unsaved, p.left, p.leftHash) && TaskStart(h, t.right, unsaved, p.right, p.rightHash)
    && !p.leftJoined && !p.rightJoined && p.cache == [] && p.result.None?
  }

  lemma TaskStartIsInv(h: Hasher, child: Tree, unsaved: set<Tree>, task: Task, hash: Hash)
    requires TaskStart(h, child, unsaved, task, hash)
    ensures TaskInv(h, child, unsaved, task, hash, false) && CacheOf(task) == []
  {
    hide Inv;
    if task.Running? { StartIsInv(h, child, unsaved, task.s); }
  }

  /** A returned task has cached its child's branch. */
  lemma ReturnedIsBranch(h: Hasher, child: Tree, unsaved: set<Tree>, task: Task, hash: Hash, joined: bool, n: Tree)
    requires TaskInv(h, child, unsaved, task, hash, joined) && (task.Absent? || joined)
    ensures Reported(CacheOf(task), n) == Reported(Branch(child, unsaved), n)
  {
    if task.Running? {
      StoppedIsDrained(h, child, unsaved, task.s, n);
      ReportedParts(NodesIn(Received(task.s.got)), [child], n);
    }
  }

  /** Two concurrent updates side by side: the same hash and the same nodes as the sequential update. */
  lemma MoreConcurrentIsSequential(h: Hasher, t: Tree, unsaved: set<Tree>, capacity: nat, p0: Pair,
                                   actions: seq<PairAction>, p: Pair, n: Tree)
    requires t.Inner? && t in unsaved && PairStart(h, t, unsaved, p0)
    requires PairRun(h, t, unsaved, capacity, p0, actions, p) && p.result.Some?
    ensures p.result == Some(HashOf(h, t))
    ensures Reported(p.cache, n) == Reported(Branch(t, unsaved), n)
  {
    hide Reported, Inv, HashOf, PairRun;
    TaskStartIsInv(h, t.left, unsaved, p0.left, p0.leftHash);
    TaskStartIsInv(h, t.right, unsaved, p0.right, p0.rightHash);
    ReportedParts([], [], n);
    PairRunKeepsInv(h, t, unsaved, capacity, p0, actions, p, n);
    ReturnedIsBranch(h, t.left, unsaved, p.left, p.leftHash, p.leftJoined, n);
    ReturnedIsBranch(h, t.right, unsaved, p.right, p.rightHash, p.rightJoined, n);
    ReportedParts(Branch(t.left, unsaved), Branch(t.right, unsaved), n);
    ReportedParts(Branch(t.left, unsaved) + Branch(t.right, unsaved), [t], n);
    ReportedOne(t, n);
  }

  function TaskWork(task: Task, joined: bool): nat {
    (if task.Running? then Work(task.s) else 0) + if joined then 0 else 1
  }

  function PairWork(p: Pair): nat {
    TaskWork(p.left, p.leftJoined) + TaskWork(p.right, p.rightJoined) + if p.result.Some? then 0 else 1
  }

  lemma PairStepIsWork(h: Hasher, t: Tree, unsaved: set<Tree>, capacity: nat, p: Pair, a: PairAction, n: Tree)
    requires t.Inner? && PairInv(h, t, unsaved, p, n) && PairEnabled(capacity, p, a)
    ensures PairWork(PairStep(h, t, unsaved, capacity, p, a)) < PairWork(p)
  {
    hide Reported, Inv, Step, Enabled, HashOf, Work;
    if a.In? { StepIsWork(h, if a.left then t.left else t.right, unsaved, capacity, TaskOf(p, a.left).s, a.a); }
  }

  /** A running update whose hash is not there yet can take a step. */
  lemma TaskGoesOn(h: Hasher, t: Tree, unsaved: set<Tree>, capacity: nat, p: Pair, left: bool, n: Tree)
    requires t.Inner? && PairInv(h, t, unsaved, p, n) && capacity >= 1 && TaskOf(p, left).Running?
             && TaskOf(p, left).s.result.None?
    ensures exists a :: PairEnabled(capacity, p, a)
  {
    hide Reported, Inv, Step, Enabled, HashOf, Work;
    AlwaysProgress(h, if left then t.left else t.right, unsaved, capacity, TaskOf(p, left).s);
    var a :| Enabled(capacity, TaskOf(p, left).s, a);
    assert PairEnabled(capacity, p, In(left, a));
  }

  /** No deadlock of the two updates either. */
  lemma PairAlwaysProgress(h: Hasher, t: Tree, unsaved: set<Tree>, capacity: nat, p: Pair, n: Tree)
    requires t.Inner? && PairInv(h, t, unsaved, p, n) && p.result.None? && capacity >= 1
    ensures exists a :: PairEnabled(capacity, p, a) && PairWork(PairStep(h, t, unsaved, capacity, p, a)) < PairWork(p)
  {
    hide Reported, Inv, Enabled, PairStep, PairWork, HashOf;
    if p.left.Running? && p.left.s.result.None? {
      TaskGoesOn(h, t, unsaved, capacity, p, true, n);
    } else if p.right.Running? && p.right.s.result.None? {
      TaskGoesOn(h, t, unsaved, capacity, p, false, n);
    } else if !p.left.Absent? && !p.leftJoined {
      assert PairEnabled(capacity, p, Join(true));
    } else if !p.right.Absent? && !p.rightJoined {
      assert PairEnabled(capacity, p, Join(false));
    } else {
      assert PairEnabled(capacity, p, End);
    }
    var a :| PairEnabled(capacity, p, a);
    PairStepIsWork(h, t, unsaved, capacity, p, a, n);
  }
}
