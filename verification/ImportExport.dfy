/** Exporting a tree in post-order and rebuilding it with the importer's stack. */
module ImportExport {
  import opened ByteOrder
  import opened Tree
  import opened Orphans
  import opened Hashing
  import Traversal

  /** ExportNode; only leaves carry a value. */
  datatype ExportNode = ExportNode(key: Key, value: Option<Value>, version: int, height: int)

  function ToExport(t: Tree): ExportNode {
    ExportNode(t.key, if t.Leaf? then Some(t.value) else None, t.version, Height(t))
  }

  /** traversePost over the whole tree, ascending. */
  const POST_ORDER := Traversal.Range(None, None, true, false, true)

  function ToExports(nodes: seq<Tree>): seq<ExportNode> {
    if nodes == [] then [] else [ToExport(nodes[0])] + ToExports(nodes[1..])
  }

  /** What the exporter sends. */
  function Exported(t: Tree): seq<ExportNode> {
    ToExports(Traversal.Visit(t, POST_ORDER))
  }

  lemma {:induction false} ToExportsParts(a: seq<Tree>, b: seq<Tree>)
    ensures ToExports(a + b) == ToExports(a) + ToExports(b)
  {
    if a == [] {
      assert a + b == b;
    } else {
      ToExportsParts(a[1..], b);
      assert (a + b)[0] == a[0] && (a + b)[1..] == a[1..] + b;
      Traversal.Associates([ToExport(a[0])], ToExports(a[1..]), ToExports(b));
    }
  }

  lemma ExportedParts(t: Tree)
    ensures t.Leaf? ==> Exported(t) == [ToExport(t)]
    ensures t.Inner? ==> Exported(t) == Exported(t.left) + Exported(t.right) + [ToExport(t)]
  {
    assert [t][1..] == [];
    assert ToExports([t]) == [ToExport(t)];
    if t.Leaf? {
      assert Traversal.Visit(t, POST_ORDER) == [t];
    } else {
      var left, right := Traversal.Visit(t.left, POST_ORDER), Traversal.Visit(t.right, POST_ORDER);
      assert Traversal.Visit(t, POST_ORDER) == (left + right) + [t];
      ToExportsParts(left + right, [t]);
      ToExportsParts(left, right);
    }
  }

  // ---------------------------------------------------------------- building

  /** The node Add builds on top of the stack; None where it refuses the node (or hashing would panic). */
  function Build(stack: seq<Tree>, n: ExportNode): Option<Tree> {
    if n.version <= 0 || n.height < 0 then None
    else if n.height == 0 then
      if n.value.Some? then Some(Leaf(n.key, n.value.value, n.version)) else None
    else if |stack| < 2 || n.value.Some? then None
    else
      var left, right := stack[|stack| - 2], stack[|stack| - 1];
      if Height(left) >= n.height || Height(right) >= n.height then None
      else Some(Inner(n.key, n.height, Size(left) + Size(right), left, right, n.version))
  }

  /** The stack after the built node has replaced its children. */
  function Replace(stack: seq<Tree>, t: Tree): seq<Tree> {
    (if t.Inner? && |stack| >= 2 then stack[..|stack| - 2] else stack) + [t]
  }

  /** A run of Add calls: the stack and the records written, or None once a node is refused. */
  function Feed(h: Hasher, stack: seq<Tree>, disk: Disk, nodes: seq<ExportNode>,
                version: int): Option<(seq<Tree>, Disk)>
    decreases nodes
  {
    if nodes == [] then Some((stack, disk))
    else if nodes[0].version > version then None
    else
      var built := Build(stack, nodes[0]);
      if built.None? then None
      else Feed(h, Replace(stack, built.value), disk[HashOf(h, built.value) := RecordOf(h, built.value)], nodes[1..],
                version)
  }

  lemma {:induction false} FeedParts(h: Hasher, stack: seq<Tree>, disk: Disk, a: seq<ExportNode>, b: seq<ExportNode>,
                                     version: int)
    ensures var first := Feed(h, stack, disk, a, version);
            Feed(h, stack, disk, a + b, version) == if first.None? then None
                else Feed(h, first.value.0, first.value.1, b, version)
    decreases a
  {
    if a == [] {
      assert a + b == b;
    } else {
      assert (a + b)[0] == a[0] && (a + b)[1..] == a[1..] + b;
      var built := Build(stack, a[0]);
      if a[0].version <= version && built.Some? {
        FeedParts(h, Replace(stack, built.value), disk[HashOf(h, built.value) := RecordOf(h, built.value)], a[1..], b,
                  version);
      }
    }
  }

  /** Every version stamp is one the importer accepts. */
  ghost predicate Importable(t: Tree, version: int) {
    0 < t.version <= version && (t.Inner? ==> Importable(t.left, version) && Importable(t.right, version))
  }

  /** An export is accepted exactly if all its version stamps are, and then its tree is on top of the stack. */
  lemma {:induction false} AcceptedExactly(h: Hasher, stack: seq<Tree>, disk: Disk, t: Tree, version: int)
    requires Valid(t)
    ensures var r := Feed(h, stack, disk, Exported(t), version);
            (r.Some? <==> Importable(t, version)) && (r.Some? ==> r.value.0 == stack + [t])
    decreases t
  {
    hide Feed, Exported;
    ExportedParts(t);
    if t.Leaf? {
      AddsRoot(h, stack, disk, t, version, stack);
    } else {
      var l, r, self := Exported(t.left), Exported(t.right), [ToExport(t)];
      FeedParts(h, stack, disk, l + r, self, version);
      FeedParts(h, stack, disk, l, r, version);
      AcceptedExactly(h, stack, disk, t.left, version);
      if Importable(t.left, version) {
        var first := Feed(h, stack, disk, l, version).value;
        AcceptedExactly(h, stack + [t.left], first.1, t.right, version);
        if Importable(t.right, version) {
          var second := Feed(h, stack + [t.left], first.1, r, version).value;
          AddsRoot(h, second.0, second.1, t, version, stack);
        }
      }
    }
  }

  lemma AddsRoot(h: Hasher, stack: seq<Tree>, disk: Disk, t: Tree, version: int, below: seq<Tree>)
    requires Valid(t) && stack == if t.Leaf? then below else below + [t.left] + [t.right]
    ensures var r := Feed(h, stack, disk, [ToExport(t)], version);
            (r.Some? <==> 0 < t.version <= version) && (r.Some? ==> r.value.0 == below + [t])
  {
    assert [ToExport(t)][1..] == [];
    if t.Inner? {
      ShapedIsPositive(t.left);
      ShapedIsPositive(t.right);
      assert stack[..|stack| - 2] == below;
    }
    assert t.version > 0 ==> Build(stack, ToExport(t)) == Some(t);
  }

  /** Feeding an export puts exactly the exported tree on the stack and its nodes on disk, whatever lies below. */
  lemma {:induction false} FeedRebuilds(h: Hasher, stack: seq<Tree>, disk: Disk, held: set<Tree>, t: Tree, version: int)
    requires Injective(h) && Valid(t) && Importable(t, version)
    requires Holds(h, disk, held) && forall n :: n in held ==> Proper(n)
    ensures var r := Feed(h, stack, disk, Exported(t), version);
            r.Some? && r.value.0 == stack + [t] && Holds(h, r.value.1, held + Nodes(t))
    decreases t
  {
    hide Feed, Exported;
    ExportedParts(t);
    if t.Leaf? {
      FeedOne(h, stack, disk, held, t, version, stack);
    } else {
      var l, r, self := Exported(t.left), Exported(t.right), [ToExport(t)];
      FeedParts(h, stack, disk, l + r, self, version);
      FeedParts(h, stack, disk, l, r, version);
      FeedRebuilds(h, stack, disk, held, t.left, version);
      var first := Feed(h, stack, disk, l, version).value;
      NodesProper(t.left);
      FeedRebuilds(h, stack + [t.left], first.1, held + Nodes(t.left), t.right, version);
      var second := Feed(h, stack + [t.left], first.1, r, version).value;
      NodesProper(t.right);
      FeedOne(h, second.0, second.1, held + Nodes(t.left) + Nodes(t.right), t, version, stack);
      assert held + Nodes(t.left) + Nodes(t.right) + {t} == held + Nodes(t);
    }
  }

  /** One Add call for the root of a tree whose children, if any, are on top of the stack. */
  lemma FeedOne(h: Hasher, stack: seq<Tree>, disk: Disk, held: set<Tree>, t: Tree, version: int, below: seq<Tree>)
    requires Injective(h) && Valid(t) && 0 < t.version <= version
    requires Holds(h, disk, held) && forall n :: n in held ==> Proper(n)
    requires t.Leaf? ==> stack == below
    requires t.Inner? ==> stack == below + [t.left] + [t.right]
    ensures var r := Feed(h, stack, disk, [ToExport(t)], version);
            r.Some? && r.value.0 == below + [t] && Holds(h, r.value.1, held + {t})
  {
    ValidIsProper(t);
    WriteAndDeleteByHash(h, disk, held, t);
    assert [ToExport(t)][1..] == [];
    if t.Inner? {
      ShapedIsPositive(t.left);
      ShapedIsPositive(t.right);
      assert stack[..|stack| - 2] == below;
    }
    assert Build(stack, ToExport(t)) == Some(t);
  }

  lemma NodesProper(t: Tree)
    requires Valid(t)
    ensures forall n :: n in Nodes(t) ==> Proper(n)
  {
    forall n | n in Nodes(t) ensures Proper(n) { SubtreeIsValid(t, n); ValidIsProper(n); }
  }

  /**
   * Importing an export rebuilds the tree: one node on the stack, the same tree, and the same tree read back by its
   * hash.
   */
  lemma ImportInvertsExport(h: Hasher, t: Tree, version: int, depth: nat)
    requires Injective(h) && Valid(t) && Importable(t, version) && depth > Height(t)
    ensures var r := Feed(h, [], map[], Exported(t), version);
            r.Some? && r.value.0 == [t] && Load(r.value.1, HashOf(h, t), depth) == Some(t)
  {
    hide Feed, Exported;
    FeedRebuilds(h, [], map[], {}, t, version);
    var disk := Feed(h, [], map[], Exported(t), version).value.1;
    assert {} + Nodes(t) == Nodes(t);
    HeldTreeIsStored(h, disk, t);
    LoadReadsBack(h, disk, t, depth);
  }

  // ---------------------------------------------------------------- the importer

  lemma BuildExactly(stack: seq<Tree>, n: ExportNode)
    ensures Build(stack, n).Some? <==> && n.version > 0 && n.height >= 0 && (n.height == 0 <==> n.value.Some?)
                                       && (n.height != 0 ==> |stack| >= 2 && LastTwoLower(stack, n.height))
    ensures Build(stack, n).Some? ==>
              var t, k := Build(stack, n).value, |stack|;
              && Replace(stack, t) != [] && Replace(stack, t)[|Replace(stack, t)| - 1] == t
              && (n.height == 0 ==> Replace(stack, t) == stack + [Leaf(n.key, n.value.value, n.version)])
              && (n.height != 0 ==>
                   var left, right := stack[k - 2], stack[k - 1];
                   Replace(stack, t) == stack[..k - 2] + [Inner(n.key, n.height, Size(left) + Size(right), left, right,
                                                                n.version)])
  {
  }

  ghost predicate LastTwoLower(stack: seq<Tree>, height: int)
    requires |stack| >= 2
  {
    Height(stack[|stack| - 1]) < height && Height(stack[|stack| - 2]) < height
  }

  lemma BatchedLast(disk: Disk, batch: Disk, hash: Hash, record: Record)
    ensures disk + batch[hash := record] == (disk + batch)[hash := record]
    ensures (disk + batch[hash := record]) + map[] == disk + batch[hash := record]
  {
  }

  class Importer {
    const h: Hasher
    const version: int
    const maxBatchSize: nat
    var open: bool
    var stack: seq<Tree>
    var batch: Disk
    var batchSize: nat
    var disk: Disk
    var roots: map<int, Hash>

    /** What is on disk once the batch is written. */
    ghost function Written(): Disk
      reads this`disk, this`batch
    {
      disk + batch
    }

    /** The batch never holds as many records as make it be written. */
    ghost predicate Valid()
      reads this`batch, this`batchSize
    {
      |batch| <= batchSize && (maxBatchSize > 0 ==> batchSize < maxBatchSize)
    }

    constructor (h: Hasher, version: int, maxBatchSize: nat)
      ensures Valid() && this.h == h && this.version == version
      ensures open && stack == [] && Written() == map[] && roots == map[]
    {
      this.h, this.version, this.maxBatchSize := h, version, maxBatchSize;
      open, stack, batch, batchSize, disk, roots := true, [], map[], 0, map[], map[];
    }

    /**
     * Add: one step of Feed. Refused are versions past the import's and below 1, negative heights, a leaf without a
     * value, and an inner node with a value or without two lower nodes on top of the stack. A refused node leaves the
     * importer as it was.
     */
    method Add(n: Option<ExportNode>) returns (ok: bool)
      modifies this
      ensures roots == old(roots) && open == old(open) && (old(Valid()) ==> Valid())
      ensures ok <==> && old(open) && n.Some? && 0 < n.value.version <= version && n.value.height >= 0
                      && (n.value.height == 0 <==> n.value.value.Some?)
                      && (n.value.height != 0 ==> |old(stack)| >= 2 && LastTwoLower(old(stack), n.value.height))
      ensures ok <==> old(open) && n.Some? && n.value.version <= version && Build(old(stack), n.value).Some?
      ensures ok ==> && stack != [] && stack == Replace(old(stack), Build(old(stack), n.value).value)
                     && var t := stack[|stack| - 1];
                        Written() == old(Written())[HashOf(h, t) := RecordOf(h, t)]
      ensures !ok ==> stack == old(stack) && Written() == old(Written())
    {
      hide HashOf, RecordOf, Build, Replace, Valid, Written;
      if !open || n.None? || n.value.version > version { return false; }
      BuildExactly(stack, n.value);
      var built, rest := Combine(n.value);
      if built.None? { return false; }
      Put(built.value);
      stack := rest + [built.value];
      return true;
    }

    /** The node built on top of the stack, and what is left of the stack below it. */
    method Combine(node: ExportNode) returns (built: Option<Tree>, rest: seq<Tree>)
      ensures built == Build(stack, node) && (built.Some? ==> rest + [built.value] == Replace(stack, built.value))
    {
      built, rest := None, stack;
      if node.version <= 0 || node.height < 0 { return; }
      if node.height == 0 {
        if node.value.None? { return; }
        built := Some(Leaf(node.key, node.value.value, node.version));
      } else {
        var k := |stack|;
        if node.value.Some? || k < 2 || Height(stack[k - 1]) >= node.height || Height(stack[k - 2]) >= node.height {
          return;
        }
        var left, right := stack[k - 2], stack[k - 1];
        built := Some(Inner(node.key, node.height, Size(left) + Size(right), left, right, node.version));
        rest := stack[..k - 2];
      }
    }

    /** The record of a node joins the batch, which is written when it is full. */
    method Put(t: Tree)
      modifies this`batch, this`batchSize, this`disk
      ensures Written() == old(Written())[HashOf(h, t) := RecordOf(h, t)] && (old(Valid()) ==> Valid())
    {
      hide HashOf, RecordOf;
      BatchedLast(disk, batch, HashOf(h, t), RecordOf(h, t));
      batch := batch[HashOf(h, t) := RecordOf(h, t)];
      batchSize := batchSize + 1;
      if batchSize >= maxBatchSize {
        disk := disk + batch;
        batch, batchSize := map[], 0;
      }
    }

    /** Commit: the root of the version, if the stack has come down to at most one node. */
    method Commit() returns (ok: bool)
      modifies this
      ensures ok <==> old(open) && |old(stack)| <= 1
      ensures ok ==> !open && disk == old(Written())
      ensures ok ==> roots == old(roots)[version := if old(stack) == [] then [] else HashOf(h, old(stack)[0])]
    {
      if !open || |stack| > 1 { return false; }
      roots := roots[version := if stack == [] then [] else HashOf(h, stack[0])];
      disk := disk + batch;
      batch := map[];
      open := false;
      return true;
    }
  }

  lemma FeedFirst(h: Hasher, stack: seq<Tree>, disk: Disk, nodes: seq<ExportNode>, version: int)
    requires nodes != []
    ensures var built := Build(stack, nodes[0]);
            Feed(h, stack, disk, nodes, version) ==
            if nodes[0].version > version || built.None? then None
            else Feed(h, Replace(stack, built.value), disk[HashOf(h, built.value) := RecordOf(h, built.value)],
                      nodes[1..], version)
  {
  }

  lemma FeedNothing(h: Hasher, stack: seq<Tree>, disk: Disk, nodes: seq<ExportNode>, version: int)
    requires nodes == []
    ensures Feed(h, stack, disk, nodes, version) == Some((stack, disk))
  {
  }

  lemma LastReplaced(stack: seq<Tree>, n: ExportNode)
    ensures var built := Build(stack, n);
            built.Some? ==> Replace(stack, built.value) != []
                            && Replace(stack, built.value)[|Replace(stack, built.value)| - 1] == built.value
  {
  }

  /** Importing a whole export, in batches of any size, and committing it. */
  method Import(h: Hasher, nodes: seq<ExportNode>, version: int, maxBatchSize: nat) returns (i: Importer, ok: bool)
    ensures var fed := Feed(h, [], map[], nodes, version);
            && (ok <==> fed.Some? && |fed.value.0| <= 1)
            && (ok ==> i.disk == fed.value.1 && version in i.roots
                       && i.roots[version] == if fed.value.0 == [] then [] else HashOf(h, fed.value.0[0]))
  {
    hide Feed, Build, Replace, HashOf, RecordOf, Importer.Valid, Importer.Written;
    i := new Importer(h, version, maxBatchSize);
    var k := 0;
    assert nodes[0..] == nodes;
    while k < |nodes|
      invariant 0 <= k <= |nodes| && fresh(i) && i.open && i.h == h && i.version == version
      invariant Feed(h, [], map[], nodes, version) == Feed(h, i.stack, i.Written(), nodes[k..], version)
    {
      assert nodes[k..][1..] == nodes[k + 1..];
      FeedFirst(h, i.stack, i.Written(), nodes[k..], version);
      LastReplaced(i.stack, nodes[k]);
      var added := i.Add(Some(nodes[k]));
      if !added { return i, false; }
      k := k + 1;
    }
    FeedNothing(h, i.stack, i.Written(), nodes[k..], version);
    ok := i.Commit();
  }
}
