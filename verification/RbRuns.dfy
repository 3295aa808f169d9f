/** Whole runs of insertions and removals. */
module RbRuns {
  import opened RbTree
  import opened RbLink
  import opened RbInsert
  import opened RbErase
  import RbAugment
  import RbFacts
  import RbWalk

  /** Insert a node at an index of the in-order sequence, or remove the one there. */
  datatype Op = Insert(leaf: Node, at: nat) | Remove(at: nat)

  ghost predicate CanApply(s: seq<Node>, op: Op) {
    match op
    case Insert(leaf, at) => leaf !in s && at <= |s|
    case Remove(at) => at < |s|
  }

  ghost function Apply(s: seq<Node>, op: Op): seq<Node>
    requires CanApply(s, op)
  {
    match op
    case Insert(leaf, at) => s[..at] + [leaf] + s[at..]
    case Remove(at) => s[..at] + s[at + 1..]
  }

  ghost predicate CanRun(s: seq<Node>, ops: seq<Op>)
    decreases |ops|
  {
    ops == [] || (CanApply(s, ops[0]) && CanRun(Apply(s, ops[0]), ops[1..]))
  }

  /** What the operations make of a sequence. */
  ghost function After(s: seq<Node>, ops: seq<Op>): seq<Node>
    requires CanRun(s, ops)
    decreases |ops|
  {
    if ops == [] then s else After(Apply(s, ops[0]), ops[1..])
  }

  ghost function Leaves(ops: seq<Op>): set<Node> {
    set op | op in ops && op.Insert? :: op.leaf
  }

  /** The nodes of a tree are those of its sequence. */
  lemma NodesAreOrder(t: Tree, n: Node)
    requires t.Shape()
    ensures n in t.cells <==> n in t.order
  {
    if n in t.cells {
      assert t.LinksOk(n);
    }
  }

  /** What a left child says of a node's place. */
  lemma LeftFirst(t: Tree, n: Node)
    requires t.Shape() && n in t.cells && t.cells[n].left != null
    ensures 0 <= t.cells[n].lo < t.cells[n].pos
  {
    assert t.LinksOk(n) && t.RangeOk(n) && t.LinksOk(t.cells[n].left);
  }

  /** A node with a right child is followed by one without a left child. */
  lemma RightNext(t: Tree, p: Node)
    requires t.Shape() && p in t.cells && t.cells[p].right != null
    ensures var k := t.cells[p].pos + 1; 0 <= k < |t.order| && t.order[k] in t.cells && t.cells[t.order[k]].left == null
  {
    assert t.LinksOk(p);
    var r, k := t.cells[p].right, t.cells[p].pos + 1;
    assert t.LinksOk(r) && t.RangeOk(r);
    var n := t.order[k];
    RbAugment.Ancestor(t, r, n);
    assert t.LinksOk(n);
    if t.cells[n].left != null {
      LeftFirst(t, n);
    }
  }

  /** In front of index `k` there is room for a child: on the left side of the node there, or else on the right side
      of the node before it. */
  lemma RoomBefore(t: Tree, k: nat)
    requires t.Shape() && k <= |t.order| && t.order != []
    requires k < |t.order| ==> t.order[k] in t.cells && t.cells[t.order[k]].left != null
    ensures k > 0 && t.order[k - 1] in t.cells && t.cells[t.order[k - 1]].right == null
  {
    if k < |t.order| {
      LeftFirst(t, t.order[k]);
    }
    var p := t.order[k - 1];
    assert p in t.cells && t.cells[p].pos == k - 1;
    if t.cells[p].right != null {
      RightNext(t, p);
    }
  }

  lemma RootStands(t: Tree)
    requires t.Shape() && t.root != null
    ensures t.order != []
  {
    assert t.LinksOk(t.root) && t.RangeOk(t.root);
  }

  /** Where a leaf is to be hung to come to an index of the sequence. */
  method FindPlace(at: nat, t: Root) returns (q: Node?, d: bool)
    requires t.Repr() && t.tree.Shape() && at <= |t.tree.order|
    ensures IsPlace(t.tree, q, d) && PlaceOf(t.tree, q, d) == at
  {
    var nodes := RbWalk.Walk(t);
    if t.rbNode == null {
      return null, true;
    }
    RootStands(t.tree);
    if at < |nodes| {
      q, d := nodes[at], true;
      assert t.tree.LinksOk(q);
      if q.left == null {
        return;
      }
    }
    RoomBefore(t.tree, at);
    q, d := nodes[at - 1], false;
    assert t.tree.LinksOk(q);
  }

  /** Inserts a leaf at an index of the sequence. */
  method InsertAt(leaf: Node, at: nat, t: Root)
    requires t.Repr() && t.tree.Valid() && leaf !in t.tree.cells && at <= |t.tree.order|
    modifies t, t.tree.cells.Keys, leaf
    ensures t.Repr() && t.tree.Valid() && t.tree.cells.Keys == old(t.tree.cells.Keys) + {leaf}
    ensures t.tree.order == old(t.tree.order[..at] + [leaf] + t.tree.order[at..])
  {
    var q, d := FindPlace(at, t);
    Link(leaf, q, d, t);
    InsertColor(leaf, t);
  }

  /** Removes the node at an index of the sequence. */
  method RemoveAt(at: nat, t: Root)
    requires t.Repr() && t.tree.Valid() && at < |t.tree.order|
    modifies t, t.tree.cells.Keys
    ensures t.Repr() && t.tree.Valid() && t.tree.cells.Keys <= old(t.tree.cells.Keys)
    ensures t.tree.order == old(t.tree.order[..at] + t.tree.order[at + 1..])
  {
    var nodes := RbWalk.Walk(t);
    assert t.tree.LinksOk(nodes[at]);
    Erase(nodes[at], t);
  }

  method Perform(op: Op, t: Root)
    requires t.Repr() && t.tree.Valid() && CanApply(t.tree.order, op)
    modifies t, t.tree.cells.Keys, Leaves([op])
    ensures t.Repr() && t.tree.Valid() && t.tree.order == Apply(old(t.tree.order), op)
    ensures t.tree.cells.Keys <= old(t.tree.cells.Keys) + Leaves([op])
  {
    assert [op][0] == op;
    match op
    case Insert(leaf, at) =>
      NodesAreOrder(t.tree, leaf);
      assert leaf in Leaves([op]);
      InsertAt(leaf, at, t);
    case Remove(at) =>
      RemoveAt(at, t);
  }

  /** Any run of insertions and removals does to the tree what it does to a sequence, and leaves a red-black tree;
      so the tree is never higher than twice the logarithm of its size. */
  method Run(ops: seq<Op>, t: Root)
    requires t.Repr() && t.tree.Valid() && CanRun(t.tree.order, ops)
    modifies t, t.tree.cells.Keys, Leaves(ops)
    ensures t.Repr() && t.tree.Valid() && t.tree.order == After(old(t.tree.order), ops)
    ensures RbFacts.Pow2(RbFacts.Height(t, t.rbNode)) <= (|t.tree.order| + 1) * (|t.tree.order| + 1)
  {
    RunAll(ops, t);
    RbFacts.HeightBound(t);
  }

  method RunAll(ops: seq<Op>, t: Root)
    requires t.Repr() && t.tree.Valid() && CanRun(t.tree.order, ops)
    modifies t, t.tree.cells.Keys, Leaves(ops)
    ensures t.Repr() && t.tree.Valid() && t.tree.order == After(old(t.tree.order), ops)
  {
    ghost var nodes, start := t.tree.cells.Keys + Leaves(ops), t.tree.order;
    var left := ops;
    while left != []
      invariant t.Repr() && t.tree.Valid() && t.tree.cells.Keys + Leaves(left) <= nodes
      invariant CanRun(t.tree.order, left) && After(t.tree.order, left) == After(start, ops)
      decreases |left|
    {
      LeavesSplit(left);
      Perform(left[0], t);
      left := left[1..];
    }
  }

  /** Inserts a leaf at an index of the sequence, and repairs the aggregates. */
  method InsertAtAugmented(leaf: Node, at: nat, t: Root, f: RbAugment.Func)
    requires t.Repr() && t.tree.Valid() && leaf !in t.tree.cells && at <= |t.tree.order|
    requires RbAugment.AllRight(t.tree, f)
    modifies t, t.tree.cells.Keys, leaf
    ensures t.Repr() && t.tree.Valid() && t.tree.cells.Keys == old(t.tree.cells.Keys) + {leaf}
    ensures t.tree.order == old(t.tree.order[..at] + [leaf] + t.tree.order[at..])
    ensures RbAugment.AllRight(t.tree, f)
  {
    var q, d := FindPlace(at, t);
    RbAugment.InsertAugmented(leaf, q, d, t, f);
  }

  /** Removes the node at an index of the sequence, and repairs the aggregates. */
  method RemoveAtAugmented(at: nat, t: Root, f: RbAugment.Func)
    requires t.Repr() && t.tree.Valid() && at < |t.tree.order|
    requires RbAugment.AllRight(t.tree, f)
    modifies t, t.tree.cells.Keys
    ensures t.Repr() && t.tree.Valid() && t.tree.cells.Keys <= old(t.tree.cells.Keys)
    ensures t.tree.order == old(t.tree.order[..at] + t.tree.order[at + 1..])
    ensures RbAugment.AllRight(t.tree, f)
  {
    var nodes := RbWalk.Walk(t);
    assert t.tree.LinksOk(nodes[at]);
    RbAugment.EraseAugmented(nodes[at], t, f);
  }

  method PerformAugmented(op: Op, t: Root, f: RbAugment.Func)
    requires t.Repr() && t.tree.Valid() && CanApply(t.tree.order, op) && RbAugment.AllRight(t.tree, f)
    modifies t, t.tree.cells.Keys, Leaves([op])
    ensures t.Repr() && t.tree.Valid() && t.tree.order == Apply(old(t.tree.order), op)
    ensures t.tree.cells.Keys <= old(t.tree.cells.Keys) + Leaves([op])
    ensures RbAugment.AllRight(t.tree, f)
  {
    assert [op][0] == op;
    match op
    case Insert(leaf, at) =>
      NodesAreOrder(t.tree, leaf);
      assert leaf in Leaves([op]);
      InsertAtAugmented(leaf, at, t, f);
    case Remove(at) =>
      RemoveAtAugmented(at, t, f);
  }

  /** Any run that repairs the aggregates around each insertion and removal keeps all of them right. */
  method RunAugmented(ops: seq<Op>, t: Root, f: RbAugment.Func)
    requires t.Repr() && t.tree.Valid() && CanRun(t.tree.order, ops) && RbAugment.AllRight(t.tree, f)
    modifies t, t.tree.cells.Keys, Leaves(ops)
    ensures t.Repr() && t.tree.Valid() && t.tree.order == After(old(t.tree.order), ops)
    ensures RbAugment.AllRight(t.tree, f)
  {
    ghost var nodes, start := t.tree.cells.Keys + Leaves(ops), t.tree.order;
    var left := ops;
    while left != []
      invariant t.Repr() && t.tree.Valid() && t.tree.cells.Keys + Leaves(left) <= nodes
      invariant CanRun(t.tree.order, left) && After(t.tree.order, left) == After(start, ops)
      invariant RbAugment.AllRight(t.tree, f)
      decreases |left|
    {
      LeavesSplit(left);
      PerformAugmented(left[0], t, f);
      left := left[1..];
    }
  }

  lemma LeavesSplit(ops: seq<Op>)
    requires ops != []
    ensures Leaves([ops[0]]) <= Leaves(ops) && Leaves(ops[1..]) <= Leaves(ops)
  {
    assert forall op :: op in ops[1..] ==> op in ops;
    assert [ops[0]][0] in ops;
  }
}
