/** The `rb_augment_*` functions: after an insertion or a removal one walk to the root makes every
    cached aggregate right again. */
module RbAugment {
  import opened RbTree
  import opened RbSpine
  import opened RbInsert
  import opened RbLink
  import opened RbErase
  import RbWalk

  datatype AggOf = NoChild | Of(agg: Agg)

  /** The caller's `func`, as the value it gives a node from those of its children. */
  type Func = (Node, AggOf, AggOf) -> Agg

  ghost function ChildAgg(n: Node?): AggOf
    reads n
  {
    if n == null then NoChild else Of(n.agg)
  }

  /** The aggregate of `n` is what `f` makes of those of its children in `t`. */
  ghost predicate Right(t: Tree, n: Node, f: Func)
    requires n in t.cells
    reads n, t.cells[n].left, t.cells[n].right
  {
    n.agg == f(n, ChildAgg(t.cells[n].left), ChildAgg(t.cells[n].right))
  }

  ghost predicate AllRight(t: Tree, f: Func)
    reads t.cells.Keys, set n | n in t.cells :: t.cells[n].left, set n | n in t.cells :: t.cells[n].right
  {
    forall n {:trigger Right(t, n, f)} :: n in t.cells ==> Right(t, n, f)
  }

  // ----- ancestors

  /** A node whose subtree holds the position of `m` contains the whole subtree of `m`, and holds
      the parent of `m` too unless it is `m`. */
  lemma {:induction false} Ancestor(t: Tree, n: Node, m: Node)
    requires t.Shape() && n in t.cells && m in t.cells && t.Holds(n, t.cells[m].pos)
    ensures t.cells[n].lo <= t.cells[m].lo && t.cells[m].hi <= t.cells[n].hi
    ensures n != m ==> t.cells[m].parent in t.cells && t.Holds(n, t.cells[t.cells[m].parent].pos)
    decreases t.cells[n].hi - t.cells[n].lo
  {
    assert t.LinksOk(n) && t.LinksOk(m);
    if n != m {
      var k := if t.cells[m].pos < t.cells[n].pos then t.cells[n].left else t.cells[n].right;
      assert t.LinksOk(k);
      Ancestor(t, k, m);
    }
  }

  // ----- the walk to the root

  /** `n` may be wrong: it is on the way to `m`, or the brother of a node other than a child of `m`
      that is. */
  ghost predicate Doubtful(t: Tree, n: Node, m: Node)
    requires n in t.cells && m in t.cells
  {
    var p := t.cells[m].pos;
    t.Holds(n, p) || (t.cells[n].parent in t.cells && t.cells[n].parent != m && t.Holds(t.cells[n].parent, p))
  }

  lemma DoubtClimbs(t: Tree, n: Node, m: Node)
    requires t.Shape() && n in t.cells && m in t.cells && Doubtful(t, n, m) && n != m
    ensures var q := t.cells[m].parent;
            q in t.cells && (Doubtful(t, n, q) || t.cells[n].parent == q)
  {
    var p, r := t.cells[m].pos, t.cells[n].parent;
    if t.Holds(n, p) {
      Ancestor(t, n, m);
    } else {
      Ancestor(t, r, m);
    }
  }

  /** `func(node, data)`. */
  method Recompute(node: Node, t: Root, f: Func)
    requires t.Repr() && t.tree.Shape() && node in t.tree.cells
    modifies node`agg
    ensures Right(t.tree, node, f)
    ensures forall n {:trigger Right(t.tree, n, f)} :: n in t.tree.cells && n != t.tree.cells[node].parent && old(Right(t.tree, n, f)) ==> Right(t.tree, n, f)
  {
    assert t.tree.LinksOk(node);
    var l := if node.left == null then NoChild else Of(node.left.agg);
    var r := if node.right == null then NoChild else Of(node.right.agg);
    node.agg := f(node, l, r);
    forall n | n in t.tree.cells && n != t.tree.cells[node].parent && n != node && old(Right(t.tree, n, f))
      ensures Right(t.tree, n, f)
    {
      assert t.tree.LinksOk(n);
    }
  }

  ghost predicate RightUpTo(t: Tree, m: Node, f: Func)
    requires m in t.cells
    reads t.cells.Keys, set n | n in t.cells :: t.cells[n].left, set n | n in t.cells :: t.cells[n].right
  {
    forall n {:trigger Right(t, n, f)} :: n in t.cells ==> Right(t, n, f) || Doubtful(t, n, m)
  }

  /** One stop of the walk: the node and its brother, if it has one. */
  method AugmentStep(node: Node, t: Root, f: Func)
    requires t.Repr() && t.tree.Shape() && node in t.tree.cells && RightUpTo(t.tree, node, f)
    modifies t.tree.cells.Keys`agg
    ensures node.parent == null ==> AllRight(t.tree, f)
    ensures node.parent != null ==> node.parent in t.tree.cells && RightUpTo(t.tree, node.parent, f)
  {
    ghost var tree := t.tree;
    assert tree.LinksOk(node);
    Recompute(node, t, f);
    var parent := node.parent;
    if parent != null {
      assert tree.LinksOk(parent);
      if node == parent.left && parent.right != null {
        Recompute(parent.right, t, f);
      } else if parent.left != null {
        Recompute(parent.left, t, f);
      }
    }
    forall n | n in tree.cells
      ensures Right(tree, n, f) || (parent != null && Doubtful(tree, n, parent))
    {
      assert tree.LinksOk(n);
      if n != node && Doubtful(tree, n, node) {
        DoubtClimbs(tree, n, node);
      }
    }
  }

  method AugmentPath(node0: Node, t: Root, f: Func)
    requires t.Repr() && t.tree.Shape() && node0 in t.tree.cells && RightUpTo(t.tree, node0, f)
    modifies t.tree.cells.Keys`agg
    ensures AllRight(t.tree, f)
  {
    var node := node0;
    while true
      invariant node in t.tree.cells && RightUpTo(t.tree, node, f)
      decreases |t.tree.order| - (t.tree.cells[node].hi - t.tree.cells[node].lo)
    {
      AugmentStep(node, t, f);
      var parent := node.parent;
      if parent == null {
        return;
      }
      assert t.tree.LinksOk(node) && t.tree.LinksOk(parent) && t.tree.RangeOk(parent);
      node := parent;
    }
  }

  // ----- around an insertion

  /** Every aggregate is right but on the way to `node`, at brothers of that way, and at children of
      `node`: what `rb_insert_color` leaves. */
  ghost predicate RightButNear(t: Tree, node: Node, f: Func)
    requires node in t.cells
    reads t.cells.Keys, set n | n in t.cells :: t.cells[n].left, set n | n in t.cells :: t.cells[n].right
  {
    var p := t.cells[node].pos;
    forall n {:trigger Right(t, n, f)} :: n in t.cells ==>
      Right(t, n, f) || t.Holds(n, p) || (t.cells[n].parent in t.cells && t.Holds(t.cells[n].parent, p))
  }

  lemma StartBelow(t: Tree, n: Node, node: Node, start: Node)
    requires t.Shape() && n in t.cells && node in t.cells && t.LinksOk(node)
    requires var p := t.cells[node].pos;
             t.Holds(n, p) || (t.cells[n].parent in t.cells && t.Holds(t.cells[n].parent, p))
    requires start == (if t.cells[node].left != null then t.cells[node].left
                       else if t.cells[node].right != null then t.cells[node].right else node)
    ensures Doubtful(t, n, start)
  {
    var p, r := t.cells[node].pos, t.cells[n].parent;
    assert t.LinksOk(n) && t.LinksOk(start);
    if t.Holds(n, p) {
      Ancestor(t, n, node);
    } else {
      Ancestor(t, r, node);
    }
  }

  method AugmentInsert(node: Node, t: Root, f: Func)
    requires t.Repr() && t.tree.Shape() && node in t.tree.cells && RightButNear(t.tree, node, f)
    modifies t.tree.cells.Keys`agg
    ensures AllRight(t.tree, f)
  {
    assert t.tree.LinksOk(node);
    var start := node;
    if node.left != null {
      start := node.left;
    } else if node.right != null {
      start := node.right;
    }
    forall n | n in t.tree.cells
      ensures Right(t.tree, n, f) || Doubtful(t.tree, n, start)
    {
      if !Right(t.tree, n, f) {
        StartBelow(t.tree, n, node, start);
      }
    }
    AugmentPath(start, t, f);
  }

  /** What linking and rebalancing leave of right aggregates. */
  lemma InsertLeaves(before: Tree, after: Tree, leaf: Node, q: Node?, d: bool, f: Func)
    requires before.Valid() && leaf !in before.cells && IsPlace(before, q, d) && AllRight(before, f)
    requires after.Shape() && leaf in after.cells
    requires var linked := Linked(before, leaf, q, d);
             && after.order == linked.order && after.cells.Keys == linked.cells.Keys
             && Fringe(linked, after, linked.cells[leaf].pos, false)
    ensures RightButNear(after, leaf, f)
  {
    var linked := Linked(before, leaf, q, d);
    LinkedInserting(before, leaf, q, d);
    assert after.LinksOk(leaf) && linked.LinksOk(leaf);
    var p := after.cells[leaf].pos;
    assert p == linked.cells[leaf].pos;
    forall n | n in after.cells && !after.Holds(n, p) && !(after.cells[n].parent in after.cells && after.Holds(after.cells[n].parent, p))
      ensures Right(after, n, f)
    {
      assert OnFringe(linked, after, p, false, n) && after.LinksOk(n);
      assert n != q;
      assert Right(before, n, f);
    }
  }

  /** Links a leaf and rebalances. */
  method Insert(leaf: Node, q: Node?, d: bool, t: Root)
    requires t.Repr() && t.tree.Valid() && leaf !in t.tree.cells && IsPlace(t.tree, q, d)
    modifies t, t.tree.cells.Keys`left, t.tree.cells.Keys`right, t.tree.cells.Keys`parent, t.tree.cells.Keys`red
    modifies leaf`left, leaf`right, leaf`parent, leaf`red
    ensures t.Repr() && t.tree.Valid() && leaf in t.tree.cells
    ensures t.tree.order == Linked(old(t.tree), leaf, q, d).order
    ensures t.tree.cells.Keys == old(t.tree.cells.Keys) + {leaf}
    ensures var linked := Linked(old(t.tree), leaf, q, d); Fringe(linked, t.tree, linked.cells[leaf].pos, false)
  {
    Link(leaf, q, d, t);
    InsertColor(leaf, t);
  }

  /** Links a leaf and rebalances: what that leaves of right aggregates. */
  method InsertOnly(leaf: Node, q: Node?, d: bool, t: Root, f: Func)
    requires t.Repr() && t.tree.Valid() && leaf !in t.tree.cells && IsPlace(t.tree, q, d)
    requires AllRight(t.tree, f)
    modifies t, t.tree.cells.Keys, leaf
    ensures t.Repr() && t.tree.Valid() && leaf in t.tree.cells && RightButNear(t.tree, leaf, f)
    ensures t.tree.order == Linked(old(t.tree), leaf, q, d).order
    ensures t.tree.cells.Keys == old(t.tree.cells.Keys) + {leaf}
  {
    ghost var before := t.tree;
    Insert(leaf, q, d, t);
    forall n | n in before.cells
      ensures Right(before, n, f)
    {
      assert old(Right(before, n, f));
    }
    InsertLeaves(before, t.tree, leaf, q, d, f);
  }

  /** An insertion with its aggregate: in a red-black tree with right aggregates, linking a leaf,
      `rb_insert_color` and `rb_augment_insert` give a red-black tree with right aggregates over the
      sequence with the leaf in it. */
  method InsertAugmented(leaf: Node, q: Node?, d: bool, t: Root, f: Func)
    requires t.Repr() && t.tree.Valid() && leaf !in t.tree.cells && IsPlace(t.tree, q, d)
    requires AllRight(t.tree, f)
    modifies t, t.tree.cells.Keys, leaf
    ensures t.Repr() && t.tree.Valid() && AllRight(t.tree, f)
    ensures t.tree.order == Linked(old(t.tree), leaf, q, d).order
    ensures t.tree.cells.Keys == old(t.tree.cells.Keys) + {leaf}
  {
    InsertOnly(leaf, q, d, t, f);
    AugmentInsert(leaf, t, f);
  }

  // ----- around a removal

  method AugmentEraseBegin(node: Node, t: Root) returns (deepest: Node?)
    requires t.Repr() && t.tree.Shape() && node in t.tree.cells
    ensures deepest == Deepest(t.tree, node)
  {
    assert t.tree.LinksOk(node);
    if node.right == null && node.left == null {
      deepest := node.parent;
    } else if node.right == null {
      deepest := node.left;
    } else if node.left == null {
      deepest := node.right;
    } else {
      assert t.tree.LinksOk(node.right);
      deepest := RbWalk.Next(node, t);
      assert t.tree.LinksOk(deepest);
      if deepest.right != null {
        deepest := deepest.right;
      } else if deepest.parent != node {
        deepest := deepest.parent;
      }
    }
  }

  method AugmentEraseEnd(node: Node?, t: Root, f: Func)
    requires t.Repr() && t.tree.Shape()
    requires if node == null then t.tree.cells.Keys == {} else node in t.tree.cells && RightUpTo(t.tree, node, f)
    modifies t.tree.cells.Keys`agg
    ensures AllRight(t.tree, f)
  {
    if node != null {
      AugmentPath(node, t, f);
    }
  }

  /** What a removal leaves of right aggregates. */
  lemma EraseLeaves(before: Tree, after: Tree, z: Node, f: Func)
    requires before.Shape() && z in before.cells && AllRight(before, f)
    requires after.Shape() && after.cells.Keys == before.cells.Keys - {z}
    requires var m := Deepest(before, z);
             m in after.cells && Fringe(before, after, after.cells[m].pos, true)
    ensures RightUpTo(after, Deepest(before, z), f)
  {
    var m := Deepest(before, z);
    forall n | n in after.cells
      ensures Right(after, n, f) || Doubtful(after, n, m)
    {
      assert OnFringe(before, after, after.cells[m].pos, true, n);
      assert Right(before, n, f);
    }
  }

  lemma DeepestExists(t: Tree, z: Node)
    requires t.Shape() && z in t.cells && t.LinksOk(z) && t.cells[z].left != null && t.cells[z].right != null
    ensures Deepest(t, z) != null
  {
    assert t.LinksOk(t.cells[z].right);
    assert t.LinksOk(t.order[t.cells[z].pos + 1]);
  }

  /** Without a deepest node nothing is left. */
  lemma NothingLeft(t: Tree, z: Node)
    requires t.Shape() && z in t.cells && Deepest(t, z) == null
    ensures t.cells.Keys == {z}
  {
    assert t.LinksOk(z);
    if t.cells[z].left != null && t.cells[z].right != null {
      DeepestExists(t, z);
    }
    forall n | n in t.cells
      ensures n == z
    {
      assert t.LinksOk(n) && t.RangeOk(n);
    }
  }

  /** A removal with its aggregate: between `rb_augment_erase_begin` and `rb_augment_erase_end`,
      `rb_erase` takes a node from a red-black tree with right aggregates and leaves one. */
  method EraseAugmented(node: Node, t: Root, f: Func)
    requires t.Repr() && t.tree.Valid() && node in t.tree.cells
    requires AllRight(t.tree, f)
    modifies t, t.tree.cells.Keys
    ensures t.Repr() && t.tree.Valid() && AllRight(t.tree, f)
    ensures t.tree.order == Without(old(t.tree.order), old(t.tree.cells[node]).pos)
    ensures t.tree.cells.Keys == old(t.tree.cells.Keys) - {node}
  {
    ghost var before := t.tree;
    var deepest := AugmentEraseBegin(node, t);
    Erase(node, t);
    forall n | n in before.cells
      ensures Right(before, n, f)
    {
      assert old(Right(before, n, f));
    }
    if deepest == null {
      NothingLeft(before, node);
    } else {
      EraseLeaves(before, t.tree, node, f);
    }
    AugmentEraseEnd(deepest, t, f);
  }
}
