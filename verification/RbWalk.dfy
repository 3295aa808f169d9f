/** `rb_first`, `rb_last`, `rb_next`, `rb_prev`: walking the tree in order by its links alone. */
module RbWalk {
  import opened RbTree

  method First(t: Root) returns (n: Node?)
    requires t.Repr() && t.tree.Shape()
    ensures n == if t.tree.order == [] then null else t.tree.order[0]
  {
    n := t.rbNode;
    if n == null {
      return null;
    }
    assert t.tree.LinksOk(n);
    while n.left != null
      invariant n in t.tree.cells && t.tree.LinksOk(n) && t.tree.cells[n].lo == 0
      decreases t.tree.cells[n].hi - t.tree.cells[n].lo
    {
      n := n.left;
      assert t.tree.LinksOk(n);
    }
  }

  method Last(t: Root) returns (n: Node?)
    requires t.Repr() && t.tree.Shape()
    ensures n == if t.tree.order == [] then null else t.tree.order[|t.tree.order| - 1]
  {
    n := t.rbNode;
    if n == null {
      return null;
    }
    assert t.tree.LinksOk(n);
    while n.right != null
      invariant n in t.tree.cells && t.tree.LinksOk(n) && t.tree.cells[n].hi == |t.tree.order|
      decreases t.tree.cells[n].hi - t.tree.cells[n].lo
    {
      n := n.right;
      assert t.tree.LinksOk(n);
    }
  }

  /** The node after `node` in the in-order sequence; null after the last one.  A node that is its
      own parent is in no tree. */
  method Next(node: Node, t: Root) returns (next: Node?)
    requires node.parent == node || (t.Repr() && t.tree.Shape() && node in t.tree.cells)
    ensures node.parent == node ==> next == null
    ensures node.parent != node ==>
              next == var i := t.tree.cells[node].pos + 1;
                      if 0 <= i < |t.tree.order| then t.tree.order[i] else null
  {
    if node.parent == node {
      return null;
    }
    assert t.tree.LinksOk(node);
    ghost var c, i := t.tree.cells, t.tree.cells[node].pos + 1;
    var n := node;
    if n.right != null {
      n := n.right;
      assert t.tree.LinksOk(n);
      while n.left != null
        invariant n in c && t.tree.LinksOk(n) && c[n].lo == i
        decreases c[n].hi - c[n].lo
      {
        n := n.left;
        assert t.tree.LinksOk(n);
      }
      return n;
    }
    next := n.parent;
    assert next != null ==> t.tree.LinksOk(next);
    while next != null && n == next.right
      invariant n in c && t.tree.LinksOk(n) && c[n].hi == i && next == c[n].parent
      invariant next != null ==> t.tree.LinksOk(next)
      decreases |t.tree.order| - (c[n].hi - c[n].lo)
    {
      assert t.tree.RangeOk(next);
      n := next;
      next := n.parent;
      assert next != null ==> t.tree.LinksOk(next);
    }
  }

  /** The node before `node` in the in-order sequence; null before the first one. */
  method Prev(node: Node, t: Root) returns (prev: Node?)
    requires node.parent == node || (t.Repr() && t.tree.Shape() && node in t.tree.cells)
    ensures node.parent == node ==> prev == null
    ensures node.parent != node ==>
              prev == var i := t.tree.cells[node].pos - 1;
                      if 0 <= i < |t.tree.order| then t.tree.order[i] else null
  {
    if node.parent == node {
      return null;
    }
    assert t.tree.LinksOk(node);
    ghost var c, i := t.tree.cells, t.tree.cells[node].pos;
    var n := node;
    if n.left != null {
      n := n.left;
      assert t.tree.LinksOk(n);
      while n.right != null
        invariant n in c && t.tree.LinksOk(n) && c[n].hi == i
        decreases c[n].hi - c[n].lo
      {
        n := n.right;
        assert t.tree.LinksOk(n);
      }
      return n;
    }
    prev := n.parent;
    assert prev != null ==> t.tree.LinksOk(prev);
    while prev != null && n == prev.left
      invariant n in c && t.tree.LinksOk(n) && c[n].lo == i && prev == c[n].parent
      invariant prev != null ==> t.tree.LinksOk(prev)
      decreases |t.tree.order| - (c[n].hi - c[n].lo)
    {
      assert t.tree.RangeOk(prev);
      n := prev;
      prev := n.parent;
      assert prev != null ==> t.tree.LinksOk(prev);
    }
  }

  /** A whole walk from `First` by `Next` meets the in-order sequence, each node once, and ends. */
  method Walk(t: Root) returns (visited: seq<Node>)
    requires t.Repr() && t.tree.Shape()
    ensures visited == t.tree.order
    ensures forall i, j :: 0 <= i < j < |visited| ==> visited[i] != visited[j]
  {
    visited := [];
    var n := First(t);
    while n != null
      invariant |visited| <= |t.tree.order| && visited == t.tree.order[..|visited|]
      invariant n == if |visited| < |t.tree.order| then t.tree.order[|visited|] else null
      decreases |t.tree.order| - |visited|
    {
      assert t.tree.LinksOk(n);
      visited := visited + [n];
      n := Next(n, t);
    }
  }

  /** `Prev` undoes `Next` at every node but the last. */
  method NextThenPrev(node: Node, t: Root) returns (same: bool)
    requires t.Repr() && t.tree.Shape() && node in t.tree.cells
    ensures same <==> t.tree.cells[node].pos != |t.tree.order| - 1
  {
    assert t.tree.LinksOk(node);
    var next := Next(node, t);
    if next == null {
      return false;
    }
    assert t.tree.LinksOk(next);
    var back := Prev(next, t);
    same := back == node;
  }
}
