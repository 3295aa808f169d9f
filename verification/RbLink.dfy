/** Hanging a new leaf into the tree, which is what a caller of `rb_insert_color` does first. */
module RbLink {
  import opened RbTree
  import opened RbInsert

  /** `q` is the place for a leaf: no node for an empty tree, else a node without a child on side `d`. */
  ghost predicate IsPlace(t: Tree, q: Node?, d: bool) {
    if q == null then t.root == null && t.order == []
    else q in t.cells && t.LinksOk(q) && t.cells[q].Kid(d) == null
  }

  /** The index the new leaf gets: right before its parent, or right after it. */
  ghost function PlaceOf(t: Tree, q: Node?, d: bool): (k: int)
    requires IsPlace(t, q, d)
    ensures 0 <= k <= |t.order|
  {
    assert q != null ==> t.PosOk(q);
    if q == null then 0 else if d then t.cells[q].pos else t.cells[q].pos + 1
  }

  ghost function LinkedCell(t: Tree, leaf: Node, q: Node?, d: bool, n: Node): Cell
    requires IsPlace(t, q, d) && n in t.cells
  {
    var k, c := PlaceOf(t, q, d), t.cells[n];
    var edge := if d then k + 1 else k;
    var c' := c.(pos := if c.pos >= k then c.pos + 1 else c.pos,
                 lo := if c.lo >= edge then c.lo + 1 else c.lo,
                 hi := if c.hi >= edge then c.hi + 1 else c.hi);
    if n == q then c'.WithKid(d, leaf) else c'
  }

  ghost function Linked(t: Tree, leaf: Node, q: Node?, d: bool): Tree
    requires IsPlace(t, q, d)
  {
    var k := PlaceOf(t, q, d);
    Tree(if q == null then leaf else t.root,
         map n | n in t.cells.Keys + {leaf} ::
           if n in t.cells then LinkedCell(t, leaf, q, d, n) else Cell(null, null, q, true, k, k, k + 1, 0),
         t.order[..k] + [leaf] + t.order[k..])
  }

  lemma LinkedKid(t: Tree, leaf: Node, q: Node, d: bool, n: Node, e: bool)
    requires t.Shape() && leaf !in t.cells && IsPlace(t, q, d) && n in t.cells && t.LinksOk(n)
    ensures Linked(t, leaf, q, d).KidOk(n, e)
  {
    var t' := Linked(t, leaf, q, d);
    var c, c', k := t.cells[n], t'.cells[n], t.cells[n].Kid(e);
    assert n != q ==> c.pos != t.cells[q].pos;
    if n == q && e == d {
      assert c'.Kid(e) == leaf;
    } else {
      assert c'.Kid(e) == k;
      if k != null {
        assert k != q || t.KidOk(n, e);
        var m, m' := t.cells[k], t'.cells[k];
        assert m'.parent == n;
        assert m'.lo == if m.lo > t.cells[q].pos then m.lo + 1 else m.lo;
        assert m'.hi == if m.hi > t.cells[q].pos then m.hi + 1 else m.hi;
      }
    }
  }

  lemma LinkedPos(t: Tree, leaf: Node, q: Node?, d: bool, n: Node)
    requires t.Shape() && leaf !in t.cells && IsPlace(t, q, d) && n in t.cells && t.LinksOk(n)
    ensures Linked(t, leaf, q, d).PosOk(n) && Linked(t, leaf, q, d).RangeOk(n)
  {
    assert t.RangeOk(n);
    var k, p := PlaceOf(t, q, d), t.cells[n].pos;
    var order := Linked(t, leaf, q, d).order;
    assert if p < k then order[p] == n else order[p + 1] == n;
  }

  lemma LinkedParent(t: Tree, leaf: Node, q: Node?, d: bool, n: Node)
    requires t.Shape() && leaf !in t.cells && IsPlace(t, q, d) && n in t.cells && t.LinksOk(n)
    ensures Linked(t, leaf, q, d).ParentOk(n)
  {
    var t' := Linked(t, leaf, q, d);
    var p := t.cells[n].parent;
    if p != null {
      assert t'.cells[p].left == t.cells[p].left || (p == q && d);
      assert t'.cells[p].right == t.cells[p].right || (p == q && !d);
    }
  }

  lemma LinkedOrder(t: Tree, leaf: Node, q: Node?, d: bool)
    requires t.Shape() && leaf !in t.cells && IsPlace(t, q, d)
    ensures Linked(t, leaf, q, d).OrderOk()
  {
    var t', k := Linked(t, leaf, q, d), PlaceOf(t, q, d);
    forall i | 0 <= i < |t'.order|
      ensures t'.order[i] in t'.cells && t'.cells[t'.order[i]].pos == i
    {
      var n := t'.order[i];
      assert i != k ==> n == t.order[if i < k then i else i - 1];
    }
  }

  lemma LinkedLeaf(t: Tree, leaf: Node, q: Node?, d: bool)
    requires t.Shape() && leaf !in t.cells && IsPlace(t, q, d)
    ensures var t' := Linked(t, leaf, q, d); leaf in t'.cells && t'.LinksOk(leaf) && t'.RangeOk(leaf) && t'.RootOk()
  {
    assert q != null ==> t.RangeOk(q);
    assert t.root != null ==> t.LinksOk(t.root);
  }

  lemma LinkedShape(t: Tree, leaf: Node, q: Node?, d: bool)
    requires t.Shape() && leaf !in t.cells && IsPlace(t, q, d)
    ensures Linked(t, leaf, q, d).Shape()
  {
    var t' := Linked(t, leaf, q, d);
    forall n | n in t'.cells
      ensures t'.LinksOk(n) && t'.RangeOk(n)
    {
      if n == leaf {
        LinkedLeaf(t, leaf, q, d);
      } else {
        assert t.LinksOk(n);
        assert q != null;
        LinkedKid(t, leaf, q, d, n, true);
        LinkedKid(t, leaf, q, d, n, false);
        LinkedPos(t, leaf, q, d, n);
        LinkedParent(t, leaf, q, d, n);
      }
    }
    LinkedLeaf(t, leaf, q, d);
    LinkedOrder(t, leaf, q, d);
  }

  lemma LinkedSide(t: Tree, leaf: Node, q: Node?, d: bool, n: Node, e: bool)
    requires t.Shape() && leaf !in t.cells && IsPlace(t, q, d) && n in t.cells && t.LinksOk(n)
    requires t.SideOk(n, e, null, true)
    requires Linked(t, leaf, q, d).KidOk(n, e)
    ensures Linked(t, leaf, q, d).SideOk(n, e, null, true)
  {
    if n == q && e == d {
      assert Linked(t, leaf, q, d).cells[n].Kid(e) == leaf;
    } else {
      assert Linked(t, leaf, q, d).cells[n].Kid(e) == t.cells[n].Kid(e);
    }
  }

  lemma LinkedColours(t: Tree, leaf: Node, q: Node?, d: bool, n: Node)
    requires t.Valid() && leaf !in t.cells && IsPlace(t, q, d) && n in t.cells
    ensures var t' := Linked(t, leaf, q, d); t'.LinksOk(n) && t'.BlackOk(n, null, true) && t'.RedOk(n)
  {
    var t' := Linked(t, leaf, q, d);
    LinkedShape(t, leaf, q, d);
    assert t.LinksOk(n) && t'.LinksOk(n);
    assert t.BlackOk(n, null, true) && t.RedOk(n);
    LinkedSide(t, leaf, q, d, n, true);
    LinkedSide(t, leaf, q, d, n, false);
  }

  /** A red leaf in a red-black tree is just what `rb_insert_color` repairs. */
  lemma LinkedInserting(t: Tree, leaf: Node, q: Node?, d: bool)
    requires t.Valid() && leaf !in t.cells && IsPlace(t, q, d)
    ensures Inserting(Linked(t, leaf, q, d), leaf)
  {
    var t' := Linked(t, leaf, q, d);
    LinkedShape(t, leaf, q, d);
    forall n | n in t'.cells
      ensures t'.BlackOk(n, null, true) && (n != leaf ==> t'.RedOk(n))
    {
      if n == leaf {
        assert t'.LinksOk(leaf);
      } else {
        LinkedColours(t, leaf, q, d, n);
      }
    }
  }

  /** The statements that hang `leaf` below `q`. */
  method Hang(leaf: Node, q: Node?, d: bool, t: Root)
    requires t.Repr() && t.tree.Valid() && leaf !in t.tree.cells && IsPlace(t.tree, q, d)
    modifies t, t.tree.cells.Keys`left, t.tree.cells.Keys`right, leaf`left, leaf`right, leaf`parent, leaf`red
    ensures t.Repr() && t.tree == Linked(old(t.tree), leaf, q, d)
  {
    ghost var before := t.tree;
    leaf.left, leaf.right, leaf.parent, leaf.red := null, null, q, true;
    if q == null {
      t.rbNode := leaf;
    } else if d {
      q.left := leaf;
    } else {
      q.right := leaf;
    }
    t.tree := Linked(before, leaf, q, d);
    forall n | n in t.tree.cells
      ensures n.left == t.tree.cells[n].left && n.right == t.tree.cells[n].right
      ensures n.parent == t.tree.cells[n].parent && n.red == t.tree.cells[n].red
    {
      if n != leaf {
        assert t.tree.cells[n] == LinkedCell(before, leaf, q, d, n);
      }
    }
  }

  /** Makes `leaf` a red leaf below `q`, on its left side if `d` holds. */
  method Link(leaf: Node, q: Node?, d: bool, t: Root)
    requires t.Repr() && t.tree.Valid() && leaf !in t.tree.cells && IsPlace(t.tree, q, d)
    modifies t, t.tree.cells.Keys`left, t.tree.cells.Keys`right, leaf`left, leaf`right, leaf`parent, leaf`red
    ensures t.Repr() && t.tree == Linked(old(t.tree), leaf, q, d)
    ensures Inserting(t.tree, leaf)
  {
    LinkedInserting(t.tree, leaf, q, d);
    Hang(leaf, q, d, t);
  }
}
