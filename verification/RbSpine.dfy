/** Which nodes get new children while the tree is rebalanced: only nodes on the way from the root
    to one place of the in-order sequence, and brothers of such nodes.  This is what makes it enough
    for the `rb_augment_*` functions to walk one path. */
module RbSpine {
  import opened RbTree

  ghost predicate KidsKept(was: Tree, t: Tree, n: Node) {
    && n in was.cells && n in t.cells
    && t.cells[n].left == was.cells[n].left && t.cells[n].right == was.cells[n].right
  }

  ghost predicate OnSpine(was: Tree, t: Tree, p: int, n: Node) {
    n in t.cells && (KidsKept(was, t, n) || t.Holds(n, p))
  }

  /** Apart from `e1` and `e2`, only nodes on the way to position `p` have got new children. */
  ghost predicate Spine(was: Tree, t: Tree, p: int, e1: Node?, e2: Node?) {
    forall n {:trigger OnSpine(was, t, p, n)} :: n in t.cells && n != e1 && n != e2 ==> OnSpine(was, t, p, n)
  }

  ghost predicate OnFringe(was: Tree, t: Tree, p: int, strict: bool, n: Node) {
    && n in t.cells
    && (|| OnSpine(was, t, p, n)
        || (t.cells[n].parent in t.cells && t.Holds(t.cells[n].parent, p) && (strict ==> t.cells[t.cells[n].parent].pos != p)))
  }

  /** Only nodes on the way to position `p` and their brothers have got new children; the children of
      the node at `p` count among them unless `strict`. */
  ghost predicate Fringe(was: Tree, t: Tree, p: int, strict: bool) {
    forall n {:trigger OnFringe(was, t, p, strict, n)} :: n in t.cells ==> OnFringe(was, t, p, strict, n)
  }

  lemma SpineSame(was: Tree, t: Tree, t': Tree, p: int, e1: Node?, e2: Node?)
    requires Spine(was, t, p, e1, e2) && SameLinks(t, t')
    ensures Spine(was, t', p, e1, e2)
  {
    forall n | n in t'.cells && n != e1 && n != e2
      ensures OnSpine(was, t', p, n)
    {
      assert OnSpine(was, t, p, n);
    }
  }

  lemma FringeSame(was: Tree, t: Tree, t': Tree, p: int, strict: bool)
    requires Fringe(was, t, p, strict) && SameLinks(t, t')
    ensures Fringe(was, t', p, strict)
  {
    forall n | n in t'.cells
      ensures OnFringe(was, t', p, strict, n)
    {
      assert OnFringe(was, t, p, strict, n);
    }
  }

  lemma SpineIsFringe(was: Tree, t: Tree, p: int, strict: bool)
    requires Spine(was, t, p, null, null)
    ensures Fringe(was, t, p, strict)
  {
    forall n | n in t.cells
      ensures OnFringe(was, t, p, strict, n)
    {
      assert OnSpine(was, t, p, n);
    }
  }

  lemma RotatedFacts(t: Tree, x: Node, d: bool, n: Node)
    requires t.Shape() && CanRotate(t, x, d) && n in t.cells
    ensures var y, c := t.cells[x].Kid(!d), Rotated(t, x, d).cells[n];
            && (n != x && n != y ==> c.lo == t.cells[n].lo && c.hi == t.cells[n].hi)
            && (n == y ==> c.lo == t.cells[x].lo && c.hi == t.cells[x].hi)
            && (n != x && n != y && n != t.cells[x].parent ==> c.left == t.cells[n].left && c.right == t.cells[n].right)
  {
    RotatedActors(t, x, d);
  }

  /** The node that has gone up stands outside the subtree of the one that has gone down. */
  lemma RotatedPlace(t: Tree, x: Node, d: bool)
    requires t.Shape() && CanRotate(t, x, d)
    ensures !Rotated(t, x, d).Holds(x, t.cells[t.cells[x].Kid(!d)].pos)
    ensures Rotated(t, x, d).cells[t.cells[x].Kid(!d)].pos == t.cells[t.cells[x].Kid(!d)].pos
  {
    RotatedActors(t, x, d);
  }

  lemma ParentHolds(t: Tree, n: Node, p: int)
    requires t.Shape() && n in t.cells && t.Holds(n, p) && t.cells[n].parent != null
    ensures t.cells[n].parent in t.cells && t.Holds(t.cells[n].parent, p)
  {
    assert t.LinksOk(n) && t.LinksOk(t.cells[n].parent);
  }

  /** A rotation on the spine that leaves `x` on it. */
  lemma SpineTurned(was: Tree, t: Tree, x: Node, d: bool, p: int)
    requires t.Shape() && CanRotate(t, x, d) && Spine(was, t, p, null, null)
    requires t.Holds(x, p) && Rotated(t, x, d).Holds(x, p)
    ensures Spine(was, Rotated(t, x, d), p, null, null)
  {
    RotatedActors(t, x, d);
    var q := t.cells[x].parent;
    if q != null { ParentHolds(t, x, p); }
    forall n | n in t.cells
      ensures OnSpine(was, Rotated(t, x, d), p, n)
    {
      assert OnSpine(was, t, p, n);
      RotatedFacts(t, x, d, n);
    }
  }

  /** A rotation at a brother of a node on the spine. */
  lemma BrotherTurned(was: Tree, t: Tree, x: Node, d: bool, p: int)
    requires t.Shape() && CanRotate(t, x, d) && Spine(was, t, p, null, null)
    requires t.cells[x].parent != null && t.cells[x].parent in t.cells && t.Holds(t.cells[x].parent, p)
    ensures Spine(was, Rotated(t, x, d), p, t.cells[x].Kid(!d), x)
  {
    RotatedActors(t, x, d);
    forall n | n in t.cells && n != x && n != t.cells[x].Kid(!d)
      ensures OnSpine(was, Rotated(t, x, d), p, n)
    {
      assert OnSpine(was, t, p, n);
      RotatedFacts(t, x, d, n);
    }
  }

  /** The last rotation: what is then off the spine are brothers. */
  lemma FringeTurned(was: Tree, t: Tree, x: Node, d: bool, p: int, strict: bool)
    requires t.Shape() && CanRotate(t, x, d) && t.cells[x].Kid(!d) in t.cells
    requires var y := t.cells[x].Kid(!d); Spine(was, t, p, y, t.cells[y].Kid(!d))
    requires t.Holds(x, p) && (strict ==> Rotated(t, x, d).Holds(x, p))
    ensures Fringe(was, Rotated(t, x, d), p, strict)
  {
    RotatedActors(t, x, d);
    var t' := Rotated(t, x, d);
    var y, q := t.cells[x].Kid(!d), t.cells[x].parent;
    if q != null { ParentHolds(t, x, p); }
    RotatedFacts(t, x, d, y);
    assert strict ==> t'.cells[y].pos != p by { RotatedPlace(t, x, d); }
    forall n | n in t.cells
      ensures OnFringe(was, t', p, strict, n)
    {
      RotatedFacts(t, x, d, n);
      if n != y && n != t.cells[y].Kid(!d) {
        assert OnSpine(was, t, p, n);
        if n != x && n != q {
          assert OnSpine(was, t', p, n);
        }
      }
    }
  }
}
