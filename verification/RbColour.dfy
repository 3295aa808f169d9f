/** What recolouring and rotating do to the colour rules of the tree: the steps that
    `rb_insert_color` and `__rb_erase_color` share. */
module RbColour {
  import opened RbTree
  import opened RbSpine

  /** `x` and `y` exchange their colours, and with them their black counts. */
  ghost function Swapped(t: Tree, x: Node, y: Node): Tree
    requires x in t.cells && y in t.cells
  {
    var cx, cy := t.cells[x], t.cells[y];
    t.(cells := t.cells[x := cx.(red := cy.red, bh := cy.bh)][y := cy.(red := cx.red, bh := cx.bh)])
  }

  lemma SwappedShape(t: Tree, x: Node, y: Node)
    requires t.Shape() && x in t.cells && y in t.cells
    ensures Swapped(t, x, y).Shape()
  {
    SameLinksShape(t, Swapped(t, x, y));
  }

  /** A rotation at `x` after `x` and the child that takes its place have exchanged colours. */
  ghost function Turned(t: Tree, x: Node, d: bool): Tree
    requires t.Shape() && CanRotate(t, x, d)
  {
    SwappedShape(t, x, t.cells[x].Kid(!d));
    assert Swapped(t, x, t.cells[x].Kid(!d)).LinksOk(x);
    Rotated(Swapped(t, x, t.cells[x].Kid(!d)), x, d)
  }

  /** After the exchange of colours the rotation can go ahead. */
  lemma TurnReady(t: Tree, x: Node, d: bool)
    requires t.Shape() && CanRotate(t, x, d)
    ensures var s := Swapped(t, x, t.cells[x].Kid(!d));
            && s.Shape() && CanRotate(s, x, d) && Rotated(s, x, d) == Turned(t, x, d)
            && s.order == t.order && s.cells.Keys == t.cells.Keys
  {
    SwappedShape(t, x, t.cells[x].Kid(!d));
    assert Swapped(t, x, t.cells[x].Kid(!d)).LinksOk(x);
  }

  lemma TurnedShape(t: Tree, x: Node, d: bool)
    requires t.Shape() && CanRotate(t, x, d)
    ensures Turned(t, x, d).Shape()
  {
    SwappedShape(t, x, t.cells[x].Kid(!d));
    assert Swapped(t, x, t.cells[x].Kid(!d)).LinksOk(x);
    RotatedShape(Swapped(t, x, t.cells[x].Kid(!d)), x, d);
  }

  lemma TurnedCell(t: Tree, x: Node, d: bool, n: Node)
    requires t.Shape() && CanRotate(t, x, d) && n in t.cells
    ensures var y := t.cells[x].Kid(!d);
            var c := RotatedCell(t, x, d, n);
            Turned(t, x, d).cells[n] ==
            if n == x then c.(red := t.cells[y].red, bh := t.cells[y].bh)
            else if n == y then c.(red := t.cells[x].red, bh := t.cells[x].bh)
            else c
  {
    RotatedActors(t, x, d);
  }

  lemma TurnedRank(t: Tree, x: Node, d: bool, n: Node)
    requires t.Shape() && CanRotate(t, x, d) && n in t.cells
    ensures Turned(t, x, d).Rank(n) ==
            if n == x then t.Rank(t.cells[x].Kid(!d)) else if n == t.cells[x].Kid(!d) then t.Rank(x) else t.Rank(n)
  {
    TurnedCell(t, x, d, n);
  }

  lemma TurnedKid(t: Tree, x: Node, d: bool, n: Node, e: bool)
    requires t.Shape() && CanRotate(t, x, d) && n in t.cells
    ensures Turned(t, x, d).KidOk(n, e)
  {
    TurnedShape(t, x, d);
    assert Turned(t, x, d).LinksOk(n);
  }

  lemma TurnedSide(t: Tree, x: Node, d: bool, n: Node, e: bool, hole: Node?, side: bool)
    requires t.Shape() && CanRotate(t, x, d) && n in t.cells
    requires n != x && n != t.cells[x].Kid(!d)
    requires t.KidOk(n, e) && t.SideOk(n, e, hole, side)
    ensures Turned(t, x, d).KidOk(n, e) && Turned(t, x, d).SideOk(n, e, hole, side)
  {
    RotatedActors(t, x, d);
    TurnedKid(t, x, d, n, e);
    var t' := Turned(t, x, d);
    TurnedCell(t, x, d, n);
    var q := t.cells[n].Kid(e);
    if q == x {
      assert n == t.cells[x].parent;
      TurnedRank(t, x, d, t.cells[x].Kid(!d));
    } else if q != null {
      assert t'.cells[n].Kid(e) == q;
      TurnedRank(t, x, d, q);
    }
  }

  /** The two nodes that turn, when the one that goes up was red. */
  lemma TurnedTop(t: Tree, x: Node, d: bool, hole: Node?, side: bool)
    requires t.Shape() && CanRotate(t, x, d)
    requires var y := t.cells[x].Kid(!d); t.cells[y].red && t.LinksOk(y) && hole != y && t.BlackOk(y, hole, side)
    requires t.BlackOk(x, hole, side) && !(hole == x && side != d)
    ensures Turned(t, x, d).Shape()
    ensures Turned(t, x, d).LinksOk(x) && Turned(t, x, d).BlackOk(x, hole, side)
    ensures var y := t.cells[x].Kid(!d); Turned(t, x, d).LinksOk(y) && Turned(t, x, d).BlackOk(y, hole, side)
  {
    RotatedActors(t, x, d);
    TurnedShape(t, x, d);
    var t' := Turned(t, x, d);
    var y := t.cells[x].Kid(!d);
    var a, b, c := t.cells[x].Kid(d), t.cells[y].Kid(d), t.cells[y].Kid(!d);
    assert t'.LinksOk(x) && t'.LinksOk(y);
    TurnedCell(t, x, d, x);
    TurnedCell(t, x, d, y);
    TurnedRank(t, x, d, x);
    if a != null { TurnedRank(t, x, d, a); }
    if b != null { TurnedRank(t, x, d, b); }
    if c != null { TurnedRank(t, x, d, c); }
    assert t.SideOk(x, d, hole, side) && t.SideOk(x, !d, hole, side);
    assert t.SideOk(y, d, hole, side) && t.SideOk(y, !d, hole, side);
    assert t'.SideOk(x, d, hole, side) && t'.SideOk(x, !d, hole, side);
    assert t'.SideOk(y, d, hole, side) && t'.SideOk(y, !d, hole, side);
  }

  lemma TurnedElsewhere(t: Tree, x: Node, d: bool, n: Node, hole: Node?, side: bool)
    requires t.Shape() && CanRotate(t, x, d) && n in t.cells
    requires n != x && n != t.cells[x].Kid(!d)
    requires t.LinksOk(n) && t.BlackOk(n, hole, side)
    ensures Turned(t, x, d).LinksOk(n) && Turned(t, x, d).BlackOk(n, hole, side)
  {
    TurnedSide(t, x, d, n, true, hole, side);
    TurnedSide(t, x, d, n, false, hole, side);
    TurnedShape(t, x, d);
    assert Turned(t, x, d).LinksOk(n);
    assert Turned(t, x, d).cells[n].bh == t.cells[n].bh;
  }

  lemma TurnedBlack(t: Tree, x: Node, d: bool, n: Node, hole: Node?, side: bool)
    requires t.AllBlack(hole, side) && CanRotate(t, x, d) && n in t.cells
    requires t.cells[t.cells[x].Kid(!d)].red && hole != t.cells[x].Kid(!d) && !(hole == x && side != d)
    ensures Turned(t, x, d).LinksOk(n) && Turned(t, x, d).BlackOk(n, hole, side)
  {
    var y := t.cells[x].Kid(!d);
    if n == x || n == y {
      assert t.LinksOk(y) && t.BlackOk(x, hole, side) && t.BlackOk(y, hole, side);
      TurnedTop(t, x, d, hole, side);
    } else {
      assert t.LinksOk(n) && t.BlackOk(n, hole, side);
      TurnedElsewhere(t, x, d, n, hole, side);
    }
  }

  /** Turning a red child up keeps every black count, around a hole as well. */
  lemma TurnedAllBlack(t: Tree, x: Node, d: bool, hole: Node?, side: bool)
    requires t.AllBlack(hole, side) && CanRotate(t, x, d)
    requires t.cells[t.cells[x].Kid(!d)].red && hole != t.cells[x].Kid(!d) && !(hole == x && side != d)
    ensures Turned(t, x, d).AllBlack(hole, side)
  {
    TurnedShape(t, x, d);
    forall n | n in t.cells
      ensures Turned(t, x, d).BlackOk(n, hole, side)
    {
      TurnedBlack(t, x, d, n, hole, side);
    }
  }

  /** The parent that `n` has after the turn is red. */
  ghost predicate TurnedUnderRed(t: Tree, x: Node, d: bool, n: Node)
    requires t.Shape() && CanRotate(t, x, d) && n in t.cells && t.LinksOk(n)
  {
    var y := t.cells[x].Kid(!d);
    if n == y then !t.Black(t.cells[x].parent)
    else if n == t.cells[x].Kid(d) then t.cells[y].red
    else if n == x || n == t.cells[y].Kid(!d) then t.cells[x].red
    else !t.Black(t.cells[n].parent)
  }

  lemma TurnedParent(t: Tree, x: Node, d: bool, n: Node)
    requires t.Shape() && CanRotate(t, x, d) && n in t.cells
    ensures var y := t.cells[x].Kid(!d);
            Turned(t, x, d).cells[n].parent ==
            if n == x then y else if n == y then t.cells[x].parent
            else if n == t.cells[y].Kid(d) then x else t.cells[n].parent
  {
    RotatedActors(t, x, d);
    TurnedCell(t, x, d, n);
  }

  lemma TurnedColour(t: Tree, x: Node, d: bool, n: Node)
    requires t.Shape() && CanRotate(t, x, d) && n in t.cells
    ensures var y := t.cells[x].Kid(!d);
            Turned(t, x, d).cells[n].red == t.cells[if n == x then y else if n == y then x else n].red
  {
    TurnedCell(t, x, d, n);
  }

  lemma TurnedParentColour(t: Tree, x: Node, d: bool, n: Node)
    requires t.Shape() && CanRotate(t, x, d) && n in t.cells && t.LinksOk(n)
    ensures Turned(t, x, d).LinksOk(n)
    ensures TurnedUnderRed(t, x, d, n) == !Turned(t, x, d).Black(Turned(t, x, d).cells[n].parent)
  {
    RotatedActors(t, x, d);
    TurnedShape(t, x, d);
    assert Turned(t, x, d).LinksOk(n);
    TurnedParent(t, x, d, n);
    var p := Turned(t, x, d).cells[n].parent;
    if p != null {
      TurnedColour(t, x, d, p);
    }
  }

  /** A node that is not under a red one after the turn keeps the colour rule. */
  lemma TurnedRed(t: Tree, x: Node, d: bool, n: Node)
    requires t.Shape() && CanRotate(t, x, d) && n in t.cells && t.LinksOk(n)
    requires (if n == x then t.cells[t.cells[x].Kid(!d)].red
              else if n == t.cells[x].Kid(!d) then t.cells[x].red
              else t.cells[n].red) ==> !TurnedUnderRed(t, x, d, n)
    ensures Turned(t, x, d).LinksOk(n) && Turned(t, x, d).RedOk(n)
  {
    TurnedParentColour(t, x, d, n);
    TurnedCell(t, x, d, n);
  }

  // ----- who gets new children in a turn

  lemma TurnedRange(t: Tree, x: Node, d: bool, n: Node)
    requires t.Shape() && CanRotate(t, x, d) && n in t.cells && n != x && n != t.cells[x].Kid(!d)
    ensures Turned(t, x, d).cells[n].lo == t.cells[n].lo && Turned(t, x, d).cells[n].hi == t.cells[n].hi
    ensures Turned(t, x, d).cells[n].pos == t.cells[n].pos
  {
    TurnedCell(t, x, d, n);
  }

  lemma TurnedSpine(was: Tree, t: Tree, x: Node, d: bool, p: int)
    requires t.Shape() && CanRotate(t, x, d) && Spine(was, t, p, null, null)
    requires t.Holds(x, p) && Turned(t, x, d).Holds(x, p)
    ensures Spine(was, Turned(t, x, d), p, null, null)
  {
    var s := Swapped(t, x, t.cells[x].Kid(!d));
    SwappedShape(t, x, t.cells[x].Kid(!d));
    assert s.LinksOk(x);
    SpineSame(was, t, s, p, null, null);
    SpineTurned(was, s, x, d, p);
  }

  lemma TurnedBrother(was: Tree, t: Tree, x: Node, d: bool, p: int)
    requires t.Shape() && CanRotate(t, x, d) && Spine(was, t, p, null, null)
    requires t.cells[x].parent != null && t.cells[x].parent in t.cells && t.Holds(t.cells[x].parent, p)
    ensures Spine(was, Turned(t, x, d), p, t.cells[x].Kid(!d), x)
  {
    var s := Swapped(t, x, t.cells[x].Kid(!d));
    SwappedShape(t, x, t.cells[x].Kid(!d));
    assert s.LinksOk(x);
    SpineSame(was, t, s, p, null, null);
    BrotherTurned(was, s, x, d, p);
  }

  lemma TurnedFringe(was: Tree, t: Tree, x: Node, d: bool, p: int, strict: bool)
    requires t.Shape() && CanRotate(t, x, d) && t.Holds(x, p) && (strict ==> Turned(t, x, d).Holds(x, p))
    requires var y := t.cells[x].Kid(!d); Spine(was, t, p, y, t.cells[y].Kid(!d))
    ensures Fringe(was, Turned(t, x, d), p, strict)
  {
    var y := t.cells[x].Kid(!d);
    var s := Swapped(t, x, y);
    SwappedShape(t, x, y);
    assert s.LinksOk(x);
    SpineSame(was, t, s, p, y, t.cells[y].Kid(!d));
    FringeTurned(was, s, x, d, p, strict);
  }

  lemma Sound(t: Tree)
    requires t.AllBlack(null, true) && (t.root == null || t.root in t.cells) && t.Black(t.root)
    requires forall n {:trigger t.RedOk(n)} :: n in t.cells ==> t.LinksOk(n) && t.RedOk(n)
    ensures t.Valid()
  {
  }

  ghost function Painted(t: Tree, n: Node, red: bool): Tree
    requires n in t.cells
  {
    t.(cells := t.cells[n := t.cells[n].(red := red)])
  }

  /** A node with a red parent or at the root may be painted black at the root: what is below it
      does not count it, and nothing is above it. */
  lemma BlackRootSide(t: Tree, n: Node, e: bool)
    requires t.Shape() && t.root != null && n in t.cells && t.LinksOk(n) && t.SideOk(n, e, null, true)
    ensures var t' := Painted(t, t.root, false); t'.KidOk(n, e) && t'.SideOk(n, e, null, true)
  {
    assert t.KidOk(n, e);
    hide Tree.Shape, Tree.PosOk;
  }

  lemma BlackRootRed(t: Tree, n: Node)
    requires t.Shape() && t.root != null && n in t.cells && t.LinksOk(n) && t.RedOk(n)
    ensures var t' := Painted(t, t.root, false); t'.LinksOk(n) && t'.RedOk(n)
  {
    SameLinksShape(t, Painted(t, t.root, false));
    assert Painted(t, t.root, false).LinksOk(n);
    hide Tree.Shape, Tree.PosOk, Tree.KidOk;
  }

  lemma BlackRoot(t: Tree, node: Node)
    requires t.Coloured(null, true, node) && t.root != null
    requires node in t.cells && t.LinksOk(node) && t.RedOk(node)
    ensures Painted(t, t.root, false).Valid()
    ensures SameLinks(t, Painted(t, t.root, false))
  {
    var t' := Painted(t, t.root, false);
    SameLinksShape(t, t');
    forall n | n in t'.cells
      ensures t'.LinksOk(n) && t'.BlackOk(n, null, true) && t'.RedOk(n)
    {
      assert t.LinksOk(n) && t.BlackOk(n, null, true);
      assert n != node ==> t.RedOk(n);
      BlackRootSide(t, n, true);
      BlackRootSide(t, n, false);
      BlackRootRed(t, n);
    }
    Sound(t');
  }

  method SetBlack(n: Node, t: Root)
    requires t.Repr() && n in t.tree.cells
    modifies t`tree, n`red
    ensures t.Repr()
    ensures t.tree == Painted(old(t.tree), n, false)
  {
    n.red := false;
    t.tree := Painted(t.tree, n, false);
  }

  /** `rb_set_black(y)` and `rb_set_red(x)`: a black node and its red child exchange colours. */
  method ExchangeColours(y: Node, x: Node, t: Root)
    requires t.Repr() && x in t.tree.cells && y in t.tree.cells && x != y && y.red && !x.red
    modifies t`tree, x`red, y`red
    ensures t.Repr()
    ensures t.tree == Swapped(old(t.tree), x, y)
  {
    y.red := false;
    x.red := true;
    t.tree := Swapped(t.tree, x, y);
  }

  /** `y` black, its parent `x` red, and a left rotation at `x`. */
  method TurnLeft(y: Node, x: Node, t: Root)
    requires t.Repr() && t.tree.Shape() && CanRotate(t.tree, x, true) && y == t.tree.cells[x].right
    requires y in t.tree.cells && t.tree.cells[y].red && !t.tree.cells[x].red
    modifies t, t.tree.cells.Keys`left, t.tree.cells.Keys`right, t.tree.cells.Keys`parent, t.tree.cells.Keys`red
    ensures t.Repr() && t.tree == Turned(old(t.tree), x, true)
    ensures t.tree.order == old(t.tree.order) && t.tree.cells.Keys == old(t.tree.cells.Keys)
  {
    TurnReady(t.tree, x, true);
    RotatedActors(t.tree, x, true);
    ExchangeColours(y, x, t);
    RotateLeft(x, t);
  }

  /** `y` black, its parent `x` red, and a right rotation at `x`. */
  method TurnRight(y: Node, x: Node, t: Root)
    requires t.Repr() && t.tree.Shape() && CanRotate(t.tree, x, false) && y == t.tree.cells[x].left
    requires y in t.tree.cells && t.tree.cells[y].red && !t.tree.cells[x].red
    modifies t, t.tree.cells.Keys`left, t.tree.cells.Keys`right, t.tree.cells.Keys`parent, t.tree.cells.Keys`red
    ensures t.Repr() && t.tree == Turned(old(t.tree), x, false)
    ensures t.tree.order == old(t.tree.order) && t.tree.cells.Keys == old(t.tree.cells.Keys)
  {
    TurnReady(t.tree, x, false);
    RotatedActors(t.tree, x, false);
    ExchangeColours(y, x, t);
    RotateRight(x, t);
  }
}
