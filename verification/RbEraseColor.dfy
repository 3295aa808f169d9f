/** `__rb_erase_color`: repairs a red-black tree in which one way down meets a black node too few. */
module RbEraseColor {
  import opened RbTree
  import opened RbColour
  import opened RbSpine

  /** The only flaw: on side `d` of `parent`, where the black or missing `node` hangs, one black
      node is missing.  Without a parent there is no flaw, and `node` is the root. */
  ghost predicate Deficit(t: Tree, node: Node?, parent: Node?, d: bool) {
    && t.Coloured(parent, d, null)
    && (if parent == null then node == t.root
        else parent in t.cells && t.LinksOk(parent) && t.cells[parent].Kid(d) == node)
    && (node != null ==> node in t.cells) && t.Black(node)
  }

  /** The brother of the node exists. */
  lemma Brother(t: Tree, node: Node?, parent: Node, d: bool)
    requires Deficit(t, node, parent, d)
    ensures var other := t.cells[parent].Kid(!d);
            && other != null && other != node && t.LinksOk(other) && CanRotate(t, parent, d)
            && t.cells[parent].bh >= 1 && t.Rank(other) == t.cells[parent].bh && t.Rank(node) == t.cells[parent].bh - 1
  {
    var other := t.cells[parent].Kid(!d);
    assert t.BlackOk(parent, parent, d);
    assert t.SideOk(parent, d, parent, d) && t.SideOk(parent, !d, parent, d);
    if node != null {
      assert t.BlackOk(node, parent, d);
    }
    assert other != null ==> t.LinksOk(other);
  }

  // ----- a red node above the missing black one, painted black, makes good for it

  /** The side on which `n` hangs. */
  ghost predicate IsLeft(t: Tree, n: Node)
    requires n in t.cells && t.LinksOk(n)
  {
    t.cells[n].parent != null && t.cells[t.cells[n].parent].left == n
  }

  lemma FilledSide(t: Tree, x: Node, n: Node, e: bool)
    requires t.Shape() && x in t.cells && t.LinksOk(x) && t.cells[x].red && n in t.cells && t.LinksOk(n)
    requires t.SideOk(n, e, t.cells[x].parent, IsLeft(t, x))
    ensures Painted(t, x, false).KidOk(n, e) && Painted(t, x, false).SideOk(n, e, null, true)
  {
    var t' := Painted(t, x, false);
    assert t.KidOk(n, e) && t.KidOk(n, !e);
    var k := t.cells[n].Kid(e);
    if k == x {
      assert t.cells[x].parent == n && IsLeft(t, x) == e;
    } else {
      assert k != null ==> t'.cells[k] == t.cells[k];
      assert t.cells[x].parent == n ==> IsLeft(t, x) == !e;
    }
  }

  lemma Filled(t: Tree, x: Node)
    requires x in t.cells && t.Shape() && t.LinksOk(x) && t.cells[x].red && t.AllBlack(t.cells[x].parent, IsLeft(t, x))
    requires forall n {:trigger t.RedOk(n)} :: n in t.cells && n != x && t.cells[n].parent != x ==> t.LinksOk(n) && t.RedOk(n)
    requires t.root == x || t.Black(t.root)
    ensures Painted(t, x, false).Valid() && SameLinks(t, Painted(t, x, false))
  {
    var t' := Painted(t, x, false);
    SameLinksShape(t, t');
    var p, s := t.cells[x].parent, IsLeft(t, x);
    forall n | n in t.cells
      ensures t'.BlackOk(n, null, true)
    {
      assert t'.LinksOk(n) && t.LinksOk(n) && t.BlackOk(n, p, s);
      FilledSide(t, x, n, true);
      FilledSide(t, x, n, false);
    }
    forall n | n in t.cells
      ensures t'.RedOk(n)
    {
      assert t'.LinksOk(n);
      if n != x && t.cells[n].parent != x {
        assert t.RedOk(n);
      }
    }
  }

  // ----- a red brother is turned up

  lemma RedBrotherRed(t: Tree, node: Node?, parent: Node, d: bool, n: Node)
    requires Deficit(t, node, parent, d) && n in t.cells
    requires var other := t.cells[parent].Kid(!d); other in t.cells && t.cells[other].red
    ensures CanRotate(t, parent, d) && Turned(t, parent, d).LinksOk(n) && Turned(t, parent, d).RedOk(n)
  {
    Brother(t, node, parent, d);
    RotatedActors(t, parent, d);
    var other := t.cells[parent].Kid(!d);
    assert t.LinksOk(n) && t.RedOk(n) && t.RedOk(other) && t.RedOk(parent);
    TurnedRed(t, parent, d, n);
  }

  lemma RedBrotherAllRed(t: Tree, node: Node?, parent: Node, d: bool)
    requires Deficit(t, node, parent, d)
    requires var other := t.cells[parent].Kid(!d); other in t.cells && t.cells[other].red
    ensures CanRotate(t, parent, d)
    ensures forall n {:trigger Turned(t, parent, d).RedOk(n)} :: n in t.cells ==>
              Turned(t, parent, d).LinksOk(n) && Turned(t, parent, d).RedOk(n)
  {
    RotatedActors(t, parent, d);
    forall n | n in t.cells
      ensures Turned(t, parent, d).LinksOk(n) && Turned(t, parent, d).RedOk(n)
    {
      RedBrotherRed(t, node, parent, d, n);
    }
  }

  lemma RedBrotherRoot(t: Tree, node: Node?, parent: Node, d: bool)
    requires Deficit(t, node, parent, d)
    requires var other := t.cells[parent].Kid(!d); other in t.cells && t.cells[other].red
    ensures CanRotate(t, parent, d)
    ensures var t' := Turned(t, parent, d); t'.root in t'.cells && t'.Black(t'.root)
  {
    TurnedShape(t, parent, d);
    assert t.RedOk(t.cells[parent].Kid(!d));
    var r := Turned(t, parent, d).root;
    assert r == t.root || r == t.cells[parent].Kid(!d);
    TurnedColour(t, parent, d, r);
  }

  lemma RedBrotherLinks(t: Tree, node: Node?, parent: Node, d: bool)
    requires Deficit(t, node, parent, d)
    requires var other := t.cells[parent].Kid(!d); other in t.cells && t.cells[other].red
    ensures CanRotate(t, parent, d) && t.Black(parent)
    ensures var t' := Turned(t, parent, d);
            && t'.Shape() && parent in t'.cells && t'.LinksOk(parent) && t'.cells[parent].Kid(d) == node
            && t'.cells[parent].red && t'.cells.Keys == t.cells.Keys && t'.Black(node)
  {
    Brother(t, node, parent, d);
    RotatedActors(t, parent, d);
    assert t.RedOk(t.cells[parent].Kid(!d));
    TurnedShape(t, parent, d);
    assert Turned(t, parent, d).LinksOk(parent);
    TurnedCell(t, parent, d, parent);
    if node != null { TurnedColour(t, parent, d, node); }
  }

  lemma RedBrother(t: Tree, node: Node?, parent: Node, d: bool)
    requires Deficit(t, node, parent, d)
    requires var other := t.cells[parent].Kid(!d); other in t.cells && t.cells[other].red
    ensures CanRotate(t, parent, d) && t.Black(parent)
    ensures var t' := Turned(t, parent, d);
            && Deficit(t', node, parent, d) && t'.cells[parent].red
            && t'.cells[parent].Kid(!d) in t'.cells && !t'.cells[t'.cells[parent].Kid(!d)].red
  {
    RedBrotherLinks(t, node, parent, d);
    Brother(t, node, parent, d);
    TurnedAllBlack(t, parent, d, parent, d);
    RedBrotherAllRed(t, node, parent, d);
    RedBrotherRoot(t, node, parent, d);
    var t' := Turned(t, parent, d);
    hide Turned, Tree.Shape, Tree.LinksOk, Tree.AllBlack;
    Brother(t', node, parent, d);
    assert t'.RedOk(t'.cells[parent].Kid(!d));
  }

  // ----- a black brother with black children: the black is taken out of the other side as well

  /** `other` red, and one black node fewer below its parent. */
  ghost function Lowered(t: Tree, parent: Node, other: Node): Tree
    requires parent in t.cells && other in t.cells
  {
    t.(cells := t.cells[other := t.cells[other].(red := true)][parent := t.cells[parent].(bh := t.cells[parent].bh - 1)])
  }

  ghost predicate BlackBrother(t: Tree, node: Node?, parent: Node, d: bool) {
    && Deficit(t, node, parent, d)
    && var other := t.cells[parent].Kid(!d);
    && other in t.cells && !t.cells[other].red && t.LinksOk(other)
  }

  ghost predicate BlackNephews(t: Tree, node: Node?, parent: Node, d: bool) {
    && BlackBrother(t, node, parent, d)
    && var other := t.cells[parent].Kid(!d);
    t.Black(t.cells[other].left) && t.Black(t.cells[other].right)
  }

  lemma LoweredRank(t: Tree, node: Node?, parent: Node, d: bool, n: Node)
    requires BlackNephews(t, node, parent, d) && n in t.cells
    ensures var other := t.cells[parent].Kid(!d);
            Lowered(t, parent, other).Rank(n) == t.Rank(n) - if n == parent || n == other then 1 else 0
  {
    Brother(t, node, parent, d);
  }

  lemma LoweredSide(t: Tree, node: Node?, parent: Node, d: bool, n: Node, e: bool)
    requires BlackNephews(t, node, parent, d) && n in t.cells && t.LinksOk(n) && t.SideOk(n, e, parent, d)
    ensures var t' := Lowered(t, parent, t.cells[parent].Kid(!d));
            t'.KidOk(n, e) && t'.SideOk(n, e, t.cells[parent].parent, IsLeft(t, parent))
  {
    Brother(t, node, parent, d);
    LoweredKid(t, node, parent, d, n, e);
    assert t.KidOk(n, e) && t.KidOk(n, !e);
    var k := t.cells[n].Kid(e);
    if k != null {
      LoweredRank(t, node, parent, d, k);
    }
  }

  lemma LoweredKid(t: Tree, node: Node?, parent: Node, d: bool, n: Node, e: bool)
    requires BlackNephews(t, node, parent, d) && n in t.cells
    ensures Lowered(t, parent, t.cells[parent].Kid(!d)).KidOk(n, e)
  {
    var t' := Lowered(t, parent, t.cells[parent].Kid(!d));
    SameLinksShape(t, t');
    assert t'.LinksOk(n);
  }

  lemma LoweredBlack(t: Tree, node: Node?, parent: Node, d: bool)
    requires BlackNephews(t, node, parent, d)
    ensures Lowered(t, parent, t.cells[parent].Kid(!d)).AllBlack(t.cells[parent].parent, IsLeft(t, parent))
  {
    Brother(t, node, parent, d);
    var t' := Lowered(t, parent, t.cells[parent].Kid(!d));
    SameLinksShape(t, t');
    forall n | n in t.cells
      ensures t'.BlackOk(n, t.cells[parent].parent, IsLeft(t, parent))
    {
      assert t.LinksOk(n) && t'.LinksOk(n) && t.BlackOk(n, parent, d);
      LoweredSide(t, node, parent, d, n, true);
      LoweredSide(t, node, parent, d, n, false);
    }
  }

  lemma LoweredRed(t: Tree, node: Node?, parent: Node, d: bool, n: Node)
    requires BlackNephews(t, node, parent, d) && n in t.cells && t.LinksOk(n)
    requires n != t.cells[parent].Kid(!d) || !t.cells[parent].red
    ensures var t' := Lowered(t, parent, t.cells[parent].Kid(!d)); t'.Shape() && t'.LinksOk(n) && t'.RedOk(n)
  {
    Brother(t, node, parent, d);
    var other := t.cells[parent].Kid(!d);
    var t' := Lowered(t, parent, other);
    SameLinksShape(t, t');
    assert t'.LinksOk(n) && t.RedOk(n);
    assert t.cells[n].parent == other ==> !t.cells[n].red;
  }

  /** Below a black parent the flaw moves up to it. */
  lemma LoweredUp(t: Tree, node: Node?, parent: Node, d: bool)
    requires BlackNephews(t, node, parent, d) && !t.cells[parent].red
    ensures Deficit(Lowered(t, parent, t.cells[parent].Kid(!d)), parent, t.cells[parent].parent, IsLeft(t, parent))
  {
    var t' := Lowered(t, parent, t.cells[parent].Kid(!d));
    LoweredBlack(t, node, parent, d);
    forall n | n in t.cells
      ensures t'.RedOk(n)
    {
      assert t.LinksOk(n);
      LoweredRed(t, node, parent, d, n);
    }
    var p := t.cells[parent].parent;
    assert p != null ==> t'.LinksOk(p);
  }

  /** A red parent, painted black, makes good for it. */
  lemma LoweredRedParent(t: Tree, node: Node?, parent: Node, d: bool)
    requires BlackNephews(t, node, parent, d) && t.cells[parent].red
    ensures Painted(Lowered(t, parent, t.cells[parent].Kid(!d)), parent, false).Valid()
  {
    var other := t.cells[parent].Kid(!d);
    Brother(t, node, parent, d);
    LoweredBlack(t, node, parent, d);
    var t' := Lowered(t, parent, other);
    assert t'.LinksOk(parent);
    forall n | n in t.cells && n != parent && t'.cells[n].parent != parent
      ensures t'.LinksOk(n) && t'.RedOk(n)
    {
      assert t.LinksOk(n);
      LoweredRed(t, node, parent, d, n);
    }
    Filled(t', parent);
  }

  // ----- a black brother with a red inner child: that child is turned up first

  ghost predicate InnerNephew(t: Tree, node: Node?, parent: Node, d: bool) {
    && BlackBrother(t, node, parent, d)
    && var other := t.cells[parent].Kid(!d);
    && t.Black(t.cells[other].Kid(!d)) && !t.Black(t.cells[other].Kid(d))
  }

  lemma InnerNephewRed(t: Tree, node: Node?, parent: Node, d: bool, n: Node)
    requires InnerNephew(t, node, parent, d) && n in t.cells
    ensures var other := t.cells[parent].Kid(!d);
            && CanRotate(t, other, !d) && Turned(t, other, !d).LinksOk(n) && Turned(t, other, !d).RedOk(n)
  {
    var other := t.cells[parent].Kid(!d);
    var near := t.cells[other].Kid(d);
    RotatedActors(t, other, !d);
    assert t.LinksOk(n) && t.RedOk(n) && t.RedOk(near);
    TurnedRed(t, other, !d, n);
  }

  lemma InnerNephewLinks(t: Tree, node: Node?, parent: Node, d: bool)
    requires InnerNephew(t, node, parent, d)
    ensures var other := t.cells[parent].Kid(!d);
            && CanRotate(t, other, !d)
            && var t', near := Turned(t, other, !d), t.cells[other].Kid(d);
            && near in t.cells && parent in t'.cells && near in t'.cells && other in t'.cells
            && t'.cells[parent].Kid(!d) == near && t'.cells[parent].Kid(d) == node
            && t'.cells[near].Kid(!d) == other && t'.cells[other].red && !t'.cells[near].red
  {
    var other := t.cells[parent].Kid(!d);
    var near := t.cells[other].Kid(d);
    Brother(t, node, parent, d);
    RotatedActors(t, other, !d);
    assert t.KidOk(parent, !d);
    TurnedCell(t, other, !d, parent);
    TurnedCell(t, other, !d, near);
    TurnedCell(t, other, !d, other);
  }

  lemma InnerNephewColours(t: Tree, node: Node?, parent: Node, d: bool)
    requires InnerNephew(t, node, parent, d)
    ensures var other := t.cells[parent].Kid(!d);
            CanRotate(t, other, !d) && Turned(t, other, !d).Coloured(parent, d, null)
  {
    var other := t.cells[parent].Kid(!d);
    InnerNephewLinks(t, node, parent, d);
    TurnedAllBlack(t, other, !d, parent, d);
    forall n | n in t.cells
      ensures Turned(t, other, !d).RedOk(n)
    {
      InnerNephewRed(t, node, parent, d, n);
    }
    TurnedColour(t, other, !d, t.root);
    assert t.LinksOk(parent);
  }

  lemma InnerNephewTurned(t: Tree, node: Node?, parent: Node, d: bool)
    requires InnerNephew(t, node, parent, d)
    ensures var other := t.cells[parent].Kid(!d);
            && CanRotate(t, other, !d)
            && var t', near := Turned(t, other, !d), t.cells[other].Kid(d);
            && BlackBrother(t', node, parent, d) && t'.cells[parent].Kid(!d) == near
            && t'.cells[near].Kid(!d) == other && t'.cells[other].red
  {
    var other := t.cells[parent].Kid(!d);
    var t', near := Turned(t, other, !d), t.cells[other].Kid(d);
    InnerNephewLinks(t, node, parent, d);
    InnerNephewColours(t, node, parent, d);
    if node != null {
      Brother(t, node, parent, d);
      assert t.KidOk(parent, d) && t.KidOk(other, d);
      TurnedColour(t, other, !d, node);
    }
    assert t'.LinksOk(parent) && t'.LinksOk(near);
  }

  // ----- a black brother with a red outer child: turning the brother up ends the repair

  ghost predicate OuterNephew(t: Tree, node: Node?, parent: Node, d: bool) {
    && BlackBrother(t, node, parent, d)
    && !t.Black(t.cells[t.cells[parent].Kid(!d)].Kid(!d))
  }

  /** The tree with the outer nephew already black. */
  ghost function Whitened(t: Tree, parent: Node, d: bool): Tree
    requires parent in t.cells && t.cells[parent].Kid(!d) in t.cells && t.cells[t.cells[parent].Kid(!d)].Kid(!d) in t.cells
  {
    Painted(t, t.cells[t.cells[parent].Kid(!d)].Kid(!d), false)
  }

  lemma WhitenedReady(t: Tree, node: Node?, parent: Node, d: bool)
    requires OuterNephew(t, node, parent, d)
    ensures var t0 := Whitened(t, parent, d);
            && t0.Shape() && CanRotate(t0, parent, d) && SameLinks(t, t0)
            && forall n {:trigger t0.LinksOk(n)} :: n in t.cells ==> t0.LinksOk(n)
  {
    var t0 := Whitened(t, parent, d);
    SameLinksShape(t, t0);
    assert t0.LinksOk(parent);
  }

  lemma WhitenedCell(t: Tree, node: Node?, parent: Node, d: bool, n: Node)
    requires OuterNephew(t, node, parent, d) && n in t.cells
    ensures Whitened(t, parent, d).cells[n]
            == t.cells[n].(red := t.cells[n].red && n != t.cells[t.cells[parent].Kid(!d)].Kid(!d))
  {
  }

  /** Only the way down to the whitened nephew meets another number of black nodes. */
  lemma WhitenedSide(t: Tree, node: Node?, parent: Node, d: bool, n: Node, e: bool)
    requires OuterNephew(t, node, parent, d) && n in t.cells && n != t.cells[parent].Kid(!d)
    requires t.LinksOk(n) && t.SideOk(n, e, parent, d)
    ensures var t0 := Whitened(t, parent, d); t0.KidOk(n, e) && t0.SideOk(n, e, parent, d)
  {
    WhitenedReady(t, node, parent, d);
    var t0, k := Whitened(t, parent, d), t.cells[n].Kid(e);
    assert t0.LinksOk(n) && t.KidOk(n, e) && t.KidOk(t.cells[parent].Kid(!d), !d);
    WhitenedCell(t, node, parent, d, n);
    if k != null {
      WhitenedCell(t, node, parent, d, k);
    }
    hide Whitened, Painted, Tree.Shape, Tree.PosOk, Tree.ParentOk, SameLinks;
  }

  lemma OuterNephewElsewhere(t: Tree, node: Node?, parent: Node, d: bool, n: Node)
    requires OuterNephew(t, node, parent, d) && n in t.cells && n != parent && n != t.cells[parent].Kid(!d)
    ensures var t0 := Whitened(t, parent, d);
            && t0.Shape() && CanRotate(t0, parent, d)
            && Turned(t0, parent, d).LinksOk(n) && Turned(t0, parent, d).BlackOk(n, null, true)
  {
    var t0 := Whitened(t, parent, d);
    WhitenedReady(t, node, parent, d);
    assert t0.LinksOk(n) && t.LinksOk(n) && t.BlackOk(n, parent, d);
    WhitenedSide(t, node, parent, d, n, true);
    WhitenedSide(t, node, parent, d, n, false);
    WhitenedCell(t, node, parent, d, n);
    WhitenedCell(t, node, parent, d, parent);
    hide Whitened, Painted, Turned, Tree.Shape, Tree.LinksOk, SameLinks;
    TurnedElsewhere(t0, parent, d, n, parent, d);
    HoleElsewhere(Turned(t0, parent, d), n, parent, d);
  }

  lemma HoleElsewhere(t: Tree, n: Node, hole: Node, d: bool)
    requires n in t.cells && t.LinksOk(n) && t.BlackOk(n, hole, d) && n != hole
    ensures t.BlackOk(n, null, true)
  {
  }

  lemma OuterNephewSides(t: Tree, node: Node?, parent: Node, d: bool)
    requires OuterNephew(t, node, parent, d)
    ensures var t0, other := Whitened(t, parent, d), t.cells[parent].Kid(!d);
            && t0.Shape() && CanRotate(t0, parent, d)
            && t0.Rank(node) == t.cells[parent].bh - 1 && t0.Rank(t.cells[other].Kid(d)) == t.cells[parent].bh - 1
            && t0.cells[other] == t.cells[other] && t0.cells[parent] == t.cells[parent]
            && t.cells[other].bh == t.cells[parent].bh - 1 >= 0
  {
    var t0, other := Whitened(t, parent, d), t.cells[parent].Kid(!d);
    Brother(t, node, parent, d);
    assert t.BlackOk(other, parent, d) && t.SideOk(other, d, parent, d);
    SameLinksShape(t, t0);
    assert t0.LinksOk(parent);
    assert t.KidOk(other, d) && t.KidOk(other, !d) && t.KidOk(parent, d);
  }

  lemma OuterNephewParent(t: Tree, node: Node?, parent: Node, d: bool)
    requires OuterNephew(t, node, parent, d)
    ensures var t0 := Whitened(t, parent, d);
            && t0.Shape() && CanRotate(t0, parent, d)
            && Turned(t0, parent, d).LinksOk(parent) && Turned(t0, parent, d).BlackOk(parent, null, true)
  {
    var t0, other := Whitened(t, parent, d), t.cells[parent].Kid(!d);
    var b := t.cells[other].Kid(d);
    OuterNephewSides(t, node, parent, d);
    RotatedActors(t0, parent, d);
    TurnedShape(t0, parent, d);
    var t' := Turned(t0, parent, d);
    assert t'.LinksOk(parent);
    TurnedCell(t0, parent, d, parent);
    assert t'.cells[parent].Kid(d) == node && t'.cells[parent].Kid(!d) == b;
    if b != null { TurnedRank(t0, parent, d, b); }
    if node != null { TurnedRank(t0, parent, d, node); }
    assert t'.SideOk(parent, d, null, true) && t'.SideOk(parent, !d, null, true);
  }

  lemma OuterNephewOther(t: Tree, node: Node?, parent: Node, d: bool)
    requires OuterNephew(t, node, parent, d)
    ensures var t0, other := Whitened(t, parent, d), t.cells[parent].Kid(!d);
            && t0.Shape() && CanRotate(t0, parent, d)
            && Turned(t0, parent, d).LinksOk(other) && Turned(t0, parent, d).BlackOk(other, null, true)
  {
    var t0, other := Whitened(t, parent, d), t.cells[parent].Kid(!d);
    var far := t.cells[other].Kid(!d);
    Brother(t, node, parent, d);
    assert t.BlackOk(other, parent, d) && t.SideOk(other, !d, parent, d);
    WhitenedReady(t, node, parent, d);
    RotatedActors(t0, parent, d);
    TurnedShape(t0, parent, d);
    assert Turned(t0, parent, d).LinksOk(other);
    TurnedCell(t0, parent, d, other);
    TurnedRank(t0, parent, d, parent);
    TurnedRank(t0, parent, d, far);
    WhitenedCell(t, node, parent, d, far);
    WhitenedCell(t, node, parent, d, parent);
    WhitenedCell(t, node, parent, d, other);
    hide Turned, Whitened, Painted, Tree.Shape, Tree.PosOk, Tree.ParentOk, SameLinks;
    assert Turned(t0, parent, d).SideOk(other, d, null, true) && Turned(t0, parent, d).SideOk(other, !d, null, true);
  }

  lemma OuterNephewRed(t: Tree, node: Node?, parent: Node, d: bool, n: Node)
    requires OuterNephew(t, node, parent, d) && n in t.cells
    ensures var t0 := Whitened(t, parent, d);
            && t0.Shape() && CanRotate(t0, parent, d)
            && Turned(t0, parent, d).LinksOk(n) && Turned(t0, parent, d).RedOk(n)
  {
    var t0 := Whitened(t, parent, d);
    WhitenedReady(t, node, parent, d);
    assert t0.LinksOk(n) && t.LinksOk(n) && t.RedOk(n) && t.RedOk(parent);
    RotatedActors(t0, parent, d);
    WhitenedCell(t, node, parent, d, n);
    WhitenedCell(t, node, parent, d, parent);
    WhitenedCell(t, node, parent, d, t.cells[parent].Kid(!d));
    if t.cells[n].parent != null {
      WhitenedCell(t, node, parent, d, t.cells[n].parent);
    }
    hide Whitened, Painted, Turned, Tree.Shape, SameLinks;
    TurnedRed(t0, parent, d, n);
  }

  lemma OuterNephewAt(t: Tree, node: Node?, parent: Node, d: bool, n: Node)
    requires OuterNephew(t, node, parent, d) && n in t.cells
    ensures var t0 := Whitened(t, parent, d);
            && t0.Shape() && CanRotate(t0, parent, d)
            && var t' := Turned(t0, parent, d);
            t'.LinksOk(n) && t'.BlackOk(n, null, true) && t'.RedOk(n)
  {
    if n == parent {
      OuterNephewParent(t, node, parent, d);
    } else if n == t.cells[parent].Kid(!d) {
      OuterNephewOther(t, node, parent, d);
    } else {
      OuterNephewElsewhere(t, node, parent, d, n);
    }
    OuterNephewRed(t, node, parent, d, n);
    hide *;
  }

  lemma OuterNephewRoot(t: Tree, node: Node?, parent: Node, d: bool)
    requires OuterNephew(t, node, parent, d)
    ensures var t0 := Whitened(t, parent, d);
            && t0.Shape() && CanRotate(t0, parent, d)
            && var t' := Turned(t0, parent, d);
            && t'.Shape() && t'.cells.Keys == t.cells.Keys && t'.root in t'.cells && t'.Black(t'.root)
  {
    var t0, other := Whitened(t, parent, d), t.cells[parent].Kid(!d);
    WhitenedReady(t, node, parent, d);
    TurnedShape(t0, parent, d);
    var r := Turned(t0, parent, d).root;
    assert r == t.root || (r == other && t.cells[parent].parent == null);
    WhitenedCell(t, node, parent, d, parent);
    WhitenedCell(t, node, parent, d, t.root);
    hide Whitened, Painted, Tree.LinksOk;
    TurnedColour(t0, parent, d, r);
  }

  lemma OuterNephewTurned(t: Tree, node: Node?, parent: Node, d: bool)
    requires OuterNephew(t, node, parent, d)
    ensures var t0 := Whitened(t, parent, d);
            && t0.Shape() && CanRotate(t0, parent, d) && Turned(t0, parent, d).Valid()
  {
    OuterNephewRoot(t, node, parent, d);
    var t' := Turned(Whitened(t, parent, d), parent, d);
    forall n | n in t'.cells
      ensures t'.LinksOk(n) && t'.BlackOk(n, null, true) && t'.RedOk(n)
    {
      OuterNephewAt(t, node, parent, d, n);
    }
    Sound(t');
  }

  // ----- what the loop keeps

  ghost predicate SameNodes(t: Tree, t': Tree) {
    t'.order == t.order && t'.cells.Keys == t.cells.Keys
  }

  /** `place` is at `parent` or below its child `node`. */
  ghost predicate AtFlaw(t: Tree, node: Node?, parent: Node, place: int)
    requires parent in t.cells && (node == null || node in t.cells)
  {
    place == t.cells[parent].pos || (node != null && t.Holds(node, place))
  }

  /** The flaw is at `node`, and so far only nodes on the way to `place`, which is at or below it,
      have got new children. */
  ghost predicate Open(t: Tree, node: Node?, parent: Node?, d: bool, was: Tree, place: int) {
    && Deficit(t, node, parent, d)
    && Spine(was, t, place, null, null)
    && (parent != null ==> AtFlaw(t, node, parent, place))
  }

  /** Painting the red `node` black is all that is left to do. */
  ghost predicate Closing(t: Tree, node: Node?, was: Tree, place: int) {
    && t.Shape() && node != null && node in t.cells && t.cells[node].red
    && Painted(t, node, false).Valid() && Fringe(was, t, place, true)
  }

  ghost predicate Done(t: Tree, was: Tree, place: int) {
    t.Valid() && Fringe(was, t, place, true)
  }

  lemma FlawHolds(t: Tree, node: Node?, parent: Node, d: bool, place: int)
    requires Deficit(t, node, parent, d) && AtFlaw(t, node, parent, place)
    ensures t.Holds(parent, place)
  {
    assert t.LinksOk(parent);
    if node != null {
      assert t.LinksOk(node);
    }
  }

  /** A turn at the parent keeps the flaw below it. */
  lemma FlawTurned(t: Tree, node: Node?, parent: Node, d: bool, place: int)
    requires t.Shape() && CanRotate(t, parent, d) && t.cells[parent].Kid(d) == node
    requires (node != null ==> node in t.cells) && AtFlaw(t, node, parent, place)
    ensures Turned(t, parent, d).Holds(parent, place)
    ensures AtFlaw(Turned(t, parent, d), node, parent, place)
  {
    var t' := Turned(t, parent, d);
    RotatedActors(t, parent, d);
    TurnedCell(t, parent, d, parent);
    TurnedShape(t, parent, d);
    assert t'.LinksOk(parent);
    if node != null {
      assert t.KidOk(parent, d) && t.KidOk(parent, !d);
      TurnedRange(t, parent, d, node);
      assert t'.KidOk(parent, d);
    }
  }

  lemma LiftStep(t: Tree, node: Node?, parent: Node, d: bool, was: Tree, place: int)
    requires Open(t, node, parent, d, was, place)
    requires var other := t.cells[parent].Kid(!d); other in t.cells && t.cells[other].red
    ensures CanRotate(t, parent, d) && t.Black(parent)
    ensures var t' := Turned(t, parent, d);
            Open(t', node, parent, d, was, place) && BlackBrother(t', node, parent, d) && t'.cells[parent].red
  {
    RedBrother(t, node, parent, d);
    FlawHolds(t, node, parent, d, place);
    FlawTurned(t, node, parent, d, place);
    var t' := Turned(t, parent, d);
    assert t'.LinksOk(parent) && t'.LinksOk(t'.cells[parent].Kid(!d));
    TurnedSpine(was, t, parent, d, place);
  }

  lemma LowerStep(t: Tree, node: Node?, parent: Node, d: bool, was: Tree, place: int)
    requires Open(t, node, parent, d, was, place) && BlackNephews(t, node, parent, d)
    ensures var t' := Lowered(t, parent, t.cells[parent].Kid(!d));
            && SameLinks(t, t') && t'.Shape() && t'.LinksOk(parent)
            && if t.cells[parent].red then Closing(t', parent, was, place)
               else Open(t', parent, t.cells[parent].parent, IsLeft(t', parent), was, place)
  {
    var t' := Lowered(t, parent, t.cells[parent].Kid(!d));
    Brother(t, node, parent, d);
    SameLinksShape(t, t');
    assert t'.LinksOk(parent);
    SpineSame(was, t, t', place, null, null);
    FlawHolds(t, node, parent, d, place);
    if t.cells[parent].red {
      LoweredRedParent(t, node, parent, d);
      SpineIsFringe(was, t', place, true);
    } else {
      LoweredUp(t, node, parent, d);
    }
  }

  lemma InnerNephewStep(t: Tree, node: Node?, parent: Node, d: bool, was: Tree, place: int)
    requires Open(t, node, parent, d, was, place) && InnerNephew(t, node, parent, d)
    ensures var other := t.cells[parent].Kid(!d);
            && CanRotate(t, other, !d)
            && var t', near := Turned(t, other, !d), t.cells[other].Kid(d);
            && OuterNephew(t', node, parent, d) && t'.cells[parent].Kid(!d) == near && t'.cells[near].Kid(!d) == other
            && Spine(was, t', place, near, other) && AtFlaw(t', node, parent, place)
  {
    InnerNephewTurned(t, node, parent, d);
    FlawHolds(t, node, parent, d, place);
    var other := t.cells[parent].Kid(!d);
    assert t.KidOk(parent, !d) && t.KidOk(other, d);
    TurnedBrother(was, t, other, !d, place);
    TurnedRange(t, other, !d, parent);
    if node != null {
      assert t.KidOk(parent, d);
      TurnedRange(t, other, !d, node);
    }
  }

  lemma OuterNephewStep(t: Tree, node: Node?, parent: Node, d: bool, was: Tree, place: int)
    requires OuterNephew(t, node, parent, d) && AtFlaw(t, node, parent, place)
    requires var other := t.cells[parent].Kid(!d); Spine(was, t, place, other, t.cells[other].Kid(!d))
    ensures var t0 := Whitened(t, parent, d);
            t0.Shape() && CanRotate(t0, parent, d) && Done(Turned(t0, parent, d), was, place)
  {
    OuterNephewTurned(t, node, parent, d);
    var other := t.cells[parent].Kid(!d);
    var far := t.cells[other].Kid(!d);
    var t0 := Whitened(t, parent, d);
    SpineSame(was, t, t0, place, other, far);
    assert t.KidOk(other, !d) && t.KidOk(parent, !d);
    FlawHolds(t, node, parent, d, place);
    FlawTurned(t0, node, parent, d, place);
    TurnedFringe(was, t0, parent, d, place, true);
  }

  lemma SpineLess(was: Tree, t: Tree, p: int, e1: Node?, e2: Node?)
    requires Spine(was, t, p, null, null)
    ensures Spine(was, t, p, e1, e2)
  {
    forall n | n in t.cells && n != e1 && n != e2
      ensures OnSpine(was, t, p, n)
    {
    }
  }

  // ----- the code

  /** `rb_set_red(other)`. */
  method LowerOther(other: Node, ghost parent: Node, t: Root)
    requires t.Repr() && other in t.tree.cells && parent in t.tree.cells && other != parent
    modifies t`tree, other`red
    ensures t.Repr() && t.tree == Lowered(old(t.tree), parent, other)
  {
    other.red := true;
    t.tree := Lowered(t.tree, parent, other);
  }

  /** The three recolourings before the last rotation. */
  method RecolourLast(other: Node, parent: Node, far: Node, t: Root)
    requires t.Repr() && other in t.tree.cells && parent in t.tree.cells && far in t.tree.cells
    requires other != parent && far != other && far != parent && !other.red
    modifies t`tree, other`red, parent`red, far`red
    ensures t.Repr() && t.tree == Swapped(Painted(old(t.tree), far, false), parent, other)
  {
    ghost var before := t.tree;
    other.red := parent.red;
    parent.red := false;
    far.red := false;
    t.tree := Swapped(Painted(before, far, false), parent, other);
    forall n | n in t.tree.cells
      ensures n.left == t.tree.cells[n].left && n.right == t.tree.cells[n].right
      ensures n.parent == t.tree.cells[n].parent && n.red == t.tree.cells[n].red
    {
      if n != other && n != parent && n != far {
        assert t.tree.cells[n] == before.cells[n];
      }
    }
  }

  lemma OuterActors(t: Tree, node: Node?, parent: Node, d: bool)
    requires OuterNephew(t, node, parent, d)
    ensures var other := t.cells[parent].Kid(!d);
            var far := t.cells[other].Kid(!d);
            far in t.cells && other != parent && far != other && far != parent
  {
    Brother(t, node, parent, d);
    RotatedActors(t, parent, d);
    var other := t.cells[parent].Kid(!d);
    assert t.LinksOk(t.cells[other].Kid(!d));
  }

  /** The last rotation can go ahead, and ends the repair. */
  lemma LastReady(t: Tree, node: Node?, parent: Node, d: bool, was: Tree, place: int)
    requires OuterNephew(t, node, parent, d) && AtFlaw(t, node, parent, place)
    requires var other := t.cells[parent].Kid(!d); Spine(was, t, place, other, t.cells[other].Kid(!d))
    ensures var other := t.cells[parent].Kid(!d);
            var far := t.cells[other].Kid(!d);
            && far in t.cells && other != parent && far != other && far != parent
            && var s := Swapped(Painted(t, far, false), parent, other);
            && s.Shape() && CanRotate(s, parent, d) && SameNodes(t, s) && SameNodes(t, Rotated(s, parent, d))
            && Done(Rotated(s, parent, d), was, place)
  {
    hide Done, AtFlaw, Spine, Swapped, Painted, Rotated, Turned, Tree.Shape, Tree.LinksOk, CanRotate;
    OuterNephewStep(t, node, parent, d, was, place);
    OuterActors(t, node, parent, d);
    var other := t.cells[parent].Kid(!d);
    var t0 := Painted(t, t.cells[other].Kid(!d), false);
    PaintedNodes(t, t.cells[other].Kid(!d), false);
    TurnReady(t0, parent, d);
    PaintedKid(t, t.cells[other].Kid(!d), false, parent, !d);
    RotatedNodes(Swapped(t0, parent, other), parent, d);
  }

  lemma PaintedNodes(t: Tree, n: Node, red: bool)
    requires n in t.cells
    ensures SameNodes(t, Painted(t, n, red))
  {
  }

  lemma PaintedKid(t: Tree, n: Node, red: bool, m: Node, d: bool)
    requires n in t.cells && m in t.cells
    ensures Painted(t, n, red).cells[m].Kid(d) == t.cells[m].Kid(d)
  {
  }

  lemma RotatedNodes(t: Tree, x: Node, d: bool)
    requires CanRotate(t, x, d)
    ensures SameNodes(t, Rotated(t, x, d))
  {
  }

  /** A round either ends the repair, or hands the flaw on to the parent. */
  ghost predicate Stepped(t: Tree, t': Tree, parent0: Node, node: Node?, parent: Node?, done: bool, was: Tree, place: int) {
    if done then Done(t', was, place) && node == t'.root
    else
      && node == parent0 && node in t'.cells && parent == t'.cells[node].parent
      && (Closing(t', node, was, place)
          || (SameLinks(t, t') && t'.LinksOk(node) && Open(t', node, parent, IsLeft(t', node), was, place)))
  }

  /** A red brother on the right is turned up. */
  method LiftLeft(ghost node: Node?, parent: Node, t: Root, ghost was: Tree, ghost place: int) returns (other: Node)
    requires t.Repr() && Open(t.tree, node, parent, true, was, place)
    modifies t, t.tree.cells.Keys`left, t.tree.cells.Keys`right, t.tree.cells.Keys`parent, t.tree.cells.Keys`red
    ensures t.Repr() && SameNodes(old(t.tree), t.tree)
    ensures Open(t.tree, node, parent, true, was, place) && BlackBrother(t.tree, node, parent, true)
    ensures other == t.tree.cells[parent].right
    ensures t.tree == old(t.tree) || t.tree.cells[parent].red
  {
    Brother(t.tree, node, parent, true);
    other := parent.right;
    if other.red {
      LiftStep(t.tree, node, parent, true, was, place);
      TurnLeft(other, parent, t);
      other := parent.right;
    }
  }

  method LastLeft(ghost node: Node?, parent: Node, other: Node, t: Root, ghost was: Tree, ghost place: int)
    requires t.Repr() && OuterNephew(t.tree, node, parent, true) && AtFlaw(t.tree, node, parent, place)
    requires other == t.tree.cells[parent].right && Spine(was, t.tree, place, other, t.tree.cells[other].right)
    modifies t, t.tree.cells.Keys`left, t.tree.cells.Keys`right, t.tree.cells.Keys`parent, t.tree.cells.Keys`red
    ensures t.Repr() && SameNodes(old(t.tree), t.tree) && Done(t.tree, was, place)
  {
    hide Done, AtFlaw, Spine, Swapped, Painted, Rotated, Tree.Shape;
    LastReady(t.tree, node, parent, true, was, place);
    RecolourLast(other, parent, other.right, t);
    RotateLeft(parent, t);
  }

  /** A red nephew on the right: the last rotations. */
  method FinishLeft(ghost node: Node?, parent: Node, other0: Node, t: Root, ghost was: Tree, ghost place: int)
    requires t.Repr() && Open(t.tree, node, parent, true, was, place) && BlackBrother(t.tree, node, parent, true)
    requires other0 == t.tree.cells[parent].right && !BlackNephews(t.tree, node, parent, true)
    modifies t, t.tree.cells.Keys`left, t.tree.cells.Keys`right, t.tree.cells.Keys`parent, t.tree.cells.Keys`red
    ensures t.Repr() && SameNodes(old(t.tree), t.tree) && Done(t.tree, was, place)
  {
    var other := other0;
    if other.right == null || !other.right.red {
      InnerNephewStep(t.tree, node, parent, true, was, place);
      TurnRight(other.left, other, t);
      other := parent.right;
    } else {
      SpineLess(was, t.tree, place, other, other.right);
    }
    LastLeft(node, parent, other, t, was, place);
  }

  /** One round of the loop when the flaw is on the left. */
  method EraseLeft(ghost node0: Node?, parent0: Node, t: Root, ghost was: Tree, ghost place: int)
      returns (node: Node?, parent: Node?, done: bool)
    requires t.Repr() && Open(t.tree, node0, parent0, true, was, place)
    modifies t, t.tree.cells.Keys`left, t.tree.cells.Keys`right, t.tree.cells.Keys`parent, t.tree.cells.Keys`red
    ensures t.Repr() && SameNodes(old(t.tree), t.tree)
    ensures Stepped(old(t.tree), t.tree, parent0, node, parent, done, was, place)
  {
    var other := LiftLeft(node0, parent0, t, was, place);
    if (other.left == null || !other.left.red) && (other.right == null || !other.right.red) {
      LowerStep(t.tree, node0, parent0, true, was, place);
      Brother(t.tree, node0, parent0, true);
      LowerOther(other, parent0, t);
      return parent0, parent0.parent, false;
    } else {
      FinishLeft(node0, parent0, other, t, was, place);
      return t.rbNode, parent0, true;
    }
  }

  /** A red brother on the left is turned up. */
  method LiftRight(ghost node: Node?, parent: Node, t: Root, ghost was: Tree, ghost place: int) returns (other: Node)
    requires t.Repr() && Open(t.tree, node, parent, false, was, place)
    modifies t, t.tree.cells.Keys`left, t.tree.cells.Keys`right, t.tree.cells.Keys`parent, t.tree.cells.Keys`red
    ensures t.Repr() && SameNodes(old(t.tree), t.tree)
    ensures Open(t.tree, node, parent, false, was, place) && BlackBrother(t.tree, node, parent, false)
    ensures other == t.tree.cells[parent].left
    ensures t.tree == old(t.tree) || t.tree.cells[parent].red
  {
    Brother(t.tree, node, parent, false);
    other := parent.left;
    if other.red {
      LiftStep(t.tree, node, parent, false, was, place);
      TurnRight(other, parent, t);
      other := parent.left;
    }
  }

  method LastRight(ghost node: Node?, parent: Node, other: Node, t: Root, ghost was: Tree, ghost place: int)
    requires t.Repr() && OuterNephew(t.tree, node, parent, false) && AtFlaw(t.tree, node, parent, place)
    requires other == t.tree.cells[parent].left && Spine(was, t.tree, place, other, t.tree.cells[other].left)
    modifies t, t.tree.cells.Keys`left, t.tree.cells.Keys`right, t.tree.cells.Keys`parent, t.tree.cells.Keys`red
    ensures t.Repr() && SameNodes(old(t.tree), t.tree) && Done(t.tree, was, place)
  {
    hide Done, AtFlaw, Spine, Swapped, Painted, Rotated, Tree.Shape;
    LastReady(t.tree, node, parent, false, was, place);
    RecolourLast(other, parent, other.left, t);
    RotateRight(parent, t);
  }

  /** A red nephew on the left: the last rotations. */
  method FinishRight(ghost node: Node?, parent: Node, other0: Node, t: Root, ghost was: Tree, ghost place: int)
    requires t.Repr() && Open(t.tree, node, parent, false, was, place) && BlackBrother(t.tree, node, parent, false)
    requires other0 == t.tree.cells[parent].left && !BlackNephews(t.tree, node, parent, false)
    modifies t, t.tree.cells.Keys`left, t.tree.cells.Keys`right, t.tree.cells.Keys`parent, t.tree.cells.Keys`red
    ensures t.Repr() && SameNodes(old(t.tree), t.tree) && Done(t.tree, was, place)
  {
    var other := other0;
    if other.left == null || !other.left.red {
      InnerNephewStep(t.tree, node, parent, false, was, place);
      TurnLeft(other.right, other, t);
      other := parent.left;
    } else {
      SpineLess(was, t.tree, place, other, other.left);
    }
    LastRight(node, parent, other, t, was, place);
  }

  /** One round of the loop when the flaw is on the right. */
  method EraseRight(ghost node0: Node?, parent0: Node, t: Root, ghost was: Tree, ghost place: int)
      returns (node: Node?, parent: Node?, done: bool)
    requires t.Repr() && Open(t.tree, node0, parent0, false, was, place)
    modifies t, t.tree.cells.Keys`left, t.tree.cells.Keys`right, t.tree.cells.Keys`parent, t.tree.cells.Keys`red
    ensures t.Repr() && SameNodes(old(t.tree), t.tree)
    ensures Stepped(old(t.tree), t.tree, parent0, node, parent, done, was, place)
  {
    var other := LiftRight(node0, parent0, t, was, place);
    if (other.left == null || !other.left.red) && (other.right == null || !other.right.red) {
      LowerStep(t.tree, node0, parent0, false, was, place);
      Brother(t.tree, node0, parent0, false);
      LowerOther(other, parent0, t);
      return parent0, parent0.parent, false;
    } else {
      FinishRight(node0, parent0, other, t, was, place);
      return t.rbNode, parent0, true;
    }
  }

  /** How far the flaw can still climb; 0 when the loop is about to end. */
  ghost function Rise(t: Tree, node: Node?, parent: Node?): nat
    requires t.Shape() && (parent == null || parent in t.cells) && (node == null || node in t.cells)
  {
    if parent == null || !t.Black(node) then 0
    else
      assert t.RangeOk(parent);
      assert t.LinksOk(parent);
      1 + |t.order| - (t.cells[parent].hi - t.cells[parent].lo)
  }

  /** What holds each time the loop tests its condition. */
  ghost predicate Underway(t: Tree, node: Node?, parent: Node?, d: bool, was: Tree, place: int) {
    && t.Shape() && (node != null ==> node in t.cells) && (parent != null ==> parent in t.cells)
    && (Closing(t, node, was, place) || Open(t, node, parent, d, was, place))
  }

  /** While the loop goes on there is a parent, and `d` is the side on which it finds the flaw. */
  lemma RoundStarts(t: Tree, node: Node?, parent: Node?, d: bool, was: Tree, place: int)
    requires Underway(t, node, parent, d, was, place) && t.Black(node) && node != t.root
    ensures Open(t, node, parent, d, was, place) && parent != null && (d <==> t.cells[parent].left == node)
  {
    Brother(t, node, parent, d);
  }

  lemma RoundEnds(t: Tree, t': Tree, node0: Node?, parent0: Node, d0: bool,
                  node: Node?, parent: Node?, was: Tree, place: int)
    requires Open(t, node0, parent0, d0, was, place)
    requires Stepped(t, t', parent0, node, parent, false, was, place)
    ensures node in t'.cells && t'.LinksOk(node)
    ensures Underway(t', node, parent, IsLeft(t', node), was, place) && Rise(t', node, parent) < Rise(t, node0, parent0)
  {
    assert t'.LinksOk(node) && t.LinksOk(parent0) && t.RangeOk(parent0);
    if parent != null && t'.Black(node) {
      assert t.LinksOk(parent) && t'.LinksOk(parent) && t'.RangeOk(parent);
    }
  }

  lemma SideFree(t: Tree, d: bool)
    requires t.Coloured(null, d, null)
    ensures t.Valid()
  {
    forall n | n in t.cells
      ensures t.BlackOk(n, null, true)
    {
      assert t.LinksOk(n) && t.BlackOk(n, null, d);
    }
  }

  lemma AtExit(t: Tree, node: Node?, parent: Node?, d: bool, was: Tree, place: int)
    requires Underway(t, node, parent, d, was, place) && (!t.Black(node) || node == t.root)
    ensures Ended(t, node, was, place)
  {
    if Closing(t, node, was, place) {
      FringeSame(was, t, Painted(t, node, false), place, true);
    } else {
      assert parent == null;
      SideFree(t, d);
      SpineIsFringe(was, t, place, true);
      if node != null {
        assert Painted(t, node, false) == t;
      }
    }
  }

  /** The loop has ended, and all that is left is to paint `node` black, if there is one. */
  ghost predicate Ended(t: Tree, node: Node?, was: Tree, place: int) {
    if node == null then Done(t, was, place)
    else node in t.cells && Done(Painted(t, node, false), was, place)
  }

  lemma DoneEnded(t: Tree, was: Tree, place: int)
    requires Done(t, was, place)
    ensures Ended(t, t.root, was, place)
  {
    if t.root != null {
      assert Painted(t, t.root, false) == t;
    }
  }

  method EraseEnd(node: Node?, t: Root, ghost was: Tree, ghost place: int)
    requires t.Repr() && Ended(t.tree, node, was, place)
    modifies t`tree, t.tree.cells.Keys`red
    ensures t.Repr() && SameNodes(old(t.tree), t.tree) && Done(t.tree, was, place)
  {
    if node != null {
      SetBlack(node, t);
    }
  }

  method EraseStep(node0: Node?, parent0: Node?, t: Root, ghost d0: bool, ghost was: Tree, ghost place: int)
      returns (node: Node?, parent: Node?, done: bool, ghost d: bool)
    requires t.Repr() && Underway(t.tree, node0, parent0, d0, was, place)
    requires (node0 == null || !node0.red) && node0 != t.rbNode
    modifies t, t.tree.cells.Keys`left, t.tree.cells.Keys`right, t.tree.cells.Keys`parent, t.tree.cells.Keys`red
    ensures t.Repr() && SameNodes(old(t.tree), t.tree)
    ensures done ==> Ended(t.tree, node, was, place)
    ensures !done ==> Underway(t.tree, node, parent, d, was, place) && Rise(t.tree, node, parent) < old(Rise(t.tree, node0, parent0))
  {
    ghost var before := t.tree;
    RoundStarts(before, node0, parent0, d0, was, place);
    if parent0.left == node0 {
      node, parent, done := EraseLeft(node0, parent0, t, was, place);
    } else {
      node, parent, done := EraseRight(node0, parent0, t, was, place);
    }
    if done {
      d := d0;
      DoneEnded(t.tree, was, place);
    } else {
      RoundEnds(before, t.tree, node0, parent0, d0, node, parent, was, place);
      d := IsLeft(t.tree, node);
    }
  }

  /** Repairs a red-black tree in which the way down to `node0`, below `parent0`, meets a black node
      too few: the result is a red-black tree with the same in-order sequence, and only nodes on the
      way to `place` and their brothers have got new children. */
  method EraseColor(node0: Node?, parent0: Node?, t: Root, ghost side: bool, ghost was: Tree, ghost place: int)
    requires t.Repr() && Underway(t.tree, node0, parent0, side, was, place)
    modifies t, t.tree.cells.Keys`left, t.tree.cells.Keys`right, t.tree.cells.Keys`parent, t.tree.cells.Keys`red
    ensures t.Repr() && SameNodes(old(t.tree), t.tree) && Done(t.tree, was, place)
  {
    var node, parent, done := node0, parent0, false;
    ghost var d := side;
    while (node == null || !node.red) && node != t.rbNode
      invariant t.Repr() && SameNodes(old(t.tree), t.tree) && !done
      invariant Underway(t.tree, node, parent, d, was, place)
      decreases Rise(t.tree, node, parent)
    {
      node, parent, done, d := EraseStep(node, parent, t, d, was, place);
      if done {
        break;
      }
    }
    if !done {
      AtExit(t.tree, node, parent, d, was, place);
    }
    EraseEnd(node, t, was, place);
  }
}
