/** `rb_insert_color`: a new red leaf makes the tree a red-black tree again. */
module RbInsert {
  import opened RbTree
  import opened RbColour
  import opened RbSpine

  /** Red-black but for `node`: it is red, and may have a red parent or be a red root. */
  ghost predicate Inserting(t: Tree, node: Node) {
    node in t.cells && t.cells[node].red && t.Coloured(null, true, node)
  }

  // ----- red uncle: the black of the grandparent goes down to both its children

  ghost function Pushed(t: Tree, g: Node): Tree
    requires g in t.cells
  {
    var cg := t.cells[g];
    t.(cells := map n | n in t.cells ::
         if n == g then cg.(red := true, bh := cg.bh + 1)
         else if n == cg.left || n == cg.right then t.cells[n].(red := false)
         else t.cells[n])
  }

  lemma PushedShape(t: Tree, g: Node)
    requires t.Shape() && g in t.cells
    ensures Pushed(t, g).Shape()
  {
    SameLinksShape(t, Pushed(t, g));
  }

  ghost predicate RedUncle(t: Tree, node: Node, p: Node, g: Node) {
    && Inserting(t, node) && t.LinksOk(node)
    && p in t.cells && t.LinksOk(p) && g in t.cells && t.LinksOk(g)
    && t.cells[node].parent == p && t.cells[p].red && t.cells[p].parent == g
    && t.cells[g].left != null && t.cells[g].right != null
    && t.cells[t.cells[g].left].red && t.cells[t.cells[g].right].red
  }

  lemma PushedRank(t: Tree, node: Node, p: Node, g: Node, n: Node, e: bool)
    requires RedUncle(t, node, p, g) && n in t.cells && t.LinksOk(n)
    ensures var k := t.cells[n].Kid(e);
            && (k == null || k in t.cells)
            && Pushed(t, g).Rank(k) == t.Rank(k) + if k != null && n == g then 1 else 0
  {
    var k := t.cells[n].Kid(e);
    assert t.KidOk(n, e) && t.RedOk(p);
    if k != null {
      assert t.LinksOk(k);
    }
  }

  lemma PushedCell(t: Tree, g: Node, n: Node)
    requires g in t.cells && n in t.cells
    ensures Pushed(t, g).cells[n] == t.cells[n].(red := Pushed(t, g).cells[n].red, bh := t.cells[n].bh + if n == g then 1 else 0)
  {
  }

  lemma PushedBlack(t: Tree, node: Node, p: Node, g: Node, n: Node)
    requires RedUncle(t, node, p, g) && n in t.cells
    ensures Pushed(t, g).LinksOk(n) && Pushed(t, g).BlackOk(n, null, true)
  {
    PushedShape(t, g);
    var t' := Pushed(t, g);
    assert t'.LinksOk(n) && t.LinksOk(n) && t.BlackOk(n, null, true);
    PushedRank(t, node, p, g, n, true);
    PushedRank(t, node, p, g, n, false);
    PushedCell(t, g, n);
    assert t.SideOk(n, true, null, true) && t.SideOk(n, false, null, true);
    hide Pushed, Tree.Shape, Tree.PosOk, Tree.ParentOk, Tree.Rank;
  }

  lemma PushedRed(t: Tree, node: Node, p: Node, g: Node, n: Node)
    requires RedUncle(t, node, p, g) && n in t.cells && n != g
    ensures Pushed(t, g).LinksOk(n) && Pushed(t, g).RedOk(n)
  {
    PushedShape(t, g);
    var t' := Pushed(t, g);
    assert t'.LinksOk(n) && t.LinksOk(n);
    if n != node {
      assert t.RedOk(n);
    }
  }

  lemma PushedInserting(t: Tree, node: Node, p: Node, g: Node)
    requires RedUncle(t, node, p, g)
    ensures Inserting(Pushed(t, g), g)
  {
    var t' := Pushed(t, g);
    PushedShape(t, g);
    forall n | n in t.cells
      ensures t'.BlackOk(n, null, true)
      ensures n != g ==> t'.RedOk(n)
    {
      PushedBlack(t, node, p, g, n);
      if n != g {
        PushedRed(t, node, p, g, n);
      }
    }
  }

  // ----- black uncle: one or two rotations

  /** `node` and its red parent `p` below `g`, `p` on side `d`, with a black uncle on the other. */
  ghost predicate BlackUncle(t: Tree, node: Node, p: Node, g: Node, d: bool) {
    && Inserting(t, node) && t.LinksOk(node)
    && p in t.cells && t.LinksOk(p) && g in t.cells && t.LinksOk(g)
    && t.cells[node].parent == p && t.cells[p].red && t.cells[p].parent == g
    && t.cells[g].Kid(d) == p && t.Black(t.cells[g].Kid(!d))
  }

  lemma InnerRed(t: Tree, node: Node, p: Node, g: Node, d: bool, n: Node)
    requires BlackUncle(t, node, p, g, d) && t.cells[p].Kid(!d) == node && n in t.cells && n != p
    ensures Turned(t, p, d).LinksOk(n) && Turned(t, p, d).RedOk(n)
  {
    RotatedActors(t, p, d);
    assert t.LinksOk(n) && t.RedOk(p);
    assert n != node ==> t.RedOk(n);
    TurnedRed(t, p, d, n);
  }

  /** Both are red, so there are no colours to exchange. */
  lemma InnerSame(t: Tree, node: Node, p: Node, g: Node, d: bool)
    requires BlackUncle(t, node, p, g, d) && t.cells[p].Kid(!d) == node
    ensures Rotated(t, p, d) == Turned(t, p, d)
  {
    assert t.BlackOk(p, null, true) && t.SideOk(p, !d, null, true);
    assert Swapped(t, p, node) == t;
  }

  lemma InnerInserting(t: Tree, node: Node, p: Node, g: Node, d: bool)
    requires BlackUncle(t, node, p, g, d) && t.cells[p].Kid(!d) == node
    ensures Inserting(Turned(t, p, d), p)
  {
    var t' := Turned(t, p, d);
    TurnedAllBlack(t, p, d, null, true);
    RotatedActors(t, p, d);
    forall n | n in t.cells && n != p
      ensures t'.RedOk(n)
    {
      InnerRed(t, node, p, g, d, n);
    }
    TurnedColour(t, p, d, p);
  }

  lemma InnerLinks(t: Tree, node: Node, p: Node, g: Node, d: bool)
    requires BlackUncle(t, node, p, g, d) && t.cells[p].Kid(!d) == node
    ensures var t' := Turned(t, p, d);
            && p in t'.cells && t'.LinksOk(p) && node in t'.cells && t'.LinksOk(node) && g in t'.cells && t'.LinksOk(g)
            && t'.cells[p].parent == node && t'.cells[node].red && t'.cells[node].parent == g
            && t'.cells[g].Kid(d) == node && t'.cells[node].Kid(d) == p
            && t'.Black(t'.cells[g].Kid(!d))
  {
    TurnedShape(t, p, d);
    RotatedActors(t, p, d);
    var t' := Turned(t, p, d);
    assert t'.LinksOk(p) && t'.LinksOk(node) && t'.LinksOk(g);
    TurnedCell(t, p, d, g);
    var u := t.cells[g].Kid(!d);
    if u != null { TurnedCell(t, p, d, u); }
  }

  /** An inner `node` is first turned up over its parent. */
  lemma InnerTurned(t: Tree, node: Node, p: Node, g: Node, d: bool)
    requires BlackUncle(t, node, p, g, d) && t.cells[p].Kid(!d) == node
    ensures Rotated(t, p, d) == Turned(t, p, d)
    ensures BlackUncle(Rotated(t, p, d), p, node, g, d) && Rotated(t, p, d).cells[node].Kid(d) == p
  {
    InnerSame(t, node, p, g, d);
    InnerInserting(t, node, p, g, d);
    InnerLinks(t, node, p, g, d);
    hide Turned, Rotated, Inserting, Tree.LinksOk;
  }

  lemma OuterRed(t: Tree, node: Node, p: Node, g: Node, d: bool, n: Node)
    requires BlackUncle(t, node, p, g, d) && t.cells[p].Kid(d) == node && n in t.cells
    ensures Turned(t, g, !d).LinksOk(n) && Turned(t, g, !d).RedOk(n)
  {
    RotatedActors(t, g, !d);
    assert t.LinksOk(n) && t.RedOk(p);
    assert n != node ==> t.RedOk(n);
    TurnedRed(t, g, !d, n);
  }

  /** An outer `node`: turning its parent up over its grandparent ends the repair. */
  lemma OuterTurned(t: Tree, node: Node, p: Node, g: Node, d: bool)
    requires BlackUncle(t, node, p, g, d) && t.cells[p].Kid(d) == node
    ensures Turned(t, g, !d).Valid()
  {
    TurnedAllBlack(t, g, !d, null, true);
    OuterRoot(t, node, p, g, d);
    var t' := Turned(t, g, !d);
    forall n | n in t'.cells
      ensures t'.LinksOk(n) && t'.RedOk(n)
    {
      OuterRed(t, node, p, g, d, n);
    }
    Sound(t');
  }

  lemma OuterRoot(t: Tree, node: Node, p: Node, g: Node, d: bool)
    requires BlackUncle(t, node, p, g, d) && t.cells[p].Kid(d) == node
    ensures var t' := Turned(t, g, !d); t'.root in t'.cells && t'.Black(t'.root)
  {
    RotatedActors(t, g, !d);
    assert t.RedOk(p);
  }

  // ----- the loop

  ghost predicate CanStep(t: Tree, node: Node, d: bool) {
    && Inserting(t, node) && t.LinksOk(node)
    && var p := t.cells[node].parent;
    && p != null && t.LinksOk(p) && t.cells[p].red
    && var g := t.cells[p].parent;
    && g != null && t.LinksOk(g) && t.cells[g].Kid(d) == p
  }

  /** The round either hands the red node on to the grandparent, or it has repaired the tree. */
  ghost predicate Stepped(t: Tree, t': Tree, node: Node, node': Node, was: Tree, place: int)
    requires CanStep(t, node, true) || CanStep(t, node, false)
  {
    || (&& SameLinks(t, t') && SameLinks(was, t') && node' == t.cells[t.cells[node].parent].parent
        && Inserting(t', node') && t'.Holds(node', place))
    || Repaired(t', node', was, place)
  }

  ghost predicate Repaired(t: Tree, node: Node, was: Tree, place: int) {
    && t.Valid() && node in t.cells && t.cells[node].red
    && t.order == was.order && t.cells.Keys == was.cells.Keys
    && Fringe(was, t, place, false)
  }

  lemma PushedStep(t: Tree, node: Node, p: Node, g: Node, was: Tree, place: int)
    requires RedUncle(t, node, p, g) && SameLinks(was, t) && t.Holds(node, place)
    ensures Inserting(Pushed(t, g), g)
    ensures SameLinks(t, Pushed(t, g)) && SameLinks(was, Pushed(t, g)) && Pushed(t, g).Holds(g, place)
  {
    PushedInserting(t, node, p, g);
    ParentHolds(t, node, place);
    ParentHolds(t, p, place);
  }

  lemma UntouchedSpine(was: Tree, t: Tree, place: int, e1: Node?, e2: Node?)
    requires SameLinks(was, t)
    ensures Spine(was, t, place, e1, e2)
  {
    forall n | n in t.cells && n != e1 && n != e2
      ensures OnSpine(was, t, place, n)
    {
    }
  }

  lemma InnerStep(t: Tree, node: Node, p: Node, g: Node, d: bool, was: Tree, place: int)
    requires BlackUncle(t, node, p, g, d) && t.cells[p].Kid(!d) == node
    requires SameLinks(was, t) && t.Holds(g, place)
    ensures BlackUncle(Rotated(t, p, d), p, node, g, d) && Rotated(t, p, d).cells[node].Kid(d) == p
    ensures Spine(was, Rotated(t, p, d), place, node, p) && Rotated(t, p, d).Holds(g, place)
  {
    InnerTurned(t, node, p, g, d);
    UntouchedSpine(was, t, place, null, null);
    BrotherTurned(was, t, p, d, place);
    RotatedFacts(t, p, d, g);
  }

  lemma OuterStep(t: Tree, node: Node, p: Node, g: Node, d: bool, was: Tree, place: int)
    requires BlackUncle(t, node, p, g, d) && t.cells[p].Kid(d) == node
    requires Spine(was, t, place, p, node) && t.Holds(g, place)
    requires t.order == was.order && t.cells.Keys == was.cells.Keys
    ensures CanRotate(t, g, !d) && Repaired(Turned(t, g, !d), node, was, place)
  {
    OuterTurned(t, node, p, g, d);
    TurnedFringe(was, t, g, !d, place, false);
    TurnedColour(t, g, !d, node);
  }

  /** The recolouring under a red uncle. */
  method PushDown(uncle: Node, parent: Node, gparent: Node, t: Root)
    requires t.Repr() && gparent in t.tree.cells && uncle in t.tree.cells && parent in t.tree.cells
    requires uncle != parent && uncle != gparent && parent != gparent
    requires (gparent.left == parent && gparent.right == uncle) || (gparent.left == uncle && gparent.right == parent)
    modifies t`tree, uncle`red, parent`red, gparent`red
    ensures t.Repr()
    ensures t.tree == Pushed(old(t.tree), gparent)
  {
    ghost var before := t.tree;
    uncle.red := false;
    parent.red := false;
    gparent.red := true;
    t.tree := Pushed(before, gparent);
    forall n | n in before.cells
      ensures n.left == t.tree.cells[n].left && n.right == t.tree.cells[n].right
      ensures n.parent == t.tree.cells[n].parent && n.red == t.tree.cells[n].red
    {
      if n != gparent && n != parent && n != uncle {
        assert t.tree.cells[n] == before.cells[n];
      }
    }
  }

  /** The rotation that ends the repair, for an outer left grandchild. */
  method EndLeft(node: Node, parent: Node, gparent: Node, t: Root, ghost was: Tree, ghost place: int)
    requires t.Repr() && BlackUncle(t.tree, node, parent, gparent, true) && t.tree.cells[parent].Kid(true) == node
    requires Spine(was, t.tree, place, parent, node) && t.tree.Holds(gparent, place)
    requires t.tree.order == was.order && t.tree.cells.Keys == was.cells.Keys
    modifies t, t.tree.cells.Keys`left, t.tree.cells.Keys`right, t.tree.cells.Keys`parent, t.tree.cells.Keys`red
    ensures t.Repr() && Repaired(t.tree, node, was, place)
  {
    OuterStep(t.tree, node, parent, gparent, true, was, place);
    assert t.tree.RedOk(parent);
    TurnRight(parent, gparent, t);
  }

  /** One round of the loop when the parent is a left child. */
  method InsertLeft(node0: Node, t: Root, ghost was: Tree, ghost place: int) returns (node: Node)
    requires t.Repr() && CanStep(t.tree, node0, true)
    requires SameLinks(was, t.tree) && t.tree.Holds(node0, place)
    modifies t, t.tree.cells.Keys`left, t.tree.cells.Keys`right, t.tree.cells.Keys`parent, t.tree.cells.Keys`red
    ensures t.Repr()
    ensures Stepped(old(t.tree), t.tree, node0, node, was, place)
  {
    ghost var before := t.tree;
    node := node0;
    var parent := node.parent;
    var gparent := parent.parent;
    ParentHolds(before, node, place);
    ParentHolds(before, parent, place);
    var uncle := gparent.right;
    if uncle != null && uncle.red {
      PushDown(uncle, parent, gparent, t);
      PushedStep(before, node, parent, gparent, was, place);
      return gparent;
    }
    if parent.right == node {
      InnerStep(before, node, parent, gparent, true, was, place);
      RotateLeft(parent, t);
      var tmp := parent;
      parent := node;
      node := tmp;
    } else {
      UntouchedSpine(was, before, place, parent, node);
    }
    EndLeft(node, parent, gparent, t, was, place);
  }

  /** The rotation that ends the repair, for an outer right grandchild. */
  method EndRight(node: Node, parent: Node, gparent: Node, t: Root, ghost was: Tree, ghost place: int)
    requires t.Repr() && BlackUncle(t.tree, node, parent, gparent, false) && t.tree.cells[parent].Kid(false) == node
    requires Spine(was, t.tree, place, parent, node) && t.tree.Holds(gparent, place)
    requires t.tree.order == was.order && t.tree.cells.Keys == was.cells.Keys
    modifies t, t.tree.cells.Keys`left, t.tree.cells.Keys`right, t.tree.cells.Keys`parent, t.tree.cells.Keys`red
    ensures t.Repr() && Repaired(t.tree, node, was, place)
  {
    OuterStep(t.tree, node, parent, gparent, false, was, place);
    assert t.tree.RedOk(parent);
    TurnLeft(parent, gparent, t);
  }

  /** One round of the loop when the parent is a right child. */
  method InsertRight(node0: Node, t: Root, ghost was: Tree, ghost place: int) returns (node: Node)
    requires t.Repr() && CanStep(t.tree, node0, false)
    requires SameLinks(was, t.tree) && t.tree.Holds(node0, place)
    modifies t, t.tree.cells.Keys`left, t.tree.cells.Keys`right, t.tree.cells.Keys`parent, t.tree.cells.Keys`red
    ensures t.Repr()
    ensures Stepped(old(t.tree), t.tree, node0, node, was, place)
  {
    ghost var before := t.tree;
    node := node0;
    var parent := node.parent;
    var gparent := parent.parent;
    ParentHolds(before, node, place);
    ParentHolds(before, parent, place);
    var uncle := gparent.left;
    if uncle != null && uncle.red {
      PushDown(uncle, parent, gparent, t);
      PushedStep(before, node, parent, gparent, was, place);
      return gparent;
    }
    if parent.left == node {
      InnerStep(before, node, parent, gparent, false, was, place);
      RotateRight(parent, t);
      var tmp := parent;
      parent := node;
      node := tmp;
    } else {
      UntouchedSpine(was, before, place, parent, node);
    }
    EndRight(node, parent, gparent, t, was, place);
  }

  /** How far the red node can still climb; 0 once its parent is black. */
  ghost function Climb(t: Tree, node: Node): nat
    requires t.Shape() && node in t.cells && t.LinksOk(node)
  {
    assert t.RangeOk(node);
    if t.Black(t.cells[node].parent) then 0 else 1 + |t.order| - (t.cells[node].hi - t.cells[node].lo)
  }

  /** What holds each time the loop tests its condition. */
  ghost predicate Underway(t: Tree, node: Node, was: Tree, place: int) {
    && Inserting(t, node) && t.LinksOk(node)
    && t.order == was.order && t.cells.Keys == was.cells.Keys
    && ((SameLinks(was, t) && t.Holds(node, place)) || Repaired(t, node, was, place))
  }

  lemma StepEnds(t: Tree, t': Tree, node: Node, node': Node, was: Tree, place: int, d: bool)
    requires CanStep(t, node, d) && Stepped(t, t', node, node', was, place)
    ensures Underway(t', node', was, place) && Climb(t', node') < Climb(t, node)
  {
    var p := t.cells[node].parent;
    assert t'.LinksOk(node');
    assert t.RangeOk(node);
    if Repaired(t', node', was, place) {
      assert t'.RedOk(node');
    } else {
      assert t.LinksOk(p) && t.LinksOk(node');
    }
  }

  /** While the loop runs nothing has been rotated yet, and there is a grandparent. */
  lemma StepStarts(t: Tree, node: Node, was: Tree, place: int)
    requires Underway(t, node, was, place) && !t.Black(t.cells[node].parent)
    ensures SameLinks(was, t) && t.Holds(node, place)
    ensures var p := t.cells[node].parent; t.LinksOk(p) && t.cells[p].parent in t.cells
    ensures CanStep(t, node, t.cells[t.cells[t.cells[node].parent].parent].left == t.cells[node].parent)
  {
    var p := t.cells[node].parent;
    assert Repaired(t, node, was, place) ==> t.RedOk(node);
    assert t.LinksOk(p);
    assert t.LinksOk(t.cells[p].parent);
  }

  method InsertStep(node0: Node, t: Root, ghost was: Tree, ghost place: int) returns (node: Node)
    requires t.Repr() && Underway(t.tree, node0, was, place) && node0.parent != null && node0.parent.red
    modifies t, t.tree.cells.Keys`left, t.tree.cells.Keys`right, t.tree.cells.Keys`parent, t.tree.cells.Keys`red
    ensures t.Repr() && Underway(t.tree, node, was, place) && old(t.tree.Shape() && t.tree.LinksOk(node0))
    ensures Climb(t.tree, node) < Climb(old(t.tree), node0)
  {
    ghost var before := t.tree;
    StepStarts(before, node0, was, place);
    var parent := node0.parent;
    var gparent := parent.parent;
    ghost var isLeft := parent == gparent.left;
    if parent == gparent.left {
      node := InsertLeft(node0, t, was, place);
    } else {
      node := InsertRight(node0, t, was, place);
    }
    StepEnds(before, t.tree, node0, node, was, place, isLeft);
  }

  /** With the loop done, the root is painted black. */
  lemma AtExit(was: Tree, t: Tree, node: Node, place: int)
    requires Underway(t, node, was, place) && t.Black(t.cells[node].parent)
    ensures t.root in t.cells && Painted(t, t.root, false).Valid()
    ensures Fringe(was, Painted(t, t.root, false), place, false)
  {
    BlackRoot(t, node);
    var t' := Painted(t, t.root, false);
    if !Repaired(t, node, was, place) {
      UntouchedSpine(was, t, place, null, null);
      SpineIsFringe(was, t, place, false);
    }
    FringeSame(was, t, t', place, false);
  }

  method InsertEnd(ghost node: Node, t: Root, ghost was: Tree, ghost place: int)
    requires t.Repr() && Underway(t.tree, node, was, place) && t.tree.Black(t.tree.cells[node].parent)
    modifies t`tree, t.tree.cells.Keys`red
    ensures t.Repr() && t.tree.Valid()
    ensures t.tree.order == was.order && t.tree.cells.Keys == was.cells.Keys && Fringe(was, t.tree, place, false)
  {
    AtExit(was, t.tree, node, place);
    SetBlack(t.rbNode, t);
  }

  /** Repairs a tree in which only the red `node0` may offend the colour rules: the result is a
      red-black tree with the same in-order sequence, and only nodes on the way to `node0` and
      their brothers have got new children. */
  method InsertColor(node0: Node, t: Root)
    requires t.Repr() && Inserting(t.tree, node0)
    modifies t, t.tree.cells.Keys`left, t.tree.cells.Keys`right, t.tree.cells.Keys`parent, t.tree.cells.Keys`red
    ensures t.Repr() && t.tree.Valid()
    ensures t.tree.order == old(t.tree.order) && t.tree.cells.Keys == old(t.tree.cells.Keys)
    ensures Fringe(old(t.tree), t.tree, old(t.tree.cells[node0].pos), false)
  {
    ghost var was, place := t.tree, t.tree.cells[node0].pos;
    assert was.LinksOk(node0);
    var node := node0;
    while node.parent != null && node.parent.red
      invariant t.Repr() && Underway(t.tree, node, was, place)
      decreases Climb(t.tree, node)
    {
      node := InsertStep(node, t, was, place);
    }
    InsertEnd(node, t, was, place);
  }
}
