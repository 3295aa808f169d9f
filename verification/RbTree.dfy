/** The intrusive red-black tree of rbtree.c: its nodes, its invariant and its two rotations.

    A `Node` carries the source's links; `parent` and `red` stand for what the source packs into
    one word.  `agg` is the value a caller of the `rb_augment_*` functions caches in its node.

    `Root.tree` is the abstract value of the whole linked structure: every node's links and colour
    as a `Cell`, with coordinates that say where the node stands.  `tree.order` is the in-order
    sequence, node `n` is at index `pos` of it, the subtree below `n` is exactly `order[lo..hi]`,
    and `bh` counts the black nodes on every way down from `n`, `n` itself excluded.  Thanks to the
    coordinates the invariant of the tree is one local fact per node. */
module RbTree {

  /** The caller's aggregate values; nothing is known about them. */
  type Agg(!new)

  class Node {
    var left: Node?
    var right: Node?
    var parent: Node?
    var red: bool
    var agg: Agg

    constructor (agg: Agg)
      ensures this.agg == agg
    {
      this.agg := agg;
    }
  }

  /** The members with a `d` read or change one side: the left one when `d` holds, else the right
      one, with coordinates counted from that side.  The source's mirrored branches are the two
      values of `d`. */
  datatype Cell = Cell(left: Node?, right: Node?, parent: Node?, red: bool,
                       pos: int, lo: int, hi: int, bh: int) {
    ghost function Kid(d: bool): Node? {
      if d then left else right
    }

    ghost function At(d: bool): int {
      if d then pos else -1 - pos
    }

    ghost function Near(d: bool): int {
      if d then lo else -hi
    }

    ghost function Far(d: bool): int {
      if d then hi else -lo
    }

    ghost function WithKid(d: bool, n: Node?): Cell {
      if d then this.(left := n) else this.(right := n)
    }

    ghost function WithFar(d: bool, x: int): Cell {
      if d then this.(hi := x) else this.(lo := -x)
    }
  }

  datatype Tree = Tree(root: Node?, cells: map<Node, Cell>, order: seq<Node>) {

    // ----- shape: links, parent links and coordinates agree

    /** The link of `n` to one side and the coordinates it fixes. */
    ghost predicate KidOk(n: Node, d: bool)
      requires n in cells
    {
      var c := cells[n];
      var k := c.Kid(d);
      if k == null then c.Near(d) == c.At(d)
      else k in cells && cells[k].parent == n && cells[k].Near(d) == c.Near(d) && cells[k].Far(d) == c.At(d)
    }

    ghost predicate ParentOk(n: Node)
      requires n in cells
    {
      var p := cells[n].parent;
      if p == null then n == root
      else p in cells && (cells[p].left == n || cells[p].right == n)
    }

    ghost predicate PosOk(n: Node)
      requires n in cells
    {
      var c := cells[n];
      c.lo <= c.pos < c.hi && 0 <= c.pos < |order| && order[c.pos] == n
    }

    ghost predicate LinksOk(n: Node)
      requires n in cells
    {
      PosOk(n) && KidOk(n, true) && KidOk(n, false) && ParentOk(n)
    }

    ghost predicate RootOk() {
      if root == null then order == []
      else root in cells && cells[root].parent == null && cells[root].lo == 0 && cells[root].hi == |order|
    }

    ghost predicate OrderOk() {
      forall i :: 0 <= i < |order| ==> order[i] in cells && cells[order[i]].pos == i
    }

    ghost predicate RangeOk(n: Node)
      requires n in cells
    {
      0 <= cells[n].lo && cells[n].hi <= |order|
    }

    ghost predicate InRange() {
      forall n {:trigger RangeOk(n)} :: n in cells ==> RangeOk(n)
    }

    /** A binary tree over `order` whose parent links mirror its child links. */
    ghost predicate Shape() {
      && RootOk() && OrderOk() && InRange()
      && forall n {:trigger LinksOk(n)} :: n in cells ==> LinksOk(n)
    }

    // ----- colours

    /** The black nodes on every way down from `n`, `n` included. */
    ghost function Rank(n: Node?): int
      requires n == null || n in cells
    {
      if n == null then 0 else if cells[n].red then cells[n].bh else cells[n].bh + 1
    }

    ghost predicate Black(n: Node?)
      requires n == null || n in cells
    {
      n == null || !cells[n].red
    }

    /** The way down on side `d` of `n` meets `bh` black nodes, one fewer if it is the hole. */
    ghost predicate SideOk(n: Node, d: bool, hole: Node?, side: bool)
      requires n in cells && KidOk(n, d)
    {
      Rank(cells[n].Kid(d)) + (if n == hole && d == side then 1 else 0) == cells[n].bh
    }

    /** Both ways down from `n` meet the same number of black nodes, the hole made good. */
    ghost predicate BlackOk(n: Node, hole: Node?, side: bool)
      requires n in cells && LinksOk(n)
    {
      cells[n].bh >= 0 && SideOk(n, true, hole, side) && SideOk(n, false, hole, side)
    }

    /** A red node has a black parent. */
    ghost predicate RedOk(n: Node)
      requires n in cells && LinksOk(n)
    {
      cells[n].red ==> Black(cells[n].parent)
    }

    /** Equal black counts everywhere, the hole made good. */
    ghost predicate AllBlack(hole: Node?, side: bool) {
      Shape() && forall n {:trigger BlackOk(n, hole, side)} :: n in cells ==> BlackOk(n, hole, side)
    }

    /** Equal black counts but for the hole, and no red node below a red one but for `odd`. */
    ghost predicate Coloured(hole: Node?, side: bool, odd: Node?) {
      && AllBlack(hole, side)
      && (forall n {:trigger RedOk(n)} :: n in cells && n != odd ==> RedOk(n))
      && (root == odd || Black(root))
    }

    /** A red-black tree. */
    ghost predicate Valid() {
      Coloured(null, true, null)
    }

    /** The subtree at `a` holds the in-order position `p`; for a node's own position this says
        that `a` is that node or one of its ancestors. */
    ghost predicate Holds(a: Node, p: int)
      requires a in cells
    {
      cells[a].lo <= p < cells[a].hi
    }
  }

  /** `t'` is `t` but for colours and black counts. */
  ghost predicate SameLinks(t: Tree, t': Tree) {
    && t'.root == t.root && t'.order == t.order && t'.cells.Keys == t.cells.Keys
    && forall n :: n in t.cells ==> t'.cells[n] == t.cells[n].(red := t'.cells[n].red, bh := t'.cells[n].bh)
  }

  lemma SameLinksShape(t: Tree, t': Tree)
    requires t.Shape() && SameLinks(t, t')
    ensures t'.Shape()
  {
    forall n | n in t.cells
      ensures t'.LinksOk(n) && t'.RangeOk(n)
    {
      assert t.LinksOk(n) && t.RangeOk(n);
    }
  }

  // ----- rotations, on the abstract value

  ghost predicate CanRotate(t: Tree, x: Node, d: bool) {
    x in t.cells && t.LinksOk(x) && t.cells[x].Kid(!d) != null
  }

  ghost function RotatedCell(t: Tree, x: Node, d: bool, n: Node): Cell
    requires CanRotate(t, x, d) && n in t.cells
  {
    var cx, c := t.cells[x], t.cells[n];
    var y := cx.Kid(!d);
    var cy := t.cells[y];
    if n == x then c.WithKid(!d, cy.Kid(d)).(parent := y).WithFar(d, cy.At(d))
    else if n == y then c.WithKid(d, x).(parent := cx.parent, lo := cx.lo, hi := cx.hi)
    else if n == cy.Kid(d) then c.(parent := x)
    else if n == cx.parent then c.WithKid(if c.Kid(d) == x then d else !d, y)
    else c
  }

  /** A left rotation at `x` when `d` holds, a right rotation otherwise. */
  ghost function Rotated(t: Tree, x: Node, d: bool): Tree
    requires CanRotate(t, x, d)
  {
    t.(root := if t.cells[x].parent == null then t.cells[x].Kid(!d) else t.root,
       cells := map n | n in t.cells :: RotatedCell(t, x, d, n))
  }

  /** The nodes a rotation rewrites are four different nodes. */
  lemma RotatedActors(t: Tree, x: Node, d: bool)
    requires t.Shape() && CanRotate(t, x, d)
    ensures var y, p := t.cells[x].Kid(!d), t.cells[x].parent;
            var b := t.cells[y].Kid(d);
            && x != y && p != x && p != y && b != x && b != y
            && t.LinksOk(y)
            && (p != null ==> p != b && t.LinksOk(p))
            && (b != null ==> t.LinksOk(b))
  {
    var y, p := t.cells[x].Kid(!d), t.cells[x].parent;
    assert t.LinksOk(y);
    var b := t.cells[y].Kid(d);
    assert p != null ==> t.LinksOk(p);
    assert b != null ==> t.LinksOk(b);
  }

  lemma RotatedKidOfActor(t: Tree, x: Node, d: bool, n: Node, e: bool)
    requires t.Shape() && CanRotate(t, x, d)
    requires n in t.cells && t.LinksOk(n)
    requires var y := t.cells[x].Kid(!d); n == x || n == y || n == t.cells[y].Kid(d)
    ensures Rotated(t, x, d).KidOk(n, e)
  {
    RotatedActors(t, x, d);
    var t' := Rotated(t, x, d);
    var y := t.cells[x].Kid(!d);
    var b := t.cells[y].Kid(d);
    var q := t.cells[n].Kid(e);
    if n == x && e != d {
      assert t'.cells[n].Kid(e) == b;
    } else if n == y && e == d {
      assert t'.cells[n].Kid(e) == x;
    } else {
      assert t'.cells[n].Kid(e) == q;
      assert q != null ==> q != x && q != y && q != b;
    }
  }

  lemma RotatedKid(t: Tree, x: Node, d: bool, n: Node, e: bool)
    requires t.Shape() && CanRotate(t, x, d)
    requires n in t.cells && t.LinksOk(n)
    ensures Rotated(t, x, d).KidOk(n, e)
  {
    RotatedActors(t, x, d);
    var t' := Rotated(t, x, d);
    var y := t.cells[x].Kid(!d);
    var b := t.cells[y].Kid(d);
    var q := t.cells[n].Kid(e);
    if n == x || n == y || n == b {
      RotatedKidOfActor(t, x, d, n, e);
    } else if q == x {
      assert n == t.cells[x].parent;
      assert t'.cells[n].Kid(e) == y;
    } else {
      assert t'.cells[n].Kid(e) == q;
      assert q != null ==> q != x && q != y && q != b;
    }
  }

  lemma RotatedParent(t: Tree, x: Node, d: bool, n: Node)
    requires t.Shape() && CanRotate(t, x, d)
    requires n in t.cells && t.LinksOk(n)
    ensures Rotated(t, x, d).PosOk(n) && Rotated(t, x, d).ParentOk(n)
  {
    RotatedActors(t, x, d);
    var t' := Rotated(t, x, d);
    var y, p := t.cells[x].Kid(!d), t.cells[x].parent;
    var b := t.cells[y].Kid(d);
    var q := t.cells[n].parent;
    if n == x {
    } else if n == y {
    } else if n == b {
    } else if q == null {
    } else {
      assert t'.cells[n].parent == q;
      if q == x {
      } else if q == y {
      } else if q == p {
      } else {
        assert t'.cells[q].left == t.cells[q].left && t'.cells[q].right == t.cells[q].right;
      }
    }
  }

  lemma RotatedLinks(t: Tree, x: Node, d: bool, n: Node)
    requires t.Shape() && CanRotate(t, x, d) && n in t.cells
    ensures Rotated(t, x, d).LinksOk(n)
  {
    assert t.LinksOk(n);
    RotatedKid(t, x, d, n, true);
    RotatedKid(t, x, d, n, false);
    RotatedParent(t, x, d, n);
  }

  lemma RotatedRoot(t: Tree, x: Node, d: bool)
    requires t.Shape() && CanRotate(t, x, d)
    ensures Rotated(t, x, d).RootOk()
  {
    RotatedActors(t, x, d);
    var r := t.root;
    assert t.LinksOk(r);
  }

  lemma RotatedOrder(t: Tree, x: Node, d: bool)
    requires t.Shape() && CanRotate(t, x, d)
    ensures Rotated(t, x, d).OrderOk()
  {
    forall n | n in t.cells
      ensures Rotated(t, x, d).cells[n].pos == t.cells[n].pos
    {
    }
  }

  lemma RotatedRange(t: Tree, x: Node, d: bool)
    requires t.Shape() && CanRotate(t, x, d)
    ensures Rotated(t, x, d).InRange()
  {
    RotatedActors(t, x, d);
    var y := t.cells[x].Kid(!d);
    forall n | n in t.cells
      ensures Rotated(t, x, d).RangeOk(n)
    {
      assert t.PosOk(y) && t.PosOk(x);
      assert t.RangeOk(n) && t.RangeOk(x);
    }
  }

  lemma RotatedShape(t: Tree, x: Node, d: bool)
    requires t.Shape() && CanRotate(t, x, d)
    ensures Rotated(t, x, d).Shape()
  {
    forall n | n in t.cells
      ensures Rotated(t, x, d).LinksOk(n)
    {
      RotatedLinks(t, x, d, n);
    }
    RotatedRoot(t, x, d);
    RotatedOrder(t, x, d);
    RotatedRange(t, x, d);
  }

  class Root {
    var rbNode: Node?
    ghost var tree: Tree

    constructor ()
      ensures Repr() && tree == Tree(null, map[], [])
    {
      rbNode := null;
      tree := Tree(null, map[], []);
    }

    /** The linked nodes are the tree that `tree` describes. */
    ghost predicate Repr()
      reads this, tree.cells.Keys
    {
      && rbNode == tree.root
      && forall n :: n in tree.cells ==>
        && n.left == tree.cells[n].left && n.right == tree.cells[n].right
        && n.parent == tree.cells[n].parent && n.red == tree.cells[n].red
    }
  }

  /** The statements of the left rotation; `actors` are the nodes they touch. */
  method RotateLeftLinks(x: Node, t: Root, ghost actors: set<Node>)
    requires x.right != null && x in actors && x.right in actors
    requires x.parent != null ==> x.parent in actors && x.parent != x.right.left
    requires x.right.left != null ==> x.right.left in actors
    requires x != x.right && x.parent != x && x.parent != x.right && x.right.left != x && x.right.left != x.right
    modifies t`rbNode, actors`left, actors`right, actors`parent
    ensures var y, p := old(x.right), old(x.parent);
            var b := old(y.left);
            && x.left == old(x.left) && x.right == b && x.parent == y
            && y.left == x && y.right == old(y.right) && y.parent == p
            && (b != null ==> b.left == old(b.left) && b.right == old(b.right) && b.parent == x)
            && t.rbNode == (if p == null then y else old(t.rbNode))
            && (p != null ==> p.parent == old(p.parent)
                              && p.left == (if old(p.left) == x then y else old(p.left))
                              && p.right == (if old(p.left) == x then old(p.right) else y))
  {
    var right := x.right;
    var parent := x.parent;
    x.right := right.left;
    if x.right != null {
      right.left.parent := x;
    }
    right.left := x;
    right.parent := parent;
    if parent != null {
      if x == parent.left {
        parent.left := right;
      } else {
        parent.right := right;
      }
    } else {
      t.rbNode := right;
    }
    x.parent := right;
  }

  method RotateLeft(x: Node, t: Root)
    requires t.Repr() && t.tree.Shape() && CanRotate(t.tree, x, true)
    modifies t, t.tree.cells.Keys`left, t.tree.cells.Keys`right, t.tree.cells.Keys`parent
    ensures t.Repr()
    ensures t.tree == Rotated(old(t.tree), x, true)
  {
    ghost var before := t.tree;
    RotatedActors(before, x, true);
    ghost var y, p := x.right, x.parent;
    ghost var b := y.left;
    ghost var actors := set n | n in before.cells && (n == x || n == y || n == b || n == p);
    RotateLeftLinks(x, t, actors);
    t.tree := Rotated(before, x, true);
    forall n | n in before.cells
      ensures n.left == t.tree.cells[n].left && n.right == t.tree.cells[n].right
      ensures n.parent == t.tree.cells[n].parent && n.red == t.tree.cells[n].red
    {
      if n == x {
      } else if n == y {
      } else if n == b {
      } else if n == p {
      } else {
        assert n !in actors;
        assert t.tree.cells[n] == before.cells[n];
      }
    }
  }

  /** The statements of the right rotation; `actors` are the nodes they touch. */
  method RotateRightLinks(x: Node, t: Root, ghost actors: set<Node>)
    requires x.left != null && x in actors && x.left in actors
    requires x.parent != null ==> x.parent in actors && x.parent != x.left.right
    requires x.left.right != null ==> x.left.right in actors
    requires x != x.left && x.parent != x && x.parent != x.left && x.left.right != x && x.left.right != x.left
    modifies t`rbNode, actors`left, actors`right, actors`parent
    ensures var y, p := old(x.left), old(x.parent);
            var b := old(y.right);
            && x.right == old(x.right) && x.left == b && x.parent == y
            && y.right == x && y.left == old(y.left) && y.parent == p
            && (b != null ==> b.left == old(b.left) && b.right == old(b.right) && b.parent == x)
            && t.rbNode == (if p == null then y else old(t.rbNode))
            && (p != null ==> p.parent == old(p.parent)
                              && p.right == (if old(p.right) == x then y else old(p.right))
                              && p.left == (if old(p.right) == x then old(p.left) else y))
  {
    var left := x.left;
    var parent := x.parent;
    x.left := left.right;
    if x.left != null {
      left.right.parent := x;
    }
    left.right := x;
    left.parent := parent;
    if parent != null {
      if x == parent.right {
        parent.right := left;
      } else {
        parent.left := left;
      }
    } else {
      t.rbNode := left;
    }
    x.parent := left;
  }

  method RotateRight(x: Node, t: Root)
    requires t.Repr() && t.tree.Shape() && CanRotate(t.tree, x, false)
    modifies t, t.tree.cells.Keys`left, t.tree.cells.Keys`right, t.tree.cells.Keys`parent
    ensures t.Repr()
    ensures t.tree == Rotated(old(t.tree), x, false)
  {
    ghost var before := t.tree;
    RotatedActors(before, x, false);
    ghost var y, p := x.left, x.parent;
    ghost var b := y.right;
    ghost var actors := set n | n in before.cells && (n == x || n == y || n == b || n == p);
    RotateRightLinks(x, t, actors);
    t.tree := Rotated(before, x, false);
    forall n | n in before.cells
      ensures n.left == t.tree.cells[n].left && n.right == t.tree.cells[n].right
      ensures n.parent == t.tree.cells[n].parent && n.red == t.tree.cells[n].red
    {
      if n == x {
      } else if n == y {
      } else if n == b {
      } else if n == p {
      } else {
        assert n !in actors;
        assert t.tree.cells[n] == before.cells[n];
      }
    }
  }
}
