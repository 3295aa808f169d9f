/** Taking a node out of the tree, on the abstract value: a node with at most one child is dropped;
    a node with two children is replaced by its successor, which is dropped first. */
module RbDrop {
  import opened RbTree

  // ----- a node with at most one child

  ghost predicate CanDrop(t: Tree, z: Node) {
    t.Shape() && z in t.cells && t.LinksOk(z) && (t.cells[z].left == null || t.cells[z].right == null)
  }

  ghost function OnlyKid(t: Tree, z: Node): Node?
    requires z in t.cells
  {
    if t.cells[z].left == null then t.cells[z].right else t.cells[z].left
  }

  /** Index `x` after the element at index `p` has been taken out. */
  ghost function Shift(x: int, p: int): int {
    if x > p then x - 1 else x
  }

  ghost function DroppedCell(t: Tree, z: Node, n: Node): Cell
    requires z in t.cells && n in t.cells
  {
    var p, c := t.cells[z].pos, t.cells[n];
    var c' := c.(pos := Shift(c.pos, p), lo := Shift(c.lo, p), hi := Shift(c.hi, p));
    if n == OnlyKid(t, z) then c'.(parent := t.cells[z].parent)
    else if n == t.cells[z].parent then c'.WithKid(c.left == z, OnlyKid(t, z))
    else c'
  }

  ghost function Dropped(t: Tree, z: Node): Tree
    requires CanDrop(t, z)
  {
    var p := t.cells[z].pos;
    Tree(if t.cells[z].parent == null then OnlyKid(t, z) else t.root,
         map n | n in t.cells && n != z :: DroppedCell(t, z, n),
         t.order[..p] + t.order[p + 1..])
  }

  lemma DroppedActors(t: Tree, z: Node)
    requires CanDrop(t, z)
    ensures var c, q := OnlyKid(t, z), t.cells[z].parent;
            && c != z && q != z && (c != null ==> c != q && t.LinksOk(c) && t.cells[c].parent == z)
            && (q != null ==> t.LinksOk(q))
  {
    var c, q := OnlyKid(t, z), t.cells[z].parent;
    assert c != null ==> t.LinksOk(c);
    assert q != null ==> t.LinksOk(q);
  }

  lemma DroppedUp(t: Tree, z: Node, n: Node, e: bool)
    requires CanDrop(t, z) && n in t.cells && n != z && t.LinksOk(n) && t.cells[n].Kid(e) == z
    ensures Dropped(t, z).KidOk(n, e)
  {
    DroppedActors(t, z);
    var t', c := Dropped(t, z), OnlyKid(t, z);
    assert n == t.cells[z].parent;
    assert t'.cells[n].Kid(e) == c;
    assert t.KidOk(z, true) && t.KidOk(z, false) && t.KidOk(n, e);
    if c == null {
      assert t.cells[z].lo == t.cells[z].pos && t.cells[z].hi == t.cells[z].pos + 1;
    } else {
      assert t'.cells[c].parent == n;
    }
  }

  lemma DroppedCoords(t: Tree, z: Node, n: Node)
    requires CanDrop(t, z) && n in t.cells && n != z
    ensures var c, p := Dropped(t, z).cells[n], t.cells[z].pos;
            c.pos == Shift(t.cells[n].pos, p) && c.lo == Shift(t.cells[n].lo, p) && c.hi == Shift(t.cells[n].hi, p)
  {
  }

  lemma DroppedAbove(t: Tree, z: Node, k: Node)
    requires CanDrop(t, z) && k in t.cells && k != z && k != OnlyKid(t, z)
    ensures Dropped(t, z).cells[k].parent == t.cells[k].parent
  {
    hide Tree.Shape, Tree.LinksOk;
  }

  lemma DroppedBelow(t: Tree, z: Node, n: Node, e: bool)
    requires CanDrop(t, z) && n in t.cells && n != z && n != OnlyKid(t, z) && t.cells[n].Kid(e) != z
    requires n == t.cells[z].parent ==> t.cells[n].Kid(!e) == z
    ensures Dropped(t, z).cells[n].Kid(e) == t.cells[n].Kid(e)
  {
    hide Tree.Shape, Tree.LinksOk;
  }

  lemma DroppedStays(t: Tree, z: Node, n: Node, e: bool)
    requires CanDrop(t, z) && n in t.cells && n != z && t.LinksOk(n) && t.cells[n].Kid(e) != z
    ensures Dropped(t, z).cells[n].Kid(e) == t.cells[n].Kid(e)
    ensures var k := t.cells[n].Kid(e); k != null ==> k in t.cells && Dropped(t, z).cells[k].parent == n
  {
    DroppedActors(t, z);
    hide Dropped, Tree.Shape, Tree.PosOk;
    var k := t.cells[n].Kid(e);
    assert t.KidOk(n, e);
    if n != OnlyKid(t, z) {
      DroppedBelow(t, z, n, e);
    } else {
      DroppedOnly(t, z, e);
    }
    if k != null {
      DroppedAbove(t, z, k);
    }
  }

  lemma DroppedOnly(t: Tree, z: Node, e: bool)
    requires CanDrop(t, z) && OnlyKid(t, z) != null && OnlyKid(t, z) in t.cells && OnlyKid(t, z) != z
    ensures Dropped(t, z).cells[OnlyKid(t, z)].Kid(e) == t.cells[OnlyKid(t, z)].Kid(e)
  {
    hide Tree.Shape, Tree.LinksOk;
  }

  lemma DroppedKid(t: Tree, z: Node, n: Node, e: bool)
    requires CanDrop(t, z) && n in t.cells && n != z && t.LinksOk(n)
    ensures Dropped(t, z).KidOk(n, e)
  {
    var k := t.cells[n].Kid(e);
    if k == z {
      DroppedUp(t, z, n, e);
    } else {
      DroppedStays(t, z, n, e);
      DroppedCoords(t, z, n);
      if k != null {
        DroppedCoords(t, z, k);
      }
      assert t.PosOk(n) && t.PosOk(z) && t.KidOk(n, e);
    }
  }

  lemma DroppedParent(t: Tree, z: Node, n: Node)
    requires CanDrop(t, z) && n in t.cells && n != z && t.LinksOk(n)
    ensures Dropped(t, z).ParentOk(n)
  {
    DroppedActors(t, z);
    var t' := Dropped(t, z);
    var q := t.cells[n].parent;
    if n == OnlyKid(t, z) {
    } else {
      assert t'.cells[n].parent == q;
      assert q != z;
      if q != null {
        assert t.LinksOk(q);
        if q == t.cells[z].parent {
          assert t.cells[q].left == z ==> t.cells[q].right == n;
        } else {
          assert t'.cells[q].left == t.cells[q].left && t'.cells[q].right == t.cells[q].right;
        }
      }
    }
  }

  lemma DroppedPos(t: Tree, z: Node, n: Node)
    requires CanDrop(t, z) && n in t.cells && n != z && t.LinksOk(n)
    ensures Dropped(t, z).PosOk(n)
  {
    hide DroppedCell, Tree.Shape, Tree.KidOk, Tree.ParentOk;
    DroppedCoords(t, z, n);
    var p, c := t.cells[z].pos, t.cells[n];
    assert c.pos != p;
    assert Dropped(t, z).order[if c.pos < p then c.pos else c.pos - 1] == n;
  }

  lemma DroppedRange(t: Tree, z: Node, n: Node)
    requires CanDrop(t, z) && n in t.cells && n != z && t.LinksOk(n)
    ensures Dropped(t, z).RangeOk(n)
  {
    assert t.RangeOk(n) && t.PosOk(z);
    hide DroppedCell, Tree.Shape, Tree.KidOk, Tree.ParentOk;
    DroppedCoords(t, z, n);
  }

  lemma DroppedRoot(t: Tree, z: Node)
    requires CanDrop(t, z)
    ensures Dropped(t, z).RootOk()
  {
    DroppedActors(t, z);
    assert t.root in t.cells && t.LinksOk(t.root) && t.RangeOk(z);
    hide DroppedCell, Tree.Shape;
    var r := Dropped(t, z).root;
    if r != null {
      DroppedCoords(t, z, r);
      DroppedTop(t, z, r);
    }
  }

  lemma DroppedTop(t: Tree, z: Node, r: Node)
    requires CanDrop(t, z) && r in t.cells && r != z
    ensures Dropped(t, z).cells[r].parent == if r == OnlyKid(t, z) then t.cells[z].parent else t.cells[r].parent
  {
    hide Tree.Shape, Tree.LinksOk;
  }

  lemma DroppedOrder(t: Tree, z: Node)
    requires CanDrop(t, z)
    ensures Dropped(t, z).OrderOk()
  {
    hide DroppedCell, Tree.KidOk, Tree.ParentOk;
    var t', p := Dropped(t, z), t.cells[z].pos;
    forall i | 0 <= i < |t'.order|
      ensures t'.order[i] in t'.cells && t'.cells[t'.order[i]].pos == i
    {
      var j := if i < p then i else i + 1;
      assert t'.order[i] == t.order[j];
      DroppedCoords(t, z, t.order[j]);
    }
  }

  lemma DroppedShape(t: Tree, z: Node)
    requires CanDrop(t, z)
    ensures Dropped(t, z).Shape()
  {
    var t' := Dropped(t, z);
    forall n | n in t'.cells
      ensures t'.LinksOk(n) && t'.RangeOk(n)
    {
      assert t.LinksOk(n);
      DroppedKid(t, z, n, true);
      DroppedKid(t, z, n, false);
      DroppedParent(t, z, n);
      DroppedPos(t, z, n);
      DroppedRange(t, z, n);
    }
    DroppedRoot(t, z);
    DroppedOrder(t, z);
  }

  /** The parent of a black dropped node has one black node too few below it, on the node's side. */
  ghost function HoleOf(t: Tree, z: Node): Node?
    requires z in t.cells
  {
    if t.cells[z].red then null else t.cells[z].parent
  }

  ghost predicate SideOf(t: Tree, z: Node)
    requires z in t.cells && t.LinksOk(z)
  {
    t.cells[z].parent != null && t.cells[t.cells[z].parent].left == z
  }

  lemma DroppedRank(t: Tree, z: Node, n: Node)
    requires CanDrop(t, z) && n in t.cells && n != z
    ensures Dropped(t, z).Rank(n) == t.Rank(n) && Dropped(t, z).cells[n].bh == t.cells[n].bh
    ensures Dropped(t, z).cells[n].red == t.cells[n].red
  {
  }

  lemma DroppedSide(t: Tree, z: Node, n: Node, e: bool)
    requires CanDrop(t, z) && n in t.cells && n != z && t.LinksOk(n) && t.SideOk(n, e, null, true)
    requires t.BlackOk(z, null, true)
    ensures Dropped(t, z).KidOk(n, e) && Dropped(t, z).SideOk(n, e, HoleOf(t, z), SideOf(t, z))
  {
    var t', k, c := Dropped(t, z), t.cells[n].Kid(e), OnlyKid(t, z);
    DroppedKid(t, z, n, e);
    DroppedRank(t, z, n);
    DroppedActors(t, z);
    assert t.KidOk(n, e) && t.KidOk(n, !e);
    if k == z {
      assert n == t.cells[z].parent && t'.cells[n].Kid(e) == c && SideOf(t, z) == e;
      if c != null { DroppedRank(t, z, c); }
      assert t.SideOk(z, true, null, true) && t.SideOk(z, false, null, true);
    } else {
      DroppedStays(t, z, n, e);
      if k != null { DroppedRank(t, z, k); }
      assert n == t.cells[z].parent ==> SideOf(t, z) == !e;
    }
  }

  lemma DroppedBlack(t: Tree, z: Node)
    requires CanDrop(t, z) && t.AllBlack(null, true)
    ensures Dropped(t, z).AllBlack(HoleOf(t, z), SideOf(t, z))
  {
    DroppedShape(t, z);
    assert t.BlackOk(z, null, true);
    forall n | n in t.cells && n != z
      ensures Dropped(t, z).BlackOk(n, HoleOf(t, z), SideOf(t, z))
    {
      assert t.LinksOk(n) && t.BlackOk(n, null, true);
      DroppedSide(t, z, n, true);
      DroppedSide(t, z, n, false);
      DroppedRank(t, z, n);
    }
  }

  lemma DroppedRed(t: Tree, z: Node, n: Node)
    requires CanDrop(t, z) && n in t.cells && n != z && t.LinksOk(n) && t.RedOk(n)
    requires n == OnlyKid(t, z) ==> t.RedOk(z) && (t.cells[z].red || !t.cells[n].red)
    ensures Dropped(t, z).LinksOk(n) && Dropped(t, z).RedOk(n)
  {
    DroppedShape(t, z);
    DroppedActors(t, z);
    var t', p := Dropped(t, z), t.cells[n].parent;
    assert t'.LinksOk(n);
    DroppedRank(t, z, n);
    if n == OnlyKid(t, z) {
    } else {
      assert t'.cells[n].parent == p && p != z;
      if p != null { DroppedRank(t, z, p); }
    }
  }

  // ----- another node in the place of one

  ghost function Sub(z: Node, y: Node, n: Node?): Node? {
    if n == z then y else n
  }

  ghost predicate CanRename(t: Tree, z: Node, y: Node) {
    t.Shape() && z in t.cells && t.PosOk(z) && y !in t.cells
  }

  ghost function RenamedCell(t: Tree, z: Node, y: Node, n: Node): Cell
    requires z in t.cells && (n == y || n in t.cells)
  {
    var c := t.cells[if n == y then z else n];
    c.(left := Sub(z, y, c.left), right := Sub(z, y, c.right), parent := Sub(z, y, c.parent))
  }

  /** `y` with all that belonged to `z`: its links, its colour and its place. */
  ghost function Renamed(t: Tree, z: Node, y: Node): Tree
    requires CanRename(t, z, y)
  {
    Tree(Sub(z, y, t.root),
         map n | n in t.cells.Keys - {z} + {y} :: RenamedCell(t, z, y, n),
         t.order[t.cells[z].pos := y])
  }

  lemma RenamedLinks(t: Tree, z: Node, y: Node, n: Node)
    requires CanRename(t, z, y) && n in t.cells && t.LinksOk(n)
    ensures var m := if n == z then y else n;
            m in Renamed(t, z, y).cells && Renamed(t, z, y).LinksOk(m) && Renamed(t, z, y).RangeOk(m)
  {
    assert t.RangeOk(n);
    var t', m := Renamed(t, z, y), if n == z then y else n;
    assert t'.PosOk(m);
    assert t'.KidOk(m, true);
    assert t'.KidOk(m, false);
    var p := t.cells[n].parent;
    assert p != null ==> t'.cells[Sub(z, y, p)] == RenamedCell(t, z, y, Sub(z, y, p));
    assert t'.ParentOk(m);
  }

  lemma RenamedShape(t: Tree, z: Node, y: Node)
    requires CanRename(t, z, y)
    ensures Renamed(t, z, y).Shape()
  {
    var t' := Renamed(t, z, y);
    forall m | m in t'.cells
      ensures t'.LinksOk(m) && t'.RangeOk(m)
    {
      var n := if m == y then z else m;
      assert t.LinksOk(n);
      RenamedLinks(t, z, y, n);
    }
    assert t.root != null;
    forall i | 0 <= i < |t'.order|
      ensures t'.order[i] in t'.cells && t'.cells[t'.order[i]].pos == i
    {
      assert t.order[i] in t.cells && t.cells[t.order[i]].pos == i;
    }
  }

  lemma RenamedRank(t: Tree, z: Node, y: Node, n: Node?)
    requires CanRename(t, z, y) && (n == null || n in t.cells)
    ensures var m := Sub(z, y, n);
            && (m == null || m in Renamed(t, z, y).cells)
            && Renamed(t, z, y).Rank(m) == t.Rank(n) && Renamed(t, z, y).Black(m) == t.Black(n)
  {
  }

  lemma RenamedBlackAt(t: Tree, z: Node, y: Node, n: Node, hole: Node?, side: bool)
    requires CanRename(t, z, y) && n in t.cells && t.LinksOk(n) && t.BlackOk(n, hole, side) && hole != y
    ensures var m := if n == z then y else n;
            && m in Renamed(t, z, y).cells && Renamed(t, z, y).LinksOk(m)
            && Renamed(t, z, y).BlackOk(m, Sub(z, y, hole), side)
  {
    RenamedLinks(t, z, y, n);
    RenamedRank(t, z, y, t.cells[n].left);
    RenamedRank(t, z, y, t.cells[n].right);
    var m := if n == z then y else n;
    assert Renamed(t, z, y).cells[m] == RenamedCell(t, z, y, m);
  }

  lemma RenamedBlack(t: Tree, z: Node, y: Node, hole: Node?, side: bool)
    requires CanRename(t, z, y) && t.AllBlack(hole, side) && hole != y
    ensures Renamed(t, z, y).AllBlack(Sub(z, y, hole), side)
  {
    RenamedShape(t, z, y);
    forall m | m in Renamed(t, z, y).cells
      ensures Renamed(t, z, y).BlackOk(m, Sub(z, y, hole), side)
    {
      var n := if m == y then z else m;
      assert t.LinksOk(n) && t.BlackOk(n, hole, side);
      RenamedBlackAt(t, z, y, n, hole, side);
    }
  }

  lemma RenamedRed(t: Tree, z: Node, y: Node, n: Node)
    requires CanRename(t, z, y) && n in t.cells && t.LinksOk(n) && t.RedOk(n)
    ensures var m := if n == z then y else n;
            m in Renamed(t, z, y).cells && Renamed(t, z, y).LinksOk(m) && Renamed(t, z, y).RedOk(m)
  {
    RenamedLinks(t, z, y, n);
    RenamedRank(t, z, y, t.cells[n].parent);
    var m := if n == z then y else n;
    assert Renamed(t, z, y).cells[m] == RenamedCell(t, z, y, m);
  }
}
