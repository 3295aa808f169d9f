/** `rb_erase`: unlinks a node and repairs the colours. */
module RbErase {
  import opened RbTree
  import opened RbColour
  import opened RbSpine
  import opened RbDrop
  import opened RbEraseColor

  /** A tree with a black node missing above or at `child` is what `__rb_erase_color` repairs. */
  ghost predicate HasHole(t: Tree, child: Node?, parent: Node?, side: bool, was: Tree, place: int) {
    && t.AllBlack(parent, side)
    && (child != null ==> child in t.cells && t.LinksOk(child) && t.cells[child].parent == parent)
    && (forall n {:trigger t.RedOk(n)} :: n in t.cells && n != child ==> t.LinksOk(n) && t.RedOk(n))
    && (if parent == null then child == t.root
        else parent in t.cells && t.LinksOk(parent) && t.cells[parent].Kid(side) == child)
    && (t.root == child || t.Black(t.root))
    && Spine(was, t, place, null, null)
    && (parent != null ==> AtFlaw(t, child, parent, place))
  }

  lemma HoleOpens(t: Tree, child: Node?, parent: Node?, side: bool, was: Tree, place: int)
    requires HasHole(t, child, parent, side, was, place)
    ensures Underway(t, child, parent, side, was, place)
  {
    if child != null && t.cells[child].red {
      if parent != null {
        assert t.KidOk(parent, !side);
      } else {
        forall n | n in t.cells
          ensures t.BlackOk(n, null, IsLeft(t, child))
        {
          assert t.LinksOk(n) && t.BlackOk(n, null, side);
        }
      }
      Filled(t, child);
      SpineIsFringe(was, t, place, true);
    }
  }

  /** Where the repair starts: at the child that moved up, else at the parent. */
  ghost function PlaceAt(t: Tree, child: Node?, parent: Node?): int
    requires (child == null || child in t.cells) && (parent == null || parent in t.cells)
  {
    if child != null then t.cells[child].pos else if parent != null then t.cells[parent].pos else 0
  }

  // ----- a node with at most one child

  lemma DroppedSlot(t: Tree, z: Node)
    requires CanDrop(t, z)
    ensures var t', c, p := Dropped(t, z), OnlyKid(t, z), t.cells[z].parent;
            && t'.Shape()
            && (c != null ==> c in t'.cells && t'.LinksOk(c) && t'.cells[c].parent == p)
            && (if p == null then c == t'.root
                else p in t'.cells && t'.LinksOk(p) && t'.cells[p].Kid(SideOf(t, z)) == c && t'.root == t.root)
  {
    DroppedShape(t, z);
    DroppedActors(t, z);
    var t', c, p := Dropped(t, z), OnlyKid(t, z), t.cells[z].parent;
    assert c != null ==> t'.LinksOk(c);
    assert p != null ==> t'.LinksOk(p);
  }

  lemma DroppedSpine(t: Tree, z: Node)
    requires CanDrop(t, z)
    ensures var t', c, p := Dropped(t, z), OnlyKid(t, z), t.cells[z].parent;
            && (c == null || c in t'.cells) && (p == null || p in t'.cells)
            && Spine(t, t', PlaceAt(t', c, p), null, null)
  {
    DroppedSlot(t, z);
    var t', c, p := Dropped(t, z), OnlyKid(t, z), t.cells[z].parent;
    forall n | n in t'.cells
      ensures OnSpine(t, t', PlaceAt(t', c, p), n)
    {
      if n == p {
        assert t'.PosOk(p);
      } else {
        assert t'.cells[n].left == t.cells[n].left && t'.cells[n].right == t.cells[n].right;
      }
    }
  }

  lemma DropReds(t: Tree, z: Node, n: Node)
    requires t.Valid() && CanDrop(t, z) && n in t.cells && n != z && (n != OnlyKid(t, z) || t.cells[z].red)
    ensures Dropped(t, z).LinksOk(n) && Dropped(t, z).RedOk(n)
  {
    assert t.LinksOk(n) && t.RedOk(n) && t.RedOk(z);
    DroppedRed(t, z, n);
  }

  /** What is left when a node has been taken out from between `p` and `c`: a hole, or a red-black tree if the
      node was `red`. */
  lemma TakenOut(t: Tree, c: Node?, p: Node?, red: bool, side: bool, was: Tree, place: int)
    requires t.AllBlack(if red then null else p, side)
    requires c != null ==> c in t.cells && t.LinksOk(c) && t.cells[c].parent == p
    requires if p == null then c == t.root else p in t.cells && t.LinksOk(p) && t.cells[p].Kid(side) == c
    requires forall n {:trigger t.RedOk(n)} :: n in t.cells && (n != c || red) ==> t.LinksOk(n) && t.RedOk(n)
    requires (t.root == null || t.root in t.cells) && (t.Black(t.root) || (t.root == c && !red))
    requires place == PlaceAt(t, c, p) && Spine(was, t, place, null, null)
    ensures if red then Done(t, was, place) else HasHole(t, c, p, side, was, place)
  {
    if red {
      SpineIsFringe(was, t, place, true);
      SideFree(t, side);
    }
  }

  /** The root stays black, unless the only child of a black root has taken its place. */
  lemma DroppedRootBlack(t: Tree, z: Node)
    requires t.Valid() && CanDrop(t, z)
    ensures var t', c := Dropped(t, z), OnlyKid(t, z);
            && (t'.root == null || t'.root in t'.cells)
            && (t'.Black(t'.root) || (t'.root == c && !t.cells[z].red))
  {
    DroppedSlot(t, z);
    assert t.RedOk(z);
    var r := Dropped(t, z).root;
    if r != null {
      DroppedRank(t, z, r);
      assert t.RedOk(r);
    }
  }

  /** Dropping a black node leaves a hole, dropping a red one leaves a red-black tree. */
  lemma DropOpens(t: Tree, z: Node)
    requires t.Valid() && CanDrop(t, z)
    ensures var t', c, p := Dropped(t, z), OnlyKid(t, z), t.cells[z].parent;
            && (c == null || c in t'.cells) && (p == null || p in t'.cells)
            && if t.cells[z].red then Done(t', t, PlaceAt(t', c, p))
               else HasHole(t', c, p, SideOf(t, z), t, PlaceAt(t', c, p))
  {
    var t', c, p := Dropped(t, z), OnlyKid(t, z), t.cells[z].parent;
    DroppedSlot(t, z);
    DroppedBlack(t, z);
    DroppedSpine(t, z);
    forall n | n in t'.cells && (n != c || t.cells[z].red)
      ensures t'.LinksOk(n) && t'.RedOk(n)
    {
      DropReds(t, z, n);
    }
    DroppedRootBlack(t, z);
    TakenOut(t', c, p, t.cells[z].red, SideOf(t, z), t, PlaceAt(t', c, p));
  }

  // ----- a node with two children: its successor `y` is dropped and then takes its place

  ghost predicate IsSuccessor(t: Tree, z: Node, y: Node) {
    && t.Shape() && z in t.cells && y in t.cells && t.LinksOk(z) && t.LinksOk(y)
    && t.cells[z].left != null && t.cells[z].right != null && y != z
    && t.cells[y].left == null && t.cells[y].pos == t.cells[z].pos + 1
    && var q := t.cells[y].parent;
    && q != null && (q == z || (t.cells[q].lo == t.cells[z].pos + 1 && t.cells[q].hi <= t.cells[z].hi))
  }

  lemma SuccessorDrops(t: Tree, z: Node, y: Node)
    requires IsSuccessor(t, z, y)
    ensures CanDrop(t, y) && CanRename(Dropped(t, y), z, y)
  {
    DroppedShape(t, y);
    assert Dropped(t, y).LinksOk(z);
  }

  ghost function Spliced(t: Tree, z: Node, y: Node): Tree
    requires IsSuccessor(t, z, y)
  {
    SuccessorDrops(t, z, y);
    Renamed(Dropped(t, y), z, y)
  }

  lemma SplicedSlot(t: Tree, z: Node, y: Node)
    requires IsSuccessor(t, z, y)
    ensures var t', c, p := Spliced(t, z, y), t.cells[y].right, Sub(z, y, t.cells[y].parent);
            && t'.Shape() && c != z
            && (c != null ==> c in t'.cells && t'.LinksOk(c) && t'.cells[c].parent == p)
            && p != null && p in t'.cells && t'.LinksOk(p) && t'.cells[p].Kid(SideOf(t, y)) == c
            && t'.root == Sub(z, y, t.root)
  {
    SuccessorDrops(t, z, y);
    DroppedSlot(t, y);
    var t1, c, q := Dropped(t, y), t.cells[y].right, t.cells[y].parent;
    assert c != null ==> t.LinksOk(c);
    RenamedShape(t1, z, y);
    RenamedLinks(t1, z, y, q);
    if c != null {
      RenamedLinks(t1, z, y, c);
    }
  }

  /** `y` in its new place is above the spot it was taken from. */
  lemma SplicedHolds(t: Tree, z: Node, y: Node)
    requires IsSuccessor(t, z, y)
    ensures var t', c, p := Spliced(t, z, y), t.cells[y].right, Sub(z, y, t.cells[y].parent);
            && (c == null || c in t'.cells) && p in t'.cells && y in t'.cells
            && t'.Holds(y, PlaceAt(t', c, p)) && t'.Holds(p, PlaceAt(t', c, p))
            && (c != null ==> t'.Holds(c, PlaceAt(t', c, p)))
  {
    SplicedSlot(t, z, y);
    SuccessorDrops(t, z, y);
    var t1, t', c, q := Dropped(t, y), Spliced(t, z, y), t.cells[y].right, t.cells[y].parent;
    assert t.LinksOk(q) && t.KidOk(y, true) && t.KidOk(y, false);
    if c != null {
      assert t'.PosOk(c) && t.LinksOk(c);
      DroppedCoords(t, y, c);
    }
    DroppedCoords(t, y, z);
    DroppedCoords(t, y, q);
    assert t'.cells[y] == RenamedCell(t1, z, y, y);
  }

  lemma SplicedOnSpine(t: Tree, z: Node, y: Node, n: Node, place: int)
    requires IsSuccessor(t, z, y) && n in Spliced(t, z, y).cells && Spliced(t, z, y).Shape()
    requires var t', p := Spliced(t, z, y), Sub(z, y, t.cells[y].parent);
             y in t'.cells && p in t'.cells && t'.Holds(y, place) && t'.Holds(p, place)
    ensures OnSpine(t, Spliced(t, z, y), place, n)
  {
    if n == y || n == Sub(z, y, t.cells[y].parent) {
    } else if n == t.cells[z].parent {
      SplicedCell(t, z, y, y);
      ParentHolds(Spliced(t, z, y), y, place);
    } else {
      SplicedCell(t, z, y, n);
    }
  }

  lemma SplicedSpine(t: Tree, z: Node, y: Node)
    requires IsSuccessor(t, z, y)
    ensures var t', c, p := Spliced(t, z, y), t.cells[y].right, Sub(z, y, t.cells[y].parent);
            && (c == null || c in t'.cells) && p in t'.cells
            && Spine(t, t', PlaceAt(t', c, p), null, null)
  {
    SplicedHolds(t, z, y);
    SplicedSlot(t, z, y);
    var t', c, p := Spliced(t, z, y), t.cells[y].right, Sub(z, y, t.cells[y].parent);
    forall n | n in t'.cells
      ensures OnSpine(t, t', PlaceAt(t', c, p), n)
    {
      SplicedOnSpine(t, z, y, n, PlaceAt(t', c, p));
    }
  }

  lemma SplicedReds(t: Tree, z: Node, y: Node, m: Node)
    requires t.Valid() && IsSuccessor(t, z, y) && m in Spliced(t, z, y).cells && (m != t.cells[y].right || t.cells[y].red)
    ensures Spliced(t, z, y).LinksOk(m) && Spliced(t, z, y).RedOk(m)
  {
    SuccessorDrops(t, z, y);
    var n := if m == y then z else m;
    assert t.cells[y].right != null ==> t.LinksOk(t.cells[y].right);
    DropReds(t, y, n);
    RenamedRed(Dropped(t, y), z, y, n);
  }

  lemma SplicedRootBlack(t: Tree, z: Node, y: Node)
    requires t.Valid() && IsSuccessor(t, z, y)
    ensures var t' := Spliced(t, z, y); t'.root in t'.cells && t'.Black(t'.root)
  {
    SuccessorDrops(t, z, y);
    SplicedSlot(t, z, y);
    DroppedRank(t, y, t.root);
    RenamedRank(Dropped(t, y), z, y, t.root);
  }

  lemma SplicedBlack(t: Tree, z: Node, y: Node)
    requires t.Valid() && IsSuccessor(t, z, y)
    ensures Spliced(t, z, y).AllBlack(if t.cells[y].red then null else Sub(z, y, t.cells[y].parent), SideOf(t, y))
  {
    SuccessorDrops(t, z, y);
    DroppedBlack(t, y);
    RenamedBlack(Dropped(t, y), z, y, HoleOf(t, y), SideOf(t, y));
  }

  lemma SpliceOpens(t: Tree, z: Node, y: Node)
    requires t.Valid() && IsSuccessor(t, z, y)
    ensures var t', c, p := Spliced(t, z, y), t.cells[y].right, Sub(z, y, t.cells[y].parent);
            && (c == null || c in t'.cells) && p in t'.cells
            && if t.cells[y].red then Done(t', t, PlaceAt(t', c, p))
               else HasHole(t', c, p, SideOf(t, y), t, PlaceAt(t', c, p))
  {
    SplicedSlot(t, z, y);
    SplicedSpine(t, z, y);
    SplicedBlack(t, z, y);
    SplicedRootBlack(t, z, y);
    var t', c, p := Spliced(t, z, y), t.cells[y].right, Sub(z, y, t.cells[y].parent);
    forall n | n in t'.cells && (n != c || t.cells[y].red)
      ensures t'.LinksOk(n) && t'.RedOk(n)
    {
      SplicedReds(t, z, y, n);
    }
    TakenOut(t', c, p, t.cells[y].red, SideOf(t, y), t, PlaceAt(t', c, p));
  }

  /** What the two ways leave of the in-order sequence. */
  ghost function Without(s: seq<Node>, i: int): seq<Node> {
    if 0 <= i < |s| then s[..i] + s[i + 1..] else s
  }

  lemma SplicedOrder(t: Tree, z: Node, y: Node)
    requires IsSuccessor(t, z, y)
    ensures t.PosOk(z) && Spliced(t, z, y).order == Without(t.order, t.cells[z].pos)
    ensures Spliced(t, z, y).cells.Keys == t.cells.Keys - {z}
  {
    SuccessorDrops(t, z, y);
    DroppedCoords(t, y, z);
    hide DroppedCell, RenamedCell, Tree.Shape, Tree.KidOk, Tree.ParentOk;
  }

  // ----- the code

  /** The statements that unlink a node with at most one child. */
  method UnlinkLinks(node: Node, t: Root, ghost actors: set<Node>) returns (child: Node?, parent: Node?, red: bool)
    requires (node.left != null ==> node.left in actors) && (node.right != null ==> node.right in actors)
    requires node.parent != null ==> node.parent in actors && node.parent != node && node.parent !in {node.left, node.right}
    requires node.left != node && node.right != node
    modifies t`rbNode, actors`left, actors`right, actors`parent
    ensures child == if old(node.left) == null then old(node.right) else old(node.left)
    ensures parent == old(node.parent) && red == node.red
    ensures t.rbNode == if parent == null then child else old(t.rbNode)
    ensures forall n | n in actors && n != node ::
              && n.left == (if n == parent && old(n.left) == node then child else old(n.left))
              && n.right == (if n == parent && old(n.left) != node then child else old(n.right))
              && n.parent == (if n == child then parent else old(n.parent))
  {
    child := if node.left == null then node.right else node.left;
    parent := node.parent;
    red := node.red;
    if child != null {
      child.parent := parent;
    }
    if parent != null {
      if parent.left == node {
        parent.left := child;
      } else {
        parent.right := child;
      }
    } else {
      t.rbNode := child;
    }
  }

  lemma DroppedLinks(t: Tree, z: Node, n: Node)
    requires CanDrop(t, z) && n in t.cells && n != z
    ensures var c, cn, q := Dropped(t, z).cells[n], t.cells[n], t.cells[z].parent;
            && c.left == (if n == q && cn.left == z then OnlyKid(t, z) else cn.left)
            && c.right == (if n == q && cn.left != z then OnlyKid(t, z) else cn.right)
            && c.parent == (if n == OnlyKid(t, z) then q else cn.parent) && c.red == cn.red
  {
    DroppedActors(t, z);
    assert Dropped(t, z).cells[n] == DroppedCell(t, z, n);
    hide Tree.Shape, Tree.LinksOk;
  }

  lemma DropActors(t: Tree, z: Node)
    requires CanDrop(t, z)
    ensures var c := t.cells[z];
            && (c.left != null ==> c.left in t.cells) && (c.right != null ==> c.right in t.cells)
            && (c.parent != null ==> c.parent in t.cells && c.parent != z && c.parent !in {c.left, c.right})
            && c.left != z && c.right != z
  {
    DroppedActors(t, z);
  }

  /** The statements make the links those of the tree without `node`. */
  method UnlinkTo(node: Node, t: Root) returns (child: Node?, parent: Node?, red: bool)
    requires t.Repr() && CanDrop(t.tree, node)
    modifies t`rbNode, t.tree.cells.Keys`left, t.tree.cells.Keys`right, t.tree.cells.Keys`parent
    ensures t.rbNode == Dropped(t.tree, node).root
    ensures forall n | n in Dropped(t.tree, node).cells ::
              var c := Dropped(t.tree, node).cells[n];
              n.left == c.left && n.right == c.right && n.parent == c.parent && n.red == c.red
    ensures child == OnlyKid(t.tree, node)
    ensures parent == t.tree.cells[node].parent && red == t.tree.cells[node].red
  {
    DropActors(t.tree, node);
    child, parent, red := UnlinkLinks(node, t, t.tree.cells.Keys);
    forall n | n in Dropped(t.tree, node).cells
      ensures var c := Dropped(t.tree, node).cells[n];
              n.left == c.left && n.right == c.right && n.parent == c.parent && n.red == c.red
    {
      DroppedLinks(t.tree, node, n);
    }
  }

  method UnlinkOne(node: Node, t: Root) returns (child: Node?, parent: Node?, red: bool)
    requires t.Repr() && CanDrop(t.tree, node)
    modifies t, t.tree.cells.Keys`left, t.tree.cells.Keys`right, t.tree.cells.Keys`parent
    ensures t.Repr() && t.tree == Dropped(old(t.tree), node)
    ensures child == OnlyKid(old(t.tree), node)
    ensures parent == old(t.tree.cells[node]).parent && red == old(t.tree.cells[node]).red
  {
    child, parent, red := UnlinkTo(node, t);
    t.tree := Dropped(t.tree, node);
  }

  method FindSuccessor(old_: Node, t: Root) returns (node: Node)
    requires t.Repr() && t.tree.Shape() && old_ in t.tree.cells && t.tree.LinksOk(old_)
    requires t.tree.cells[old_].left != null && t.tree.cells[old_].right != null
    ensures IsSuccessor(t.tree, old_, node)
  {
    ghost var c := t.tree.cells;
    node := old_.right;
    assert t.tree.LinksOk(node);
    while node.left != null
      invariant node in c && t.tree.LinksOk(node) && node != old_ && c[node].lo == c[old_].pos + 1 && c[node].hi <= c[old_].hi
      invariant var q := c[node].parent; q == old_ || (q in c && c[q].lo == c[old_].pos + 1 && c[q].hi <= c[old_].hi)
      decreases c[node].hi - c[node].lo
    {
      node := node.left;
      assert t.tree.LinksOk(node);
    }
  }

  /** The nodes that taking `y` out of its place and into that of `z` touches are different nodes. */
  ghost predicate SpliceActors(z: Node, y: Node, zl: Node, zr: Node, q: Node, c: Node?, r: Node?) {
    && z != y && zl !in {z, y, zr, q} && zr != z && q != y && (q == z || (zr != y && q != z)) && (q == z ==> zr == y)
    && c !in {z, y, zl, zr, q} && r !in {z, y, zl, zr, q} && (r != null ==> r != c)
  }

  lemma SpliceActorsDiffer(t: Tree, z: Node, y: Node)
    requires IsSuccessor(t, z, y)
    ensures var cz, cy := t.cells[z], t.cells[y];
            && SpliceActors(z, y, cz.left, cz.right, cy.parent, cy.right, cz.parent)
            && (cy.parent != z ==> t.cells[cy.parent].left == y)
  {
    var cz, cy := t.cells[z], t.cells[y];
    assert t.LinksOk(cz.left) && t.LinksOk(cz.right) && t.LinksOk(cy.parent);
    assert cy.right != null ==> t.LinksOk(cy.right);
    assert cz.parent != null ==> t.LinksOk(cz.parent);
  }

  /** Lets what points down to `old_` point to `node`. */
  method Redirect(old_: Node, node: Node, t: Root, ghost actors: set<Node>)
    requires old_.parent != null ==> old_.parent in actors
    modifies t`rbNode, actors`left, actors`right
    ensures t.rbNode == if old_.parent == null then node else old(t.rbNode)
    ensures forall n | n in actors ::
              && n.left == (if n == old_.parent && old(n.left) == old_ then node else old(n.left))
              && n.right == (if n == old_.parent && old(n.left) != old_ then node else old(n.right))
  {
    if old_.parent != null {
      if old_.parent.left == old_ {
        old_.parent.left := node;
      } else {
        old_.parent.right := node;
      }
    } else {
      t.rbNode := node;
    }
  }

  /** Takes `node` out from below its parent, which is not `old_`, and gives it the right side of `old_`. */
  method Lift(old_: Node, node: Node, child: Node?, parent: Node, ghost actors: set<Node>)
    requires old_.right != null && node.parent == parent && parent.left == node && child == node.right
    requires node != parent && child != node && child != parent && old_.right != node && old_ !in {node, parent}
    requires {node, parent, old_.right} <= actors && (child != null ==> child in actors && child != old_.right)
    modifies actors`left, actors`right, actors`parent
    ensures forall n | n in actors ::
              && n.left == (if n == parent then child else old(n.left))
              && n.right == (if n == node then old(old_.right) else old(n.right))
              && n.parent == (if n == child then parent else if n == old(old_.right) then node else old(n.parent))
  {
    if child != null {
      child.parent := parent;
    }
    parent.left := child;
    node.right := old_.right;
    old_.right.parent := node;
  }

  method SpliceLinks(old_: Node, node: Node, t: Root, ghost actors: set<Node>) returns (child: Node?, parent: Node, red: bool)
    requires old_.left != null && old_.right != null && node.parent != null && node.left == null
    requires SpliceActors(old_, node, old_.left, old_.right, node.parent, node.right, old_.parent)
    requires {old_, node, old_.left, old_.right, node.parent} <= actors
    requires (node.right != null ==> node.right in actors) && (old_.parent != null ==> old_.parent in actors)
    requires node.parent != old_ ==> node.parent.left == node
    modifies t`rbNode, actors`left, actors`right, actors`parent, actors`red
    ensures child == old(node.right) && red == old(node.red)
    ensures parent == if old(node.parent) == old_ then node else old(node.parent)
    ensures t.rbNode == if old(old_.parent) == null then node else old(t.rbNode)
    ensures var z, y, q, r := old_, node, old(node.parent), old(old_.parent);
            forall n | n in actors && n != z ::
              && n.left == (if n == y then old(z.left) else if n == r && old(r.left) == z then y
                            else if n == q then old(y.right) else old(n.left))
              && n.right == (if n == y then (if q == z then old(y.right) else old(z.right))
                             else if n == r && old(r.left) != z then y else old(n.right))
              && n.parent == (if n == y then r else if n == old(z.left) || n == old(z.right) then y
                              else if n == old(y.right) && q != z then q else old(n.parent))
              && n.red == (if n == y then old(z.red) else old(n.red))
  {
    Redirect(old_, node, t, actors);
    child := node.right;
    parent := node.parent;
    red := node.red;
    if parent == old_ {
      parent := node;
    } else {
      Lift(old_, node, child, parent, actors);
    }
    node.parent := old_.parent;
    node.red := old_.red;
    node.left := old_.left;
    old_.left.parent := node;
  }

  lemma SplicedCell(t: Tree, z: Node, y: Node, n: Node)
    requires IsSuccessor(t, z, y) && n in t.cells && n != z
    ensures n in Spliced(t, z, y).cells
    ensures var c, cz, cy, cn := Spliced(t, z, y).cells[n], t.cells[z], t.cells[y], t.cells[n];
            var q, r := cy.parent, cz.parent;
            && c.left == (if n == y then cz.left else if n == r && t.cells[r].left == z then y
                          else if n == q then cy.right else cn.left)
            && c.right == (if n == y then (if q == z then cy.right else cz.right)
                           else if n == r && t.cells[r].left != z then y else cn.right)
            && c.parent == (if n == y then r else if n == cz.left || n == cz.right then y
                            else if n == cy.right && q != z then q else cn.parent)
            && c.red == (if n == y then cz.red else cn.red)
  {
    SuccessorDrops(t, z, y);
    SpliceActorsDiffer(t, z, y);
    var t1 := Dropped(t, y);
    assert t.LinksOk(n) && t.LinksOk(z);
    if n == y {
      assert t1.cells[z] == DroppedCell(t, y, z);
    } else {
      assert t1.cells[n] == DroppedCell(t, y, n);
    }
  }

  /** The nodes that a splice touches are nodes of the tree. */
  lemma SpliceActorsIn(t: Tree, z: Node, y: Node)
    requires IsSuccessor(t, z, y)
    ensures var cz, cy := t.cells[z], t.cells[y];
            && cz.left in t.cells && cz.right in t.cells && cy.parent in t.cells
            && (cz.parent != null ==> cz.parent in t.cells) && (cy.right != null ==> cy.right in t.cells)
            && Spliced(t, z, y).root == (if cz.parent == null then y else t.root)
  {
    assert t.LinksOk(t.root);
    SplicedSlot(t, z, y);
  }

  /** The statements make the links those of the spliced tree. */
  method SpliceTo(old_: Node, node: Node, t: Root) returns (child: Node?, parent: Node, red: bool)
    requires t.Repr() && IsSuccessor(t.tree, old_, node)
    modifies t`rbNode, t.tree.cells.Keys`left, t.tree.cells.Keys`right, t.tree.cells.Keys`parent, t.tree.cells.Keys`red
    ensures t.rbNode == Spliced(t.tree, old_, node).root
    ensures forall n | n in Spliced(t.tree, old_, node).cells ::
              && n.left == Spliced(t.tree, old_, node).cells[n].left && n.right == Spliced(t.tree, old_, node).cells[n].right
              && n.parent == Spliced(t.tree, old_, node).cells[n].parent && n.red == Spliced(t.tree, old_, node).cells[n].red
    ensures child == t.tree.cells[node].right && red == t.tree.cells[node].red
    ensures parent == Sub(old_, node, t.tree.cells[node].parent)
  {
    SpliceActorsDiffer(t.tree, old_, node);
    SpliceActorsIn(t.tree, old_, node);
    SplicedOrder(t.tree, old_, node);
    child, parent, red := SpliceLinks(old_, node, t, t.tree.cells.Keys);
    forall n | n in Spliced(t.tree, old_, node).cells
      ensures var c := Spliced(t.tree, old_, node).cells[n];
              n.left == c.left && n.right == c.right && n.parent == c.parent && n.red == c.red
    {
      SplicedCell(t.tree, old_, node, n);
    }
  }

  method Splice(old_: Node, node: Node, t: Root) returns (child: Node?, parent: Node, red: bool)
    requires t.Repr() && IsSuccessor(t.tree, old_, node)
    modifies t, t.tree.cells.Keys`left, t.tree.cells.Keys`right, t.tree.cells.Keys`parent, t.tree.cells.Keys`red
    ensures t.Repr() && t.tree == Spliced(old(t.tree), old_, node)
    ensures child == old(t.tree.cells)[node].right && red == old(t.tree.cells)[node].red
    ensures parent == Sub(old_, node, old(t.tree.cells)[node].parent)
  {
    child, parent, red := SpliceTo(old_, node, t);
    t.tree := Spliced(t.tree, old_, node);
  }

  // ----- the whole removal

  /** The lowest node on the way that the repair goes and that stays in the tree. */
  ghost function Deepest(t: Tree, z: Node): Node?
    requires t.Shape() && z in t.cells
  {
    assert t.LinksOk(z);
    var cz := t.cells[z];
    if cz.left == null || cz.right == null then (if OnlyKid(t, z) != null then OnlyKid(t, z) else cz.parent)
    else
      assert t.LinksOk(cz.right);
      var y := t.order[cz.pos + 1];
      if t.cells[y].right != null then t.cells[y].right else Sub(z, y, t.cells[y].parent)
  }

  /** After `z` has been unlinked: nothing is wrong if a red node has gone, else there is a hole. */
  ghost predicate Unlinked(was: Tree, t: Tree, z: Node, child: Node?, parent: Node?, red: bool, side: bool)
    requires was.Shape() && z in was.cells && was.PosOk(z)
  {
    && t.order == Without(was.order, was.cells[z].pos) && t.cells.Keys == was.cells.Keys - {z}
    && (child == null || child in t.cells) && (parent == null || parent in t.cells)
    && Deepest(was, z) == (if child != null then child else parent)
    && (if red then Done(t, was, PlaceAt(t, child, parent))
        else HasHole(t, child, parent, side, was, PlaceAt(t, child, parent)))
  }

  lemma DropUnlinks(t: Tree, z: Node)
    requires t.Valid() && CanDrop(t, z)
    ensures Unlinked(t, Dropped(t, z), z, OnlyKid(t, z), t.cells[z].parent, t.cells[z].red, SideOf(t, z))
  {
    DropOpens(t, z);
  }

  lemma SpliceUnlinks(t: Tree, z: Node, y: Node)
    requires t.Valid() && IsSuccessor(t, z, y)
    ensures Unlinked(t, Spliced(t, z, y), z, t.cells[y].right, Sub(z, y, t.cells[y].parent), t.cells[y].red, SideOf(t, y))
  {
    SpliceOpens(t, z, y);
    SplicedOrder(t, z, y);
    assert t.PosOk(y);
  }

  method Unlink(node: Node, t: Root) returns (child: Node?, parent: Node?, red: bool, ghost side: bool)
    requires t.Repr() && t.tree.Valid() && node in t.tree.cells && t.tree.LinksOk(node)
    modifies t, t.tree.cells.Keys`left, t.tree.cells.Keys`right, t.tree.cells.Keys`parent, t.tree.cells.Keys`red
    ensures t.Repr() && Unlinked(old(t.tree), t.tree, node, child, parent, red, side)
  {
    ghost var before := t.tree;
    if node.left == null || node.right == null {
      DropUnlinks(before, node);
      side := SideOf(before, node);
      child, parent, red := UnlinkOne(node, t);
    } else {
      var next := FindSuccessor(node, t);
      SpliceUnlinks(before, node, next);
      side := SideOf(before, next);
      child, parent, red := Splice(node, next, t);
    }
  }

  lemma SamePlace(t: Tree, t': Tree, n: Node)
    requires t.Shape() && t'.Shape() && SameNodes(t, t') && n in t.cells
    ensures t'.cells[n].pos == t.cells[n].pos
  {
    assert t.LinksOk(n) && t'.LinksOk(n);
  }

  /** Takes `node` out of the red-black tree: what is left is a red-black tree over the in-order
      sequence without `node`.  Only nodes on the way to `Deepest` and their brothers have got new
      children. */
  method Erase(node: Node, t: Root)
    requires t.Repr() && t.tree.Valid() && node in t.tree.cells
    modifies t, t.tree.cells.Keys`left, t.tree.cells.Keys`right, t.tree.cells.Keys`parent, t.tree.cells.Keys`red
    ensures t.Repr() && t.tree.Valid()
    ensures t.tree.order == Without(old(t.tree.order), old(t.tree.cells[node]).pos)
    ensures t.tree.cells.Keys == old(t.tree.cells.Keys) - {node}
    ensures var deepest := Deepest(old(t.tree), node);
            deepest != null ==>
            deepest in t.tree.cells && Fringe(old(t.tree), t.tree, t.tree.cells[deepest].pos, true)
  {
    ghost var before := t.tree;
    assert before.LinksOk(node);
    ghost var side;
    var child, parent, red;
    child, parent, red, side := Unlink(node, t);
    ghost var unlinked := t.tree;
    if !red {
      HoleOpens(unlinked, child, parent, side, before, PlaceAt(unlinked, child, parent));
      EraseColor(child, parent, t, side, before, PlaceAt(unlinked, child, parent));
    }
    ghost var deepest := if child != null then child else parent;
    if deepest != null {
      SamePlace(unlinked, t.tree, deepest);
    }
  }
}
