/** `rb_replace_node`: another node takes the place of one in the tree. */
module RbReplace {
  import opened RbTree
  import opened RbDrop

  lemma RenamedValid(t: Tree, z: Node, y: Node)
    requires t.Valid() && CanRename(t, z, y)
    ensures Renamed(t, z, y).Valid()
  {
    RenamedBlack(t, z, y, null, true);
    forall m | m in Renamed(t, z, y).cells
      ensures Renamed(t, z, y).RedOk(m)
    {
      var n := if m == y then z else m;
      assert t.LinksOk(n) && t.RedOk(n);
      RenamedRed(t, z, y, n);
    }
    RenamedRank(t, z, y, t.root);
  }

  /** The statements; `actors` are the nodes they may touch. */
  method ReplaceLinks(victim: Node, newcomer: Node, t: Root, ghost actors: set<Node>)
    requires victim in actors && newcomer !in actors
    requires victim.parent != null ==> victim.parent in actors && victim.parent != victim
    requires victim.left != null ==> victim.left in actors
    requires victim.right != null ==> victim.right in actors
    modifies t`rbNode, actors`left, actors`right, actors`parent
    modifies newcomer`left, newcomer`right, newcomer`parent, newcomer`red
    ensures newcomer.left == old(victim.left) && newcomer.right == old(victim.right)
    ensures newcomer.parent == old(victim.parent) && newcomer.red == victim.red
    ensures t.rbNode == if old(victim.parent) == null then newcomer else old(t.rbNode)
    ensures var p := old(victim.parent);
            forall n | n in actors && n != victim ::
              && n.left == (if n == p && old(p.left) == victim then newcomer else old(n.left))
              && n.right == (if n == p && old(p.left) != victim then newcomer else old(n.right))
              && n.parent == (if n == old(victim.left) || n == old(victim.right) then newcomer else old(n.parent))
  {
    var parent := victim.parent;
    ghost var l, r := victim.left, victim.right;
    if parent != null {
      if victim == parent.left {
        parent.left := newcomer;
      } else {
        parent.right := newcomer;
      }
    } else {
      t.rbNode := newcomer;
    }
    if victim.left != null {
      victim.left.parent := newcomer;
    }
    if victim.right != null {
      victim.right.parent := newcomer;
    }
    newcomer.left, newcomer.right, newcomer.parent, newcomer.red := victim.left, victim.right, parent, victim.red;
  }

  lemma RenamedLinksAre(t: Tree, z: Node, y: Node, n: Node)
    requires CanRename(t, z, y) && n in t.cells && n != z
    ensures var c, cz, cn := RenamedCell(t, z, y, n), t.cells[z], t.cells[n];
            && c.left == (if n == cz.parent && t.cells[n].left == z then y else cn.left)
            && c.right == (if n == cz.parent && t.cells[n].left != z then y else cn.right)
            && c.parent == (if n == cz.left || n == cz.right then y else cn.parent)
  {
    assert t.LinksOk(n) && t.LinksOk(z);
  }

  lemma CanTake(t: Tree, z: Node, y: Node)
    requires t.Valid() && z in t.cells && y !in t.cells
    ensures CanRename(t, z, y)
    ensures var c := t.cells[z];
            && (c.left != null ==> c.left in t.cells && c.left != z) && (c.right != null ==> c.right in t.cells && c.right != z)
            && (c.parent != null ==> c.parent in t.cells && c.parent != z) && (c.parent == null <==> z == t.root)
  {
    assert t.LinksOk(z) && t.LinksOk(t.root);
    assert t.cells[z].left != null ==> t.LinksOk(t.cells[z].left);
    assert t.cells[z].right != null ==> t.LinksOk(t.cells[z].right);
  }

  /** The statements make the links those of the tree with the newcomer in it. */
  method ReplaceTo(victim: Node, newcomer: Node, t: Root)
    requires t.Repr() && CanRename(t.tree, victim, newcomer) && t.tree.Valid()
    modifies t`rbNode, t.tree.cells.Keys`left, t.tree.cells.Keys`right, t.tree.cells.Keys`parent
    modifies newcomer`left, newcomer`right, newcomer`parent, newcomer`red
    ensures t.rbNode == Renamed(t.tree, victim, newcomer).root
    ensures forall n | n in Renamed(t.tree, victim, newcomer).cells ::
              var c := Renamed(t.tree, victim, newcomer).cells[n];
              n.left == c.left && n.right == c.right && n.parent == c.parent && n.red == c.red
  {
    CanTake(t.tree, victim, newcomer);
    ReplaceLinks(victim, newcomer, t, t.tree.cells.Keys);
    forall n | n in Renamed(t.tree, victim, newcomer).cells
      ensures var c := Renamed(t.tree, victim, newcomer).cells[n];
              n.left == c.left && n.right == c.right && n.parent == c.parent && n.red == c.red
    {
      if n != newcomer {
        RenamedLinksAre(t.tree, victim, newcomer, n);
      }
    }
  }

  /** The tree is the same red-black tree with `newcomer` in the place of `victim`. */
  method ReplaceNode(victim: Node, newcomer: Node, t: Root)
    requires t.Repr() && t.tree.Valid() && victim in t.tree.cells && newcomer !in t.tree.cells
    modifies t, t.tree.cells.Keys`left, t.tree.cells.Keys`right, t.tree.cells.Keys`parent
    modifies newcomer`left, newcomer`right, newcomer`parent, newcomer`red
    ensures t.Repr() && t.tree.Valid()
    ensures old(CanRename(t.tree, victim, newcomer)) && t.tree == Renamed(old(t.tree), victim, newcomer)
  {
    CanTake(t.tree, victim, newcomer);
    RenamedValid(t.tree, victim, newcomer);
    ReplaceTo(victim, newcomer, t);
    t.tree := Renamed(t.tree, victim, newcomer);
  }
}
