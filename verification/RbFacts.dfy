/** What `Shape` and `Valid` mean in terms of the links alone: the in-order sequence that a traversal
    of the links gives, equal black counts on all ways down, and the height bound. */
module RbFacts {
  import opened RbTree

  /** The size of the subtree at `n`; the recursions below go down in it. */
  ghost function Size(t: Root, n: Node?): nat
    requires t.tree.Shape() && (n == null || n in t.tree.cells)
    reads t
  {
    if n == null then 0
    else
      assert t.tree.LinksOk(n);
      t.tree.cells[n].hi - t.tree.cells[n].lo
  }

  lemma Kids(t: Root, n: Node)
    requires t.Repr() && t.tree.Shape() && n in t.tree.cells
    ensures n.left != null ==> n.left in t.tree.cells
    ensures n.right != null ==> n.right in t.tree.cells
    ensures Size(t, n) == Size(t, n.left) + 1 + Size(t, n.right)
  {
    assert t.tree.LinksOk(n);
  }

  // ----- the in-order sequence

  ghost function Inorder(t: Root, n: Node?): seq<Node>
    requires t.Repr() && t.tree.Shape() && (n == null || n in t.tree.cells)
    reads t, t.tree.cells.Keys
    decreases Size(t, n)
  {
    if n == null then []
    else
      Kids(t, n);
      Inorder(t, n.left) + [n] + Inorder(t, n.right)
  }

  lemma {:induction false} InorderSlice(t: Root, n: Node)
    requires t.Repr() && t.tree.Shape() && n in t.tree.cells
    ensures t.tree.LinksOk(n) && t.tree.RangeOk(n)
    ensures Inorder(t, n) == t.tree.order[t.tree.cells[n].lo..t.tree.cells[n].hi]
    decreases Size(t, n)
  {
    var c, order := t.tree.cells[n], t.tree.order;
    assert t.tree.LinksOk(n) && t.tree.RangeOk(n);
    Kids(t, n);
    if n.left != null {
      InorderSlice(t, n.left);
    }
    if n.right != null {
      InorderSlice(t, n.right);
    }
    Around(order, c.lo, c.pos, c.hi);
  }

  lemma Around(order: seq<Node>, lo: nat, pos: nat, hi: nat)
    requires lo <= pos < hi <= |order|
    ensures order[lo..hi] == order[lo..pos] + [order[pos]] + order[pos + 1..hi]
  {
  }

  /** `tree.order` is what an in-order traversal of the links visits. */
  lemma InorderIsOrder(t: Root)
    requires t.Repr() && t.tree.Shape()
    ensures Inorder(t, t.rbNode) == t.tree.order
  {
    if t.rbNode != null {
      InorderSlice(t, t.rbNode);
    }
  }

  // ----- the red-black rules

  /** `way` goes down from `n`, left where it holds, and ends just below the tree. */
  ghost predicate EndsAt(t: Root, n: Node?, way: seq<bool>)
    requires t.Repr() && t.tree.Shape() && (n == null || n in t.tree.cells)
    reads t, t.tree.cells.Keys
    decreases Size(t, n)
  {
    if n == null then way == []
    else
      Kids(t, n);
      way != [] && EndsAt(t, if way[0] then n.left else n.right, way[1..])
  }

  /** The black nodes met on `way`. */
  ghost function Blacks(t: Root, n: Node?, way: seq<bool>): nat
    requires t.Repr() && t.tree.Shape() && (n == null || n in t.tree.cells)
    requires EndsAt(t, n, way)
    reads t, t.tree.cells.Keys
    decreases Size(t, n)
  {
    if n == null then 0
    else
      Kids(t, n);
      (if n.red then 0 else 1) + Blacks(t, if way[0] then n.left else n.right, way[1..])
  }

  lemma {:induction false} BlacksAreRank(t: Root, n: Node?, way: seq<bool>)
    requires t.Repr() && t.tree.Valid() && (n == null || n in t.tree.cells)
    requires EndsAt(t, n, way)
    ensures Blacks(t, n, way) == t.tree.Rank(n)
    decreases Size(t, n)
  {
    if n != null {
      Kids(t, n);
      assert t.tree.LinksOk(n) && t.tree.BlackOk(n, null, true);
      BlacksAreRank(t, if way[0] then n.left else n.right, way[1..]);
    }
  }

  /** The red-black rules of a valid tree: a black root, no red node below a red one, and the same
      number of black nodes on any two ways from the root to the bottom. */
  lemma ValidIsRedBlack(t: Root, n: Node, way1: seq<bool>, way2: seq<bool>)
    requires t.Repr() && t.tree.Valid() && n in t.tree.cells
    requires EndsAt(t, t.rbNode, way1) && EndsAt(t, t.rbNode, way2)
    ensures t.rbNode != null && !t.rbNode.red
    ensures n.red ==> (n.left != null ==> !n.left.red) && (n.right != null ==> !n.right.red)
    ensures Blacks(t, t.rbNode, way1) == Blacks(t, t.rbNode, way2)
  {
    var tree := t.tree;
    assert tree.LinksOk(n);
    if n.left != null {
      assert tree.LinksOk(n.left) && tree.RedOk(n.left);
    }
    if n.right != null {
      assert tree.LinksOk(n.right) && tree.RedOk(n.right);
    }
    BlacksAreRank(t, t.rbNode, way1);
    BlacksAreRank(t, t.rbNode, way2);
  }

  // ----- the height

  ghost function Max(a: nat, b: nat): nat {
    if a < b then b else a
  }

  ghost function Height(t: Root, n: Node?): nat
    requires t.Repr() && t.tree.Shape() && (n == null || n in t.tree.cells)
    reads t, t.tree.cells.Keys
    decreases Size(t, n)
  {
    if n == null then 0
    else
      Kids(t, n);
      1 + Max(Height(t, n.left), Height(t, n.right))
  }

  ghost function Pow2(k: nat): nat {
    if k == 0 then 1 else 2 * Pow2(k - 1)
  }

  lemma {:induction false} Pow2Adds(a: nat, b: nat)
    ensures Pow2(a + b) == Pow2(a) * Pow2(b)
  {
    if a > 0 {
      Pow2Adds(a - 1, b);
      assert Pow2(a + b) == 2 * (Pow2(a - 1) * Pow2(b));
    }
  }

  lemma {:induction false} Pow2Grows(a: nat, b: nat)
    requires a <= b
    ensures 1 <= Pow2(a) <= Pow2(b)
    decreases b
  {
    if a < b {
      Pow2Grows(a, b - 1);
    } else if a > 0 {
      Pow2Grows(a - 1, a - 1);
    }
  }

  lemma {:induction false} RankBounds(t: Root, n: Node?)
    requires t.Repr() && t.tree.Valid() && (n == null || n in t.tree.cells)
    ensures 0 <= t.tree.Rank(n) && Pow2(t.tree.Rank(n)) <= Size(t, n) + 1
    ensures Height(t, n) <= 2 * t.tree.Rank(n) + if t.tree.Black(n) then 0 else 1
    decreases Size(t, n)
  {
    if n != null {
      var tree := t.tree;
      Kids(t, n);
      assert tree.LinksOk(n) && tree.BlackOk(n, null, true);
      RankBounds(t, n.left);
      RankBounds(t, n.right);
      if n.left != null {
        assert tree.LinksOk(n.left) && tree.RedOk(n.left);
      }
      if n.right != null {
        assert tree.LinksOk(n.right) && tree.RedOk(n.right);
      }
    }
  }

  /** A valid tree of `n` nodes is at most `2 * log2(n + 1)` high. */
  lemma HeightBound(t: Root)
    requires t.Repr() && t.tree.Valid()
    ensures Pow2(Height(t, t.rbNode)) <= (|t.tree.order| + 1) * (|t.tree.order| + 1)
  {
    var r, n := t.tree.Rank(t.rbNode), |t.tree.order| + 1;
    RankBounds(t, t.rbNode);
    Pow2Grows(Height(t, t.rbNode), r + r);
    Pow2Adds(r, r);
    Squares(Pow2(r), n);
  }

  lemma Squares(a: nat, b: nat)
    requires a <= b
    ensures a * a <= b * b
  {
    assert a * a <= b * a <= b * b;
  }
}
