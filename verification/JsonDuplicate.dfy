/** Duplicating a tree of cJSON items. */
module JsonDuplicate {
  import opened JsonItems

  /** No item occurs twice. */
  ghost predicate Separate(t: Tree)
    decreases t, 1
  {
    t.item !in Below(t.kids, |t.kids|) && KidsSeparate(t.kids, |t.kids|)
  }

  ghost predicate KidsSeparate(kids: seq<Tree>, k: nat)
    requires k <= |kids|
    decreases kids, 0, k
  {
    k == 0 || (KidsSeparate(kids, k - 1) && Separate(kids[k - 1]) && Items(kids[k - 1]) !! Below(kids, k - 1))
  }

  /** The items below `t` know the ones in front of them. */
  ghost predicate Backed(t: Tree)
    reads Below(t.kids, |t.kids|)`prev
    decreases t, 1
  {
    KidsBacked(t.kids, |t.kids|)
  }

  ghost predicate KidsBacked(kids: seq<Tree>, k: nat)
    requires k <= |kids|
    reads Below(kids, k)`prev
    decreases kids, 0, k
  {
    k == 0
    || (var kid := kids[k - 1];
        assert Items(kid) == {kid.item} + Below(kid.kids, |kid.kids|);
        KidsBacked(kids, k - 1) && Backed(kid) && kid.item.prev == Before(kids, k - 1))
  }

  ghost function Before(kids: seq<Tree>, k: nat): Item?
    requires k < |kids|
  {
    if k == 0 then null else kids[k - 1].item
  }

  /** `c` holds what `t` holds, in other items. */
  ghost predicate Copied(t: Tree, c: Tree)
    decreases t
  {
    && c.kind == t.kind && c.str == t.str && c.number == t.number && c.key == t.key
    && |c.kids| == |t.kids| && forall i :: 0 <= i < |t.kids| ==> Copied(t.kids[i], c.kids[i])
  }

  ghost predicate CopiedSoFar(ts: seq<Tree>, cs: seq<Tree>) {
    |cs| <= |ts| && forall i :: 0 <= i < |cs| ==> Copied(ts[i], cs[i])
  }

  lemma CopiedMore(ts: seq<Tree>, cs: seq<Tree>, c: Tree)
    requires CopiedSoFar(ts, cs) && |cs| < |ts| && Copied(ts[|cs|], c)
    ensures CopiedSoFar(ts, cs + [c])
  {
  }

  lemma {:induction false} CopyMeans(t: Tree, c: Tree)
    requires Copied(t, c)
    ensures MeaningOf(c) == MeaningOf(t) && (Proper(t) ==> Proper(c))
    decreases t, 1
  {
    KidCopiesMean(t.kids, c.kids, |t.kids|);
    forall i | 0 <= i < |t.kids| ensures Proper(t.kids[i]) ==> Proper(c.kids[i]) {
      CopyMeans(t.kids[i], c.kids[i]);
    }
  }

  lemma {:induction false} KidCopiesMean(ts: seq<Tree>, cs: seq<Tree>, k: nat)
    requires |cs| == |ts| && k <= |ts| && forall i :: 0 <= i < |ts| ==> Copied(ts[i], cs[i])
    ensures Meanings(cs, k) == Meanings(ts, k) && Entries(cs, k) == Entries(ts, k)
    decreases ts, 0, k
  {
    if k > 0 {
      KidCopiesMean(ts, cs, k - 1);
      CopyMeans(ts[k - 1], cs[k - 1]);
    }
  }

  /** A copy compares equal to what it is a copy of. */
  lemma CopyEqual(t: Tree, c: Tree)
    requires Proper(t) && Stored(t) && Stored(c) && Copied(t, c)
    ensures Equal(t, c) && Equal(c, t)
  {
    CopyMeans(t, c);
    EqualMeans(t, c);
    EqualMeans(c, t);
  }

  lemma {:induction false} SamePrefix(cs: seq<Tree>, c: Tree, k: nat)
    requires k <= |cs|
    ensures Below(cs + [c], k) == Below(cs, k)
    ensures KidsSeparate(cs + [c], k) == KidsSeparate(cs, k)
    ensures KidsBacked(cs + [c], k) == KidsBacked(cs, k)
    ensures k < |cs| ==> KidsStored(cs + [c], k) == KidsStored(cs, k)
    decreases k
  {
    if k > 0 {
      SamePrefix(cs, c, k - 1);
    }
  }

  /** Links a new item behind the last one of a list. */
  method Chain(last: Item, next: Item, ghost cs: seq<Tree>, ghost c: Tree)
    requires cs != [] && last == cs[|cs| - 1].item && next == c.item
    requires KidsStored(cs, |cs|) && KidsBacked(cs, |cs|) && Stored(c) && Backed(c) && next.next == null
    requires KidsSeparate(cs, |cs|) && Separate(c) && Items(c) !! Below(cs, |cs|)
    modifies last`next, next`prev
    ensures KidsStored(cs + [c], |cs| + 1) && KidsBacked(cs + [c], |cs| + 1)
  {
    ghost var n := |cs|;
    last.next := next;
    next.prev := last;
    assert KidsStored(cs, n - 1) && Stored(cs[n - 1]) && KidsBacked(cs, n) && Stored(c) && Backed(c);
    ChainLonger(cs, c);
  }

  lemma ChainLonger(cs: seq<Tree>, c: Tree)
    requires cs != [] && KidsStored(cs, |cs| - 1) && Stored(cs[|cs| - 1]) && cs[|cs| - 1].item.next == c.item
    requires Stored(c) && c.item.next == null
    requires KidsBacked(cs, |cs|) && Backed(c) && c.item.prev == cs[|cs| - 1].item
    ensures KidsStored(cs + [c], |cs| + 1) && KidsBacked(cs + [c], |cs| + 1)
  {
    var n := |cs|;
    SamePrefix(cs, c, n - 1);
    SamePrefix(cs, c, n);
    assert KidsStored(cs + [c], n);
  }

  lemma OnlyOne(c: Tree)
    requires Stored(c) && Backed(c) && c.item.next == null && c.item.prev == null
    ensures KidsStored([c], 1) && KidsBacked([c], 1)
  {
    var one := [c];
    assert one[0] == c && KidsStored(one, 0);
  }

  ghost function Just(item: Item?): set<Item> {
    if item == null then {} else {item}
  }

  /** Hangs a new item below `d`, behind those that hang there. */
  method Attach(d: Item, last: Item?, newchild: Item, ghost cs: seq<Tree>, ghost c: Tree)
    requires d.child == Head(cs, 0) && last == (if cs == [] then null else cs[|cs| - 1].item) && newchild == c.item
    requires KidsStored(cs, |cs|) && KidsBacked(cs, |cs|) && Stored(c) && Backed(c)
    requires newchild.next == null && newchild.prev == null
    requires KidsSeparate(cs, |cs|) && Separate(c) && Items(c) !! Below(cs, |cs|)
    requires d !in Items(c) && d !in Below(cs, |cs|)
    modifies d`child, Just(last)`next, newchild`prev
    ensures d.child == Head(cs + [c], 0)
    ensures KidsStored(cs + [c], |cs| + 1) && KidsBacked(cs + [c], |cs| + 1) && KidsSeparate(cs + [c], |cs| + 1)
    ensures Below(cs + [c], |cs| + 1) == Below(cs, |cs|) + Items(c)
  {
    SamePrefix(cs, c, |cs|);
    if last != null {
      Chain(last, newchild, cs, c);
    } else {
      ItemsExist(c);
      KidsExist(c.kids, |c.kids|);
      d.child := newchild;
      OnlyOne(c);
      assert cs + [c] == [c];
    }
  }

  /** Duplicates an item, and with `recurse` what is below it. */
  method Duplicate(item: Item?, recurse: bool, ghost t: Tree) returns (d: Item?, ghost c: Tree)
    requires item != null ==> t.item == item && Stored(t)
    ensures item == null <==> d == null
    ensures d != null ==> c.item == d && d.next == null && d.prev == null && fresh(Items(c))
    ensures d != null ==> Stored(c) && Backed(c) && Separate(c)
    ensures d != null ==> Copied(if recurse then t else t.(kids := []), c)
    decreases Size(t), 0
  {
    c := t;
    if item == null {
      return null, c;
    }
    KidsExist(t.kids, |t.kids|);
    d := new Item();
    d.kind, d.number, d.str, d.key := item.kind, item.number, item.str, item.key;
    c := Tree(d, item.kind, item.str, item.number, item.key, []);
    if !recurse {
      return;
    }
    ghost var cs := DuplicateKids(item, d, t);
    c := c.(kids := cs);
  }

  /** Copies of the first items of `ts` hang below `d`, and `last` is the last one. */
  ghost predicate Hangs(d: Item, last: Item?, ts: seq<Tree>, cs: seq<Tree>)
    reads d, Below(ts, |ts|), Below(cs, |cs|)
  {
    && d.child == Head(cs, 0) && last == (if cs == [] then null else cs[|cs| - 1].item)
    && KidsStored(cs, |cs|) && KidsBacked(cs, |cs|) && KidsSeparate(cs, |cs|)
    && KidsStored(ts, |ts|) && CopiedSoFar(ts, cs)
    && d !in Below(ts, |ts|) && d !in Below(cs, |cs|) && Below(ts, |ts|) !! Below(cs, |cs|)
  }

  /** Hangs the copy of the next item below `d`. */
  method HangNext(d: Item, last: Item?, newchild: Item, ghost ts: seq<Tree>, ghost cs: seq<Tree>, ghost c: Tree)
    requires Hangs(d, last, ts, cs) && |cs| < |ts| && Copied(ts[|cs|], c) && newchild == c.item
    requires Stored(c) && Backed(c) && newchild.next == null && newchild.prev == null && Separate(c)
    requires d !in Items(c) && Items(c) !! Below(cs, |cs|) && Items(c) !! Below(ts, |ts|)
    modifies d`child, Just(last)`next, newchild`prev
    ensures Hangs(d, newchild, ts, cs + [c])
    ensures Below(cs + [c], |cs| + 1) == Below(cs, |cs|) + Items(c)
  {
    KidsExist(ts, |ts|);
    CopiedMore(ts, cs, c);
    Attach(d, last, newchild, cs, c);
  }

  /** Duplicates the next item and hangs the copy below `d`. */
  method DuplicateNext(child: Item, d: Item, last: Item?, ghost ts: seq<Tree>, ghost cs: seq<Tree>)
    returns (newchild: Item, ghost c: Tree)
    requires Hangs(d, last, ts, cs) && |cs| < |ts| && child == ts[|cs|].item
    modifies d`child, Just(last)`next
    ensures fresh(Items(c)) && Hangs(d, newchild, ts, cs + [c])
    ensures Below(cs + [c], |cs| + 1) == Below(cs, |cs|) + Items(c)
    decreases KidsSize(ts, |ts|), 2
  {
    KidStored(ts, |ts|, |cs|);
    KidsExist(cs, |cs|);
    KidsExist(ts, |ts|);
    newchild, c := Duplicate(child, true, ts[|cs|]);
    HangNext(d, last, newchild, ts, cs, c);
  }

  /** Duplicates the items below `item` and hangs the copies below `d`. */
  method DuplicateKids(item: Item, d: Item, ghost t: Tree) returns (ghost cs: seq<Tree>)
    requires t.item == item && Stored(t) && d.child == null && d !in Items(t)
    modifies d`child
    ensures fresh(Below(cs, |cs|)) && d.child == Head(cs, 0)
    ensures KidsStored(cs, |cs|) && KidsBacked(cs, |cs|) && KidsSeparate(cs, |cs|)
    ensures |cs| == |t.kids| && CopiedSoFar(t.kids, cs)
    decreases KidsSize(t.kids, |t.kids|), 3
  {
    cs := [];
    var child := item.child;
    var last: Item? := null;
    HangsNone(d, t);
    hide Hangs;
    while child != null
      invariant Hangs(d, last, t.kids, cs) && child == Head(t.kids, |cs|) && fresh(Below(cs, |cs|))
      decreases |t.kids| - |cs|
    {
      ghost var c;
      last, c := DuplicateNext(child, d, last, t.kids, cs);
      HangsNext(d, last, t.kids, cs, c);
      child := child.next;
      cs := cs + [c];
    }
    HangsAll(d, last, t.kids, cs);
  }

  lemma HangsNone(d: Item, t: Tree)
    requires Stored(t) && d.child == null && d !in Items(t)
    ensures Hangs(d, null, t.kids, [])
  {
  }

  lemma HangsNext(d: Item, last: Item?, ts: seq<Tree>, cs: seq<Tree>, c: Tree)
    requires |cs| < |ts| && Hangs(d, last, ts, cs + [c])
    ensures ts[|cs|].item.next == Head(ts, |cs| + 1)
  {
    KidStored(ts, |ts|, |cs|);
  }

  lemma HangsAll(d: Item, last: Item?, ts: seq<Tree>, cs: seq<Tree>)
    requires Hangs(d, last, ts, cs) && Head(ts, |cs|) == null
    ensures d.child == Head(cs, 0) && KidsStored(cs, |cs|) && KidsBacked(cs, |cs|) && KidsSeparate(cs, |cs|)
    ensures |cs| == |ts| && CopiedSoFar(ts, cs)
  {
  }
}
