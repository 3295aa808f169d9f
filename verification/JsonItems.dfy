/** cJSON items on the heap: comparing two trees of them, and duplicating one. */
module JsonItems {
  import opened Json

  datatype Kind = InvalidKind | NullKind | FalseKind | TrueKind | NumberKind | RawKind | StringKind | ArrayKind | ObjectKind

  class Item {
    var next: Item?
    var prev: Item?
    var child: Item?
    var kind: Kind
    var str: CString
    var number: real
    var key: CString

    constructor ()
      ensures next == null && prev == null && child == null && key == NullPtr && str == NullPtr
    {
      next, prev, child := null, null, null;
      kind, str, number, key := InvalidKind, NullPtr, 0.0, NullPtr;
    }
  }

  /** An item with what it holds and the items below it, in the order of their list. */
  datatype Tree = Tree(item: Item, kind: Kind, str: CString, number: real, key: CString, kids: seq<Tree>)

  // ----- the tree of an item

  ghost function Items(t: Tree): set<Item>
    decreases t, 1
  {
    {t.item} + Below(t.kids, |t.kids|)
  }

  ghost function Below(kids: seq<Tree>, k: nat): set<Item>
    requires k <= |kids|
    decreases kids, 0, k
  {
    if k == 0 then {} else Below(kids, k - 1) + Items(kids[k - 1])
  }

  ghost function Head(kids: seq<Tree>, k: nat): Item? {
    if k < |kids| then kids[k].item else null
  }

  /** The heap holds `t`; where `t` itself is linked to does not matter. */
  ghost predicate Stored(t: Tree)
    reads Items(t)`child, Items(t)`kind, Items(t)`str, Items(t)`number, Items(t)`key, Below(t.kids, |t.kids|)`next
    decreases t, 1
  {
    && t.item.kind == t.kind && t.item.str == t.str && t.item.number == t.number && t.item.key == t.key
    && t.item.child == Head(t.kids, 0) && KidsStored(t.kids, |t.kids|)
  }

  ghost predicate KidsStored(kids: seq<Tree>, k: nat)
    requires k <= |kids|
    reads Below(kids, k)`child, Below(kids, k)`kind, Below(kids, k)`str, Below(kids, k)`number, Below(kids, k)`key,
          Below(kids, k)`next
    decreases kids, 0, k
  {
    k == 0
    || (assert kids[k - 1].item in Items(kids[k - 1]);
        KidsStored(kids, k - 1) && Stored(kids[k - 1]) && kids[k - 1].item.next == Head(kids, k))
  }

  lemma {:induction false} KidStored(kids: seq<Tree>, k: nat, i: nat)
    requires i < k <= |kids| && KidsStored(kids, k)
    ensures Stored(kids[i]) && kids[i].item.next == Head(kids, i + 1)
    decreases k
  {
    if i < k - 1 {
      KidStored(kids, k - 1, i);
    }
  }

  /** The items of a tree exist. */
  lemma {:induction false} ItemsExist(t: Tree)
    ensures forall o :: o in Items(t) ==> allocated(o)
    decreases t, 1
  {
    KidsExist(t.kids, |t.kids|);
  }

  lemma {:induction false} KidsExist(kids: seq<Tree>, k: nat)
    requires k <= |kids|
    ensures forall o :: o in Below(kids, k) ==> allocated(o)
    decreases kids, 0, k
  {
    if k > 0 {
      KidsExist(kids, k - 1);
      ItemsExist(kids[k - 1]);
    }
  }

  // ----- comparing

  function Size(t: Tree): (r: nat)
    ensures forall i :: 0 <= i < |t.kids| ==> Size(t.kids[i]) < r
    decreases t, 1
  {
    1 + KidsSize(t.kids, |t.kids|)
  }

  function KidsSize(kids: seq<Tree>, k: nat): (r: nat)
    requires k <= |kids|
    ensures forall i :: 0 <= i < k ==> Size(kids[i]) <= r
    decreases kids, 0, k
  {
    if k == 0 then 0 else KidsSize(kids, k - 1) + Size(kids[k - 1])
  }

  /** The place of the member that a name finds, `|kids|` if there is none; a member without a key ends
      the search. */
  function Find(kids: seq<Tree>, name: CString, from: nat): (j: nat)
    requires from <= |kids|
    ensures from <= j <= |kids|
    decreases |kids| - from
  {
    if from == |kids| || name == NullPtr || kids[from].key == NullPtr then |kids|
    else if kids[from].key == name then from
    else Find(kids, name, from + 1)
  }

  /** A name finds the first member that has it, unless one without a key comes before that; NULL finds nothing. */
  lemma {:induction false} FindFirst(kids: seq<Tree>, name: CString, from: nat)
    requires from <= |kids|
    ensures var j := Find(kids, name, from);
            && (forall i :: from <= i < j && j < |kids| ==> kids[i].key.Ptr? && kids[i].key != name)
            && (j < |kids| ==> name.Ptr? && kids[j].key == name)
            && (j == |kids| ==>
                  name == NullPtr
                  || forall i :: from <= i < |kids| && kids[i].key == name ==>
                       exists m {:trigger kids[m]} :: from <= m < i && kids[m].key == NullPtr)
    decreases |kids| - from
  {
    if from < |kids| && name != NullPtr && kids[from].key != NullPtr && kids[from].key != name {
      FindFirst(kids, name, from + 1);
    }
  }

  /** What `cJSON_Compare` answers, case-sensitively. */
  predicate Equal(a: Tree, b: Tree)
    decreases Size(a) + Size(b), 0
  {
    && a.kind == b.kind && a.kind != InvalidKind
    && (a.item == b.item
        || match a.kind
           case NumberKind => a.number == b.number
           case StringKind => a.str.Ptr? && a.str == b.str
           case RawKind => a.str.Ptr? && a.str == b.str
           case ArrayKind => EqualElements(a.kids, b.kids)
           case ObjectKind => AllMatched(a.kids, b.kids) && AllMatched(b.kids, a.kids)
           case _ => true)
  }

  predicate EqualElements(xs: seq<Tree>, ys: seq<Tree>)
    decreases KidsSize(xs, |xs|) + KidsSize(ys, |ys|), 2
  {
    |xs| == |ys| && forall i :: 0 <= i < |xs| ==> Equal(xs[i], ys[i])
  }

  predicate AllMatched(xs: seq<Tree>, ys: seq<Tree>)
    decreases KidsSize(xs, |xs|) + KidsSize(ys, |ys|), 2
  {
    forall i :: 0 <= i < |xs| ==> Matched(xs[i], ys)
  }

  /** The member that the name of `x` finds is equal to `x`. */
  predicate Matched(x: Tree, kids: seq<Tree>)
    decreases Size(x) + KidsSize(kids, |kids|), 1
  {
    var j := Find(kids, x.key, 0);
    j < |kids| && Equal(x, kids[j])
  }

  method GetObjectItem(obj: Item?, name: CString, ghost t: Tree) returns (r: Item?)
    requires obj != null ==> t.item == obj && Stored(t)
    ensures r == if obj == null then null else Head(t.kids, Find(t.kids, name, 0))
  {
    if obj == null || name == NullPtr {
      return null;
    }
    KidsExist(t.kids, |t.kids|);
    ghost var j := 0;
    r := obj.child;
    if r != null {
      KidStored(t.kids, |t.kids|, 0);
    }
    while r != null && r.key != NullPtr && r.key != name
      invariant 0 <= j <= |t.kids| && r == Head(t.kids, j)
      invariant r != null ==> j < |t.kids| && r.key == t.kids[j].key
      invariant Find(t.kids, name, 0) == Find(t.kids, name, j)
      decreases |t.kids| - j
    {
      KidStored(t.kids, |t.kids|, j);
      r := r.next;
      j := j + 1;
      if j < |t.kids| {
        KidStored(t.kids, |t.kids|, j);
      }
    }
    if r == null || r.key == NullPtr {
      return null;
    }
  }

  method Compare(a: Item?, b: Item?, ghost s: Tree, ghost t: Tree) returns (equal: bool)
    requires a != null ==> s.item == a && Stored(s)
    requires b != null ==> t.item == b && Stored(t)
    ensures equal <==> a != null && b != null && Equal(s, t)
    decreases Size(s) + Size(t), 2
  {
    if a == null || b == null || a.kind != b.kind || a.kind == InvalidKind {
      return false;
    }
    if a == b {
      return true;
    }
    match a.kind
    case NumberKind =>
      equal := a.number == b.number;
    case StringKind =>
      equal := a.str != NullPtr && b.str != NullPtr && a.str == b.str;
    case RawKind =>
      equal := a.str != NullPtr && b.str != NullPtr && a.str == b.str;
    case ArrayKind =>
      equal := CompareElements(a, b, s, t);
    case ObjectKind =>
      equal := CompareObjects(a, b, s, t);
    case _ =>
      equal := true;
  }

  method CompareElements(a: Item, b: Item, ghost s: Tree, ghost t: Tree) returns (equal: bool)
    requires s.item == a && Stored(s) && t.item == b && Stored(t)
    ensures equal <==> EqualElements(s.kids, t.kids)
    decreases Size(s) + Size(t), 0
  {
    KidsExist(s.kids, |s.kids|);
    KidsExist(t.kids, |t.kids|);
    var x, y := a.child, b.child;
    ghost var i := 0;
    while x != null && y != null
      invariant 0 <= i <= |s.kids| && i <= |t.kids| && x == Head(s.kids, i) && y == Head(t.kids, i)
      invariant forall j :: 0 <= j < i ==> Equal(s.kids[j], t.kids[j])
      decreases |s.kids| - i
    {
      KidStored(s.kids, |s.kids|, i);
      KidStored(t.kids, |t.kids|, i);
      var same := Compare(x, y, s.kids[i], t.kids[i]);
      if !same {
        return false;
      }
      x, y := x.next, y.next;
      i := i + 1;
    }
    equal := x == y;
  }

  method CompareObjects(a: Item, b: Item, ghost s: Tree, ghost t: Tree) returns (equal: bool)
    requires s.item == a && Stored(s) && t.item == b && Stored(t)
    ensures equal <==> AllMatched(s.kids, t.kids) && AllMatched(t.kids, s.kids)
    decreases Size(s) + Size(t), 1
  {
    KidsExist(s.kids, |s.kids|);
    KidsExist(t.kids, |t.kids|);
    equal := CompareMembers(a, b, s, t);
    if equal {
      equal := CompareMembers(b, a, t, s);
    }
  }

  /** Compares every member of `a` with the one of `b` that its name finds. */
  method CompareMembers(a: Item, b: Item, ghost s: Tree, ghost t: Tree) returns (equal: bool)
    requires s.item == a && Stored(s) && t.item == b && Stored(t)
    ensures equal <==> AllMatched(s.kids, t.kids)
    decreases Size(s) + Size(t), 0
  {
    KidsExist(s.kids, |s.kids|);
    KidsExist(t.kids, |t.kids|);
    hide Find, KidsSize;
    var x := a.child;
    ghost var i := 0;
    while x != null
      invariant 0 <= i <= |s.kids| && x == Head(s.kids, i)
      invariant forall j :: 0 <= j < i ==> Matched(s.kids[j], t.kids)
      decreases |s.kids| - i
    {
      KidStored(s.kids, |s.kids|, i);
      ghost var j := Find(t.kids, x.key, 0);
      var y := GetObjectItem(b, x.key, t);
      if y == null {
        return false;
      }
      KidStored(s.kids, |s.kids|, i);
      KidStored(t.kids, |t.kids|, j);
      var same := Compare(x, y, s.kids[i], t.kids[j]);
      if !same {
        return false;
      }
      x := x.next;
      i := i + 1;
    }
    equal := true;
  }

  // ----- what comparing means

  datatype Meaning =
    | Nothing
    | IsNull
    | IsFalse
    | IsTrue
    | IsNumber(number: real)
    | IsRaw(raw: CString)
    | IsString(str: CString)
    | IsArray(elements: seq<Meaning>)
    | IsObject(members: map<CString, Meaning>)

  /** What a tree stands for: an object is a map from names, whatever the order of its members. */
  ghost function MeaningOf(t: Tree): Meaning
    decreases t, 1
  {
    match t.kind
    case InvalidKind => Nothing
    case NullKind => IsNull
    case FalseKind => IsFalse
    case TrueKind => IsTrue
    case NumberKind => IsNumber(t.number)
    case RawKind => IsRaw(t.str)
    case StringKind => IsString(t.str)
    case ArrayKind => IsArray(Meanings(t.kids, |t.kids|))
    case ObjectKind => IsObject(Entries(t.kids, |t.kids|))
  }

  ghost function Meanings(kids: seq<Tree>, k: nat): (r: seq<Meaning>)
    requires k <= |kids|
    ensures |r| == k && forall i :: 0 <= i < k ==> r[i] == MeaningOf(kids[i])
    decreases kids, 0, k
  {
    if k == 0 then [] else Meanings(kids, k - 1) + [MeaningOf(kids[k - 1])]
  }

  ghost function Entries(kids: seq<Tree>, k: nat): map<CString, Meaning>
    requires k <= |kids|
    decreases kids, 0, k
  {
    if k == 0 then map[] else Entries(kids, k - 1)[kids[k - 1].key := MeaningOf(kids[k - 1])]
  }

  /** Strings are there, and the members of an object have names of their own. */
  ghost predicate Proper(t: Tree)
    decreases t
  {
    && t.kind != InvalidKind
    && (t.kind.StringKind? || t.kind.RawKind? ==> t.str.Ptr?)
    && (t.kind.ObjectKind? ==> Named(t.kids))
    && (t.kind.ArrayKind? || t.kind.ObjectKind? ==> forall i :: 0 <= i < |t.kids| ==> Proper(t.kids[i]))
  }

  ghost predicate Named(kids: seq<Tree>) {
    && (forall i :: 0 <= i < |kids| ==> kids[i].key.Ptr?)
    && (forall i, j :: 0 <= i < j < |kids| ==> kids[i].key != kids[j].key)
  }

  lemma {:induction false} EntriesHold(kids: seq<Tree>, k: nat)
    requires k <= |kids| && Named(kids)
    ensures forall i :: 0 <= i < k ==> kids[i].key in Entries(kids, k) && Entries(kids, k)[kids[i].key] == MeaningOf(kids[i])
    ensures forall key :: key in Entries(kids, k) ==> exists i :: 0 <= i < k && kids[i].key == key
    decreases k
  {
    if k > 0 {
      EntriesHold(kids, k - 1);
    }
  }

  lemma {:induction false} FindFinds(kids: seq<Tree>, name: CString, from: nat)
    requires from <= |kids| && Named(kids) && name.Ptr?
    ensures var j := Find(kids, name, from);
            && (j < |kids| ==> kids[j].key == name)
            && (j == |kids| ==> forall i :: from <= i < |kids| ==> kids[i].key != name)
    decreases |kids| - from
  {
    if from < |kids| && kids[from].key != name {
      FindFinds(kids, name, from + 1);
    }
  }

  /** An item has only one tree. */
  lemma {:induction false} SameTree(a: Tree, b: Tree)
    requires Stored(a) && Stored(b) && a.item == b.item
    ensures a == b
    decreases a, 1
  {
    SameKids(a.kids, b.kids, 0);
  }

  lemma {:induction false} SameKids(xs: seq<Tree>, ys: seq<Tree>, i: nat)
    requires KidsStored(xs, |xs|) && KidsStored(ys, |ys|) && i <= |xs| && i <= |ys|
    requires xs[..i] == ys[..i] && Head(xs, i) == Head(ys, i)
    ensures xs == ys
    decreases xs, 0, |xs| - i
  {
    if i == |xs| {
      assert xs[..i] == xs && ys[..i] == ys;
    } else {
      KidStored(xs, |xs|, i);
      KidStored(ys, |ys|, i);
      SameTree(xs[i], ys[i]);
      SameKids(xs, ys, i + 1);
    }
  }

  ghost predicate AllProper(kids: seq<Tree>) {
    forall i :: 0 <= i < |kids| ==> Proper(kids[i])
  }

  /** Comparing tells whether two trees mean the same. */
  lemma {:induction false} EqualMeans(a: Tree, b: Tree)
    requires Proper(a) && Proper(b) && Stored(a) && Stored(b)
    ensures Equal(a, b) <==> MeaningOf(a) == MeaningOf(b)
    decreases Size(a) + Size(b), 0
  {
    hide Equal, MeaningOf, Proper, Stored;
    if a.item == b.item {
      SameTree(a, b);
      SameMeans(a);
    } else if a.kind == ArrayKind && b.kind == ArrayKind {
      ArrayParts(a);
      ArrayParts(b);
      ElementsMean(a.kids, b.kids);
      ArrayMeans(a, b);
    } else if a.kind == ObjectKind && b.kind == ObjectKind {
      ObjectParts(a);
      ObjectParts(b);
      MembersMean(a.kids, b.kids);
      ObjectMeans(a, b);
    } else {
      LeafMeans(a, b);
    }
  }

  lemma SameMeans(a: Tree)
    requires Proper(a)
    ensures Equal(a, a)
  {
  }

  lemma ArrayParts(a: Tree)
    requires Proper(a) && Stored(a) && a.kind == ArrayKind
    ensures AllProper(a.kids) && KidsStored(a.kids, |a.kids|) && Size(a) > KidsSize(a.kids, |a.kids|)
  {
  }

  lemma ArrayMeans(a: Tree, b: Tree)
    requires a.kind == ArrayKind && b.kind == ArrayKind && a.item != b.item
    ensures Equal(a, b) <==> EqualElements(a.kids, b.kids)
    ensures MeaningOf(a) == MeaningOf(b) <==> Meanings(a.kids, |a.kids|) == Meanings(b.kids, |b.kids|)
  {
    hide EqualElements, Meanings;
  }

  lemma ObjectParts(a: Tree)
    requires Proper(a) && Stored(a) && a.kind == ObjectKind
    ensures Named(a.kids) && AllProper(a.kids) && KidsStored(a.kids, |a.kids|) && Size(a) > KidsSize(a.kids, |a.kids|)
  {
  }

  lemma ObjectMeans(a: Tree, b: Tree)
    requires a.kind == ObjectKind && b.kind == ObjectKind && a.item != b.item
    ensures Equal(a, b) <==> AllMatched(a.kids, b.kids) && AllMatched(b.kids, a.kids)
    ensures MeaningOf(a) == MeaningOf(b) <==> Entries(a.kids, |a.kids|) == Entries(b.kids, |b.kids|)
  {
    hide AllMatched, Entries;
  }

  lemma LeafMeans(a: Tree, b: Tree)
    requires Proper(a) && Proper(b) && a.item != b.item
    requires a.kind != b.kind || (a.kind != ArrayKind && a.kind != ObjectKind)
    ensures Equal(a, b) <==> MeaningOf(a) == MeaningOf(b)
  {
    hide EqualElements, Meanings, AllMatched, Entries;
  }

  lemma {:induction false} ElementsMean(xs: seq<Tree>, ys: seq<Tree>)
    requires AllProper(xs) && AllProper(ys) && KidsStored(xs, |xs|) && KidsStored(ys, |ys|)
    ensures EqualElements(xs, ys) <==> Meanings(xs, |xs|) == Meanings(ys, |ys|)
    decreases KidsSize(xs, |xs|) + KidsSize(ys, |ys|), 1
  {
    if |xs| == |ys| {
      forall i | 0 <= i < |xs| ensures Equal(xs[i], ys[i]) <==> MeaningOf(xs[i]) == MeaningOf(ys[i]) {
        KidStored(xs, |xs|, i);
        KidStored(ys, |ys|, i);
        EqualMeans(xs[i], ys[i]);
      }
      SameMeanings(xs, ys);
    }
  }

  lemma SameMeanings(xs: seq<Tree>, ys: seq<Tree>)
    requires |xs| == |ys|
    ensures Meanings(xs, |xs|) == Meanings(ys, |ys|) <==> forall i :: 0 <= i < |xs| ==> MeaningOf(xs[i]) == MeaningOf(ys[i])
  {
    if Meanings(xs, |xs|) == Meanings(ys, |ys|) {
      forall i | 0 <= i < |xs| ensures MeaningOf(xs[i]) == MeaningOf(ys[i]) {
        assert Meanings(xs, |xs|)[i] == Meanings(ys, |ys|)[i];
      }
    }
  }

  lemma {:induction false} MatchedMeans(x: Tree, ys: seq<Tree>)
    requires Proper(x) && Stored(x) && x.key.Ptr? && Named(ys) && AllProper(ys) && KidsStored(ys, |ys|)
    ensures Matched(x, ys)
            <==> x.key in Entries(ys, |ys|) && Entries(ys, |ys|)[x.key] == MeaningOf(x)
    decreases Size(x) + KidsSize(ys, |ys|), 1
  {
    var j := Find(ys, x.key, 0);
    FindFinds(ys, x.key, 0);
    EntriesHold(ys, |ys|);
    if j < |ys| {
      KidStored(ys, |ys|, j);
      EqualMeans(x, ys[j]);
    }
  }

  lemma {:induction false} AllMatchedMeans(xs: seq<Tree>, ys: seq<Tree>)
    requires Named(xs) && AllProper(xs) && KidsStored(xs, |xs|) && Named(ys) && AllProper(ys) && KidsStored(ys, |ys|)
    ensures AllMatched(xs, ys) <==> Within(Entries(xs, |xs|), Entries(ys, |ys|))
    decreases KidsSize(xs, |xs|) + KidsSize(ys, |ys|), 2
  {
    forall i | 0 <= i < |xs|
      ensures Matched(xs[i], ys)
              <==> xs[i].key in Entries(ys, |ys|) && Entries(ys, |ys|)[xs[i].key] == MeaningOf(xs[i])
    {
      KidStored(xs, |xs|, i);
      MatchedMeans(xs[i], ys);
    }
    EntriesWithin(xs, Entries(ys, |ys|));
  }

  ghost predicate Within(m: map<CString, Meaning>, n: map<CString, Meaning>) {
    forall key :: key in m ==> key in n && n[key] == m[key]
  }

  lemma EntriesWithin(xs: seq<Tree>, n: map<CString, Meaning>)
    requires Named(xs)
    ensures Within(Entries(xs, |xs|), n)
            <==> forall i :: 0 <= i < |xs| ==> xs[i].key in n && n[xs[i].key] == MeaningOf(xs[i])
  {
    EntriesHold(xs, |xs|);
  }

  lemma WithinBoth(m: map<CString, Meaning>, n: map<CString, Meaning>)
    ensures Within(m, n) && Within(n, m) <==> m == n
  {
    if Within(m, n) && Within(n, m) {
      assert m.Keys == n.Keys;
    }
  }

  lemma {:induction false} MembersMean(xs: seq<Tree>, ys: seq<Tree>)
    requires Named(xs) && AllProper(xs) && KidsStored(xs, |xs|) && Named(ys) && AllProper(ys) && KidsStored(ys, |ys|)
    ensures AllMatched(xs, ys) && AllMatched(ys, xs) <==> Entries(xs, |xs|) == Entries(ys, |ys|)
    decreases KidsSize(xs, |xs|) + KidsSize(ys, |ys|), 3
  {
    AllMatchedMeans(xs, ys);
    AllMatchedMeans(ys, xs);
    WithinBoth(Entries(xs, |xs|), Entries(ys, |ys|));
  }
}
