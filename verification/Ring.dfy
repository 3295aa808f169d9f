/** Rings of cells, and what stands in them. */
module Ring {
  import opened Modulo

  /** The cell of a ring of `size` that is `j` cells behind position `at`. */
  ghost function Slot(at: nat, j: nat, size: nat): (c: nat)
    requires size > 0
    ensures c < size
  {
    Rest(at + j, size)
  }

  lemma SlotIsMod(at: nat, j: nat, size: nat)
    requires size > 0
    ensures Slot(at, j, size) == (at + j) % size
  {
    RestIsMod(at + j, size);
  }

  /** `n` cells from position `at` on. */
  ghost function Window<T>(cells: seq<T>, at: nat, n: nat): (r: seq<T>)
    requires |cells| > 0
    ensures |r| == n
    decreases n
  {
    if n == 0 then [] else Window(cells, at, n - 1) + [cells[Slot(at, n - 1, |cells|)]]
  }

  lemma {:induction false} WindowAt<T>(cells: seq<T>, at: nat, n: nat, j: nat)
    requires |cells| > 0 && j < n
    ensures Window(cells, at, n)[j] == cells[Slot(at, j, |cells|)]
    decreases n
  {
    if j < n - 1 {
      WindowAt(cells, at, n - 1, j);
    }
  }

  /** Windows with the same cells are the same. */
  lemma SameWindow<T>(cells: seq<T>, after: seq<T>, at: nat, to: nat, n: nat)
    requires |cells| > 0 && |after| > 0
    requires forall j :: 0 <= j < n ==> cells[Slot(at, j, |cells|)] == after[Slot(to, j, |after|)]
    ensures Window(cells, at, n) == Window(after, to, n)
  {
    forall j | 0 <= j < n ensures Window(cells, at, n)[j] == Window(after, to, n)[j] {
      WindowAt(cells, at, n, j);
      WindowAt(after, to, n, j);
    }
  }

  /** `t` has been written from position `at` on, and nothing else. */
  ghost predicate Written<T>(cells: seq<T>, after: seq<T>, at: nat, t: seq<T>) {
    && |after| == |cells| > 0 && |t| <= |cells|
    && forall j :: 0 <= j < |cells| ==>
         after[Slot(at, j, |cells|)] == if j < |t| then t[j] else cells[Slot(at, j, |cells|)]
  }

  lemma SlotAdd(at: nat, i: nat, j: nat, size: nat)
    requires size > 0
    ensures Slot(at + i, j, size) == Slot(at, i + j, size)
    ensures Slot(at, i + size, size) == Slot(at, i, size)
  {
    assert at + i + j == at + (i + j);
    SlotIsMod(at, i, size);
    SlotIsMod(at, i + size, size);
    ModWhole(at + i, size, 1);
  }

  /** Two cells less than a round apart are different. */
  lemma SlotsDiffer(at: nat, i: nat, j: nat, size: nat)
    requires i < j < i + size
    ensures Slot(at, i, size) != Slot(at, j, size)
  {
    SlotIsMod(at, i, size);
    SlotIsMod(at, j, size);
    ModSame(at + i, j - i, size);
    ModSmall(j - i, size);
    assert at + i + (j - i) == at + j;
  }

  /** What a stretch from cell `o` on leaves in cell `c`. */
  ghost function Stretched<T>(cells: seq<T>, o: nat, t: seq<T>, c: nat): (r: T)
    requires c < |cells|
  {
    if o <= c < o + |t| then t[c - o] else cells[c]
  }

  /** A stretch that does not reach beyond the last cell. */
  lemma StretchWritten<T>(cells: seq<T>, after: seq<T>, at: nat, t: seq<T>)
    requires |after| == |cells| > 0 && Rest(at, |cells|) + |t| <= |cells|
    requires forall c :: 0 <= c < |cells| ==> after[c] == Stretched(cells, Rest(at, |cells|), t, c)
    ensures Written(cells, after, at, t)
  {
    var size, o := |cells|, Rest(at, |cells|);
    forall j | 0 <= j < size
      ensures after[Slot(at, j, size)] == if j < |t| then t[j] else cells[Slot(at, j, size)]
    {
      SlotPlace(at, j, size);
      assert after[Slot(at, j, size)] == Stretched(cells, o, t, Slot(at, j, size));
    }
  }

  lemma SlotPlace(at: nat, j: nat, size: nat)
    requires j < size
    ensures Slot(at, j, size) == if Rest(at, size) + j < size then Rest(at, size) + j else Rest(at, size) + j - size
  {
    RestIsMod(at, size);
    ModSmall(j, size);
    ModAdd(at, j, size);
    SlotIsMod(at, j, size);
  }

  lemma NothingWritten<T>(cells: seq<T>, at: nat)
    requires |cells| > 0
    ensures Written(cells, cells, at, [])
  {
  }

  lemma WrittenTwice<T>(cells: seq<T>, mid: seq<T>, after: seq<T>, at: nat, s: seq<T>, t: seq<T>)
    requires Written(cells, mid, at, s) && Written(mid, after, at + |s|, t) && |s| + |t| <= |cells|
    ensures Written(cells, after, at, s + t)
  {
    var size := |cells|;
    forall j | 0 <= j < size
      ensures after[Slot(at, j, size)] == if j < |s + t| then (s + t)[j] else cells[Slot(at, j, size)]
    {
      if j >= |s| {
        SlotAdd(at, |s|, j - |s|, size);
      } else {
        SlotAdd(at, |s|, size + j - |s|, size);
        SlotAdd(at, j, 0, size);
        assert |s| + (size + j - |s|) == j + size;
      }
    }
  }

  /** Writing behind what stands in a ring appends to it. */
  lemma WrittenAppends<T>(cells: seq<T>, after: seq<T>, at: nat, n: nat, t: seq<T>)
    requires Written(cells, after, at + n, t) && n + |t| <= |cells|
    ensures Window(after, at, n + |t|) == Window(cells, at, n) + t
  {
    var size := |cells|;
    forall j | 0 <= j < n + |t|
      ensures Window(after, at, n + |t|)[j] == (Window(cells, at, n) + t)[j]
    {
      WindowAt(after, at, n + |t|, j);
      if j < n {
        WindowAt(cells, at, n, j);
      }
      if j >= n {
        SlotAdd(at, n, j - n, size);
      } else {
        SlotAdd(at, n, size + j - n, size);
        assert n + (size + j - n) == j + size;
        SlotAdd(at, j, 0, size);
      }
    }
  }

  /** Dropping from the front of what stands in a ring. */
  lemma WindowDrops<T>(cells: seq<T>, at: nat, n: nat, d: nat)
    requires |cells| > 0 && d <= n
    ensures Window(cells, at + d, n - d) == Window(cells, at, n)[d..]
  {
    forall j | 0 <= j < n - d
      ensures Window(cells, at + d, n - d)[j] == Window(cells, at, n)[d..][j]
    {
      WindowAt(cells, at + d, n - d, j);
      WindowAt(cells, at, n, d + j);
      SlotAdd(at, d, j, |cells|);
    }
  }
}
