/** The frame ring in shared memory: free-running 32-bit counters, and a backlog that is dropped when what is
    written does not fit. */
module FrameRing {
  import opened Modulo
  import opened Ring

  const WORD: nat := 0x1_0000_0000
  const INT_MAX: nat := 0x7FFF_FFFF
  const EAGAIN: int := 11

  // ----- a bounded queue

  function AfterWrite(queue: seq<int>, t: seq<int>, size: nat): seq<int> {
    if size - |queue| < |t| then t else queue + t
  }

  /** A value as an unsigned 32-bit number. */
  function ToUnsigned(x: int): (r: nat)
    ensures r < WORD
  {
    x % WORD
  }

  class SharedRing {
    const size: nat
    const cells: array<int>
    var first: nat
    var last: nat
    /** How much has been written and read since the ring was reset, not wrapped. */
    ghost var written: nat
    ghost var taken: nat

    /** The counters are the true ones, as 32 bits hold them. */
    ghost predicate Valid()
      reads this, cells
    {
      && 0 < size == cells.Length && size <= INT_MAX
      && taken <= written <= taken + size
      && first < WORD && last < WORD && Counts(last, written) && Counts(first, taken)
    }

    /** A counter that wraps holds its place in the ring as long as the ring fits the range of the counter,
        or until the counter wraps. */
    ghost predicate Counts(counter: nat, total: nat)
      requires size > 0
    {
      Same(counter, total, WORD) && (Same(WORD, 0, size) || counter == total)
    }

    ghost predicate Fits(n: nat)
      requires size > 0
      reads this
    {
      Same(WORD, 0, size) || written + n < WORD
    }

    ghost function Backlog(): seq<int>
      requires Valid()
      reads this, cells
    {
      Window(cells[..], taken, written - taken)
    }

    constructor (size: nat)
      requires 0 < size <= 0x7FFF_FFFF
      ensures Valid() && this.size == size && Backlog() == [] && fresh(cells) && written == 0
    {
      this.size := size;
      cells := new int[size];
      first, last := 0, 0;
      written, taken := 0, 0;
      new;
      assert Same(0, 0, WORD);
    }

    /** Drops the backlog. */
    method Clear()
      requires Valid()
      modifies this`first, this`last, this`written, this`taken
      ensures Valid() && Backlog() == [] && written == 0
    {
      first, last := 0, 0;
      written, taken := 0, 0;
      assert Same(0, 0, WORD);
    }

    /** Copies frames to neighbouring cells, those from position `at` on. */
    method CopyTo(off: nat, t: seq<int>, ghost at: nat)
      requires 0 < size == cells.Length && off + |t| <= size && (t != [] ==> off == Rest(at, size))
      modifies cells
      ensures Written(old(cells[..]), cells[..], at, t)
    {
      ghost var before := cells[..];
      forall i | 0 <= i < |t| {
        cells[off + i] := t[i];
      }
      if t == [] {
        assert cells[..] == before;
        NothingWritten(before, at);
      } else {
        StretchWritten(before, cells[..], at, t);
      }
    }

    /** Copies frames to the cells from position `at` on, in two stretches if the end of the ring comes between. */
    method CopyIn(off: nat, t: seq<int>, ghost at: nat)
      requires 0 < size == cells.Length && |t| <= size && off == Rest(at, size)
      modifies cells
      ensures Written(old(cells[..]), cells[..], at, t)
    {
      var l := if |t| > size - off then size - off else |t|;
      ghost var before := cells[..];
      CopyTo(off, t[..l], at);
      ghost var mid := cells[..];
      if t[l..] != [] {
        RoundEnds(at, l, size);
      }
      CopyTo(0, t[l..], at + l);
      WrittenTwice(before, mid, cells[..], at, t[..l], t[l..]);
      assert t[..l] + t[l..] == t;
    }

    /** Where position `total` is in the ring, found from the counter. */
    method Offset(counter: nat, ghost total: nat) returns (off: nat)
      requires 0 < size && Counts(counter, total)
      ensures off == Rest(total, size) < size
    {
      off := counter % size;
      Place(counter, total, size);
      RestIsMod(total, size);
    }

    /** Writes frames; a backlog they do not fit behind is dropped. */
    method Write(t: seq<int>) returns (r: int)
      requires Valid() && |t| <= size && (|Backlog()| + |t| <= size ==> Fits(|t|))
      modifies this`first, this`last, this`written, this`taken, cells
      ensures Valid() && r == |t| && Backlog() == AfterWrite(old(Backlog()), t, size)
      ensures written == (if size - |old(Backlog())| < |t| then |t| else old(written) + |t|)
    {
      Difference(last, written, first, taken);
      if size - ToUnsigned(last - first) < |t| {
        Clear();
      }
      Append(t);
      r := |t|;
    }

    method Append(t: seq<int>)
      requires Valid() && |Backlog()| + |t| <= size && Fits(|t|)
      modifies this`last, this`written, cells
      ensures Valid() && Backlog() == old(Backlog()) + t && written == old(written) + |t|
    {
      ghost var before, n := cells[..], written - taken;
      var off := Offset(last, written);
      CopyIn(off, t, written);
      WrittenAppends(before, cells[..], taken, n, t);
      Counted(last, written, |t|, size);
      last := ToUnsigned(last + |t|);
      written := written + |t|;
      assert written - taken == n + |t|;
    }

    /** Takes the oldest frames, or nothing if there are fewer. */
    method Read(frameCount: int) returns (r: int, buf: seq<int>)
      requires Valid() && -0x8000_0000 <= frameCount <= 0x7FFF_FFFF
      modifies this`first, this`taken
      ensures Valid() && written == old(written)
      ensures if 0 <= frameCount <= |old(Backlog())|
              then r == frameCount && buf == old(Backlog())[..frameCount] && Backlog() == old(Backlog())[frameCount..]
              else r == -11 && buf == [] && Backlog() == old(Backlog())
    {
      TooMany(last, written, first, taken, frameCount);
      if ToUnsigned(frameCount) > ToUnsigned(last - first) {
        return -EAGAIN, [];
      }
      buf := CopyOut(frameCount);
      WindowDrops(cells[..], taken, written - taken, frameCount);
      Counted(first, taken, frameCount, size);
      first := ToUnsigned(first + frameCount);
      taken := taken + frameCount;
      r := frameCount;
    }

    method CopyOut(n: nat) returns (buf: seq<int>)
      requires Valid() && n <= |Backlog()|
      ensures buf == Backlog()[..n]
    {
      var off := Offset(first, taken);
      var l := if n > size - off then size - off else n;
      buf := cells[off..off + l] + cells[..n - l];
      WindowSplit(cells[..], taken, written - taken, n, off, l);
    }
  }

  lemma RoundEnds(at: nat, l: nat, size: nat)
    requires size > 0 && Rest(at, size) + l == size
    ensures Rest(at + l, size) == 0
  {
    RestIsMod(at, size);
    Distribute(size, at / size, 1);
    Quotient(at + l, size, at / size + 1, 0);
    RestIsMod(at + l, size);
  }

  /** The first `n` frames of a backlog stand in one or two stretches. */
  lemma WindowSplit(cells: seq<int>, at: nat, m: nat, n: nat, off: nat, l: nat)
    requires |cells| > 0 && n <= m && n <= |cells| && off == Rest(at, |cells|)
    requires l == if n > |cells| - off then |cells| - off else n
    ensures Window(cells, at, m)[..n] == cells[off..off + l] + cells[..n - l]
  {
    forall j | 0 <= j < n
      ensures Window(cells, at, m)[j] == (cells[off..off + l] + cells[..n - l])[j]
    {
      WindowAt(cells, at, m, j);
      SlotPlace(at, j, |cells|);
    }
  }

  /** The difference of two counters that wrap. */
  lemma Difference(last: nat, written: nat, first: nat, taken: nat)
    requires last < WORD && first < WORD && Same(last, written, WORD) && Same(first, taken, WORD)
    requires taken <= written < taken + WORD
    ensures ToUnsigned(last - first) == written - taken
  {
    SameIsMod(last, written, WORD);
    SameIsMod(first, taken, WORD);
  }

  /** A count that is compared as an unsigned number is too large if it is negative, too. */
  lemma TooMany(last: nat, written: nat, first: nat, taken: nat, n: int)
    requires last < WORD && first < WORD && Same(last, written, WORD) && Same(first, taken, WORD)
    requires taken <= written <= taken + INT_MAX && -0x8000_0000 <= n <= INT_MAX
    ensures ToUnsigned(n) > ToUnsigned(last - first) <==> !(0 <= n <= written - taken)
  {
    Difference(last, written, first, taken);
  }

  /** The place of a counter in the ring. */
  lemma Place(counter: nat, total: nat, size: nat)
    requires size > 0 && Same(counter, total, WORD) && (Same(WORD, 0, size) || counter == total)
    ensures counter % size == total % size
  {
    if counter != total {
      SameFiner(counter, total, WORD, size);
    }
  }

  /** Wrapped counters keep finding their place in rings of exactly the sizes that divide their range. */
  lemma WrapKeepsPlace(size: nat)
    requires size > 0
    ensures (forall total: nat :: ToUnsigned(total) % size == total % size) <==> WORD % size == 0
  {
    ModSmall(0, size);
    assert ToUnsigned(WORD) == 0;
    if WORD % size == 0 {
      SameIsMod(WORD, 0, size);
      forall total: nat ensures ToUnsigned(total) % size == total % size {
        SameIsMod(ToUnsigned(total), total, WORD);
        SameFiner(ToUnsigned(total), total, WORD, size);
      }
    }
  }

  lemma Counted(counter: nat, total: nat, n: nat, size: nat)
    requires size > 0 && Same(counter, total, WORD) && (Same(WORD, 0, size) || counter == total)
    requires Same(WORD, 0, size) || total + n < WORD
    ensures var c := ToUnsigned(counter + n);
            Same(c, total + n, WORD) && (Same(WORD, 0, size) || c == total + n)
  {
    SameAdd(counter, total, n, WORD);
    SameIsMod(counter + n, total + n, WORD);
    SameIsMod(ToUnsigned(counter + n), total + n, WORD);
  }

  // ----- whole runs

  datatype Op = Write(t: seq<int>) | Read(n: int) | Clear

  /** What has happened to a queue: every frame that was written, whether it was dropped, and what was read. */
  datatype History = History(queue: seq<int>, written: seq<int>, lost: seq<bool>, got: seq<int>)

  ghost function Falses(n: nat): (r: seq<bool>)
    ensures |r| == n && forall i :: 0 <= i < n ==> !r[i]
  {
    seq(n, _ => false)
  }

  ghost function Trues(n: nat): (r: seq<bool>)
    ensures |r| == n && forall i :: 0 <= i < n ==> r[i]
  {
    seq(n, _ => true)
  }

  /** Marks the last `n` frames as lost. */
  ghost function Lose(lost: seq<bool>, n: nat): (r: seq<bool>)
    requires n <= |lost|
    ensures |r| == |lost|
  {
    lost[..|lost| - n] + Trues(n)
  }

  ghost predicate Sound(h: History) {
    |h.lost| == |h.written| && |h.queue| <= |h.written|
  }

  /** One operation on a queue of at most `size` frames. */
  ghost function Step(h: History, op: Op, size: nat): (r: History)
    requires Sound(h)
    ensures Sound(r)
  {
    match op
    case Write(t) =>
      var fits := size - |h.queue| >= |t|;
      History(AfterWrite(h.queue, t, size), h.written + t,
              (if fits then h.lost else Lose(h.lost, |h.queue|)) + Falses(|t|), h.got)
    case Read(n) =>
      if 0 <= n <= |h.queue| then h.(queue := h.queue[n..], got := h.got + h.queue[..n]) else h
    case Clear =>
      h.(queue := [], lost := Lose(h.lost, |h.queue|))
  }

  ghost function Run(ops: seq<Op>, size: nat): (h: History)
    ensures Sound(h)
  {
    if ops == [] then History([], [], [], []) else Step(Run(ops[..|ops| - 1], size), ops[|ops| - 1], size)
  }

  /** What of `w` was not lost. */
  ghost function Kept(w: seq<int>, lost: seq<bool>): seq<int>
    requires |lost| == |w|
  {
    if w == [] then []
    else Kept(w[..|w| - 1], lost[..|w| - 1]) + if lost[|w| - 1] then [] else [w[|w| - 1]]
  }

  lemma {:induction false} KeptAppend(v: seq<int>, lv: seq<bool>, w: seq<int>, lw: seq<bool>)
    requires |lv| == |v| && |lw| == |w|
    ensures Kept(v + w, lv + lw) == Kept(v, lv) + Kept(w, lw)
    decreases |w|
  {
    if w == [] {
      assert v + w == v && lv + lw == lv;
    } else {
      var n := |w| - 1;
      KeptAppend(v, lv, w[..n], lw[..n]);
      assert (v + w)[..|v| + n] == v + w[..n] && (lv + lw)[..|v| + n] == lv + lw[..n];
    }
  }

  lemma {:induction false} AllKept(w: seq<int>, lost: seq<bool>)
    requires |lost| == |w| && forall i :: 0 <= i < |w| ==> !lost[i]
    ensures Kept(w, lost) == w
    decreases |w|
  {
    if w != [] {
      AllKept(w[..|w| - 1], lost[..|w| - 1]);
    }
  }

  lemma {:induction false} NoneKept(w: seq<int>, lost: seq<bool>)
    requires |lost| == |w| && forall i :: 0 <= i < |w| ==> lost[i]
    ensures Kept(w, lost) == []
    decreases |w|
  {
    if w != [] {
      NoneKept(w[..|w| - 1], lost[..|w| - 1]);
    }
  }

  /** The queue is the end of what was written, none of it lost; before it was read what was not lost. */
  ghost predicate Accounted(h: History) {
    && Sound(h)
    && var n := |h.written| - |h.queue|;
       && h.queue == h.written[n..] && (forall i :: n <= i < |h.lost| ==> !h.lost[i])
       && Kept(h.written[..n], h.lost[..n]) == h.got
  }

  lemma AccountedKept(h: History)
    requires Accounted(h)
    ensures Kept(h.written, h.lost) == h.got + h.queue
    ensures Kept(h.written, Lose(h.lost, |h.queue|)) == h.got
  {
    var n := |h.written| - |h.queue|;
    assert h.written == h.written[..n] + h.queue && h.lost == h.lost[..n] + h.lost[n..];
    KeptAppend(h.written[..n], h.lost[..n], h.queue, h.lost[n..]);
    AllKept(h.queue, h.lost[n..]);
    KeptAppend(h.written[..n], h.lost[..n], h.queue, Trues(|h.queue|));
    NoneKept(h.queue, Trues(|h.queue|));
  }

  lemma WriteAccounted(h: History, t: seq<int>, size: nat)
    requires Accounted(h)
    ensures Accounted(Step(h, Write(t), size))
  {
    var r := Step(h, Write(t), size);
    var n, m := |h.written| - |h.queue|, |h.written|;
    if size - |h.queue| < |t| {
      AccountedKept(h);
      assert r.written[..m] == h.written && r.lost[..m] == Lose(h.lost, |h.queue|);
    } else {
      assert r.written[..n] == h.written[..n] && r.lost[..n] == h.lost[..n];
      assert r.written[n..] == h.queue + t;
    }
  }

  /** Taking from a queue that is the end of what was written. */
  lemma TakeFront(written: seq<int>, m: nat, n: nat)
    requires m + n <= |written|
    ensures written[..m + n] == written[..m] + written[m..][..n] && written[m..][n..] == written[m + n..]
  {
  }

  lemma ReadAccounted(h: History, n: nat)
    requires Accounted(h) && n <= |h.queue|
    ensures Accounted(h.(queue := h.queue[n..], got := h.got + h.queue[..n]))
  {
    hide Kept;
    var m := |h.written| - |h.queue|;
    TakeFront(h.written, m, n);
    var lost := h.lost[m..m + n];
    assert h.lost[..m + n] == h.lost[..m] + lost;
    KeptAppend(h.written[..m], h.lost[..m], h.queue[..n], lost);
    AllKept(h.queue[..n], lost);
  }

  lemma StepAccounted(h: History, op: Op, size: nat)
    requires Accounted(h)
    ensures Accounted(Step(h, op, size))
  {
    match op
    case Write(t) => WriteAccounted(h, t, size);
    case Read(n) =>
      if 0 <= n <= |h.queue| {
        ReadAccounted(h, n);
      }
    case Clear =>
      AccountedKept(h);
      var r := Step(h, op, size);
      assert r.written[..|r.written|] == r.written && r.lost[..|r.lost|] == r.lost;
  }

  lemma StepBounded(h: History, op: Op, size: nat)
    requires Sound(h) && |h.queue| <= size && (op.Write? ==> |op.t| <= size)
    ensures |Step(h, op, size).queue| <= size
  {
  }

  /** Over any run, what was read and what is left to read are the frames that were written, in order, less those
      of dropped backlogs; and no backlog is longer than the ring. */
  lemma {:induction false} RunAccounted(ops: seq<Op>, size: nat)
    requires forall i :: 0 <= i < |ops| && ops[i].Write? ==> |ops[i].t| <= size
    ensures var h := Run(ops, size); Accounted(h) && h.got + h.queue == Kept(h.written, h.lost) && |h.queue| <= size
    decreases |ops|
  {
    var h := Run(ops, size);
    if ops != [] {
      var before, op := Run(ops[..|ops| - 1], size), ops[|ops| - 1];
      RunAccounted(ops[..|ops| - 1], size);
      assert h == Step(before, op, size);
      StepAccounted(before, op, size);
      StepBounded(before, op, size);
    }
    AccountedKept(h);
  }

  // ----- whole runs of the ring

  /** What an operation on a backlog makes of the number of frames since the counters were reset. */
  ghost function SinceAfter(since: nat, backlog: nat, op: Op, size: nat): nat {
    match op
    case Write(t) => if size - backlog < |t| then |t| else since + |t|
    case Read(_) => since
    case Clear => 0
  }

  /** How many frames have been written since the counters were reset. */
  ghost function Since(ops: seq<Op>, size: nat): nat {
    if ops == [] then 0
    else
      var before, op := ops[..|ops| - 1], ops[|ops| - 1];
      SinceAfter(Since(before, size), |Run(before, size).queue|, op, size)
  }

  /** An operation that the ring can be given: its counts are `int`s, and no more is written than it has cells. */
  predicate Allowed(op: Op, size: nat) {
    match op
    case Write(t) => |t| <= size
    case Read(n) => -0x8000_0000 <= n <= INT_MAX
    case Clear => true
  }

  /** The counters do not lose their places: they may wrap, or they do not get as far. */
  ghost predicate Countable(ops: seq<Op>, size: nat)
    requires size > 0
  {
    WORD % size == 0 || forall k :: 0 <= k <= |ops| ==> Since(ops[..k], size) < WORD
  }

  /** Performs one operation. */
  method Perform(op: Op, ring: SharedRing, ghost h: History) returns (buf: seq<int>)
    requires ring.Valid() && Allowed(op, ring.size) && Sound(h) && h.queue == ring.Backlog()
    requires op.Write? && |h.queue| + |op.t| <= ring.size ==> ring.Fits(|op.t|)
    modifies ring, ring.cells
    ensures ring.Valid() && ring.Backlog() == Step(h, op, ring.size).queue
    ensures Step(h, op, ring.size).got == h.got + buf
    ensures ring.written == SinceAfter(old(ring.written), |h.queue|, op, ring.size)
  {
    buf := [];
    match op
    case Write(t) =>
      var _ := ring.Write(t);
    case Read(n) =>
      var r;
      r, buf := ring.Read(n);
    case Clear =>
      ring.Clear();
  }

  lemma OneMore(ops: seq<Op>, k: nat, size: nat)
    requires k < |ops|
    ensures Run(ops[..k + 1], size) == Step(Run(ops[..k], size), ops[k], size)
    ensures Since(ops[..k + 1], size) == SinceAfter(Since(ops[..k], size), |Run(ops[..k], size).queue|, ops[k], size)
  {
    assert ops[..k + 1][..k] == ops[..k];
  }

  /** Over any run of a ring that starts empty, with its counters as 32 bits hold them, the reads give what they
      give of a bounded queue; so what was read and what is left are what was written, in order, less the dropped
      backlogs. */
  method RunRing(ops: seq<Op>, ring: SharedRing) returns (got: seq<int>)
    requires ring.Valid() && ring.Backlog() == [] && ring.written == 0
    requires (forall op :: op in ops ==> Allowed(op, ring.size)) && Countable(ops, ring.size)
    modifies ring, ring.cells
    ensures ring.Valid() && got == Run(ops, ring.size).got && ring.Backlog() == Run(ops, ring.size).queue
    ensures var h := Run(ops, ring.size); got + ring.Backlog() == Kept(h.written, h.lost)
  {
    got := [];
    ghost var size := ring.size;
    NothingRun(ops, size);
    hide Run, Since, Step;
    for k := 0 to |ops|
      invariant ring.Valid() && ring.written == Since(ops[..k], size)
      invariant got == Run(ops[..k], size).got && ring.Backlog() == Run(ops[..k], size).queue
    {
      ghost var h := Run(ops[..k], size);
      OneMore(ops, k, size);
      FitsCounter(ops, k, ring);
      assert ops[k] in ops;
      var buf := Perform(ops[k], ring, h);
      got := got + buf;
    }
    assert ops[..|ops|] == ops;
    forall i | 0 <= i < |ops| && ops[i].Write? ensures |ops[i].t| <= size {
      assert ops[i] in ops && Allowed(ops[i], size);
    }
    RunAccounted(ops, size);
  }

  lemma NothingRun(ops: seq<Op>, size: nat)
    ensures Since(ops[..0], size) == 0 && Run(ops[..0], size) == History([], [], [], [])
  {
  }

  lemma FitsCounter(ops: seq<Op>, k: nat, ring: SharedRing)
    requires k < |ops| && ring.Valid() && Countable(ops, ring.size) && ring.written == Since(ops[..k], ring.size)
    requires ring.Backlog() == Run(ops[..k], ring.size).queue
    ensures ops[k].Write? && |ring.Backlog()| + |ops[k].t| <= ring.size ==> ring.Fits(|ops[k].t|)
  {
    OneMore(ops, k, ring.size);
    SameIsMod(WORD, 0, ring.size);
    ModSmall(0, ring.size);
    if WORD % ring.size != 0 {
      assert Since(ops[..k + 1], ring.size) < WORD;
    }
  }
}
