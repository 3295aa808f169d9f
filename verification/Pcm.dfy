/** The memory-mapped ring of a PCM device: positions that wrap at a computed boundary, what of the ring is
    free, and the transfer of frames into it while the device plays. */
module Pcm {
  import opened Modulo
  import opened Ring

  const INT_MAX: nat := 0x7FFF_FFFF

  // ----- the boundary

  ghost function Power2(k: nat): nat {
    if k == 0 then 1 else 2 * Power2(k - 1)
  }

  /** Doubles the size of the ring as often as leaves room for another ring in an `int`. */
  method ComputeBoundary(bufferSize: nat) returns (boundary: nat, ghost doublings: nat)
    requires 0 < bufferSize <= 0x7FFF_FFFF
    ensures boundary == bufferSize * Power2(doublings)
    ensures 2 * boundary > 0x7FFF_FFFF - bufferSize
    ensures boundary <= 0x7FFF_FFFF - bufferSize <==> bufferSize <= 0x7FFF_FFFF / 2
    ensures boundary > bufferSize <==> 3 * bufferSize <= 0x7FFF_FFFF
  {
    boundary, doublings := bufferSize, 0;
    while boundary * 2 <= INT_MAX - bufferSize
      invariant 0 < boundary <= INT_MAX && boundary == bufferSize * Power2(doublings)
      invariant bufferSize <= boundary
      invariant boundary > bufferSize ==> 3 * bufferSize <= INT_MAX
      invariant boundary <= INT_MAX - bufferSize || boundary == bufferSize
      decreases INT_MAX - boundary
    {
      Associate(bufferSize, Power2(doublings), 2);
      boundary, doublings := boundary * 2, doublings + 1;
    }
  }

  /** The boundary is a multiple of the size of the ring. */
  lemma DoublingsSame(bufferSize: nat, doublings: nat)
    requires bufferSize > 0
    ensures Same(bufferSize * Power2(doublings), 0, bufferSize)
  {
    var k := Power2(doublings);
    ModWhole(0, bufferSize, k);
    ModSmall(0, bufferSize);
    SameIsMod(bufferSize * k, 0, bufferSize);
  }

  // ----- what is available

  /** A value as an `int` takes it: 32 bits, the top one the sign. */
  function ToInt(x: int): int {
    var bits := x % 0x1_0000_0000;
    if bits > INT_MAX then bits - 0x1_0000_0000 else bits
  }

  /** `queued` frames lie between the device at `hw` and the application at `appl`. */
  ghost predicate Apart(hw: nat, appl: nat, queued: nat, boundary: nat) {
    hw < boundary && appl <= boundary && Same(hw + queued, appl, boundary)
  }

  lemma SmallMultiple(b: nat, d: int)
    requires b > 0 && -2 * b < b * d < 2 * b
    ensures -1 <= d <= 1
  {
    if d >= 2 {
      Multiple(b, d - 1);
    } else if d <= -2 {
      Multiple(b, d + 1);
    }
  }

  /** Positions that wrap differ from the number of frames between them by a whole round or not at all. */
  lemma Rounds(hw: nat, appl: nat, queued: nat, boundary: nat)
    requires Apart(hw, appl, queued, boundary) && queued <= boundary
    ensures var b: int, d: int := boundary, queued - (appl as int - hw); d == 0 || d == b || d == -b
  {
    SameIsMod(hw + queued, appl, boundary);
    var q: int, r: int := (hw + queued) / boundary, appl / boundary;
    assert hw + queued == boundary * q + appl % boundary;
    assert appl == boundary * r + appl % boundary;
    assert boundary * (q - r) == boundary * q - boundary * r;
    SmallMultiple(boundary, q - r);
  }

  method PlaybackAvail(hw: nat, appl: nat, bufferSize: nat, boundary: nat, ghost queued: nat) returns (avail: int)
    requires 0 < bufferSize <= boundary <= 0x7FFF_FFFF - bufferSize
    requires Apart(hw, appl, queued, boundary) && queued <= bufferSize
    ensures 0 <= avail <= boundary
    ensures avail - (hw + bufferSize - appl) in {0, boundary as int, -(boundary as int)}
    ensures avail == bufferSize - queued
            <==> !(queued == bufferSize && appl <= hw)
                 && !(queued == 0 && boundary == bufferSize && appl == boundary && hw == 0)
  {
    Rounds(hw, appl, queued, boundary);
    avail := ToInt(hw + bufferSize - appl);
    assert avail == hw + bufferSize - appl;
    if avail < 0 {
      avail := avail + boundary;
    } else if avail > boundary {
      avail := avail - boundary;
    }
  }

  /** All of a ring's frames are still to be played, and its end comes between the device and the application, as
      the two positions show. */
  ghost predicate FullAcross(hw: nat, appl: nat, bufferSize: nat, boundary: nat) {
    hw + bufferSize == appl + boundary
  }

  /** With more than one ring to the boundary the positions tell whether what is available is wrong. */
  lemma FullAcrossShows(hw: nat, appl: nat, bufferSize: nat, boundary: nat, queued: nat)
    requires Apart(hw, appl, queued, boundary) && 0 < bufferSize < boundary && queued <= bufferSize
    ensures FullAcross(hw, appl, bufferSize, boundary) <==> queued == bufferSize && appl <= hw
  {
    Rounds(hw, appl, queued, boundary);
  }

  /** Every ring can get into that state: the device has still to play what comes before the boundary and, from
      its start on, what the application has written since. */
  lemma FullAcrossHappens(appl: nat, bufferSize: nat, boundary: nat) returns (hw: nat)
    requires appl < bufferSize < boundary
    ensures Apart(hw, appl, bufferSize, boundary) && FullAcross(hw, appl, bufferSize, boundary)
  {
    hw := appl + boundary - bufferSize;
    SameRound(appl + boundary, boundary);
    assert hw + bufferSize == appl + boundary;
  }

  /** Two instances in which what is available is not what is free: a full ring of four frames with a boundary of
      eight, and an empty one with a boundary of one ring. */
  lemma AvailWrong()
    ensures Apart(7, 3, 4, 8) && FullAcross(7, 3, 4, 8) && 7 + 4 - 3 == 8 != 4 - 4
    ensures Apart(0, 4, 0, 4) && 0 + 4 - 4 == 0 != 4 - 0
  {
    var hw := FullAcrossHappens(3, 4, 8);
    assert hw == 7;
    SameRound(4, 4);
  }

  method CaptureAvail(hw: nat, appl: nat, boundary: nat, ghost filled: nat) returns (avail: int)
    requires boundary <= 0x7FFF_FFFF && hw < boundary && appl <= boundary
    requires Same(appl + filled, hw, boundary) && filled <= boundary
    ensures 0 <= avail < boundary
    ensures avail == filled <==> filled < boundary
  {
    avail := ToInt(hw - appl);
    assert avail == hw - appl;
    if avail < 0 {
      avail := avail + boundary;
    }
    if filled < boundary {
      CaptureRounds(hw, appl, filled, boundary);
    }
  }

  lemma CaptureRounds(hw: nat, appl: nat, filled: nat, boundary: nat)
    requires hw < boundary && appl <= boundary && Same(appl + filled, hw, boundary) && filled < boundary
    ensures filled == hw - appl || filled == hw - appl + boundary
  {
    var a := appl;
    if appl == boundary {
      a := 0;
      SameRound(appl + filled, boundary);
      SameTrans(filled, appl + filled, hw, boundary);
    }
    Rounds(a, hw, filled, boundary);
  }

  // ----- the ring

  class Device {
    const bufferSize: nat
    const boundary: nat
    const ring: array<int>
    var applPtr: nat
    /** Moved by the device. */
    var hwPtr: nat
    /** What the device has still to play. */
    var queued: nat

    ghost predicate Valid()
      reads this, ring
    {
      && 0 < bufferSize < boundary <= INT_MAX - bufferSize && Same(boundary, 0, bufferSize)
      && ring.Length == bufferSize && queued <= bufferSize
      && Apart(hwPtr, applPtr, queued, boundary)
    }

    /** The frames the device has still to play. */
    ghost function Queue(): seq<int>
      requires Valid()
      reads this, ring
    {
      Window(ring[..], hwPtr, queued)
    }

    ghost function Now(): State
      requires Valid()
      reads this, ring
    {
      State(ring[..], applPtr, Queue())
    }

    /** The ring is full, and the positions make it look empty. */
    ghost predicate Stale()
      reads this
    {
      FullAcross(hwPtr, applPtr, bufferSize, boundary)
    }

    lemma StaleIsFull()
      requires Valid()
      ensures Stale() <==> queued == bufferSize && applPtr <= hwPtr
    {
      FullAcrossShows(hwPtr, applPtr, bufferSize, boundary, queued);
    }

    /** A ring with nothing to play, whose boundary leaves room for another ring. */
    constructor (bufferSize: nat)
      requires 0 < bufferSize && 3 * bufferSize <= 0x7FFF_FFFF
      ensures Valid() && this.bufferSize == bufferSize && queued == 0 && fresh(ring)
    {
      var limit, doublings := ComputeBoundary(bufferSize);
      this.bufferSize := bufferSize;
      boundary := limit;
      ring := new int[bufferSize];
      applPtr, hwPtr, queued := 0, 0, 0;
      new;
      DoublingsSame(bufferSize, doublings);
    }

    /** The device plays some of what it has. */
    method Sync() returns (ghost played: nat)
      requires Valid()
      modifies this`hwPtr, this`queued
      ensures Valid() && played <= old(queued) && queued == old(queued) - played
      ensures Queue() == old(Queue())[played..]
      ensures played == 0 ==> hwPtr == old(hwPtr)
    {
      var n: nat :| n <= queued;
      played := n;
      var h := if hwPtr + n >= boundary then hwPtr + n - boundary else hwPtr + n;
      ghost var cells := ring[..];
      PlaysOn(cells, hwPtr, h, applPtr, queued, n, boundary);
      hwPtr, queued := h, queued - n;
      assert ring[..] == cells;
    }

    method Avail() returns (avail: int, ghost played: nat)
      requires Valid()
      modifies this`hwPtr, this`queued
      ensures Valid() && played <= old(queued) && queued == old(queued) - played
      ensures Queue() == old(Queue())[played..]
      ensures 0 <= avail <= boundary
      ensures avail == bufferSize - queued <==> !Stale()
      ensures Stale() ==> avail == boundary && old(Stale())
    {
      played := Sync();
      FullAcrossShows(hwPtr, applPtr, bufferSize, boundary, queued);
      avail := PlaybackAvail(hwPtr, applPtr, bufferSize, boundary, queued);
    }

    /** Where the application goes on. */
    ghost function Place(): int
      requires bufferSize > 0
      reads this
    {
      applPtr % bufferSize
    }

    /** No more frames than these are granted at `offset`: they reach the end of the ring or of the free space. */
    ghost predicate AllGranted(offset: nat, frames: nat)
      reads this
    {
      offset + frames == bufferSize || (queued + frames == bufferSize && !Stale())
    }

    /** How many of `wanted` frames can be written at once, and where. */
    method Begin(wanted: nat) returns (offset: nat, frames: nat, ghost played: nat)
      requires Valid()
      modifies this`hwPtr, this`queued
      ensures Valid() && played <= old(queued) && queued == old(queued) - played
      ensures Queue() == old(Queue())[played..]
      ensures offset == Place() && offset + frames <= bufferSize && frames <= wanted
      ensures queued + frames <= bufferSize <==> !(Stale() && wanted > 0)
      ensures Stale() ==> old(Stale())
      ensures frames == 0 <==> wanted == 0 || (queued == bufferSize && !Stale())
      ensures frames < wanted ==> AllGranted(offset, frames)
      ensures Done(old(Now()), Now(), [], played, boundary)
    {
      NothingYet(Now(), boundary);
      offset := applPtr % bufferSize;
      var avail;
      avail, played := Avail();
      if avail > bufferSize {
        avail := bufferSize;
      }
      var continuous := bufferSize - offset;
      frames := wanted;
      if frames > avail {
        frames := avail;
      }
      if frames > continuous {
        frames := continuous;
      }
      StaleIsFull();
    }

    method ApplForward(frames: nat)
      requires Valid() && frames < boundary
      modifies this`applPtr, this`queued
      ensures applPtr <= boundary && Same(applPtr, old(applPtr) + frames, boundary)
      ensures Apart(hwPtr, applPtr, queued, boundary) && queued == old(queued) + frames
      ensures queued <= bufferSize ==> Valid()
    {
      var _ := Forward(hwPtr, applPtr, queued, frames, boundary);
      applPtr := applPtr + frames;
      if applPtr > boundary {
        applPtr := applPtr - boundary;
      }
      queued := queued + frames;
    }

    /** Copies frames into the ring. */
    method AreasCopy(pcmOffset: nat, buf: array<int>, srcOffset: nat, frames: nat)
      requires pcmOffset + frames <= ring.Length && srcOffset + frames <= buf.Length && buf != ring
      modifies ring
      ensures forall c :: 0 <= c < ring.Length ==>
                ring[c] == if pcmOffset <= c < pcmOffset + frames then buf[srcOffset + (c - pcmOffset)] else old(ring[c])
    {
      forall i | 0 <= i < frames {
        ring[pcmOffset + i] := buf[srcOffset + i];
      }
    }

    /** Hands frames that have been copied to the device. */
    method Commit(frames: nat, ghost t: seq<int>, ghost cells: seq<int>) returns (committed: nat, ghost played: nat)
      requires Valid() && queued + frames <= bufferSize && |t| == frames && Written(cells, ring[..], applPtr, t)
      modifies this`applPtr, this`hwPtr, this`queued
      ensures Valid() && committed == frames && played <= old(queued) + frames && queued == old(queued) + frames - played
      ensures Same(applPtr, old(applPtr) + frames, boundary)
      ensures Queue() == (Window(cells, old(hwPtr), old(queued)) + t)[played..]
    {
      ghost var now := ring[..];
      Appends(cells, now, hwPtr, applPtr, queued, t, boundary);
      ApplForward(frames);
      hide Window, Apart, Same;
      assert ring[..] == now;
      played := Sync();
      committed := frames;
    }

    /** Copies frames to a stretch of the ring and hands them to the device. */
    method WriteStretch(buf: array<int>, offset: nat, pcmOffset: nat, frames: nat) returns (committed: nat, ghost played: nat)
      requires Valid() && buf != ring && offset + frames <= buf.Length && queued + frames <= bufferSize
      requires pcmOffset == Place() && pcmOffset + frames <= bufferSize
      modifies this`applPtr, this`hwPtr, this`queued, ring
      ensures Valid() && committed == frames && queued <= old(queued) + frames
      ensures Done(old(Now()), Now(), buf[offset..offset + frames], played, boundary)
    {
      ghost var cells := ring[..];
      ghost var t := buf[offset..offset + frames];
      AreasCopy(pcmOffset, buf, offset, frames);
      RestIsMod(applPtr, bufferSize);
      StretchWritten(cells, ring[..], applPtr, t);
      committed, played := Commit(frames, t, cells);
    }

    /** The second half of a transfer: the stretch has been granted, and the device has played since. */
    method TransferStretch(buf: array<int>, offset: nat, pcmOffset: nat, frames: nat, ghost was: State, ghost before: nat)
      returns (committed: nat, ghost played: nat)
      requires Valid() && buf != ring && offset + frames <= buf.Length && queued + frames <= bufferSize
      requires pcmOffset == Place() && pcmOffset + frames <= bufferSize
      requires |was.cells| == bufferSize && Done(was, Now(), [], before, boundary)
      modifies this`applPtr, this`hwPtr, this`queued, ring
      ensures Valid() && committed == frames && queued <= old(queued) + frames
      ensures Done(was, Now(), buf[offset..offset + frames], played, boundary)
    {
      hide Done;
      ghost var mid, t := Now(), buf[offset..offset + frames];
      ghost var after;
      committed, after := WriteStretch(buf, offset, pcmOffset, frames);
      DoneMore(was, mid, Now(), [], t, before, after, boundary);
      played := before + after;
    }

    /** Writes as many of `size` frames as one stretch of the ring takes. */
    method TransferSome(buf: array<int>, offset: nat, size: nat) returns (committed: nat, ghost played: nat)
      requires Valid() && buf != ring && offset + size <= buf.Length && queued + size <= bufferSize && size > 0
      modifies this`applPtr, this`hwPtr, this`queued, ring
      ensures Valid() && 0 < committed <= size && queued + (size - committed) <= bufferSize
      ensures Done(old(Now()), Now(), buf[offset..offset + committed], played, boundary)
    {
      hide Done, AllGranted, Place;
      ghost var was := Now();
      var pcmOffset, frames;
      pcmOffset, frames, played := Begin(size);
      committed, played := TransferStretch(buf, offset, pcmOffset, frames, was, played);
    }

    /** Goes on with a transfer. */
    method TransferMore(buf: array<int>, offset: nat, size: nat, ghost was: State, ghost s: seq<int>, ghost p: nat)
      returns (committed: nat, ghost played: nat)
      requires Valid() && buf != ring && offset + size <= buf.Length && queued + size <= bufferSize && size > 0
      requires |was.cells| == bufferSize && |s| + size <= bufferSize && Done(was, Now(), s, p, boundary)
      modifies this`applPtr, this`hwPtr, this`queued, ring
      ensures Valid() && 0 < committed <= size && queued + (size - committed) <= bufferSize
      ensures Done(was, Now(), s + buf[offset..offset + committed], played, boundary)
    {
      ghost var mid := Now();
      ghost var more;
      committed, more := TransferSome(buf, offset, size);
      DoneMore(was, mid, Now(), s, buf[offset..offset + committed], p, more, boundary);
      played := p + more;
    }

    /** Writes `size` frames, in stretches; they fit what is free. */
    method Transfer(buf: array<int>, offset: nat, size: nat) returns (count: nat, ghost played: nat)
      requires Valid() && buf != ring && offset + size <= buf.Length && queued + size <= bufferSize
      modifies this`applPtr, this`hwPtr, this`queued, ring
      ensures Valid() && count == size && applPtr % boundary == (old(applPtr) + size) % boundary
      ensures Done(old(Now()), Now(), buf[offset..offset + size], played, boundary)
    {
      hide Done;
      ghost var was, data := Now(), buf[..];
      var from, left := offset, size;
      count, played := 0, 0;
      NothingYet(was, boundary);
      assert data[offset..from] == [];
      while left > 0
        invariant Valid() && 0 <= left <= size && from == offset + count && count == size - left
        invariant queued + left <= bufferSize && buf[..] == data
        invariant Done(was, Now(), data[offset..from], played, boundary)
      {
        var committed;
        committed, played := TransferMore(buf, from, left, was, data[offset..from], played);
        Slices(data, offset, from, from + committed);
        from := from + committed;
        count := count + committed;
        left := left - committed;
      }
      assert buf[offset..offset + size] == data[offset..from];
      DoneMoves(was, Now(), buf[offset..offset + size], played, boundary);
    }
  }

  /** The ring, the application's position and what is left to play. */
  datatype State = State(cells: seq<int>, appl: nat, queue: seq<int>)

  /** `t` has been transferred, while the device has played `played` frames. */
  ghost predicate Done(was: State, now: State, t: seq<int>, played: nat, boundary: nat)
    requires boundary > 0
  {
    && Written(was.cells, now.cells, was.appl, t) && Same(now.appl, was.appl + |t|, boundary)
    && Played(was.queue, t, now.queue, played)
  }

  lemma Slices(b: seq<int>, i: nat, j: nat, k: nat)
    requires i <= j <= k <= |b|
    ensures b[i..j] + b[j..k] == b[i..k]
  {
  }

  lemma DoneMoves(was: State, now: State, t: seq<int>, played: nat, boundary: nat)
    requires boundary > 0 && Done(was, now, t, played, boundary)
    ensures now.appl % boundary == (was.appl + |t|) % boundary
  {
    SameIsMod(now.appl, was.appl + |t|, boundary);
  }

  lemma NothingYet(was: State, boundary: nat)
    requires |was.cells| > 0 && boundary > 0
    ensures Done(was, was, [], 0, boundary)
  {
    SameIsMod(was.appl, was.appl, boundary);
    assert was.queue + [] == was.queue;
  }

  lemma DoneMore(was: State, mid: State, now: State, s: seq<int>, t: seq<int>, p: nat, q: nat, boundary: nat)
    requires boundary > 0 && |was.cells| > 0 && Same(boundary, 0, |was.cells|) && |s| + |t| <= |was.cells|
    requires Done(was, mid, s, p, boundary) && Done(mid, now, t, q, boundary)
    ensures Done(was, now, s + t, p + q, boundary)
    ensures s == [] ==> Done(was, now, t, p + q, boundary)
  {
    assert s == [] ==> s + t == t;
    Onwards(was.cells, mid.cells, now.cells, was.appl, |s|, mid.appl, now.appl, s, t, boundary);
    PlayedTwice(was.queue, s, mid.queue, p, t, now.queue, q);
  }

  /** One stretch after others. */
  lemma Onwards(cells: seq<int>, mid: seq<int>, after: seq<int>, appl: nat, count: nat, at: nat, to: nat, s: seq<int>,
                t: seq<int>, boundary: nat)
    requires |cells| > 0 && boundary > 0 && Same(boundary, 0, |cells|) && count == |s| && |s| + |t| <= |cells|
    requires Written(cells, mid, appl, s) && Same(at, appl + count, boundary)
    requires Written(mid, after, at, t) && Same(to, at + |t|, boundary)
    ensures Written(cells, after, appl, s + t) && Same(to, appl + (count + |t|), boundary)
  {
    WrittenSame(mid, after, at, appl + count, t, boundary);
    WrittenTwice(cells, mid, after, appl, s, t);
    SameAdd(at, appl + count, |t|, boundary);
    assert appl + count + |t| == appl + (count + |t|);
    SameTrans(to, at + |t|, appl + (count + |t|), boundary);
  }

  /** What is left to play of a queue and what was added. */
  ghost predicate Played(queue: seq<int>, t: seq<int>, left: seq<int>, played: nat) {
    played <= |queue| + |t| && left == (queue + t)[played..]
  }

  lemma DropTwice(queue: seq<int>, before: nat, t: seq<int>, more: nat)
    requires before <= |queue| && more <= |queue| - before + |t|
    ensures (queue[before..] + t)[more..] == (queue + t)[before + more..]
  {
    assert queue[before..] + t == (queue + t)[before..];
  }

  lemma PlayedTwice(queue: seq<int>, s: seq<int>, mid: seq<int>, p: nat, t: seq<int>, left: seq<int>, q: nat)
    requires Played(queue, s, mid, p) && Played(mid, t, left, q)
    ensures Played(queue, s + t, left, p + q)
  {
    DropTwice(queue + s, p, t, q);
    assert queue + s + t == queue + (s + t);
  }

  lemma WrittenSame(cells: seq<int>, after: seq<int>, at: nat, at': nat, t: seq<int>, boundary: nat)
    requires Written(cells, after, at, t) && boundary > 0 && Same(at, at', boundary) && Same(boundary, 0, |cells|)
    ensures Written(cells, after, at', t)
  {
    forall j | 0 <= j < |cells| ensures Slot(at, j, |cells|) == Slot(at', j, |cells|) {
      SameAdd(at, at', j, boundary);
      SameFiner(at + j, at' + j, boundary, |cells|);
    }
  }

  lemma Appends(cells: seq<int>, after: seq<int>, hw: nat, appl: nat, queued: nat, t: seq<int>, boundary: nat)
    requires Apart(hw, appl, queued, boundary) && Written(cells, after, appl, t) && queued + |t| <= |cells|
    requires Same(boundary, 0, |cells|)
    ensures Window(after, hw, queued + |t|) == Window(cells, hw, queued) + t
  {
    SameIsMod(hw + queued, appl, boundary);
    SameIsMod(appl, hw + queued, boundary);
    WrittenSame(cells, after, appl, hw + queued, t, boundary);
    WrittenAppends(cells, after, hw, queued, t);
  }

  /** The device moves on by `n` frames, to `h`. */
  lemma PlaysOn(cells: seq<int>, hw: nat, h: nat, appl: nat, queued: nat, n: nat, boundary: nat)
    requires Apart(hw, appl, queued, boundary) && n <= queued && n < boundary && |cells| > 0 && Same(boundary, 0, |cells|)
    requires h == if hw + n >= boundary then hw + n - boundary else hw + n
    ensures Apart(h, appl, queued - n, boundary) && Window(cells, h, queued - n) == Window(cells, hw, queued)[n..]
  {
    hide Window, Same;
    WindowDrops(cells, hw, queued, n);
    if hw + n >= boundary {
      SameRound(hw + queued, boundary);
      SameTrans(h + (queued - n), hw + queued, appl, boundary);
      SameRound(hw + n, boundary);
      WindowSame(cells, h, hw + n, queued - n, boundary);
    }
  }

  /** Positions may wrap at a multiple of the size. */
  lemma WindowSame<T>(cells: seq<T>, at: nat, at': nat, n: nat, boundary: nat)
    requires |cells| > 0 && boundary > 0 && Same(boundary, 0, |cells|) && Same(at, at', boundary)
    ensures Window(cells, at, n) == Window(cells, at', n)
  {
    forall j | 0 <= j < n ensures Slot(at, j, |cells|) == Slot(at', j, |cells|) {
      SameAdd(at, at', j, boundary);
      SameFiner(at + j, at' + j, boundary, |cells|);
    }
    SameWindow(cells, cells, at, at', n);
  }

  lemma Forward(hw: nat, appl: nat, queued: nat, frames: nat, boundary: nat) returns (a: nat)
    requires Apart(hw, appl, queued, boundary) && frames < boundary
    ensures a == if appl + frames > boundary then appl + frames - boundary else appl + frames
    ensures Apart(hw, a, queued + frames, boundary) && Same(a, appl + frames, boundary)
  {
    a := appl + frames;
    SameAdd(hw + queued, appl, frames, boundary);
    SameIsMod(a, a, boundary);
    if a > boundary {
      SameRound(a, boundary);
      SameTrans(hw + queued + frames, a, a - boundary, boundary);
      a := a - boundary;
    }
  }
}
