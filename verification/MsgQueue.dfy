/** The message queue of one producer and one consumer, as the steps that can interleave. */
module MsgQueue {
  import opened Modulo
  import opened Ring

  type Msg = int

  /** Where the producer stands in `MsgEnQueue`. */
  datatype Producer =
    | Outside
    | Checked(msg: Msg)
    | Locked(msg: Msg)
    | Copied(msg: Msg)
    | Advanced
    | Unlocked

  /** Where the consumer stands in `MsgDeQueue`. */
  datatype Consumer =
    | Away
    | Awake
    | Ready
    | Holding(msg: Msg)

  /** The queue with its two semaphores, where the two threads stand, and what has been sent and received. */
  datatype State = State(
    size: nat, head: nat, rear: nat, data: seq<Msg>, enqueueSem: nat, dequeueSem: nat,
    producer: Producer, consumer: Consumer, sent: seq<Msg>, received: seq<Msg>, empties: nat, refused: nat)

  datatype Step =
    | Check(m: Msg)
    | Lock
    | Copy
    | Advance
    | Unlock
    | Post
    | Wait
    | Test
    | Take
    | Release

  ghost predicate Init(s: State) {
    && s.size > 1 && |s.data| == s.size && s.head == 0 && s.rear == 0 && s.enqueueSem == 1 && s.dequeueSem == 1
    && s.producer == Outside && s.consumer == Away && s.sent == [] && s.received == [] && s.empties == 0 && s.refused == 0
  }

  function Next(i: nat, size: nat): nat
    requires size > 0
  {
    (i + 1) % size
  }

  predicate WellFormed(s: State) {
    s.size > 1 && |s.data| == s.size && s.head < s.size && s.rear < s.size
  }

  /** Whether a thread can take a step; `sem_wait` blocks at 0. */
  predicate Enabled(s: State, step: Step) {
    match step
    case Check(m) => s.producer.Outside?
    case Lock => s.producer.Checked? && s.enqueueSem > 0
    case Copy => s.producer.Locked?
    case Advance => s.producer.Copied?
    case Unlock => s.producer.Advanced?
    case Post => s.producer.Unlocked?
    case Wait => s.consumer.Away? && s.dequeueSem > 0
    case Test => s.consumer.Awake?
    case Take => s.consumer.Ready?
    case Release => s.consumer.Holding?
  }

  function Do(s: State, step: Step): State
    requires WellFormed(s) && Enabled(s, step)
  {
    match step
    case Check(m) =>
      if s.head == Next(s.rear, s.size) then s.(refused := s.refused + 1) else s.(producer := Checked(m))
    case Lock => s.(enqueueSem := s.enqueueSem - 1, producer := Locked(s.producer.msg))
    case Copy => s.(data := s.data[s.rear := s.producer.msg], producer := Copied(s.producer.msg))
    case Advance => s.(rear := Next(s.rear, s.size), producer := Advanced, sent := s.sent + [s.producer.msg])
    case Unlock => s.(enqueueSem := s.enqueueSem + 1, producer := Unlocked)
    case Post => s.(dequeueSem := s.dequeueSem + 1, producer := Outside)
    case Wait => s.(dequeueSem := s.dequeueSem - 1, consumer := Awake)
    case Test => if s.rear == s.head then s.(consumer := Away, empties := s.empties + 1) else s.(consumer := Ready)
    case Take => s.(consumer := Holding(s.data[s.head]))
    case Release => s.(head := Next(s.head, s.size), consumer := Away, received := s.received + [s.consumer.msg])
  }

  // ----- what every step keeps

  /** How many messages are in the queue. */
  ghost function Occupancy(s: State): int {
    |s.sent| - |s.received|
  }

  ghost function Posts(s: State): nat {
    if s.producer.Advanced? || s.producer.Unlocked? then 1 else 0
  }

  ghost function Held(s: State): nat {
    if s.consumer.Away? then 0 else 1
  }

  ghost predicate Places(s: State) {
    && WellFormed(s) && 0 <= Occupancy(s) < s.size
    && s.head == Rest(|s.received|, s.size) && s.rear == Rest(|s.sent|, s.size)
  }

  /** The unread slots hold the messages that were sent and not yet received, in order. */
  ghost predicate Contents(s: State)
    requires Places(s)
  {
    && s.received <= s.sent && Window(s.data, |s.received|, Occupancy(s)) == s.sent[|s.received|..]
    && (s.producer.Copied? ==> s.data[s.rear] == s.producer.msg)
    && (s.consumer.Holding? ==> Occupancy(s) > 0 && s.consumer.msg == s.sent[|s.received|])
    && (s.consumer.Ready? ==> Occupancy(s) > 0)
  }

  /** One message may be sent by one producer at a time, and there is room for it. */
  ghost predicate Exclusive(s: State) {
    && s.enqueueSem == (if s.producer.Locked? || s.producer.Copied? || s.producer.Advanced? then 0 else 1)
    && (s.producer.Checked? || s.producer.Locked? || s.producer.Copied? ==> Occupancy(s) + 1 < s.size)
  }

  /** Tokens and posts in flight are as many as messages in the queue, and one more until the consumer was told
      that the queue is empty. */
  ghost predicate Tokens(s: State) {
    s.empties <= 1 && s.dequeueSem + Posts(s) + Held(s) == Occupancy(s) + 1 - s.empties
  }

  ghost predicate Inv(s: State) {
    Places(s) && Contents(s) && Exclusive(s) && Tokens(s)
  }

  lemma NextRest(n: nat, size: nat)
    requires size > 0
    ensures Next(Rest(n, size), size) == Rest(n + 1, size)
  {
    RestIsMod(n, size);
    RestIsMod(n + 1, size);
    ModNext(n, size);
    ModNext(n % size, size);
    ModSmall(n % size, size);
  }

  /** The queue is full, as the check sees it, exactly if one more message would make it look empty. */
  lemma FullCheck(s: State)
    requires Places(s)
    ensures s.head == Next(s.rear, s.size) <==> Occupancy(s) + 1 == s.size
    ensures s.head == s.rear <==> Occupancy(s) == 0
  {
    NextRest(|s.sent|, s.size);
    RestSame(|s.received|, Occupancy(s) + 1, s.size);
    RestSame(|s.received|, Occupancy(s), s.size);
  }

  lemma RestSame(a: nat, d: nat, size: nat)
    requires 0 < size && d <= size
    ensures Rest(a, size) == Rest(a + d, size) <==> d == 0 || d == size
  {
    RestIsMod(a, size);
    RestIsMod(a + d, size);
    ModSame(a, d, size);
    if d < size {
      ModSmall(d, size);
    } else {
      Quotient(d, size, 1, 0);
    }
  }

  lemma InitInv(s: State)
    requires Init(s)
    ensures Inv(s)
  {
  }

  lemma PlacesKept(s: State, step: Step)
    requires Inv(s) && Enabled(s, step)
    ensures Places(Do(s, step)) && Exclusive(Do(s, step)) && Tokens(Do(s, step))
  {
    FullCheck(s);
    NextRest(|s.sent|, s.size);
    NextRest(|s.received|, s.size);
  }

  /** No unread message lies where the producer writes. */
  lemma NoOverwrite(s: State)
    requires Places(s) && Occupancy(s) + 1 < s.size
    ensures forall j :: 0 <= j < Occupancy(s) ==> Slot(|s.received|, j, s.size) != s.rear
  {
    forall j | 0 <= j < Occupancy(s) ensures Slot(|s.received|, j, s.size) != s.rear {
      SlotsDiffer(|s.received|, j, Occupancy(s), s.size);
    }
  }

  lemma CopyKeeps(s: State)
    requires Inv(s) && s.producer.Locked?
    ensures Contents(Do(s, Copy))
  {
    var t := Do(s, Copy);
    NoOverwrite(s);
    SameWindow(s.data, t.data, |s.received|, |s.received|, Occupancy(s));
  }

  lemma AdvanceKeeps(s: State)
    requires Inv(s) && s.producer.Copied? && Places(Do(s, Advance))
    ensures Contents(Do(s, Advance))
  {
    var n, occupied := |s.received|, Occupancy(s);
    assert Slot(n, occupied, s.size) == s.rear;
    assert Window(s.data, n, occupied + 1) == Window(s.data, n, occupied) + [s.data[s.rear]];
  }

  lemma TakeKeeps(s: State)
    requires Inv(s) && s.consumer.Ready?
    ensures Contents(Do(s, Take))
  {
    WindowAt(s.data, |s.received|, Occupancy(s), 0);
    assert Slot(|s.received|, 0, s.size) == s.head;
    assert s.sent[|s.received|] == s.sent[|s.received|..][0];
  }

  lemma ReleaseKeeps(s: State)
    requires Inv(s) && s.consumer.Holding? && Places(Do(s, Release))
    ensures Contents(Do(s, Release))
  {
    var n := |s.received|;
    WindowDrops(s.data, n, Occupancy(s), 1);
    OneOff(s.sent, s.received);
  }

  lemma OneOff(sent: seq<Msg>, received: seq<Msg>)
    requires |received| < |sent| && received <= sent
    ensures received + [sent[|received|]] <= sent
    ensures sent[|received|..][1..] == sent[|received| + 1..]
  {
  }

  lemma StepInv(s: State, step: Step)
    requires Inv(s) && Enabled(s, step)
    ensures Inv(Do(s, step))
  {
    PlacesKept(s, step);
    match step
    case Copy => CopyKeeps(s);
    case Advance => AdvanceKeeps(s);
    case Take => TakeKeeps(s);
    case Release => ReleaseKeeps(s);
    case Test => FullCheck(s);
    case _ =>
  }

  // ----- whole runs

  /** The steps can be taken one after the other. */
  ghost predicate Possible(s: State, steps: seq<Step>)
    requires WellFormed(s)
    decreases |steps|
  {
    steps == [] || (Enabled(s, steps[0]) && WellFormed(Do(s, steps[0])) && Possible(Do(s, steps[0]), steps[1..]))
  }

  ghost function After(s: State, steps: seq<Step>): State
    requires WellFormed(s) && Possible(s, steps)
    decreases |steps|
  {
    if steps == [] then s else After(Do(s, steps[0]), steps[1..])
  }

  lemma {:induction false} RunInv(s: State, steps: seq<Step>)
    requires Inv(s) && Possible(s, steps)
    ensures Inv(After(s, steps))
    decreases |steps|
  {
    if steps != [] {
      StepInv(s, steps[0]);
      RunInv(Do(s, steps[0]), steps[1..]);
    }
  }

  /** Over any run from the start the messages arrive in the order in which they were sent, the ones that have not
      arrived are in the queue, and the consumer is told at most once that it is empty. */
  lemma FirstInFirstOut(s: State, steps: seq<Step>)
    requires Init(s) && Possible(s, steps)
    ensures var t := After(s, steps);
            && t.received <= t.sent && t.empties <= 1
            && Places(t) && t.sent == t.received + Window(t.data, |t.received|, Occupancy(t))
            && t.dequeueSem + Posts(t) + Held(t) == Occupancy(t) + 1 - t.empties
  {
    InitInv(s);
    RunInv(s, steps);
    var t := After(s, steps);
    assert t.sent == t.received + t.sent[|t.received|..];
  }

  /** A consumer waits for good only for an empty queue. */
  lemma NoMessageForgotten(s: State, steps: seq<Step>)
    requires Init(s) && Possible(s, steps)
    ensures var t := After(s, steps);
            t.consumer.Away? && !Enabled(t, Wait) && t.producer.Outside? ==> t.received == t.sent
  {
    FirstInFirstOut(s, steps);
    var t := After(s, steps);
    if Occupancy(t) == 0 {
      assert t.received == t.sent[..|t.received|];
    }
  }

  // ----- the messages, read off the steps

  /** What a step gives to the queue when `queued` messages are in it and one slot stays free. */
  function Taken(step: Step, size: nat, queued: int): seq<Msg> {
    if step.Check? && queued < size - 1 then [step.m] else []
  }

  function Change(step: Step): int {
    if step.Advance? then 1 else if step.Release? then -1 else 0
  }

  /** The messages that are given to the queue and not refused, in order; `queued` counts those that have been
      advanced over and not yet released. */
  function Accepted(steps: seq<Step>, size: nat, queued: int): seq<Msg> {
    if steps == [] then []
    else Taken(steps[0], size, queued) + Accepted(steps[1..], size, queued + Change(steps[0]))
  }

  /** The messages that the consumer comes back with, in order. */
  ghost function Delivered(s: State, steps: seq<Step>): seq<Msg>
    requires WellFormed(s) && Possible(s, steps)
    decreases |steps|
  {
    if steps == [] then []
    else if steps[0].Release? then [s.consumer.msg] + Delivered(Do(s, steps[0]), steps[1..])
    else Delivered(Do(s, steps[0]), steps[1..])
  }

  /** The message that the producer has been given and not yet sent. */
  ghost function UnderWay(p: Producer): seq<Msg> {
    match p
    case Checked(m) => [m]
    case Locked(m) => [m]
    case Copied(m) => [m]
    case _ => []
  }

  lemma StepAccepts(s: State, step: Step)
    requires Inv(s) && Enabled(s, step)
    ensures var t := Do(s, step);
            && t.size == s.size && Occupancy(t) == Occupancy(s) + Change(step)
            && t.sent + UnderWay(t.producer)
               == s.sent + UnderWay(s.producer) + Taken(step, s.size, Occupancy(s))
            && t.received == if step.Release? then s.received + [s.consumer.msg] else s.received
  {
    FullCheck(s);
    hide Places, Contents, Tokens;
  }

  lemma Joined(a: seq<Msg>, b: seq<Msg>, c: seq<Msg>)
    ensures a + b + c == a + (b + c)
  {
  }

  lemma {:induction false} RunAccepts(s: State, steps: seq<Step>)
    requires Inv(s) && Possible(s, steps)
    ensures var t := After(s, steps);
            && t.sent + UnderWay(t.producer) == s.sent + UnderWay(s.producer) + Accepted(steps, s.size, Occupancy(s))
            && t.received == s.received + Delivered(s, steps)
    decreases |steps|
  {
    if steps != [] {
      var step, rest := steps[0], steps[1..];
      StepInv(s, step);
      StepAccepts(s, step);
      RunAccepts(Do(s, step), rest);
      Joined(s.sent + UnderWay(s.producer), Taken(step, s.size, Occupancy(s)),
             Accepted(rest, s.size, Occupancy(Do(s, step))));
      Joined(s.received, [], Delivered(Do(s, step), rest));
      if step.Release? {
        Joined(s.received, [s.consumer.msg], Delivered(Do(s, step), rest));
      }
      hide Inv, Enabled, Do, UnderWay, Occupancy, Taken, Change;
    }
  }

  /** Over any run from the start the consumer comes back with the messages that were given to the queue and not
      refused, in their order: with the first of them, and with all of them if it waits for good. */
  lemma AcceptedArrive(s: State, steps: seq<Step>)
    requires Init(s) && Possible(s, steps)
    ensures var t, accepted := After(s, steps), Accepted(steps, s.size, 0);
            && accepted == t.sent + UnderWay(t.producer)
            && Delivered(s, steps) <= accepted
            && (t.consumer.Holding? ==> Delivered(s, steps) + [t.consumer.msg] <= accepted)
            && (t.consumer.Away? && !Enabled(t, Wait) && t.producer.Outside? ==> Delivered(s, steps) == accepted)
  {
    InitInv(s);
    RunInv(s, steps);
    RunAccepts(s, steps);
    var t := After(s, steps);
    assert [] + Delivered(s, steps) == Delivered(s, steps);
    assert [] + [] + Accepted(steps, s.size, 0) == Accepted(steps, s.size, 0);
    if t.consumer.Holding? {
      OneOff(t.sent, t.received);
    }
    if t.consumer.Away? && !Enabled(t, Wait) && t.producer.Outside? {
      NoMessageForgotten(s, steps);
    }
    hide Possible, Accepted, Delivered;
  }

  /** A message is refused exactly when all slots but one are taken. */
  lemma RefusedWhenFull(s: State, steps: seq<Step>, m: Msg)
    requires Init(s) && Possible(s, steps) && After(s, steps).producer.Outside?
    ensures var t := After(s, steps);
            WellFormed(t) && (Do(t, Check(m)).producer == Checked(m) <==> Occupancy(t) < t.size - 1)
  {
    FirstInFirstOut(s, steps);
    FullCheck(After(s, steps));
  }

  /** The token that the semaphore starts with lets the consumer find nothing once. */
  lemma EmptyOnce(s: State)
    requires Init(s)
    ensures Possible(s, [Wait, Test]) && After(s, [Wait, Test]).empties == 1
  {
    var t := Do(s, Wait);
    var steps := [Wait, Test];
    assert steps[1..] == [Test] && [Test][1..] == [];
    assert Possible(Do(t, Test), []);
    assert Possible(t, [Test]) && After(t, [Test]) == Do(t, Test);
  }
}
