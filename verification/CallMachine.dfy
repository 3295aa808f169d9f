/** The call state machine: its table of transitions, what the actions of a call acquire and release, and the
    reset that follows too many unexpected messages. */
module CallMachine {

  datatype CallState =
    | Idle
    | SendStart
    | RecvStart
    | RecvAccept
    | SendConnected
    | RecvConnected
    | SendConnectedToStop
    | RecvConnectedToStop
    | SendStartToStop
    | RecvStartToStop
    | RecvAcceptToStop
    | PstnSendStart
    | PstnRecvStart
    | PstnRecvAccept
    | PstnSendConnected
    | Unknown

  datatype Condition =
    | Connecting
    | InboundRinging
    | Connected
    | Disconnected
    | TcAnswer
    | TcDisconnect
    | PstnHangup
    | PstnAccepted
    | PstnContact
    | TcIncomingRing

  /** Actions by their numbers; 0 is the trap. */
  type Action = a: nat | a <= 16

  datatype Transition = Transition(next: CallState, action: Action)

  const TRAP: Transition := Transition(Unknown, 0)

  /** The table. */
  function Lookup(s: CallState, c: Condition): Transition {
    match (s, c)
    case (Idle, Connecting) => Transition(SendStart, 1)
    case (Idle, InboundRinging) => Transition(RecvStart, 2)
    case (Idle, PstnContact) => Transition(PstnSendStart, 12)
    case (Idle, TcIncomingRing) => Transition(PstnRecvStart, 13)
    case (SendStart, Connected) => Transition(SendConnected, 4)
    case (SendStart, Disconnected) => Transition(Idle, 6)
    case (SendStart, TcDisconnect) => Transition(SendStartToStop, 8)
    case (RecvStart, Disconnected) => Transition(Idle, 9)
    case (RecvStart, TcAnswer) => Transition(RecvAccept, 3)
    case (RecvStart, TcDisconnect) => Transition(RecvStartToStop, 8)
    case (RecvAccept, Connected) => Transition(RecvConnected, 5)
    case (RecvAccept, Disconnected) => Transition(Idle, 10)
    case (RecvAccept, TcDisconnect) => Transition(RecvAcceptToStop, 8)
    case (SendConnected, Disconnected) => Transition(Idle, 7)
    case (SendConnected, TcDisconnect) => Transition(SendConnectedToStop, 8)
    case (RecvConnected, Disconnected) => Transition(Idle, 11)
    case (RecvConnected, TcDisconnect) => Transition(RecvConnectedToStop, 8)
    case (SendConnectedToStop, Disconnected) => Transition(Idle, 7)
    case (RecvConnectedToStop, Disconnected) => Transition(Idle, 11)
    case (SendStartToStop, Disconnected) => Transition(Idle, 6)
    case (RecvStartToStop, Disconnected) => Transition(Idle, 9)
    case (RecvAcceptToStop, Disconnected) => Transition(Idle, 10)
    case (PstnSendStart, TcDisconnect) => Transition(Idle, 15)
    case (PstnSendStart, PstnHangup) => Transition(Idle, 16)
    case (PstnSendStart, PstnAccepted) => Transition(PstnSendConnected, 13)
    case (PstnRecvStart, TcAnswer) => Transition(PstnRecvAccept, 14)
    case (PstnRecvStart, TcDisconnect) => Transition(Idle, 15)
    case (PstnRecvStart, PstnHangup) => Transition(Idle, 13)
    case (PstnRecvAccept, TcDisconnect) => Transition(Idle, 15)
    case (PstnRecvAccept, PstnHangup) => Transition(Idle, 13)
    case (PstnSendConnected, TcDisconnect) => Transition(Idle, 15)
    case (PstnSendConnected, PstnHangup) => Transition(Idle, 16)
    case _ => TRAP
  }

  /** The actions that hold something until they are exited. */
  predicate Acquires(a: Action) {
    1 <= a <= 5
  }

  /** The actions that an action exits, by its message. */
  function Exits(a: Action): set<Action> {
    if a == 6 then {1}
    else if a == 7 then {1, 4}
    else if a == 9 then {2}
    else if a == 10 then {2, 3}
    else if a == 11 then {2, 3, 5}
    else {}
  }

  function Perform(open: set<Action>, a: Action): set<Action> {
    open - Exits(a) + if Acquires(a) then {a} else {}
  }

  predicate IsAlexa(s: CallState) {
    !s.Idle? && !IsPstn(s) && !s.Unknown?
  }

  predicate IsPstn(s: CallState) {
    s.PstnSendStart? || s.PstnRecvStart? || s.PstnRecvAccept? || s.PstnSendConnected?
  }

  /** The actions a state leaves to be exited. */
  function Obligations(s: CallState): set<Action> {
    match s
    case SendStart => {1}
    case SendStartToStop => {1}
    case SendConnected => {1, 4}
    case SendConnectedToStop => {1, 4}
    case RecvStart => {2}
    case RecvStartToStop => {2}
    case RecvAccept => {2, 3}
    case RecvAcceptToStop => {2, 3}
    case RecvConnected => {2, 3, 5}
    case RecvConnectedToStop => {2, 3, 5}
    case _ => {}
  }

  // ----- messages

  /** The condition that a message's `msg_produce` stands for. */
  function ConditionOf(produce: int): Condition
    requires 0 <= produce < 10
  {
    match produce
    case 0 => Connecting
    case 1 => InboundRinging
    case 2 => Connected
    case 3 => Disconnected
    case 4 => TcAnswer
    case 5 => TcDisconnect
    case 6 => PstnHangup
    case 7 => PstnAccepted
    case 8 => PstnContact
    case 9 => TcIncomingRing
  }

  /** A message's type and what it stands for; the latter is used as an index without a check. */
  datatype Message = Message(msgType: int, produce: int) {
    predicate Valid() {
      0 <= produce < 10
    }
  }

  /** The machine and what it remembers of the messages before. */
  datatype Machine = Machine(current: CallState, lastType: int, lastProduce: int, exceptions: nat)

  datatype Effect = Ignored | Trapped | Reset | Moved(action: Action)

  /** How many unexpected messages may have been counted before the next one resets the machine. */
  const MAX_EXCEPTIONS: nat := 15

  function EffectOf(m: Machine, msg: Message): Effect
    requires msg.Valid()
  {
    var t := Lookup(m.current, ConditionOf(msg.produce));
    if m.lastType == msg.msgType && m.lastProduce == msg.produce then Ignored
    else if t != TRAP then Moved(t.action)
    else if m.exceptions > MAX_EXCEPTIONS then Reset
    else Trapped
  }

  function Handle(m: Machine, msg: Message): Machine
    requires msg.Valid()
  {
    match EffectOf(m, msg)
    case Ignored => m
    case Trapped => Machine(m.current, msg.msgType, msg.produce, m.exceptions + 1)
    case Reset => Machine(Idle, msg.msgType, msg.produce, 1)
    case Moved(_) => Machine(Lookup(m.current, ConditionOf(msg.produce)).next, msg.msgType, msg.produce, 0)
  }

  /** The actions that are to be exited, after a message. */
  function Opened(open: set<Action>, e: Effect): set<Action> {
    if e.Moved? then Perform(open, e.action) else open
  }

  class StateMachine {
    var current: CallState
    var lastType: int
    var lastProduce: int
    var exceptCount: nat
    /** The actions that were run, and the states the update callback was told. */
    var actions: seq<Action>
    var updates: seq<CallState>

    constructor (s: CallState)
      ensures Value() == Machine(s, 255, 10, 0) && updates == [] && actions == []
    {
      current, lastType, lastProduce, exceptCount := s, 255, 10, 0;
      updates, actions := [], [];
    }

    ghost function Value(): Machine
      reads this
    {
      Machine(current, lastType, lastProduce, exceptCount)
    }

    /** Handles one message. */
    method Execute(msg: Message) returns (state: CallState)
      requires msg.Valid()
      modifies this
      ensures Value() == Handle(old(Value()), msg) && state == current
      ensures var e := EffectOf(old(Value()), msg);
              && actions == old(actions) + (if e.Moved? then [e.action] else [])
              && updates == old(updates) + (if e.Moved? then [current] else [])
    {
      state := current;
      if lastType != msg.msgType || (lastType == msg.msgType && lastProduce != msg.produce) {
        var t := Lookup(state, ConditionOf(msg.produce));
        if t.next == Unknown {
          if exceptCount > MAX_EXCEPTIONS {
            state := Idle;
            current := state;
            exceptCount := 0;
          }
          exceptCount := exceptCount + 1;
        } else {
          exceptCount := 0;
          actions := actions + [t.action];
          state := t.next;
          current := state;
          updates := updates + [current];
        }
      }
      lastType := msg.msgType;
      lastProduce := msg.produce;
    }
  }

  // ----- messages by their numbers

  predicate Repeated(m: Machine, msg: Message) {
    m.lastType == msg.msgType && m.lastProduce == msg.produce
  }

  /** The message makes the machine run the action and go to `next`. */
  predicate Moves(m: Machine, msg: Message, a: Action, next: CallState)
    requires msg.Valid()
  {
    EffectOf(m, msg) == Moved(a) && Handle(m, msg) == Machine(next, msg.msgType, msg.produce, 0)
  }

  /** The message does not fit the state, and is counted; the seventeenth in a row resets the machine. */
  predicate Unexpected(m: Machine, msg: Message)
    requires msg.Valid()
  {
    if m.exceptions >= 16 then EffectOf(m, msg) == Reset && Handle(m, msg) == Machine(Idle, msg.msgType, msg.produce, 1)
    else
      && EffectOf(m, msg) == Trapped
      && Handle(m, msg) == Machine(m.current, msg.msgType, msg.produce, m.exceptions + 1)
  }

  lemma RepeatedIgnored(m: Machine, msg: Message)
    requires msg.Valid()
    ensures EffectOf(m, msg) == Ignored <==> Repeated(m, msg)
    ensures Repeated(m, msg) ==> Handle(m, msg) == m
  {
  }

  /** A call begins in the idle state alone: 0 and 1 are an Alexa call out and in, 8 and 9 one over the telephone
      network. */
  lemma CallBegins(m: Machine, msg: Message)
    requires msg.Valid() && !Repeated(m, msg)
    ensures msg.produce == 0 ==> if m.current == Idle then Moves(m, msg, 1, SendStart) else Unexpected(m, msg)
    ensures msg.produce == 1 ==> if m.current == Idle then Moves(m, msg, 2, RecvStart) else Unexpected(m, msg)
    ensures msg.produce == 8 ==> if m.current == Idle then Moves(m, msg, 12, PstnSendStart) else Unexpected(m, msg)
    ensures msg.produce == 9 ==> if m.current == Idle then Moves(m, msg, 13, PstnRecvStart) else Unexpected(m, msg)
  {
    hide Obligations;
  }

  /** 2 connects an Alexa call, 4 answers a call, and 7 is the other side's answer over the telephone network. */
  lemma CallAnswered(m: Machine, msg: Message)
    requires msg.Valid() && !Repeated(m, msg)
    ensures msg.produce == 2 ==>
              match m.current
              case SendStart => Moves(m, msg, 4, SendConnected)
              case RecvAccept => Moves(m, msg, 5, RecvConnected)
              case _ => Unexpected(m, msg)
    ensures msg.produce == 4 ==>
              match m.current
              case RecvStart => Moves(m, msg, 3, RecvAccept)
              case PstnRecvStart => Moves(m, msg, 14, PstnRecvAccept)
              case _ => Unexpected(m, msg)
    ensures msg.produce == 7 ==>
              if m.current == PstnSendStart then Moves(m, msg, 13, PstnSendConnected) else Unexpected(m, msg)
  {
  }

  /** 3 says that an Alexa call is over and is expected all through it. */
  lemma CallOver(m: Machine, msg: Message)
    requires msg.produce == 3 && !Repeated(m, msg)
    ensures match m.current
            case SendStart => Moves(m, msg, 6, Idle)
            case SendStartToStop => Moves(m, msg, 6, Idle)
            case SendConnected => Moves(m, msg, 7, Idle)
            case SendConnectedToStop => Moves(m, msg, 7, Idle)
            case RecvStart => Moves(m, msg, 9, Idle)
            case RecvStartToStop => Moves(m, msg, 9, Idle)
            case RecvAccept => Moves(m, msg, 10, Idle)
            case RecvAcceptToStop => Moves(m, msg, 10, Idle)
            case RecvConnected => Moves(m, msg, 11, Idle)
            case RecvConnectedToStop => Moves(m, msg, 11, Idle)
            case _ => Unexpected(m, msg)
  {
  }

  /** 5 hangs up here, and a call over the telephone network is over with that; 6 is the other side's hanging up
      there. */
  lemma CallHungUp(m: Machine, msg: Message)
    requires msg.Valid() && !Repeated(m, msg)
    ensures msg.produce == 5 ==>
              match m.current
              case SendStart => Moves(m, msg, 8, SendStartToStop)
              case SendConnected => Moves(m, msg, 8, SendConnectedToStop)
              case RecvStart => Moves(m, msg, 8, RecvStartToStop)
              case RecvAccept => Moves(m, msg, 8, RecvAcceptToStop)
              case RecvConnected => Moves(m, msg, 8, RecvConnectedToStop)
              case PstnSendStart => Moves(m, msg, 15, Idle)
              case PstnSendConnected => Moves(m, msg, 15, Idle)
              case PstnRecvStart => Moves(m, msg, 15, Idle)
              case PstnRecvAccept => Moves(m, msg, 15, Idle)
              case _ => Unexpected(m, msg)
    ensures msg.produce == 6 ==>
              match m.current
              case PstnSendStart => Moves(m, msg, 16, Idle)
              case PstnSendConnected => Moves(m, msg, 16, Idle)
              case PstnRecvStart => Moves(m, msg, 13, Idle)
              case PstnRecvAccept => Moves(m, msg, 13, Idle)
              case _ => Unexpected(m, msg)
  {
  }

  // ----- whole calls

  datatype Seen = Seen(effect: Effect, state: CallState)

  /** What a machine does with some messages, and the states it passes. */
  function Seeing(m: Machine, msgs: seq<Message>): seq<Seen>
    requires forall i :: 0 <= i < |msgs| ==> msgs[i].Valid()
    decreases |msgs|
  {
    if msgs == [] then []
    else [Seen(EffectOf(m, msgs[0]), Handle(m, msgs[0]).current)] + Seeing(Handle(m, msgs[0]), msgs[1..])
  }

  /** The first message moves the machine. */
  lemma SeeingMore(m: Machine, msgs: seq<Message>, a: Action, next: CallState)
    requires msgs != [] && (forall i :: 0 <= i < |msgs| ==> msgs[i].Valid()) && Moves(m, msgs[0], a, next)
    ensures Seeing(m, msgs)
            == [Seen(Moved(a), next)] + Seeing(Machine(next, msgs[0].msgType, msgs[0].produce, 0), msgs[1..])
  {
    hide EffectOf, Handle;
  }

  /** An Alexa call out is answered, and over; the messages may be of any types. */
  lemma OutgoingAnswered(m: Machine, a: int, b: int, c: int)
    requires m.current == Idle && m.lastProduce != 0
    ensures Seeing(m, [Message(a, 0), Message(b, 2), Message(c, 3)])
            == [Seen(Moved(1), SendStart), Seen(Moved(4), SendConnected), Seen(Moved(7), Idle)]
  {
    var msgs := [Message(a, 0), Message(b, 2), Message(c, 3)];
    SeeingMore(m, msgs, 1, SendStart);
    SeeingMore(Machine(SendStart, a, 0, 0), msgs[1..], 4, SendConnected);
    SeeingMore(Machine(SendConnected, b, 2, 0), msgs[2..], 7, Idle);
  }

  /** It is over before it is answered. */
  lemma OutgoingUnanswered(m: Machine, a: int, b: int)
    requires m.current == Idle && m.lastProduce != 0
    ensures Seeing(m, [Message(a, 0), Message(b, 3)])
            == [Seen(Moved(1), SendStart), Seen(Moved(6), Idle)]
  {
    var msgs := [Message(a, 0), Message(b, 3)];
    SeeingMore(m, msgs, 1, SendStart);
    SeeingMore(Machine(SendStart, a, 0, 0), msgs[1..], 6, Idle);
  }

  /** It is hung up here before it is answered. */
  lemma OutgoingDropped(m: Machine, a: int, b: int, c: int)
    requires m.current == Idle && m.lastProduce != 0
    ensures Seeing(m, [Message(a, 0), Message(b, 5), Message(c, 3)])
            == [Seen(Moved(1), SendStart), Seen(Moved(8), SendStartToStop), Seen(Moved(6), Idle)]
  {
    var msgs := [Message(a, 0), Message(b, 5), Message(c, 3)];
    SeeingMore(m, msgs, 1, SendStart);
    SeeingMore(Machine(SendStart, a, 0, 0), msgs[1..], 8, SendStartToStop);
    SeeingMore(Machine(SendStartToStop, b, 5, 0), msgs[2..], 6, Idle);
  }

  /** It is hung up here. */
  lemma OutgoingHungUp(m: Machine, a: int, b: int, c: int, d: int)
    requires m.current == Idle && m.lastProduce != 0
    ensures Seeing(m, [Message(a, 0), Message(b, 2), Message(c, 5), Message(d, 3)])
            == [Seen(Moved(1), SendStart), Seen(Moved(4), SendConnected), Seen(Moved(8), SendConnectedToStop),
                Seen(Moved(7), Idle)]
  {
    var msgs := [Message(a, 0), Message(b, 2), Message(c, 5), Message(d, 3)];
    SeeingMore(m, msgs, 1, SendStart);
    SeeingMore(Machine(SendStart, a, 0, 0), msgs[1..], 4, SendConnected);
    SeeingMore(Machine(SendConnected, b, 2, 0), msgs[2..], 8, SendConnectedToStop);
    SeeingMore(Machine(SendConnectedToStop, c, 5, 0), msgs[3..], 7, Idle);
  }

  /** An Alexa call in is answered, and over. */
  lemma IncomingAnswered(m: Machine, a: int, b: int, c: int, d: int)
    requires m.current == Idle && m.lastProduce != 1
    ensures Seeing(m, [Message(a, 1), Message(b, 4), Message(c, 2), Message(d, 3)])
            == [Seen(Moved(2), RecvStart), Seen(Moved(3), RecvAccept), Seen(Moved(5), RecvConnected),
                Seen(Moved(11), Idle)]
  {
    var msgs := [Message(a, 1), Message(b, 4), Message(c, 2), Message(d, 3)];
    SeeingMore(m, msgs, 2, RecvStart);
    SeeingMore(Machine(RecvStart, a, 1, 0), msgs[1..], 3, RecvAccept);
    SeeingMore(Machine(RecvAccept, b, 4, 0), msgs[2..], 5, RecvConnected);
    SeeingMore(Machine(RecvConnected, c, 2, 0), msgs[3..], 11, Idle);
  }

  /** It is over before it is answered. */
  lemma IncomingMissed(m: Machine, a: int, b: int)
    requires m.current == Idle && m.lastProduce != 1
    ensures Seeing(m, [Message(a, 1), Message(b, 3)])
            == [Seen(Moved(2), RecvStart), Seen(Moved(9), Idle)]
  {
    var msgs := [Message(a, 1), Message(b, 3)];
    SeeingMore(m, msgs, 2, RecvStart);
    SeeingMore(Machine(RecvStart, a, 1, 0), msgs[1..], 9, Idle);
  }

  /** It is refused. */
  lemma IncomingRefused(m: Machine, a: int, b: int, c: int)
    requires m.current == Idle && m.lastProduce != 1
    ensures Seeing(m, [Message(a, 1), Message(b, 5), Message(c, 3)])
            == [Seen(Moved(2), RecvStart), Seen(Moved(8), RecvStartToStop), Seen(Moved(9), Idle)]
  {
    var msgs := [Message(a, 1), Message(b, 5), Message(c, 3)];
    SeeingMore(m, msgs, 2, RecvStart);
    SeeingMore(Machine(RecvStart, a, 1, 0), msgs[1..], 8, RecvStartToStop);
    SeeingMore(Machine(RecvStartToStop, b, 5, 0), msgs[2..], 9, Idle);
  }

  /** It is hung up here before it is connected. */
  lemma IncomingDropped(m: Machine, a: int, b: int, c: int, d: int)
    requires m.current == Idle && m.lastProduce != 1
    ensures Seeing(m, [Message(a, 1), Message(b, 4), Message(c, 5), Message(d, 3)])
            == [Seen(Moved(2), RecvStart), Seen(Moved(3), RecvAccept), Seen(Moved(8), RecvAcceptToStop),
                Seen(Moved(10), Idle)]
  {
    var msgs := [Message(a, 1), Message(b, 4), Message(c, 5), Message(d, 3)];
    SeeingMore(m, msgs, 2, RecvStart);
    SeeingMore(Machine(RecvStart, a, 1, 0), msgs[1..], 3, RecvAccept);
    SeeingMore(Machine(RecvAccept, b, 4, 0), msgs[2..], 8, RecvAcceptToStop);
    SeeingMore(Machine(RecvAcceptToStop, c, 5, 0), msgs[3..], 10, Idle);
  }

  /** It is hung up here. */
  lemma IncomingHungUp(m: Machine, a: int, b: int, c: int, d: int, e: int)
    requires m.current == Idle && m.lastProduce != 1
    ensures Seeing(m, [Message(a, 1), Message(b, 4), Message(c, 2), Message(d, 5), Message(e, 3)])
            == [Seen(Moved(2), RecvStart), Seen(Moved(3), RecvAccept), Seen(Moved(5), RecvConnected),
                Seen(Moved(8), RecvConnectedToStop), Seen(Moved(11), Idle)]
  {
    var msgs := [Message(a, 1), Message(b, 4), Message(c, 2), Message(d, 5), Message(e, 3)];
    SeeingMore(m, msgs, 2, RecvStart);
    SeeingMore(Machine(RecvStart, a, 1, 0), msgs[1..], 3, RecvAccept);
    SeeingMore(Machine(RecvAccept, b, 4, 0), msgs[2..], 5, RecvConnected);
    SeeingMore(Machine(RecvConnected, c, 2, 0), msgs[3..], 8, RecvConnectedToStop);
    SeeingMore(Machine(RecvConnectedToStop, d, 5, 0), msgs[4..], 11, Idle);
  }

  /** A call out over the telephone network ends there. */
  lemma PstnOutEnded(m: Machine, a: int, b: int, c: int)
    requires m.current == Idle && m.lastProduce != 8
    ensures Seeing(m, [Message(a, 8), Message(b, 7), Message(c, 6)])
            == [Seen(Moved(12), PstnSendStart), Seen(Moved(13), PstnSendConnected), Seen(Moved(16), Idle)]
  {
    var msgs := [Message(a, 8), Message(b, 7), Message(c, 6)];
    SeeingMore(m, msgs, 12, PstnSendStart);
    SeeingMore(Machine(PstnSendStart, a, 8, 0), msgs[1..], 13, PstnSendConnected);
    SeeingMore(Machine(PstnSendConnected, b, 7, 0), msgs[2..], 16, Idle);
  }

  /** It is hung up here. */
  lemma PstnOutHungUp(m: Machine, a: int, b: int, c: int)
    requires m.current == Idle && m.lastProduce != 8
    ensures Seeing(m, [Message(a, 8), Message(b, 7), Message(c, 5)])
            == [Seen(Moved(12), PstnSendStart), Seen(Moved(13), PstnSendConnected), Seen(Moved(15), Idle)]
  {
    var msgs := [Message(a, 8), Message(b, 7), Message(c, 5)];
    SeeingMore(m, msgs, 12, PstnSendStart);
    SeeingMore(Machine(PstnSendStart, a, 8, 0), msgs[1..], 13, PstnSendConnected);
    SeeingMore(Machine(PstnSendConnected, b, 7, 0), msgs[2..], 15, Idle);
  }

  /** A call in over the telephone network ends there. */
  lemma PstnInEnded(m: Machine, a: int, b: int, c: int)
    requires m.current == Idle && m.lastProduce != 9
    ensures Seeing(m, [Message(a, 9), Message(b, 4), Message(c, 6)])
            == [Seen(Moved(13), PstnRecvStart), Seen(Moved(14), PstnRecvAccept), Seen(Moved(13), Idle)]
  {
    var msgs := [Message(a, 9), Message(b, 4), Message(c, 6)];
    SeeingMore(m, msgs, 13, PstnRecvStart);
    SeeingMore(Machine(PstnRecvStart, a, 9, 0), msgs[1..], 14, PstnRecvAccept);
    SeeingMore(Machine(PstnRecvAccept, b, 4, 0), msgs[2..], 13, Idle);
  }

  /** It is hung up here. */
  lemma PstnInHungUp(m: Machine, a: int, b: int, c: int)
    requires m.current == Idle && m.lastProduce != 9
    ensures Seeing(m, [Message(a, 9), Message(b, 4), Message(c, 5)])
            == [Seen(Moved(13), PstnRecvStart), Seen(Moved(14), PstnRecvAccept), Seen(Moved(15), Idle)]
  {
    var msgs := [Message(a, 9), Message(b, 4), Message(c, 5)];
    SeeingMore(m, msgs, 13, PstnRecvStart);
    SeeingMore(Machine(PstnRecvStart, a, 9, 0), msgs[1..], 14, PstnRecvAccept);
    SeeingMore(Machine(PstnRecvAccept, b, 4, 0), msgs[2..], 15, Idle);
  }

  // ----- single messages

  /** A transition that is no trap leaves the state it leads to with the actions it owes: every action it exits was
      open, none is entered that is open already, and no other one is left. */
  lemma TransitionOwes(s: CallState, c: Condition)
    requires Lookup(s, c) != TRAP
    ensures var t := Lookup(s, c);
            && Exits(t.action) <= Obligations(s) && (Acquires(t.action) ==> t.action !in Obligations(s))
            && Perform(Obligations(s), t.action) == Obligations(t.next)
  {
    match s
    case Idle =>
    case SendStart =>
    case RecvStart =>
    case RecvAccept =>
    case RecvConnected =>
    case _ =>
  }

  /** What a message does to the actions that are open: only a reset can leave a state without what it owes, and it
      does exactly if the state it leaves owed something. */
  lemma MessageOwes(m: Machine, msg: Message, open: set<Action>)
    requires msg.Valid() && open == Obligations(m.current)
    ensures var e := EffectOf(m, msg);
            Opened(open, e) == Obligations(Handle(m, msg).current) <==> !e.Reset? || open == {}
  {
    if EffectOf(m, msg).Moved? {
      TransitionOwes(m.current, ConditionOf(msg.produce));
    }
  }

  /** A transition does not lead from an Alexa call to a PSTN call or back. */
  lemma TransitionSeparates(s: CallState, c: Condition)
    requires Lookup(s, c) != TRAP
    ensures IsAlexa(s) ==> !IsPstn(Lookup(s, c).next)
    ensures IsPstn(s) ==> !IsAlexa(Lookup(s, c).next)
    ensures Lookup(s, c).next != Unknown
  {
  }

  // ----- whole runs

  ghost predicate AllValid(msgs: seq<Message>) {
    forall i :: 0 <= i < |msgs| ==> msgs[i].Valid()
  }

  /** The machine after the messages. */
  ghost function After(m: Machine, msgs: seq<Message>): Machine
    requires AllValid(msgs)
    decreases |msgs|
  {
    if msgs == [] then m else Handle(After(m, msgs[..|msgs| - 1]), msgs[|msgs| - 1])
  }

  ghost function EffectAt(m: Machine, msgs: seq<Message>, i: nat): Effect
    requires AllValid(msgs) && i < |msgs|
  {
    EffectOf(After(m, msgs[..i]), msgs[i])
  }

  /** The actions that are open after the messages, those of `open` having been so before. */
  ghost function OpenAfter(m: Machine, open: set<Action>, msgs: seq<Message>): set<Action>
    requires AllValid(msgs)
    decreases |msgs|
  {
    if msgs == [] then open
    else Opened(OpenAfter(m, open, msgs[..|msgs| - 1]), EffectAt(m, msgs, |msgs| - 1))
  }

  lemma Prefixes(m: Machine, msgs: seq<Message>, i: nat)
    requires AllValid(msgs) && msgs != [] && i < |msgs| - 1
    ensures EffectAt(m, msgs[..|msgs| - 1], i) == EffectAt(m, msgs, i)
  {
    assert msgs[..|msgs| - 1][..i] == msgs[..i];
  }

  /** In a run without a reset the actions that have been entered and not exited are those the state owes, after
      every message; so none is open when the machine is idle. */
  lemma {:induction false} RunOwes(m: Machine, msgs: seq<Message>)
    requires AllValid(msgs) && forall i :: 0 <= i < |msgs| ==> !EffectAt(m, msgs, i).Reset?
    ensures OpenAfter(m, Obligations(m.current), msgs) == Obligations(After(m, msgs).current)
    decreases |msgs|
  {
    if msgs != [] {
      var n := |msgs| - 1;
      forall i | 0 <= i < n ensures !EffectAt(m, msgs[..n], i).Reset? {
        Prefixes(m, msgs, i);
      }
      RunOwes(m, msgs[..n]);
      MessageOwes(After(m, msgs[..n]), msgs[n], Obligations(After(m, msgs[..n]).current));
    }
  }

  /** The messages in a row, up to the end, that moved nothing and were not repeated. */
  ghost function TrapsInARow(m: Machine, msgs: seq<Message>): nat
    requires AllValid(msgs)
    decreases |msgs|
  {
    if msgs == [] then m.exceptions
    else
      var before := TrapsInARow(m, msgs[..|msgs| - 1]);
      match EffectAt(m, msgs, |msgs| - 1)
      case Ignored => before
      case Trapped => before + 1
      case Reset => 1
      case Moved(_) => 0
  }

  /** A message resets the machine exactly if it is unexpected and sixteen unexpected ones have come before it since
      the machine moved or was reset. */
  lemma {:induction false} ResetAfterTraps(m: Machine, msgs: seq<Message>, msg: Message)
    requires AllValid(msgs) && msg.Valid() && m.exceptions <= 16
    ensures After(m, msgs).exceptions == TrapsInARow(m, msgs) <= 16
    ensures EffectOf(After(m, msgs), msg).Reset? ==> TrapsInARow(m, msgs) == 16
    ensures EffectOf(After(m, msgs), msg).Trapped? ==> TrapsInARow(m, msgs) < 16
    decreases |msgs|
  {
    if msgs != [] {
      var n := |msgs| - 1;
      ResetAfterTraps(m, msgs[..n], msgs[n]);
    }
  }

  /** Between a state of an Alexa call and one of a PSTN call, in either order, the machine has been idle. */
  lemma {:induction false} IdleBetween(m: Machine, msgs: seq<Message>)
    returns (k: nat)
    requires AllValid(msgs)
    requires (IsAlexa(m.current) && IsPstn(After(m, msgs).current)) || (IsPstn(m.current) && IsAlexa(After(m, msgs).current))
    ensures k < |msgs| && After(m, msgs[..k]).current == Idle
    decreases |msgs|
  {
    var n := |msgs| - 1;
    var before := After(m, msgs[..n]);
    MessageSeparates(before, msgs[n]);
    if before.current == Idle {
      k := n;
    } else {
      k := IdleBetween(m, msgs[..n]);
      assert msgs[..n][..k] == msgs[..k];
    }
  }

  lemma MessageSeparates(m: Machine, msg: Message)
    requires msg.Valid()
    ensures var s := Handle(m, msg).current;
            s == m.current || s == Idle || m.current == Idle || (IsAlexa(m.current) && IsAlexa(s)) || (IsPstn(m.current) && IsPstn(s))
  {
    if Lookup(m.current, ConditionOf(msg.produce)) != TRAP {
      TransitionSeparates(m.current, ConditionOf(msg.produce));
    }
  }

  // ----- a reset that leaves something open

  /** Messages about a number to be dialled, no two in a row of the same type. */
  ghost function Dialled(n: nat): (r: seq<Message>)
    ensures |r| == n && AllValid(r) && forall i :: 0 <= i < n ==> r[i] == Message(i % 2, 8)
  {
    seq(n, i => Message(i % 2, 8))
  }

  lemma {:induction false} DialledTraps(s: CallState, open: set<Action>, n: nat)
    requires s != Idle && n <= 16
    ensures var m := Machine(s, 255, 10, 0);
            && After(m, Dialled(n)) == (if n == 0 then m else Machine(s, (n - 1) % 2, 8, n))
            && OpenAfter(m, open, Dialled(n)) == open
    decreases n
  {
    hide Handle, EffectOf, EffectAt;
    if n > 0 {
      DialledTraps(s, open, n - 1);
      DialledMore(s, open, n);
      DialledEffect(if n == 1 then Machine(s, 255, 10, 0) else Machine(s, (n - 2) % 2, 8, n - 1), (n - 1) % 2);
    }
  }

  lemma DialledEffect(m: Machine, msgType: int)
    requires m.current != Idle && (m.lastType != msgType || m.lastProduce != 8)
    ensures var msg := Message(msgType, 8);
            if m.exceptions >= 16
            then EffectOf(m, msg) == Reset && Handle(m, msg) == Machine(Idle, msgType, 8, 1)
            else EffectOf(m, msg) == Trapped && Handle(m, msg) == Machine(m.current, msgType, 8, m.exceptions + 1)
  {
    assert Lookup(m.current, PstnContact) == TRAP;
  }

  lemma DialledMore(s: CallState, open: set<Action>, n: nat)
    requires n > 0
    ensures var m := Machine(s, 255, 10, 0);
            && After(m, Dialled(n)) == Handle(After(m, Dialled(n - 1)), Message((n - 1) % 2, 8))
            && EffectAt(m, Dialled(n), n - 1) == EffectOf(After(m, Dialled(n - 1)), Message((n - 1) % 2, 8))
            && OpenAfter(m, open, Dialled(n)) == Opened(OpenAfter(m, open, Dialled(n - 1)), EffectAt(m, Dialled(n), n - 1))
  {
    hide Handle, EffectOf, Opened;
    assert Dialled(n)[..n - 1] == Dialled(n - 1);
  }

  /** In every state of a call that owes something, seventeen such messages make the machine idle without anything
      having been exited. */
  lemma ResetLeavesOpen(s: CallState)
    requires Obligations(s) != {}
    ensures var m, n := Machine(s, 255, 10, 0), 17;
            && EffectAt(m, Dialled(n), n - 1) == Reset && After(m, Dialled(n)).current == Idle
            && OpenAfter(m, Obligations(s), Dialled(n)) == Obligations(s) != Obligations(Idle)
  {
    hide Handle, EffectOf, After, OpenAfter, EffectAt;
    var n := 17;
    DialledTraps(s, Obligations(s), n - 1);
    DialledMore(s, Obligations(s), n);
    DialledEffect(Machine(s, (n - 2) % 2, 8, n - 1), (n - 1) % 2);
  }
}
