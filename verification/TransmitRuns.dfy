/**
 Sending a packet, over any number of alarms and interrupts: its slots go to the bus in order and once each.
 */
module TransmitRuns {
  import opened Bytes
  import opened Packets
  import opened Drivers
  import opened Runs

  /** Is the packet in the buffer a discovery reply, which no break precedes? */
  predicate HasDiscoveryReply(s: Driver)
    requires Valid(s)
  {
    var header := HeaderToSend(s.data);
    header.Some? && IsDiscoveryReply(header.value)
  }

  /** The bus signal for the first n slots of the packet in the buffer. */
  function Signal(s: Driver, n: nat): seq<Symbol>
    requires Valid(s) && n <= BUFFER_SIZE
  {
    (if HasDiscoveryReply(s) then [] else [BreakBegins, BreakEnds]) + Slots(s.data[..n])
  }

  /**
   The state `t` while the packet is sent that was in the buffer in `s`: in its break, after the break,
   or in its data, of which `head` slots are on the bus.
   */
  predicate IsSending(s: Driver, t: Driver)
    requires Valid(s)
  {
    && t.status == Sending && !t.reading && t.data == s.data && 0 <= t.head <= t.size <= BUFFER_SIZE
    && if t.timerRunning then
         && !HasDiscoveryReply(s) && !t.txDataEnabled && !t.txDoneEnabled
         && ((t.progress == InBreak && t.wire == s.wire + [BreakBegins])
             || (t.progress == InMab && t.wire == s.wire + [BreakBegins, BreakEnds]))
       else
         && t.txDoneEnabled && (t.head < t.size ==> t.txDataEnabled)
         && t.wire == s.wire + Signal(s, t.head)
  }

  lemma {:induction false} SlotsConcat(a: seq<Byte>, b: seq<Byte>)
    ensures Slots(a + b) == Slots(a) + Slots(b)
  {
  }

  lemma {:induction false} SignalGrows(s: Driver, w: seq<Symbol>, i: nat, j: nat)
    requires Valid(s) && i <= j <= BUFFER_SIZE
    ensures w + Signal(s, i) + Slots(s.data[i..j]) == w + Signal(s, j)
  {
    SlotsConcat(s.data[..i], s.data[i..j]);
    assert s.data[..i] + s.data[i..j] == s.data[..j];
    var start: seq<Symbol> := if HasDiscoveryReply(s) then [] else [BreakBegins, BreakEnds];
    RegroupSignal(w, start, Slots(s.data[..i]), Slots(s.data[i..j]));
  }

  lemma {:induction false} RegroupSignal(a: seq<Symbol>, b: seq<Symbol>, c: seq<Symbol>, d: seq<Symbol>)
    ensures a + (b + c) + d == a + (b + (c + d))
  {
  }

  lemma {:induction false} ReplyBegins(s: Driver, t: Driver, space: nat)
    requires Valid(s) && HasDiscoveryReply(s) && !s.timerRunning
    requires t == Prepare(s, HeaderToSend(s.data), 0)
    ensures IsSending(s, Begin(t, HeaderToSend(s.data), space))
  {
    var n := Min(t.size, space);
    assert [] + Slots(s.data[..n]) == Slots(s.data[..n]);
  }

  lemma {:induction false} BreakIsSent(s: Driver, size: nat, space: nat)
    requires Valid(s) && !HasDiscoveryReply(s) && !s.txDataEnabled && !s.txDoneEnabled
    ensures IsSending(s, Begin(Prepare(s, HeaderToSend(s.data), size), HeaderToSend(s.data), space))
  {
  }

  lemma {:induction false} SizeOfReply(s: Driver, size: nat)
    requires Valid(s)
    ensures HasDiscoveryReply(s) ==> Prepare(s, HeaderToSend(s.data), size) == Prepare(s, HeaderToSend(s.data), 0)
  {
  }

  lemma {:induction false} SendBeginsSending(s: Driver, size: nat, space: nat)
    requires Valid(s) && Consistent(s) && s.status != Sending
    requires HasDiscoveryReply(s) ==> !s.timerRunning
    ensures var t := Send(s, size, space);
            IsSending(s, t) && t.size == SendSize(HeaderToSend(s.data), size)
  {
    if HasDiscoveryReply(s) {
      SizeOfReply(s, size);
      ReplyBegins(s, Prepare(s, HeaderToSend(s.data), 0), space);
    } else {
      BreakIsSent(s, size, space);
    }
  }

  lemma {:induction false} AlarmKeepsSending(s: Driver, t: Driver, space: nat)
    requires Valid(s) && Valid(t) && IsSending(s, t) && t.timerRunning
    ensures IsSending(s, Alarm(t, space))
  {
  }

  lemma {:induction false} TxDataKeepsSending(s: Driver, t: Driver, space: nat)
    requires Valid(s) && Valid(t) && IsSending(s, t) && !t.timerRunning
    ensures IsSending(s, TxData(t, space))
  {
    SignalGrows(s, s.wire, t.head, t.head + Min(t.size - t.head, space));
  }

  /**
   Nothing that happens before the end of the transmission disturbs it, unless a task writes to the buffer
   of a packet that is not RDM.
   */
  lemma {:induction false} StepKeepsSending(s: Driver, t: Driver, e: Event)
    requires Valid(s) && Valid(t) && IsSending(s, t) && Consistent(t) && Enabled(t, e)
    requires e != TxDoneInterrupt && (e.TaskWrites? ==> ReadHeader(s.data).Some?)
    ensures IsSending(s, Apply(t, e).state) && Apply(t, e).state.size == t.size
  {
    match e
    case TimerAlarm(space) => AlarmKeepsSending(s, t, space);
    case TxDataInterrupt(space) => TxDataKeepsSending(s, t, space);
    case _ =>
  }

  // ---------- a whole transmission ----------

  /** From the call at `i` up to `j`, the transmission has not ended, and a packet that is not RDM is not written to. */
  ghost predicate Sends(states: seq<Driver>, events: seq<Event>, i: nat, j: nat)
    requires IsRun(states, events)
  {
    && i < j <= |events| && events[i].TaskSends? && IsStep(states, events, i)
    && (HasDiscoveryReply(states[i]) ==> !states[i].timerRunning)
    && forall k :: i < k < j ==>
       events[k] != TxDoneInterrupt && (events[k].TaskWrites? ==> ReadHeader(states[i].data).Some?)
  }

  lemma {:induction false} SignalLength(s: Driver, w: seq<Symbol>, m: nat, n: nat)
    requires Valid(s) && m <= n <= BUFFER_SIZE
    ensures w + Signal(s, m) == w + Signal(s, n) ==> m == n
  {
    assert |w + Signal(s, n)| == |w + Signal(s, m)| + n - m;
  }

  /** The room for slots that the UART offers at an event. */
  function Offered(s: Driver, e: Event): nat {
    match e
    case TaskSends(_, space) => if Valid(s) && HasDiscoveryReply(s) then space else 0
    case TimerAlarm(space) => if s.progress == InBreak then 0 else space
    case TxDataInterrupt(space) => space
    case _ => 0
  }

  /** The room offered from `i` up to `j`. */
  function Room(states: seq<Driver>, events: seq<Event>, i: nat, j: nat): nat
    requires i <= j <= |events| && |states| == |events| + 1
    decreases j
  {
    if i == j then 0 else Room(states, events, i, j - 1) + Offered(states[j - 1], events[j - 1])
  }

  /** Before its data begin, a packet has no slots in the UART. */
  predicate HasBegun(t: Driver, room: nat) {
    0 <= t.size && t.head == Min(t.size, room) && (t.timerRunning ==> room == 0)
  }

  lemma {:induction false} SendOffers(s: Driver, size: nat, space: nat)
    requires Valid(s) && Consistent(s) && s.status != Sending && (HasDiscoveryReply(s) ==> !s.timerRunning)
    ensures HasBegun(Send(s, size, space), Offered(s, TaskSends(size, space)))
  {
  }

  lemma {:induction false} StepOffers(s: Driver, t: Driver, e: Event, room: nat)
    requires Valid(s) && Valid(t) && IsSending(s, t) && Consistent(t) && Enabled(t, e) && HasBegun(t, room)
    requires e != TxDoneInterrupt && (e.TaskWrites? ==> ReadHeader(s.data).Some?)
    ensures HasBegun(Apply(t, e).state, room + Offered(t, e))
  {
  }

  /** The state of a transmission after some room was offered. */
  predicate IsUnderWay(s: Driver, t: Driver, size: int, room: nat)
    requires Valid(s)
  {
    Valid(t) && Consistent(t) && IsSending(s, t) && t.size == size && HasBegun(t, room)
  }

  lemma {:induction false} SendIsUnderWay(s: Driver, size: nat, space: nat)
    requires Valid(s) && Consistent(s) && s.status != Sending && (HasDiscoveryReply(s) ==> !s.timerRunning)
    ensures IsUnderWay(s, Send(s, size, space), SendSize(HeaderToSend(s.data), size),
            Offered(s, TaskSends(size, space)))
  {
    SendBeginsSending(s, size, space);
    SendOffers(s, size, space);
    StepKeepsConsistent(s, TaskSends(size, space));
  }

  lemma {:induction false} StepIsUnderWay(s: Driver, t: Driver, e: Event, size: int, room: nat)
    requires Valid(s) && IsUnderWay(s, t, size, room) && Enabled(t, e)
    requires e != TxDoneInterrupt && (e.TaskWrites? ==> ReadHeader(s.data).Some?)
    ensures IsUnderWay(s, Apply(t, e).state, size, room + Offered(t, e))
  {
    StepKeepsSending(s, t, e);
    StepOffers(s, t, e, room);
    StepKeepsConsistent(t, e);
  }

  /** What is under way up to `j`. */
  ghost predicate IsTransmission(states: seq<Driver>, events: seq<Event>, i: nat, j: nat)
    requires i < j <= |events| && |states| == |events| + 1 && events[i].TaskSends?
  {
    Valid(states[i]) &&
    IsUnderWay(states[i], states[j], SendSize(HeaderToSend(states[i].data), events[i].size), Room(states, events, i, j))
  }

  lemma {:induction false} TransmissionBegins(states: seq<Driver>, events: seq<Event>, i: nat)
    requires IsRun(states, events) && i < |events| && events[i].TaskSends? && IsStep(states, events, i)
    requires HasDiscoveryReply(states[i]) ==> !states[i].timerRunning
    ensures IsTransmission(states, events, i, i + 1)
  {
    SendIsUnderWay(states[i], events[i].size, events[i].space);
    assert Room(states, events, i, i) == 0;
  }

  lemma {:induction false} TransmissionGoesOn(states: seq<Driver>, events: seq<Event>, i: nat, j: nat)
    requires i < j < |events| && |states| == |events| + 1 && events[i].TaskSends? && IsStep(states, events, j)
    requires IsTransmission(states, events, i, j)
    requires events[j] != TxDoneInterrupt && (events[j].TaskWrites? ==> ReadHeader(states[i].data).Some?)
    ensures IsTransmission(states, events, i, j + 1)
  {
    var size, room := SendSize(HeaderToSend(states[i].data), events[i].size), Room(states, events, i, j);
    StepIsUnderWay(states[i], states[j], events[j], size, room);
  }

  lemma {:induction false} TransmissionIsUnderWay(states: seq<Driver>, events: seq<Event>, i: nat, j: nat)
    requires IsRun(states, events) && Sends(states, events, i, j)
    ensures IsTransmission(states, events, i, j)
    decreases j
  {
    if j == i + 1 {
      TransmissionBegins(states, events, i);
    } else {
      TransmissionIsUnderWay(states, events, i, j - 1);
      assert IsStep(states, events, j - 1);
      TransmissionGoesOn(states, events, i, j - 1);
    }
  }

  /**
   Transmission conserves: whatever room the UART has at each interrupt, and whatever else happens,
   the first `head` slots of the packet are on the bus, in order and once each, after a break unless
   the packet is a discovery reply. They are as many as the room offered so far, or else all.
   */
  lemma {:induction false} TransmitConserves(states: seq<Driver>, events: seq<Event>, i: nat, j: nat)
    requires IsRun(states, events) && Sends(states, events, i, j)
    ensures Valid(states[j]) && IsSending(states[i], states[j]) && HasBegun(states[j], Room(states, events, i, j))
    ensures states[j].size == SendSize(HeaderToSend(states[i].data), events[i].size)
  {
    TransmissionIsUnderWay(states, events, i, j);
  }

  /**
   When the transmission ends, the whole packet is on the bus, and nothing else, if and only if all of it
   was put into the UART.
   */
  lemma {:induction false} EndOfTransmission(states: seq<Driver>, events: seq<Event>, i: nat, j: nat)
    requires IsRun(states, events) && Sends(states, events, i, j)
    requires j < |events| && events[j] == TxDoneInterrupt
    ensures 0 <= states[j].head <= states[j].size == SendSize(HeaderToSend(states[i].data), events[i].size)
    ensures states[j + 1].wire == states[i].wire + Signal(states[i], states[j].head)
    ensures states[j + 1].wire == states[i].wire + Signal(states[i], states[j].size) <==>
            states[j].head == states[j].size
  {
    TransmitConserves(states, events, i, j);
    assert IsStep(states, events, j);
    assert states[j + 1].wire == states[j].wire;
    SignalLength(states[i], states[i].wire, states[j].head, states[j].size);
  }

  /**
   When the transmission ends, the whole packet is on the bus, and nothing else, if and only if the
   UART offered room for all of it before the interrupt that ends it. Otherwise the packet is cut short.
   */
  lemma {:induction false} WholePacketIsSent(states: seq<Driver>, events: seq<Event>, i: nat, j: nat)
    requires IsRun(states, events) && Sends(states, events, i, j)
    requires j < |events| && events[j] == TxDoneInterrupt
    ensures var n, room := SendSize(HeaderToSend(states[i].data), events[i].size), Room(states, events, i, j);
            && states[j + 1].wire == states[i].wire + Signal(states[i], Min(n, room))
            && (states[j + 1].wire == states[i].wire + Signal(states[i], n) <==> n <= room)
  {
    TransmitConserves(states, events, i, j);
    EndOfTransmission(states, events, i, j);
  }

  // ---------- the end is reached ----------

  function Refill(t: Driver, spaces: seq<nat>): (u: Driver)
    requires Valid(t) && t.status == Sending && 0 <= t.head <= t.size
    ensures Valid(u)
    decreases |spaces|
  {
    if spaces == [] then t else Refill(TxData(t, spaces[0]), spaces[1..])
  }

  /**
   As long as slots are left, the interrupt for more stays enabled, and each that finds room sends some:
   all slots are sent.
   */
  lemma {:induction false} RefillReachesTheEnd(s: Driver, t: Driver, spaces: seq<nat>)
    requires Valid(s) && Valid(t) && IsSending(s, t) && !t.timerRunning
    requires forall i :: 0 <= i < |spaces| ==> spaces[i] > 0
    ensures IsSending(s, Refill(t, spaces)) && Refill(t, spaces).size == t.size
    ensures |spaces| >= t.size - t.head ==> Refill(t, spaces).head == t.size
    decreases |spaces|
  {
    if spaces != [] {
      assert spaces[0] > 0;
      TxDataKeepsSending(s, t, spaces[0]);
      RefillReachesTheEnd(s, TxData(t, spaces[0]), spaces[1..]);
    }
  }
}
