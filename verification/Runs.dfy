/**
 The runs of a port: interrupts, timer alarms and calls, interleaved in any order.
 */
module Runs {
  import opened Bytes
  import opened Packets
  import opened Drivers

  /** Everything that can happen to a port. */
  datatype Event =
    | Arrives(bytes: seq<Byte>)
    | ReceiveInterrupt(isBreak: bool, err: Error)
    | UartShifts(n: nat)
    | TxDataInterrupt(space: nat)
    | TxDoneInterrupt
    | TimerAlarm(space: nat)
    | TaskSends(size: nat, space: nat)
    | TaskAsks(size: nat)
    | TaskWaits
    | TaskTakes
    | TaskWrites(offset: nat, bytes: seq<Byte>)
    | TaskResponded

  /**
   What holds of a port at all times: one that sends does not read, and has sent no more than the
   packet; of one that does not send, no interrupt for data to send is enabled.
   */
  predicate Consistent(s: Driver) {
    if s.status == Sending then !s.reading && 0 <= s.head <= s.size else !s.txDataEnabled && !s.txDoneEnabled
  }

  /**
   Can the event happen? The UART receives only while the bus is turned to reading. A call that waits
   for a transmission to end goes on only when it has, and keeps other calls from sending until it returns.
   */
  predicate Enabled(s: Driver, e: Event) {
    match e
    case Arrives(_) => s.reading
    case ReceiveInterrupt(_, _) => s.reading
    case UartShifts(_) => true
    case TxDataInterrupt(_) => s.txDataEnabled
    case TxDoneInterrupt => s.txDoneEnabled
    case TimerAlarm(_) => s.timerRunning
    case TaskSends(_, _) => s.status != Sending
    case TaskAsks(_) => s.status != Sending
    case TaskWaits => s.status != Sending && s.progress != Complete
    case TaskTakes => s.status != Sending
    case TaskWrites(offset, _) => offset < BUFFER_SIZE
    case TaskResponded => s.status != Sending && s.progress == Complete
  }

  function Apply(s: Driver, e: Event): (o: Outcome)
    requires Valid(s) && Consistent(s) && Enabled(s, e)
    ensures Valid(o.state)
  {
    match e
    case Arrives(bytes) => Outcome(s.(rxFifo := s.rxFifo + bytes), None)
    case ReceiveInterrupt(isBreak, err) => Receive(s, isBreak, err)
    case UartShifts(_) => Outcome(s, None)
    case TxDataInterrupt(space) => Outcome(TxData(s, space), None)
    case TxDoneInterrupt => Outcome(TxDone(s), None)
    case TimerAlarm(space) => Outcome(Alarm(s, space), None)
    case TaskSends(size, space) => Outcome(Send(s, size, space), None)
    case TaskAsks(size) => Outcome(StartReceive(s, size), None)
    case TaskWaits => Outcome(Await(s), None)
    case TaskTakes => Outcome(TakePacket(s), None)
    case TaskWrites(offset, bytes) => Outcome(WriteOffset(s, offset, bytes), None)
    case TaskResponded => Outcome(AfterResponse(s), None)
  }

  lemma {:induction false} ReceiveKeepsConsistent(s: Driver, isBreak: bool, err: Error)
    requires Valid(s) && s.reading && Consistent(s)
    ensures Consistent(Receive(s, isBreak, err).state)
  {
    var t := Fill(s);
    var u := if isBreak then ReceiveBreak(t).state else ReceiveSlots(t, err).state;
    assert u.txDataEnabled == t.txDataEnabled == s.txDataEnabled;
    assert u.txDoneEnabled == t.txDoneEnabled == s.txDoneEnabled;
    assert u.status != Sending;
  }

  lemma {:induction false} CallKeepsConsistent(s: Driver, e: Event)
    requires Valid(s) && Consistent(s) && Enabled(s, e)
    requires e.TaskAsks? || e.TaskWaits? || e.TaskTakes? || e.TaskWrites? || e.TaskResponded?
    ensures Consistent(Apply(s, e).state)
  {
  }

  /** Whatever can happen in a consistent state leads to one. */
  lemma {:induction false} StepKeepsConsistent(s: Driver, e: Event)
    requires Valid(s) && Consistent(s) && Enabled(s, e)
    ensures Consistent(Apply(s, e).state)
  {
    match e
    case ReceiveInterrupt(isBreak, err) => ReceiveKeepsConsistent(s, isBreak, err);
    case TaskSends(_, _) =>
    case Arrives(_) =>
    case TxDataInterrupt(_) =>
    case TxDoneInterrupt =>
    case TimerAlarm(_) =>
    case UartShifts(_) =>
    case _ => CallKeepsConsistent(s, e);
  }

  /** Is the event at `i` possible in the state at `i`, and does it lead to the next? */
  predicate IsStep(states: seq<Driver>, events: seq<Event>, i: nat)
    requires i < |events| && |states| == |events| + 1
    ensures IsStep(states, events, i) ==> Valid(states[i + 1]) && Consistent(states[i + 1])
  {
    Valid(states[i]) && Consistent(states[i]) && Enabled(states[i], events[i]) &&
    (StepKeepsConsistent(states[i], events[i]);
     states[i + 1] == Apply(states[i], events[i]).state)
  }

  /** A run: the states it goes through, one more than its events. */
  ghost predicate IsRun(states: seq<Driver>, events: seq<Event>) {
    && |states| == |events| + 1
    && Valid(states[0]) && Consistent(states[0])
    && forall i :: 0 <= i < |events| ==> IsStep(states, events, i)
  }

  /** Every state of a run is consistent, the first one of an installed driver, and so each later one. */
  lemma {:induction false} EveryRunIsConsistent(states: seq<Driver>, events: seq<Event>, i: nat)
    requires IsRun(states, events) && i <= |events|
    ensures Valid(states[i]) && Consistent(states[i])
    ensures Consistent(Installed())
  {
    if i > 0 {
      assert IsStep(states, events, i - 1);
    }
  }

  /** From the state at the start, each event is possible, and the last state is `t`. */
  ghost predicate LeadsTo(s: Driver, events: seq<Event>, t: Driver)
    decreases |events|
  {
    && Valid(s) && Consistent(s)
    && if events == [] then t == s else Enabled(s, events[0]) && LeadsTo(Apply(s, events[0]).state, events[1..], t)
  }

  lemma {:induction false} OneMoreEvent(s: Driver, e: Event, events: seq<Event>, t: Driver)
    requires Valid(s) && Consistent(s) && Enabled(s, e) && LeadsTo(Apply(s, e).state, events, t)
    ensures LeadsTo(s, [e] + events, t)
  {
    assert ([e] + events)[1..] == events;
  }

  /** Being led to a state is being there at the end of a run. */
  lemma {:induction false} RunThatLeadsTo(s: Driver, events: seq<Event>, t: Driver) returns (states: seq<Driver>)
    requires LeadsTo(s, events, t)
    ensures IsRun(states, events) && states[0] == s && states[|events|] == t
    decreases |events|
  {
    if events == [] {
      states := [s];
    } else {
      var rest := RunThatLeadsTo(Apply(s, events[0]).state, events[1..], t);
      states := [s] + rest;
      forall i | 0 <= i < |events|
        ensures IsStep(states, events, i)
      {
        if i > 0 {
          assert IsStep(rest, events[1..], i - 1);
        }
      }
    }
  }

  lemma {:induction false} InstalledHasNoHeader()
    ensures HeaderToSend(Installed().data) == None && Consistent(Installed())
  {
    assert Installed().data[0] == 0;
  }
}
