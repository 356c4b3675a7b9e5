/**
 The UART between the port and the bus: slots wait in its queue, and when the queue runs dry it latches a
 flag that the transmission is done. When that ends a transmission too early, and when it does not.
 */
module UartRuns {
  import opened Bytes
  import opened Packets
  import opened Drivers
  import opened Runs
  import opened TransmitRuns

  /** The slots in the queue, and the flag, which stays until the interrupt clears it. */
  datatype Uart = Uart(queue: nat, done: bool)

  /** The interrupt for more slots is raised while so few are left. */
  const EMPTY_THRESHOLD := 8

  /** The slots that an event puts into the queue. */
  function Put(s: Driver, e: Event): nat {
    match e
    case TaskSends(size, space) =>
      if Valid(s) && HasDiscoveryReply(s) then Min(SendSize(HeaderToSend(s.data), size), space) else 0
    case TimerAlarm(space) =>
      if s.status == Sending && s.progress != InBreak && s.size >= 0 then Min(s.size, space) else 0
    case TxDataInterrupt(space) => if s.size >= s.head then Min(s.size - s.head, space) else 0
    case _ => 0
  }

  /** Is room looked for at the event? */
  predicate PutsSlots(s: Driver, e: Event) {
    e.TxDataInterrupt? || (e.TimerAlarm? && s.status == Sending && s.progress != InBreak)
    || (e.TaskSends? && Valid(s) && HasDiscoveryReply(s))
  }

  /** Is the interrupt for more slots raised? It is served before the one for the end. */
  predicate WantsData(s: Driver, u: Uart) {
    s.txDataEnabled && u.queue <= EMPTY_THRESHOLD
  }

  /**
   What the event does to a UART that has room for `capacity` slots. Slots leave it in their own time;
   as the last one does, the flag is latched.
   */
  predicate IsUartStep(capacity: nat, s: Driver, e: Event, u: Uart, v: Uart) {
    && (PutsSlots(s, e) ==> u.queue <= capacity && e.space == capacity - u.queue)
    && match e
       case UartShifts(n) => 0 < n <= u.queue && v == Uart(u.queue - n, u.done || n == u.queue)
       case TxDataInterrupt(_) => WantsData(s, u) && v == Uart(u.queue + Put(s, e), u.done)
       case TxDoneInterrupt => u.done && !WantsData(s, u) && v == Uart(u.queue, false)
       case _ => v == Uart(u.queue + Put(s, e), u.done)
  }

  predicate IsUartStepAt(capacity: nat, states: seq<Driver>, events: seq<Event>, uarts: seq<Uart>, k: nat)
    requires k < |events| && |states| == |events| + 1 && |uarts| == |states|
  {
    IsUartStep(capacity, states[k], events[k], uarts[k], uarts[k + 1])
  }

  /** A run, with the state of the UART at each point. */
  ghost predicate IsUartRun(capacity: nat, states: seq<Driver>, events: seq<Event>, uarts: seq<Uart>) {
    && IsRun(states, events) && |uarts| == |states|
    && forall k :: 0 <= k < |events| ==> IsUartStepAt(capacity, states, events, uarts, k)
  }

  // ---------- running dry ----------

  /** The UART runs dry with more slots of the packet left than it has room for. */
  predicate RunsDry(capacity: nat, s: Driver, e: Event, u: Uart) {
    e.UartShifts? && e.n == u.queue && s.size - s.head > capacity
  }

  predicate RunsDryAt(capacity: nat, states: seq<Driver>, events: seq<Event>, uarts: seq<Uart>, k: nat)
    requires k < |events| && |states| == |events| + 1 && |uarts| == |states|
  {
    RunsDry(capacity, states[k], events[k], uarts[k])
  }

  /**
   After slots were put in, is the end of the transmission served next? The interrupt routine looks for
   interrupts until none is raised.
   */
  predicate ServesEnd(s: Driver, e: Event, t: Driver, v: Uart, next: Event) {
    PutsSlots(s, e) && v.done && t.txDoneEnabled && !WantsData(t, v) ==> next == TxDoneInterrupt
  }

  predicate ServesEndAt(states: seq<Driver>, events: seq<Event>, uarts: seq<Uart>, k: nat)
    requires k + 1 < |events| && |states| == |events| + 1 && |uarts| == |states|
  {
    ServesEnd(states[k], events[k], states[k + 1], uarts[k + 1], events[k + 1])
  }

  ghost predicate IsPrompt(states: seq<Driver>, events: seq<Event>, uarts: seq<Uart>)
    requires |states| == |events| + 1 && |uarts| == |states|
  {
    forall k :: 0 <= k < |events| - 1 ==> ServesEndAt(states, events, uarts, k)
  }

  /** If the flag is latched, all slots are in, or the next time room is looked for, there is enough for the rest. */
  predicate IsSafe(capacity: nat, t: Driver, u: Uart) {
    u.done ==> t.head == t.size || (u.queue == 0 && t.size - t.head <= capacity)
  }

  /**
   The flag is latched, and there is no room for the rest, even if the queue is empty the next time room
   is looked for.
   */
  predicate IsLost(capacity: nat, t: Driver, u: Uart) {
    u.done && t.size - t.head > capacity
  }

  /** A transmission that goes on, in which no slots precede the end of the break. */
  predicate GoesOn(s: Driver, t: Driver)
    requires Valid(s)
  {
    Valid(t) && Consistent(t) && IsSending(s, t) && (t.timerRunning ==> t.head == 0)
  }

  lemma {:induction false} StepStaysSafe(capacity: nat, s: Driver, t: Driver, e: Event, u: Uart, v: Uart)
    requires Valid(s) && GoesOn(s, t) && Enabled(t, e) && e != TxDoneInterrupt
    requires IsUartStep(capacity, t, e, u, v) && IsSafe(capacity, t, u) && !RunsDry(capacity, t, e, u)
    requires e.TaskWrites? ==> ReadHeader(s.data).Some?
    ensures IsSafe(capacity, Apply(t, e).state, v)
  {
  }

  lemma {:induction false} SafeEndIsWhole(capacity: nat, s: Driver, t: Driver, u: Uart, v: Uart)
    requires Valid(s) && GoesOn(s, t) && Enabled(t, TxDoneInterrupt) && IsUartStep(capacity, t, TxDoneInterrupt, u, v)
    requires IsSafe(capacity, t, u)
    ensures t.head == t.size
  {
  }

  lemma {:induction false} StepStaysLost(capacity: nat, s: Driver, t: Driver, e: Event, u: Uart, v: Uart)
    requires Valid(s) && GoesOn(s, t) && Enabled(t, e) && e != TxDoneInterrupt && capacity > EMPTY_THRESHOLD
    requires IsUartStep(capacity, t, e, u, v) && IsLost(capacity, t, u)
    requires e.TaskWrites? ==> ReadHeader(s.data).Some?
    ensures var w := Apply(t, e).state;
            && w.head < w.size
            && (if PutsSlots(t, e) then v.done && w.txDoneEnabled && !WantsData(w, v) else IsLost(capacity, w, v))
  {
  }

  lemma {:induction false} DryIsLost(capacity: nat, t: Driver, e: Event, u: Uart, v: Uart)
    requires RunsDry(capacity, t, e, u) && IsUartStep(capacity, t, e, u, v)
    ensures IsLost(capacity, t, v)
  {
  }

  // ---------- a whole transmission ----------

  ghost predicate SendsOverUart(
      capacity: nat, states: seq<Driver>, events: seq<Event>, uarts: seq<Uart>, i: nat, j: nat) {
    IsUartRun(capacity, states, events, uarts) && Sends(states, events, i, j)
  }

  predicate GoesOnAt(states: seq<Driver>, i: nat, k: nat)
    requires i < |states| && k < |states|
  {
    Valid(states[i]) && GoesOn(states[i], states[k])
  }

  lemma {:induction false} TransmissionGoesOnAt(states: seq<Driver>, events: seq<Event>, i: nat, j: nat, k: nat)
    requires IsRun(states, events) && Sends(states, events, i, j) && i < k <= j
    ensures GoesOnAt(states, i, k)
    ensures states[k].size == SendSize(HeaderToSend(states[i].data), events[i].size)
  {
    TransmitConserves(states, events, i, k);
    EveryRunIsConsistent(states, events, k);
  }

  /** One event of a transmission, other than its beginning and its end. */
  ghost predicate IsMidway(capacity: nat, states: seq<Driver>, events: seq<Event>, uarts: seq<Uart>, i: nat, m: nat) {
    && i < m < |events| && |states| == |events| + 1 && |uarts| == |states|
    && GoesOnAt(states, i, m) && IsStep(states, events, m) && IsUartStepAt(capacity, states, events, uarts, m)
    && events[m] != TxDoneInterrupt && (events[m].TaskWrites? ==> ReadHeader(states[i].data).Some?)
  }

  lemma {:induction false} TransmissionIsMidway(
      capacity: nat, states: seq<Driver>, events: seq<Event>, uarts: seq<Uart>, i: nat, j: nat, m: nat)
    requires SendsOverUart(capacity, states, events, uarts, i, j) && i < m < j
    ensures IsMidway(capacity, states, events, uarts, i, m)
  {
    TransmissionGoesOnAt(states, events, i, j, m);
    assert IsStep(states, events, m) && IsUartStepAt(capacity, states, events, uarts, m);
  }

  /** Does the event at `m` keep the transmission safe? */
  predicate StaysSafeAt(capacity: nat, states: seq<Driver>, uarts: seq<Uart>, m: nat)
    requires m + 1 < |states| && |uarts| == |states|
  {
    IsSafe(capacity, states[m], uarts[m]) ==> IsSafe(capacity, states[m + 1], uarts[m + 1])
  }

  lemma {:induction false} SafeStep(
      capacity: nat, states: seq<Driver>, events: seq<Event>, uarts: seq<Uart>, i: nat, j: nat, m: nat)
    requires SendsOverUart(capacity, states, events, uarts, i, j) && i < m < j &&
             !RunsDryAt(capacity, states, events, uarts, m)
    ensures StaysSafeAt(capacity, states, uarts, m)
  {
    TransmissionIsMidway(capacity, states, events, uarts, i, j, m);
    if IsSafe(capacity, states[m], uarts[m]) {
      StepStaysSafe(capacity, states[i], states[m], events[m], uarts[m], uarts[m + 1]);
    }
  }

  lemma {:induction false} SafeThroughout(capacity: nat, states: seq<Driver>, uarts: seq<Uart>, i: nat, m: nat)
    requires i < m < |states| && |uarts| == |states| && IsSafe(capacity, states[i + 1], uarts[i + 1])
    requires forall k :: i < k < m ==> StaysSafeAt(capacity, states, uarts, k)
    ensures IsSafe(capacity, states[m], uarts[m])
    decreases m
  {
    if m > i + 1 {
      SafeThroughout(capacity, states, uarts, i, m - 1);
      assert StaysSafeAt(capacity, states, uarts, m - 1);
    }
  }

  lemma {:induction false} SendLatchesNothing(capacity: nat, s: Driver, e: Event, u: Uart, v: Uart)
    requires e.TaskSends? && IsUartStep(capacity, s, e, u, v)
    ensures v.done == u.done
  {
  }

  lemma {:induction false} StaysSafe(
      capacity: nat, states: seq<Driver>, events: seq<Event>, uarts: seq<Uart>, i: nat, j: nat)
    requires SendsOverUart(capacity, states, events, uarts, i, j) && !uarts[i].done
    requires forall k :: i < k < j ==> !RunsDryAt(capacity, states, events, uarts, k)
    ensures IsSafe(capacity, states[j], uarts[j])
  {
    assert IsUartStepAt(capacity, states, events, uarts, i);
    SendLatchesNothing(capacity, states[i], events[i], uarts[i], uarts[i + 1]);
    forall k | i < k < j
      ensures StaysSafeAt(capacity, states, uarts, k)
    {
      assert !RunsDryAt(capacity, states, events, uarts, k);
      SafeStep(capacity, states, events, uarts, i, j, k);
    }
    SafeThroughout(capacity, states, uarts, i, j);
  }

  /** Does the event at `m` leave slots out, and the transmission lost unless its end comes next? */
  predicate StaysLostAt(capacity: nat, states: seq<Driver>, events: seq<Event>, uarts: seq<Uart>, m: nat)
    requires m + 1 < |events| && |states| == |events| + 1 && |uarts| == |states|
  {
    IsLost(capacity, states[m], uarts[m]) ==>
      && states[m + 1].head < states[m + 1].size
      && (events[m + 1] != TxDoneInterrupt ==> IsLost(capacity, states[m + 1], uarts[m + 1]))
  }

  lemma {:induction false} LostStep(
      capacity: nat, states: seq<Driver>, events: seq<Event>, uarts: seq<Uart>, i: nat, j: nat, m: nat)
    requires SendsOverUart(capacity, states, events, uarts, i, j) && j < |events| && i < m < j &&
             capacity > EMPTY_THRESHOLD
    requires ServesEndAt(states, events, uarts, m)
    ensures StaysLostAt(capacity, states, events, uarts, m)
  {
    TransmissionIsMidway(capacity, states, events, uarts, i, j, m);
    if IsLost(capacity, states[m], uarts[m]) {
      StepStaysLost(capacity, states[i], states[m], events[m], uarts[m], uarts[m + 1]);
    }
  }

  lemma {:induction false} LostThroughout(
      capacity: nat, states: seq<Driver>, events: seq<Event>, uarts: seq<Uart>, k: nat, m: nat)
    requires k < m < |events| && |states| == |events| + 1 && |uarts| == |states|
    requires states[k].head < states[k].size && IsLost(capacity, states[k], uarts[k])
    requires forall l :: k <= l < m ==> StaysLostAt(capacity, states, events, uarts, l)
    requires forall l :: k <= l < m ==> events[l] != TxDoneInterrupt
    ensures states[m].head < states[m].size
    ensures events[m] != TxDoneInterrupt ==> IsLost(capacity, states[m], uarts[m])
    decreases m
  {
    if m > k + 1 {
      LostThroughout(capacity, states, events, uarts, k, m - 1);
    }
    assert StaysLostAt(capacity, states, events, uarts, m - 1);
  }

  lemma {:induction false} DryStep(
      capacity: nat, states: seq<Driver>, events: seq<Event>, uarts: seq<Uart>, i: nat, j: nat, k: nat)
    requires SendsOverUart(capacity, states, events, uarts, i, j) && i < k < j &&
             RunsDryAt(capacity, states, events, uarts, k)
    ensures IsLost(capacity, states[k + 1], uarts[k + 1]) && states[k + 1].head < states[k + 1].size
  {
    TransmissionIsMidway(capacity, states, events, uarts, i, j, k);
    DryIsLost(capacity, states[k], events[k], uarts[k], uarts[k + 1]);
  }

  lemma {:induction false} StaysLost(
      capacity: nat, states: seq<Driver>, events: seq<Event>, uarts: seq<Uart>, i: nat, j: nat, k: nat)
    requires SendsOverUart(capacity, states, events, uarts, i, j) && j < |events| && IsPrompt(states, events, uarts)
    requires i < k < j && RunsDryAt(capacity, states, events, uarts, k) && capacity > EMPTY_THRESHOLD
    ensures states[j].head < states[j].size
  {
    DryStep(capacity, states, events, uarts, i, j, k);
    LostUpTo(capacity, states, events, uarts, i, j, k + 1);
  }

  lemma {:induction false} LostUpTo(
      capacity: nat, states: seq<Driver>, events: seq<Event>, uarts: seq<Uart>, i: nat, j: nat, k: nat)
    requires SendsOverUart(capacity, states, events, uarts, i, j) && j < |events| && IsPrompt(states, events, uarts)
    requires i < k <= j && capacity > EMPTY_THRESHOLD
    requires IsLost(capacity, states[k], uarts[k]) && states[k].head < states[k].size
    ensures states[j].head < states[j].size
  {
    forall l | k <= l < j
      ensures StaysLostAt(capacity, states, events, uarts, l)
    {
      assert ServesEndAt(states, events, uarts, l);
      LostStep(capacity, states, events, uarts, i, j, l);
    }
    if k < j {
      LostThroughout(capacity, states, events, uarts, k, j);
    }
  }

  lemma {:induction false} SafeEnd(
      capacity: nat, states: seq<Driver>, events: seq<Event>, uarts: seq<Uart>, i: nat, j: nat)
    requires SendsOverUart(capacity, states, events, uarts, i, j) && j < |events| && events[j] == TxDoneInterrupt
    requires IsSafe(capacity, states[j], uarts[j])
    ensures states[j].head == states[j].size
  {
    TransmissionGoesOnAt(states, events, i, j, j);
    assert IsUartStepAt(capacity, states, events, uarts, j) && IsStep(states, events, j);
    SafeEndIsWhole(capacity, states[i], states[j], uarts[j], uarts[j + 1]);
  }

  lemma {:induction false} LatchedIsLost(
      capacity: nat, states: seq<Driver>, events: seq<Event>, uarts: seq<Uart>, i: nat, j: nat)
    requires SendsOverUart(capacity, states, events, uarts, i, j) && uarts[i].done && !HasDiscoveryReply(states[i])
    requires SendSize(HeaderToSend(states[i].data), events[i].size) > capacity
    ensures IsLost(capacity, states[i + 1], uarts[i + 1]) && states[i + 1].head < states[i + 1].size
  {
    assert IsStep(states, events, i) && IsUartStepAt(capacity, states, events, uarts, i);
    SendLatchesNothing(capacity, states[i], events[i], uarts[i], uarts[i + 1]);
  }

  lemma {:induction false} EmptyQueueIsSafe(
      capacity: nat, states: seq<Driver>, events: seq<Event>, uarts: seq<Uart>, i: nat, j: nat)
    requires SendsOverUart(capacity, states, events, uarts, i, j) && uarts[i].queue == 0 &&
             !HasDiscoveryReply(states[i])
    requires SendSize(HeaderToSend(states[i].data), events[i].size) <= capacity
    ensures IsSafe(capacity, states[i + 1], uarts[i + 1])
  {
    assert IsStep(states, events, i) && IsUartStepAt(capacity, states, events, uarts, i);
  }

  lemma {:induction false} ShortPacketsNeverRunDry(
      capacity: nat, states: seq<Driver>, events: seq<Event>, uarts: seq<Uart>, i: nat, j: nat, k: nat)
    requires SendsOverUart(capacity, states, events, uarts, i, j) && i < k < j
    requires SendSize(HeaderToSend(states[i].data), events[i].size) <= capacity
    ensures StaysSafeAt(capacity, states, uarts, k)
  {
    TransmissionGoesOnAt(states, events, i, j, k);
    SafeStep(capacity, states, events, uarts, i, j, k);
  }

  lemma {:induction false} ShortPacketIsWhole(
      capacity: nat, states: seq<Driver>, events: seq<Event>, uarts: seq<Uart>, i: nat, j: nat)
    requires SendsOverUart(capacity, states, events, uarts, i, j) && j < |events| && events[j] == TxDoneInterrupt
    requires uarts[i].queue == 0 && !HasDiscoveryReply(states[i])
    requires SendSize(HeaderToSend(states[i].data), events[i].size) <= capacity
    ensures states[j].head == states[j].size
  {
    EmptyQueueIsSafe(capacity, states, events, uarts, i, j);
    forall k | i < k < j
      ensures StaysSafeAt(capacity, states, uarts, k)
    {
      ShortPacketsNeverRunDry(capacity, states, events, uarts, i, j, k);
    }
    SafeThroughout(capacity, states, uarts, i, j);
    SafeEnd(capacity, states, events, uarts, i, j);
  }

  /**
   After a flag that is still latched at the call, because slots were left in the UART when the last
   transmission ended, the next packet is sent whole if and only if it has no more slots than the UART
   has room for.
   */
  lemma {:induction false} LatchedFlagCutsShort(
      capacity: nat, states: seq<Driver>, events: seq<Event>, uarts: seq<Uart>, i: nat, j: nat)
    requires SendsOverUart(capacity, states, events, uarts, i, j) && j < |events| && events[j] == TxDoneInterrupt
    requires uarts[i] == Uart(0, true) && !HasDiscoveryReply(states[i])
    requires capacity > EMPTY_THRESHOLD && IsPrompt(states, events, uarts)
    ensures Valid(states[i])
    ensures var n := SendSize(HeaderToSend(states[i].data), events[i].size);
            states[j + 1].wire == states[i].wire + Signal(states[i], n) <==> n <= capacity
  {
    EndOfTransmission(states, events, i, j);
    if SendSize(HeaderToSend(states[i].data), events[i].size) > capacity {
      LatchedIsLost(capacity, states, events, uarts, i, j);
      LostUpTo(capacity, states, events, uarts, i, j, i + 1);
    } else {
      ShortPacketIsWhole(capacity, states, events, uarts, i, j);
    }
  }

  // ---------- any flag and any queue ----------

  /** Slots are put in while the flag is latched, and not all that are left. */
  predicate CutsShort(s: Driver, e: Event, t: Driver, u: Uart) {
    PutsSlots(s, e) && u.done && t.head < t.size
  }

  predicate CutsShortAt(states: seq<Driver>, events: seq<Event>, uarts: seq<Uart>, k: nat)
    requires k < |events| && |states| == |events| + 1 && |uarts| == |states|
  {
    CutsShort(states[k], events[k], states[k + 1], uarts[k])
  }

  /** If the flag is latched once slots are put in, all are in, or the queue is still empty. */
  predicate IsClear(t: Driver, u: Uart) {
    u.done && t.txDoneEnabled ==> t.head == t.size || u.queue == 0
  }

  lemma {:induction false} StepStaysClear(capacity: nat, s: Driver, t: Driver, e: Event, u: Uart, v: Uart)
    requires Valid(s) && GoesOn(s, t) && Enabled(t, e) && e != TxDoneInterrupt
    requires IsUartStep(capacity, t, e, u, v) && IsClear(t, u) && !CutsShort(t, e, Apply(t, e).state, u)
    requires e.TaskWrites? ==> ReadHeader(s.data).Some?
    ensures IsClear(Apply(t, e).state, v)
  {
  }

  lemma {:induction false} ClearEndIsWhole(capacity: nat, s: Driver, t: Driver, u: Uart, v: Uart)
    requires Valid(s) && GoesOn(s, t) && Enabled(t, TxDoneInterrupt) && IsUartStep(capacity, t, TxDoneInterrupt, u, v)
    requires IsClear(t, u)
    ensures t.head == t.size
  {
  }

  lemma {:induction false} ClearStart(capacity: nat, s: Driver, e: Event, u: Uart, v: Uart)
    requires Valid(s) && Consistent(s) && e.TaskSends? && Enabled(s, e) && IsUartStep(capacity, s, e, u, v)
    requires !CutsShort(s, e, Apply(s, e).state, u)
    ensures IsClear(Apply(s, e).state, v)
  {
    SendLatchesNothing(capacity, s, e, u, v);
  }

  predicate StaysClearAt(states: seq<Driver>, uarts: seq<Uart>, m: nat)
    requires m + 1 < |states| && |uarts| == |states|
  {
    IsClear(states[m], uarts[m]) ==> IsClear(states[m + 1], uarts[m + 1])
  }

  lemma {:induction false} ClearStep(
      capacity: nat, states: seq<Driver>, events: seq<Event>, uarts: seq<Uart>, i: nat, j: nat, m: nat)
    requires SendsOverUart(capacity, states, events, uarts, i, j) && i < m < j && !CutsShortAt(states, events, uarts, m)
    ensures StaysClearAt(states, uarts, m)
  {
    TransmissionIsMidway(capacity, states, events, uarts, i, j, m);
    if IsClear(states[m], uarts[m]) {
      StepStaysClear(capacity, states[i], states[m], events[m], uarts[m], uarts[m + 1]);
    }
  }

  lemma {:induction false} ClearThroughout(states: seq<Driver>, uarts: seq<Uart>, i: nat, m: nat)
    requires i < m < |states| && |uarts| == |states| && IsClear(states[i + 1], uarts[i + 1])
    requires forall k :: i < k < m ==> StaysClearAt(states, uarts, k)
    ensures IsClear(states[m], uarts[m])
    decreases m
  {
    if m > i + 1 {
      ClearThroughout(states, uarts, i, m - 1);
      assert StaysClearAt(states, uarts, m - 1);
    }
  }

  lemma {:induction false} StaysClear(
      capacity: nat, states: seq<Driver>, events: seq<Event>, uarts: seq<Uart>, i: nat, j: nat)
    requires SendsOverUart(capacity, states, events, uarts, i, j) && j < |events| && events[j] == TxDoneInterrupt
    requires forall k :: i <= k < j ==> !CutsShortAt(states, events, uarts, k)
    ensures states[j].head == states[j].size
  {
    assert IsStep(states, events, i) && IsUartStepAt(capacity, states, events, uarts, i);
    assert !CutsShortAt(states, events, uarts, i);
    ClearStart(capacity, states[i], events[i], uarts[i], uarts[i + 1]);
    forall k | i < k < j
      ensures StaysClearAt(states, uarts, k)
    {
      assert !CutsShortAt(states, events, uarts, k);
      ClearStep(capacity, states, events, uarts, i, j, k);
    }
    ClearThroughout(states, uarts, i, j);
    TransmissionGoesOnAt(states, events, i, j, j);
    assert IsUartStepAt(capacity, states, events, uarts, j) && IsStep(states, events, j);
    ClearEndIsWhole(capacity, states[i], states[j], uarts[j], uarts[j + 1]);
  }

  /** Then the queue is full, and the end of the transmission is served next. */
  lemma {:induction false} CutFillsQueue(capacity: nat, s: Driver, e: Event, u: Uart, v: Uart)
    requires Valid(s) && Consistent(s) && Enabled(s, e) && IsUartStep(capacity, s, e, u, v) &&
             capacity > EMPTY_THRESHOLD
    requires CutsShort(s, e, Apply(s, e).state, u)
    ensures var t := Apply(s, e).state;
            v.done && !WantsData(t, v) && (e.TxDataInterrupt? || t.txDoneEnabled)
  {
  }

  lemma {:induction false} CutEndsNext(
      capacity: nat, states: seq<Driver>, events: seq<Event>, uarts: seq<Uart>, i: nat, j: nat, k: nat)
    requires SendsOverUart(capacity, states, events, uarts, i, j) && j < |events| && IsPrompt(states, events, uarts)
    requires i <= k < j && CutsShortAt(states, events, uarts, k) && capacity > EMPTY_THRESHOLD
    ensures k + 1 == j && states[j].head < states[j].size
  {
    assert IsStep(states, events, k) && IsUartStepAt(capacity, states, events, uarts, k);
    assert ServesEndAt(states, events, uarts, k);
    CutFillsQueue(capacity, states[k], events[k], uarts[k], uarts[k + 1]);
    TransmissionGoesOnAt(states, events, i, j, k + 1);
  }

  /**
   Whatever is in the UART at the call, and whether its flag is latched or not: the whole packet is sent if
   and only if slots are put in while the flag is latched only when they are all that is left.
   */
  lemma {:induction false} WholeUnlessCutShort(
      capacity: nat, states: seq<Driver>, events: seq<Event>, uarts: seq<Uart>, i: nat, j: nat)
    requires SendsOverUart(capacity, states, events, uarts, i, j) && j < |events| && events[j] == TxDoneInterrupt
    requires capacity > EMPTY_THRESHOLD && IsPrompt(states, events, uarts)
    ensures Valid(states[i])
    ensures states[j + 1].wire ==
            states[i].wire + Signal(states[i], SendSize(HeaderToSend(states[i].data), events[i].size))
            <==> forall k :: i <= k < j ==> !CutsShortAt(states, events, uarts, k)
  {
    EndOfTransmission(states, events, i, j);
    if forall k :: i <= k < j ==> !CutsShortAt(states, events, uarts, k) {
      StaysClear(capacity, states, events, uarts, i, j);
    } else {
      var k :| i <= k < j && CutsShortAt(states, events, uarts, k);
      CutEndsNext(capacity, states, events, uarts, i, j, k);
    }
  }

  /**
   Whether a transmission is cut short is decided by how late the interrupts for more slots are served:
   the whole packet is sent if and only if the UART never runs dry with more slots left than it has room
   for. The flag must not be latched at the call.
   */
  lemma {:induction false} WholeUnlessDry(
      capacity: nat, states: seq<Driver>, events: seq<Event>, uarts: seq<Uart>, i: nat, j: nat)
    requires SendsOverUart(capacity, states, events, uarts, i, j) && j < |events| && events[j] == TxDoneInterrupt
    requires !uarts[i].done && capacity > EMPTY_THRESHOLD && IsPrompt(states, events, uarts)
    ensures Valid(states[i])
    ensures states[j + 1].wire ==
            states[i].wire + Signal(states[i], SendSize(HeaderToSend(states[i].data), events[i].size)) <==>
            forall k :: i < k < j ==> !RunsDryAt(capacity, states, events, uarts, k)
  {
    EndOfTransmission(states, events, i, j);
    if forall k :: i < k < j ==> !RunsDryAt(capacity, states, events, uarts, k) {
      StaysSafe(capacity, states, events, uarts, i, j);
      SafeEnd(capacity, states, events, uarts, i, j);
    } else {
      var k :| i < k < j && RunsDryAt(capacity, states, events, uarts, k);
      StaysLost(capacity, states, events, uarts, i, j, k);
    }
  }

  // ---------- a transmission that is cut short ----------

  /** The events of a transmission in which the interrupt for more slots is served too late. */
  function LateEvents(capacity: nat): seq<Event> {
    [TaskSends(0, 0), TimerAlarm(0), TimerAlarm(capacity), UartShifts(capacity), TxDataInterrupt(capacity),
        TxDoneInterrupt]
  }

  function LateUarts(capacity: nat): seq<Uart> {
    var none, full := Uart(0, false), Uart(capacity, false);
    [none, none, none, full, Uart(0, true), Uart(capacity, true), full]
  }

  function LateStates(s: Driver, capacity: nat): seq<Driver>
    requires Valid(s) && HeaderToSend(s.data) == None && 2 * capacity < BUFFER_SIZE
  {
    var a := Send(s, 0, 0);
    var b := Alarm(a, 0);
    var c := Alarm(b, capacity);
    assert c.head == capacity && c.size == BUFFER_SIZE;
    var d := TxData(c, capacity);
    [s, a, b, c, c, d, TxDone(d)]
  }

  lemma {:induction false} LateStart(s: Driver, capacity: nat)
    requires Valid(s) && Consistent(s) && s.status != Sending && HeaderToSend(s.data) == None &&
             2 * capacity < BUFFER_SIZE
    ensures var x := LateStates(s, capacity);
            && Consistent(x[1]) && Consistent(x[2]) && Consistent(x[3])
            && x[1].timerRunning && x[1].progress == InBreak && x[1].status == Sending
            && x[2].timerRunning && x[2].progress == InMab && x[2].status == Sending && x[2].size == BUFFER_SIZE
            && x[3].status == Sending && x[3].head == capacity && x[3].size == BUFFER_SIZE
            && x[3].txDataEnabled && x[3].txDoneEnabled && x[3].wire == s.wire + Signal(s, capacity)
  {
    var x := LateStates(s, capacity);
    assert x[3].wire == s.wire + [BreakBegins] + [BreakEnds] + Slots(s.data[..capacity]);
    assert s.wire + [BreakBegins] + [BreakEnds] + Slots(s.data[..capacity]) == s.wire + Signal(s, capacity);
  }

  lemma {:induction false} LateEnd(s: Driver, capacity: nat)
    requires Valid(s) && Consistent(s) && s.status != Sending && HeaderToSend(s.data) == None && 0 < capacity &&
             2 * capacity < BUFFER_SIZE
    ensures var x := LateStates(s, capacity);
            && Consistent(x[5]) && Consistent(x[6])
            && x[5].txDoneEnabled && x[5].head == 2 * capacity && x[5].size == BUFFER_SIZE
            && x[6].status == Idle && x[6].wire == s.wire + Signal(s, 2 * capacity)
  {
    LateStart(s, capacity);
    SignalGrows(s, s.wire, capacity, 2 * capacity);
  }

  /**
   A transmission can be cut short: from an installed driver, whose packet has 513 slots, when the UART
   runs dry before the interrupt for more slots is served, only twice the UART's room is sent.
   */
  lemma {:induction false} TransmissionCanEndEarly(capacity: nat)
    requires EMPTY_THRESHOLD < capacity && 2 * capacity < BUFFER_SIZE
    ensures Valid(Installed()) && HeaderToSend(Installed().data) == None
    ensures var states, events, uarts := LateStates(Installed(), capacity), LateEvents(capacity), LateUarts(capacity);
            && IsUartRun(capacity, states, events, uarts) && IsPrompt(states, events, uarts)
            && states[6].status == Idle && states[6].wire == Signal(Installed(), 2 * capacity)
  {
    var s := Installed();
    InstalledHasNoHeader();
    LateStart(s, capacity);
    LateEnd(s, capacity);
    LateRun(s, capacity);
    assert [] + Signal(s, 2 * capacity) == Signal(s, 2 * capacity);
  }

  lemma {:induction false} LateRun(s: Driver, capacity: nat)
    requires Valid(s) && Consistent(s) && s.status != Sending && HeaderToSend(s.data) == None
    requires EMPTY_THRESHOLD < capacity && 2 * capacity < BUFFER_SIZE
    ensures var states, events, uarts := LateStates(s, capacity), LateEvents(capacity), LateUarts(capacity);
            IsUartRun(capacity, states, events, uarts) && IsPrompt(states, events, uarts)
  {
    var states, events, uarts := LateStates(s, capacity), LateEvents(capacity), LateUarts(capacity);
    LateStart(s, capacity);
    LateEnd(s, capacity);
    forall k | 0 <= k < |events|
      ensures IsStep(states, events, k) && IsUartStepAt(capacity, states, events, uarts, k)
    {
    }
  }
}
