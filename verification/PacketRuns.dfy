/**
 Receiving packets while tasks ask for them, wait for them and take them, in any order: when the end of a
 packet is declared, what a break does to the size expected, and what it leaves in the UART.
 */
module PacketRuns {
  import opened Bytes
  import opened Uids
  import Formats
  import opened Packets
  import opened Drivers
  import opened Runs
  import opened ReceiveRuns

  // ---------- one packet ----------

  /** The bytes that arrive from `i` up to `k`. */
  function Arrived(events: seq<Event>, i: nat, k: nat): seq<Byte>
    requires i <= k <= |events|
    decreases k
  {
    if i == k then [] else Arrived(events, i, k - 1) + if events[k - 1].Arrives? then events[k - 1].bytes else []
  }

  /** What has come of the packet that begins at `i`: what the UART held then, and what arrived since. */
  function Come(states: seq<Driver>, events: seq<Event>, i: nat, k: nat): seq<Byte>
    requires i <= k <= |events| && |states| == |events| + 1
  {
    states[i].rxFifo + Arrived(events, i, k)
  }

  /**
   What can happen while a packet is received: bytes arrive, interrupts that are no break see an error or
   none, and tasks ask for packets of any size, wait for them, or take them.
   */
  predicate IsReceiving(e: Event) {
    match e
    case Arrives(_) => true
    case ReceiveInterrupt(isBreak, _) => !isBreak
    case UartShifts(_) => true
    case TimerAlarm(_) => true
    case TaskAsks(_) => true
    case TaskWaits => true
    case TaskTakes => true
    case _ => false
  }

  /** Does a task take a packet, or ask for one of another size that is no more than what was counted? */
  predicate GivesUp(s: Driver, e: Event) {
    e.TaskTakes? || (e.TaskAsks? && e.size != s.size && e.size <= s.head)
  }

  /** Does an interrupt see an error, or find all of the packet there, when `n` bytes have come? */
  predicate Completes(s: Driver, e: Event, n: nat, x: Extent) {
    e.ReceiveInterrupt? && (e.err != NoError || x.Need(s.size) <= Counted(s.head, n))
  }

  /** Is the packet that begins at `i` given up before `k`? */
  predicate IsGivenUp(states: seq<Driver>, events: seq<Event>, i: nat, k: nat)
    requires i <= k <= |events| && |states| == |events| + 1
    decreases k
  {
    i < k && (GivesUp(states[k - 1], events[k - 1]) || IsGivenUp(states, events, i, k - 1))
  }

  predicate IsEnd(states: seq<Driver>, events: seq<Event>, i: nat, k: nat, x: Extent)
    requires i <= k < |events| && |states| == |events| + 1
  {
    Completes(states[k], events[k], |Come(states, events, i, k)|, x)
  }

  /** Does one before `k`? */
  predicate IsEnded(states: seq<Driver>, events: seq<Event>, i: nat, k: nat, x: Extent)
    requires i <= k <= |events| && |states| == |events| + 1
    decreases k
  {
    i < k && (IsEnd(states, events, i, k - 1, x) || IsEnded(states, events, i, k - 1, x))
  }

  /** Is there an interrupt at all? */
  predicate IsInterrupted(events: seq<Event>, i: nat, k: nat)
    requires i <= k <= |events|
    decreases k
  {
    i < k && (events[k - 1].ReceiveInterrupt? || IsInterrupted(events, i, k - 1))
  }

  /** A port that waits for a packet. */
  predicate IsListening(s: Driver) {
    AwaitsPacket(s) && s.reading && s.status != Sending
  }

  /** The state when the bytes `r` have come of a packet, whether it is over, and whether an interrupt came. */
  predicate IsWithin(t: Driver, r: seq<Byte>, over: bool, started: bool) {
    && Valid(t) && Consistent(t) && t.reading && t.status != Sending && Stored(t, r)
    && (over <==> !IsLive(t.progress))
    && (!over ==> (t.progress == InData <==> started))
  }

  /** Does an interrupt without an error find something, or is something expected? */
  predicate IsJudged(s: Driver, e: Event, r: seq<Byte>) {
    e.ReceiveInterrupt? && e.err == NoError ==> r != [] || s.size >= 1
  }

  /**
   An interrupt that finds nothing sees no packet, whatever is left in the buffer, if and only if at least
   one slot is expected.
   */
  lemma {:induction false} NothingIsNoPacket(size: nat)
    ensures size >= 1 <==> forall data: seq<Byte> :: |data| == BUFFER_SIZE ==> !Classify(data, 0, size).IsComplete()
  {
    if size == 0 {
      var data := Image([]);
      assert Classify(data, 0, size).IsComplete();
    }
  }

  lemma {:induction false} NeedIsPositive(p: seq<Byte>, size: int)
    ensures ExtentOf(p).Need(size) > 0
  {
  }

  lemma {:induction false} VerdictOnNothing(t: Driver)
    requires Valid(t) && Stored(t, []) && t.size >= 1
    ensures t.head == 0 && !Classify(Fill(t).data, Fill(t).head, t.size).IsComplete()
  {
    FillKeepsStored(t, []);
    NothingIsNoPacket(t.size);
  }

  lemma {:induction false} VerdictOnCome(t: Driver, r: seq<Byte>, p: seq<Byte>)
    requires Valid(t) && Stored(t, r) && r <= p && (r != [] || t.size >= 1)
    ensures var v := Fill(t);
            Classify(v.data, v.head, v.size).IsComplete() <==> ExtentOf(p).Need(t.size) <= Counted(t.head, |r|)
  {
    if r == [] {
      VerdictOnNothing(t);
      NeedIsPositive(p, t.size);
    } else {
      VerdictOnFill(t, r, p);
    }
  }

  lemma {:induction false} InterruptIsJudged(t: Driver, r: seq<Byte>, p: seq<Byte>)
    requires Valid(t) && Stored(t, r) && r <= p && (r != [] || t.size >= 1) && IsLive(t.progress)
    ensures var o := Receive(t, false, NoError);
            if ExtentOf(p).Need(t.size) <= Counted(t.head, |r|)
            then o.notice == Some(NoError) && o.state.progress == Complete
            else o.notice == None && o.state.progress == InData
  {
    VerdictOnCome(t, r, p);
    NoticeFollowsVerdict(Fill(t));
  }

  lemma {:induction false} InterruptKeepsStored(t: Driver, r: seq<Byte>, err: Error)
    requires Valid(t) && Stored(t, r)
    ensures Stored(Receive(t, false, err).state, r)
  {
    FillKeepsStored(t, r);
    assert SameBuffer(Fill(t), Receive(t, false, err).state);
  }

  lemma {:induction false} ErrorEndsPacket(t: Driver, err: Error)
    requires Valid(t) && IsLive(t.progress) && err != NoError
    ensures var o := Receive(t, false, err);
            o.notice == Some(err) && o.state.progress == Complete
  {
  }

  /** What an event of a packet is followed by, and the notice it gives. */
  predicate GoesOn(t: Driver, e: Event, o: Outcome, r: seq<Byte>, x: Extent, over: bool, started: bool) {
    && IsWithin(o.state, r + (if e.Arrives? then e.bytes else []), over || GivesUp(t, e) || Completes(t, e, |r|, x),
                started || e.ReceiveInterrupt?)
    && o.notice == if !over && Completes(t, e, |r|, x) then Some(e.err) else None
  }

  lemma {:induction false} InterruptWithin(
      t: Driver, err: Error, r: seq<Byte>, p: seq<Byte>, over: bool, started: bool)
    requires IsWithin(t, r, over, started) && r <= p && IsJudged(t, ReceiveInterrupt(false, err), r)
    ensures var e := ReceiveInterrupt(false, err);
            GoesOn(t, e, Apply(t, e), r, ExtentOf(p), over, started)
  {
    var e := ReceiveInterrupt(false, err);
    StepKeepsConsistent(t, e);
    InterruptKeepsStored(t, r, err);
    assert r + [] == r;
    if !over && err == NoError {
      InterruptIsJudged(t, r, p);
    } else if !over {
      ErrorEndsPacket(t, err);
    }
  }

  lemma {:induction false} AskWithin(t: Driver, size: nat, r: seq<Byte>, x: Extent, over: bool, started: bool)
    requires IsWithin(t, r, over, started)
    ensures var e := TaskAsks(size);
            GoesOn(t, e, Apply(t, e), r, x, over, started)
  {
    StepKeepsConsistent(t, TaskAsks(size));
    assert r + [] == r;
  }

  lemma {:induction false} CallWithin(t: Driver, e: Event, r: seq<Byte>, x: Extent, over: bool, started: bool)
    requires IsWithin(t, r, over, started) && Enabled(t, e)
    requires e.UartShifts? || e.TimerAlarm? || e.TaskWaits? || e.TaskTakes?
    ensures GoesOn(t, e, Apply(t, e), r, x, over, started)
  {
    StepKeepsConsistent(t, e);
    assert r + [] == r;
  }

  lemma {:induction false} ArrivalWithin(
      t: Driver, bytes: seq<Byte>, r: seq<Byte>, x: Extent, over: bool, started: bool)
    requires IsWithin(t, r, over, started)
    ensures var e := Arrives(bytes);
            GoesOn(t, e, Apply(t, e), r, x, over, started)
  {
    ArrivalKeepsStored(t, r, bytes);
    StepKeepsConsistent(t, Arrives(bytes));
  }

  lemma {:induction false} StepWithin(t: Driver, e: Event, r: seq<Byte>, p: seq<Byte>, over: bool, started: bool)
    requires IsWithin(t, r, over, started) && r <= p && IsJudged(t, e, r)
    requires Enabled(t, e) && IsReceiving(e)
    ensures GoesOn(t, e, Apply(t, e), r, ExtentOf(p), over, started)
  {
    match e
    case ReceiveInterrupt(_, err) => InterruptWithin(t, err, r, p, over, started);
    case Arrives(bytes) => ArrivalWithin(t, bytes, r, ExtentOf(p), over, started);
    case TaskAsks(size) => AskWithin(t, size, r, ExtentOf(p), over, started);
    case _ => CallWithin(t, e, r, ExtentOf(p), over, started);
  }

  // ---------- over a run ----------

  /** From `i` up to `j`, the start of `p` comes, while tasks do nothing but ask for packets, wait for and take them. */
  ghost predicate Comes(states: seq<Driver>, events: seq<Event>, i: nat, j: nat, p: seq<Byte>) {
    && IsRun(states, events) && i <= j <= |events| && Come(states, events, i, j) <= p
    && forall k :: i <= k < j ==> IsReceiving(events[k]) && IsJudged(states[k], events[k], Come(states, events, i, k))
  }

  /** So it does, at a port that waits for a packet. */
  ghost predicate Receives(states: seq<Driver>, events: seq<Event>, i: nat, j: nat, p: seq<Byte>) {
    Comes(states, events, i, j, p) && IsListening(states[i])
  }

  predicate IsOver(states: seq<Driver>, events: seq<Event>, i: nat, k: nat, x: Extent)
    requires i <= k <= |events| && |states| == |events| + 1
  {
    IsGivenUp(states, events, i, k) || IsEnded(states, events, i, k, x)
  }

  predicate IsStarted(states: seq<Driver>, events: seq<Event>, i: nat, k: nat)
    requires i <= k <= |events| && |states| == |events| + 1
  {
    states[i].progress == InData || IsInterrupted(events, i, k)
  }

  predicate IsWithinAt(states: seq<Driver>, events: seq<Event>, i: nat, k: nat, x: Extent)
    requires i <= k <= |events| && |states| == |events| + 1
  {
    IsWithin(states[k], Come(states, events, i, k), IsOver(states, events, i, k, x), IsStarted(states, events, i, k))
  }

  /** What is declared at `k`. */
  predicate DeclaresAt(states: seq<Driver>, events: seq<Event>, i: nat, k: nat, x: Extent)
    requires i <= k < |events| && |states| == |events| + 1 && IsStep(states, events, k)
  {
    Apply(states[k], events[k]).notice ==
    if IsEnd(states, events, i, k, x) && !IsOver(states, events, i, k, x) then Some(events[k].err) else None
  }

  predicate GoesOnAt(states: seq<Driver>, events: seq<Event>, i: nat, k: nat, x: Extent)
    requires i <= k < |events| && |states| == |events| + 1
  {
    IsWithinAt(states, events, i, k, x) ==> IsWithinAt(states, events, i, k + 1, x)
  }

  lemma {:induction false} ComeGrows(states: seq<Driver>, events: seq<Event>, i: nat, k: nat, j: nat)
    requires i <= k <= j <= |events| && |states| == |events| + 1
    ensures Come(states, events, i, k) <= Come(states, events, i, j)
    decreases j
  {
    if k < j {
      ComeGrows(states, events, i, k, j - 1);
    }
  }

  lemma {:induction false} ComeNext(states: seq<Driver>, events: seq<Event>, i: nat, k: nat)
    requires i <= k < |events| && |states| == |events| + 1
    ensures Come(states, events, i, k + 1) ==
            Come(states, events, i, k) + if events[k].Arrives? then events[k].bytes else []
  {
  }

  lemma {:induction false} StepAt(states: seq<Driver>, events: seq<Event>, i: nat, j: nat, p: seq<Byte>, k: nat)
    requires Receives(states, events, i, j, p) && i <= k < j
    ensures IsStep(states, events, k) && GoesOnAt(states, events, i, k, ExtentOf(p))
    ensures IsWithinAt(states, events, i, k, ExtentOf(p)) ==> DeclaresAt(states, events, i, k, ExtentOf(p))
  {
    assert IsStep(states, events, k);
    ComeGrows(states, events, i, k, j);
    ComeNext(states, events, i, k);
    if IsWithinAt(states, events, i, k, ExtentOf(p)) {
      StepWithin(states[k], events[k], Come(states, events, i, k), p, IsOver(states, events, i, k, ExtentOf(p)),
                 IsStarted(states, events, i, k));
    }
  }

  lemma {:induction false} WithinThroughout(states: seq<Driver>, events: seq<Event>, i: nat, k: nat, x: Extent)
    requires i <= k <= |events| && |states| == |events| + 1 && IsWithinAt(states, events, i, i, x)
    requires forall l :: i <= l < k ==> GoesOnAt(states, events, i, l, x)
    ensures IsWithinAt(states, events, i, k, x)
    decreases k
  {
    if i < k {
      WithinThroughout(states, events, i, k - 1, x);
      assert GoesOnAt(states, events, i, k - 1, x);
    }
  }

  lemma {:induction false} ListeningIsWithin(s: Driver)
    requires IsListening(s) && Consistent(s)
    ensures IsWithin(s, s.rxFifo + [], false, s.progress == InData)
  {
  }

  lemma {:induction false} StateWithin(states: seq<Driver>, events: seq<Event>, i: nat, j: nat, p: seq<Byte>, k: nat)
    requires Receives(states, events, i, j, p) && i <= k <= j
    ensures IsWithinAt(states, events, i, k, ExtentOf(p))
  {
    EveryRunIsConsistent(states, events, i);
    ListeningIsWithin(states[i]);
    assert IsWithinAt(states, events, i, i, ExtentOf(p));
    forall l | i <= l < k
      ensures GoesOnAt(states, events, i, l, ExtentOf(p))
    {
      StepAt(states, events, i, j, p, l);
    }
    WithinThroughout(states, events, i, k, ExtentOf(p));
  }

  lemma {:induction false} DeclaredAt(
      states: seq<Driver>, events: seq<Event>, i: nat, j: nat, p: seq<Byte>, k: nat)
    requires Receives(states, events, i, j, p) && i <= k < j
    ensures IsStep(states, events, k) && DeclaresAt(states, events, i, k, ExtentOf(p))
  {
    StateWithin(states, events, i, j, p, k);
    StepAt(states, events, i, j, p, k);
  }

  lemma {:induction false} CallsWithin(t: Driver, r: seq<Byte>, over: bool, started: bool)
    requires IsWithin(t, r, over, started)
    ensures Enabled(t, TaskTakes) && forall m: nat :: Enabled(t, TaskAsks(m))
  {
  }

  lemma {:induction false} CallsArePossible(
      states: seq<Driver>, events: seq<Event>, i: nat, j: nat, p: seq<Byte>, k: nat)
    requires Receives(states, events, i, j, p) && i <= k < j
    ensures Enabled(states[k], TaskTakes) && forall m: nat :: Enabled(states[k], TaskAsks(m))
  {
    var x := ExtentOf(p);
    StateWithin(states, events, i, j, p, k);
    CallsWithin(states[k], Come(states, events, i, k), IsOver(states, events, i, k, x),
        IsStarted(states, events, i, k));
  }

  /**
   Whatever bytes come, however they are split over interrupts, and whatever packets tasks ask for, wait
   for and take in between, the end of the packet is declared at the first interrupt that sees an error,
   which it reports, or by which the packet has come in full, if and only if no task took a packet since it
   began, or asked for another size that had come by then; and at no other event. Both are possible at any
   time. How much is a full packet follows from its own bytes and the size in force at the interrupt.
   */
  lemma {:induction false} PacketIsDeclaredExactly(
      states: seq<Driver>, events: seq<Event>, i: nat, j: nat, p: seq<Byte>, k: nat)
    requires Receives(states, events, i, j, p) && i <= k < j
    ensures IsStep(states, events, k)
    ensures Enabled(states[k], TaskTakes) && forall m: nat :: Enabled(states[k], TaskAsks(m))
    ensures var x := ExtentOf(p);
            Apply(states[k], events[k]).notice ==
            if IsEnd(states, events, i, k, x) && !IsEnded(states, events, i, k, x) &&
               !IsGivenUp(states, events, i, k) then Some(events[k].err) else None
  {
    DeclaredAt(states, events, i, j, p, k);
    CallsArePossible(states, events, i, j, p, k);
  }

  // ---------- packets whose end does not depend on the size expected ----------

  /** Does the interrupt at `k` see an error, or find at least `n` bytes there? */
  predicate Finds(states: seq<Driver>, events: seq<Event>, i: nat, k: nat, n: nat)
    requires i <= k < |events| && |states| == |events| + 1
  {
    events[k].ReceiveInterrupt? && (events[k].err != NoError || |Come(states, events, i, k)| >= n)
  }

  /** Is the interrupt at `k` the first one that does? */
  predicate FindsFirst(states: seq<Driver>, events: seq<Event>, i: nat, k: nat, n: nat)
    requires i <= k < |events| && |states| == |events| + 1
  {
    Finds(states, events, i, k, n) && forall l :: i <= l < k ==> !Finds(states, events, i, l, n)
  }

  lemma {:induction false} EndedWhenFound(
      states: seq<Driver>, events: seq<Event>, i: nat, k: nat, x: Extent, n: nat)
    requires i <= k <= |events| && |states| == |events| + 1 && n <= BUFFER_SIZE
    requires forall l :: i <= l < k ==> x.Need(states[l].size) == n
    ensures IsEnded(states, events, i, k, x) <==> exists l :: i <= l < k && Finds(states, events, i, l, n)
    decreases k
  {
    if i < k {
      EndedWhenFound(states, events, i, k - 1, x, n);
      CountedReaches(states[k - 1].head, |Come(states, events, i, k - 1)|, n);
      assert IsEnd(states, events, i, k - 1, x) <==> Finds(states, events, i, k - 1, n);
    }
  }

  lemma {:induction false} DeclaredWhenFound(
      states: seq<Driver>, events: seq<Event>, i: nat, j: nat, p: seq<Byte>, k: nat, n: nat)
    requires Receives(states, events, i, j, p) && i <= k < j && n <= BUFFER_SIZE
    requires forall l :: i <= l <= k ==> ExtentOf(p).Need(states[l].size) == n
    ensures IsStep(states, events, k)
    ensures Apply(states[k], events[k]).notice ==
            if FindsFirst(states, events, i, k, n) && !IsGivenUp(states, events, i, k)
            then Some(events[k].err) else None
  {
    PacketIsDeclaredExactly(states, events, i, j, p, k);
    EndedWhenFound(states, events, i, k, ExtentOf(p), n);
    CountedReaches(states[k].head, |Come(states, events, i, k)|, n);
  }

  /**
   A standard RDM packet is declared at the interrupt that delivers the last byte of its checksum, or at an
   error before, if and only if no task took a packet since it began, or asked for another size that had
   come by then.
   */
  lemma {:induction false} StandardPacketIsDeclaredExactly(
      states: seq<Driver>, events: seq<Event>, i: nat, j: nat, p: seq<Byte>, more: seq<Byte>, k: nat)
    requires Receives(states, events, i, j, p + more) && i <= k < j && IsStandardPacket(p)
    ensures IsStep(states, events, k)
    ensures Apply(states[k], events[k]).notice ==
            if FindsFirst(states, events, i, k, |p|) && !IsGivenUp(states, events, i, k)
            then Some(events[k].err) else None
  {
    StandardPacketIsFramed(p, more);
    DeclaredWhenFound(states, events, i, j, p + more, k, |p|);
  }

  /** So is a discovery reply, however much of its preamble is left. */
  lemma {:induction false} DiscoveryReplyIsDeclaredExactly(
      states: seq<Driver>, events: seq<Event>, i: nat, j: nat, u: Uid, preamble: nat, more: seq<Byte>, k: nat)
    requires preamble <= PREAMBLE_MAX && Receives(states, events, i, j, DiscoveryReply(u, preamble) + more) &&
             i <= k < j
    ensures IsStep(states, events, k)
    ensures Apply(states[k], events[k]).notice ==
            if FindsFirst(states, events, i, k, preamble + 17) && !IsGivenUp(states, events, i, k)
            then Some(events[k].err) else None
  {
    DiscoveryReplyIsFramed(u, preamble, more);
    DeclaredWhenFound(states, events, i, j, DiscoveryReply(u, preamble) + more, k, preamble + 17);
  }

  lemma {:induction false} GivenUpStays(states: seq<Driver>, events: seq<Event>, i: nat, l: nat, k: nat)
    requires i <= l < k <= |events| && |states| == |events| + 1 && GivesUp(states[l], events[l])
    ensures IsGivenUp(states, events, i, k)
    decreases k
  {
    if l < k - 1 {
      GivenUpStays(states, events, i, l, k - 1);
    }
  }

  /**
   A packet that is under way when a task takes one, be it the one before, or asks for another size that
   has come, is never declared.
   */
  lemma {:induction false} TakingLosesPacket(
      states: seq<Driver>, events: seq<Event>, i: nat, j: nat, p: seq<Byte>, l: nat, k: nat)
    requires Receives(states, events, i, j, p) && i <= l < k < j && GivesUp(states[l], events[l])
    ensures IsStep(states, events, k) && Apply(states[k], events[k]).notice == None
  {
    GivenUpStays(states, events, i, l, k);
    PacketIsDeclaredExactly(states, events, i, j, p, k);
  }

  // ---------- the break after a packet ----------

  /** Is the packet cut short by the break at `j`, as far as the port knows? */
  predicate IsCutShort(states: seq<Driver>, events: seq<Event>, i: nat, j: nat, x: Extent)
    requires i <= j <= |events| && |states| == |events| + 1
  {
    !IsOver(states, events, i, j, x) && IsStarted(states, events, i, j) && Come(states, events, i, j) != []
  }

  predicate IsBreakEvent(events: seq<Event>, k: nat) {
    k < |events| && events[k].ReceiveInterrupt? && events[k].isBreak
  }

  /** What a break leaves in the UART, which held what is not yet counted of `r`. */
  function LeftByBreak(head: int, r: seq<Byte>): seq<Byte> {
    if head < BUFFER_SIZE && |r| > BUFFER_SIZE then r[BUFFER_SIZE..] else []
  }

  lemma {:induction false} BreakWithin(t: Driver, r: seq<Byte>, over: bool, started: bool, err: Error)
    requires IsWithin(t, r, over, started)
    ensures var o, short := Receive(t, true, err), !over && started && r != [];
            && IsListening(o.state) && o.state.rxFifo == LeftByBreak(t.head, r)
            && o.state.size == (if short then Counted(t.head, |r|) - 1 else t.size)
            && o.notice == if short then Some(NotEnoughSlots) else None
  {
    BreakLeaves(t, r, err);
  }

  /**
   A break awaits the next packet, whatever happened before, and leaves in the UART what the buffer had no
   room for. The number of slots expected changes if and only if the packet before it was cut short: it
   becomes the number of bytes that the buffer took or counted, without the break's own.
   */
  lemma {:induction false} BreakAdaptsExactly(
      states: seq<Driver>, events: seq<Event>, i: nat, j: nat, p: seq<Byte>)
    requires Receives(states, events, i, j, p) && IsBreakEvent(events, j)
    ensures IsStep(states, events, j)
    ensures IsListening(states[j + 1])
    ensures states[j + 1].rxFifo == LeftByBreak(states[j].head, Come(states, events, i, j))
    ensures var short := IsCutShort(states, events, i, j, ExtentOf(p));
            && states[j + 1].size ==
               (if short then Counted(states[j].head, |Come(states, events, i, j)|) - 1 else states[j].size)
            && Apply(states[j], events[j]).notice == if short then Some(NotEnoughSlots) else None
  {
    var x := ExtentOf(p);
    StateWithin(states, events, i, j, p, j);
    assert IsStep(states, events, j);
    BreakWithin(states[j], Come(states, events, i, j), IsOver(states, events, i, j, x), IsStarted(states, events, i, j),
                events[j].err);
  }

  lemma {:induction false} EndedStays(states: seq<Driver>, events: seq<Event>, i: nat, l: nat, k: nat, x: Extent)
    requires i <= l < k <= |events| && |states| == |events| + 1 && IsEnd(states, events, i, l, x)
    ensures IsEnded(states, events, i, k, x)
    decreases k
  {
    if l < k - 1 {
      EndedStays(states, events, i, l, k - 1, x);
    }
  }

  /** A packet whose end was declared is not cut short, so that the break after it keeps the size. */
  lemma {:induction false} DeclaredPacketKeepsSize(
      states: seq<Driver>, events: seq<Event>, i: nat, j: nat, p: seq<Byte>, k: nat)
    requires Receives(states, events, i, j, p) && i <= k < j && IsStep(states, events, k) && IsBreakEvent(events, j)
    requires Apply(states[k], events[k]).notice.Some?
    ensures !IsCutShort(states, events, i, j, ExtentOf(p)) && states[j + 1].size == states[j].size
  {
    PacketIsDeclaredExactly(states, events, i, j, p, k);
    EndedStays(states, events, i, k, j, ExtentOf(p));
    BreakAdaptsExactly(states, events, i, j, p);
  }

  // ---------- one packet after the other ----------

  /** From `i` up to `j`, all that happens is that a packet is received, and tasks ask for n slots only. */
  predicate AsksFor(events: seq<Event>, i: nat, j: nat, n: nat) {
    i <= j <= |events| && forall k :: i <= k < j ==>
        IsReceiving(events[k]) && (events[k].TaskAsks? ==> events[k].size == n)
  }

  /**
   A packet of any kind, from `i` up to the break at `j`: one that is not cut short, or one of n slots and
   the null byte of the break.
   */
  predicate IsPacketOf(states: seq<Driver>, events: seq<Event>, i: nat, j: nat, n: nat)
    requires i <= j <= |events| && |states| == |events| + 1
  {
    var r := Come(states, events, i, j);
    IsCutShort(states, events, i, j, ExtentOf(r)) ==> Counted(states[j].head, |r|) == n + 1
  }

  /** From a port that expects n slots on: such packets, between the breaks at these events. */
  ghost predicate IsTrain(states: seq<Driver>, events: seq<Event>, breaks: seq<nat>, n: nat) {
    && IsRun(states, events) && 1 <= n <= BUFFER_SIZE && breaks != []
    && (forall m :: 0 <= m < |breaks| ==> IsBreakEvent(events, breaks[m]))
    && (forall m, l :: 0 <= m < |breaks| && 0 <= l < |breaks| && l == m + 1 ==>
          AsksFor(events, breaks[m] + 1, breaks[l], n) && IsPacketOf(states, events, breaks[m] + 1, breaks[l], n))
    && IsListening(states[breaks[0] + 1]) && states[breaks[0] + 1].size == n
  }

  lemma {:induction false} ReceivingKeepsSize(s: Driver, e: Event, n: nat)
    requires Valid(s) && Consistent(s) && Enabled(s, e) && IsReceiving(e) && s.size == n &&
             (e.TaskAsks? ==> e.size == n)
    ensures Apply(s, e).state.size == n
  {
  }

  lemma {:induction false} SizeStays(states: seq<Driver>, events: seq<Event>, i: nat, k: nat, n: nat)
    requires IsRun(states, events) && AsksFor(events, i, k, n) && states[i].size == n
    ensures states[k].size == n
    decreases k
  {
    if i < k {
      SizeStays(states, events, i, k - 1, n);
      assert IsStep(states, events, k - 1);
      ReceivingKeepsSize(states[k - 1], events[k - 1], n);
    }
  }

  lemma {:induction false} AskedIsReceived(
      states: seq<Driver>, events: seq<Event>, i: nat, j: nat, n: nat, p: seq<Byte>)
    requires IsRun(states, events) && AsksFor(events, i, j, n) && n >= 1 && Come(states, events, i, j) <= p
    requires IsListening(states[i]) && states[i].size == n
    ensures Receives(states, events, i, j, p) && forall k :: i <= k <= j ==> states[k].size == n
  {
    forall k | i <= k <= j
      ensures states[k].size == n
    {
      SizeStays(states, events, i, k, n);
    }
  }

  lemma {:induction false} ListensAgain(states: seq<Driver>, events: seq<Event>, i: nat, j: nat, n: nat)
    requires IsRun(states, events) && n >= 1 && AsksFor(events, i, j, n) && IsPacketOf(states, events, i, j, n)
    requires IsListening(states[i]) && states[i].size == n && IsBreakEvent(events, j)
    ensures IsListening(states[j + 1]) && states[j + 1].size == n
  {
    var r := Come(states, events, i, j);
    AskedIsReceived(states, events, i, j, n, r);
    BreakAdaptsExactly(states, events, i, j, r);
  }

  lemma {:induction false} BetweenBreaks(states: seq<Driver>, events: seq<Event>, breaks: seq<nat>, n: nat, m: nat)
    requires IsTrain(states, events, breaks, n) && 0 < m < |breaks|
    ensures IsBreakEvent(events, breaks[m - 1]) && IsBreakEvent(events, breaks[m])
    ensures AsksFor(events, breaks[m - 1] + 1, breaks[m], n)
    ensures IsPacketOf(states, events, breaks[m - 1] + 1, breaks[m], n)
  {
  }

  /** After every break, whatever was taken before, the port waits for n slots. */
  lemma {:induction false} TrainListens(states: seq<Driver>, events: seq<Event>, breaks: seq<nat>, n: nat, m: nat)
    requires IsTrain(states, events, breaks, n) && m < |breaks|
    ensures IsBreakEvent(events, breaks[m])
    ensures IsListening(states[breaks[m] + 1]) && states[breaks[m] + 1].size == n
  {
    if m > 0 {
      BetweenBreaks(states, events, breaks, n, m);
      TrainListens(states, events, breaks, n, m - 1);
      ListensAgain(states, events, breaks[m - 1] + 1, breaks[m], n);
    }
  }

  /** A packet of n slots and the break's null byte does not change the size, wherever it is split and taken. */
  lemma {:induction false} FullPacketIsOfItsSize(states: seq<Driver>, events: seq<Event>, i: nat, j: nat, n: nat)
    requires i <= j <= |events| && |states| == |events| + 1 && |Come(states, events, i, j)| == n + 1
    ensures n < BUFFER_SIZE || states[j].head >= BUFFER_SIZE ==> IsPacketOf(states, events, i, j, n)
  {
  }

  /**
   Once n slots are expected, that stays so while no packet is cut short to another size and no other
   size is asked for: every later packet that is not RDM is declared at exactly the interrupt that delivers
   its n-th slot, or at an error before, if and only if no task takes a packet between its break and that
   interrupt: however many packets came before, of whatever kind, however they were split, and
   whichever of them were lost. What its break left in the UART counts as slots.
   */
  lemma {:induction false} LaterPacketsEndAtSlotN(
      states: seq<Driver>, events: seq<Event>, breaks: seq<nat>, n: nat, m: nat, j: nat, p: seq<Byte>, k: nat)
    requires IsTrain(states, events, breaks, n) && m < |breaks| && breaks[m] + 1 <= k < j
    requires AsksFor(events, breaks[m] + 1, j, n) && IsPlain(p) && Come(states, events, breaks[m] + 1, j) <= p
    ensures IsStep(states, events, k)
    ensures var i := breaks[m] + 1;
            Apply(states[k], events[k]).notice ==
            if FindsFirst(states, events, i, k, n) && !IsTaken(events, i, k) then Some(events[k].err) else None
  {
    var i := breaks[m] + 1;
    TrainListens(states, events, breaks, n, m);
    AskedIsReceived(states, events, i, j, n, p);
    PlainPacketIsFramed(p);
    DeclaredWhenFound(states, events, i, j, p, k, n);
    GivenUpIsTaken(states, events, i, k, n);
  }

  /** Does a task take a packet from `i` up to `k`? */
  predicate IsTaken(events: seq<Event>, i: nat, k: nat)
    requires i <= k <= |events|
  {
    exists l :: i <= l < k && events[l].TaskTakes?
  }

  lemma {:induction false} GivenUpIsTaken(states: seq<Driver>, events: seq<Event>, i: nat, k: nat, n: nat)
    requires AsksFor(events, i, k, n) && |states| == |events| + 1 && forall l :: i <= l < k ==> states[l].size == n
    ensures IsGivenUp(states, events, i, k) <==> IsTaken(events, i, k)
    decreases k
  {
    if i < k {
      GivenUpIsTaken(states, events, i, k - 1, n);
      assert GivesUp(states[k - 1], events[k - 1]) <==> events[k - 1].TaskTakes?;
    }
  }

  // ---------- a packet that is lost ----------

  lemma {:induction false} StaleStaysStale(s: Driver, chunks: seq<Chunk>)
    requires Valid(s) && s.progress == Stale
    ensures Feed(s, chunks).progress == Stale
  {
    if chunks != [] {
      StaleStaysStale(s, chunks[..|chunks| - 1]);
    }
  }

  /**
   The packet after the one that was too short can be lost: the task that is told of the break takes that
   packet while the next one is under way, and then no interrupt declares the next one's end.
   */
  lemma {:induction false} AdaptedPacketCanBeLost(
      s: Driver, chunks: seq<Chunk>, n: nat, nul: Byte, later: seq<Chunk>, c: Chunk)
    requires AwaitsPacket(s) && n < s.size <= BUFFER_SIZE && DeliversPlain(s, chunks, n)
    ensures var b := Break(Feed(s, chunks), nul);
            && b.notice == Some(NotEnoughSlots) && b.state.size == n && Enabled(b.state, TaskTakes)
            && Interrupt(Feed(TakePacket(b.state), later), c).notice == None
  {
    SizeAdapts(s, chunks, n, nul);
    StaleStaysStale(TakePacket(Break(Feed(s, chunks), nul).state), later);
  }

  lemma {:induction false} NoEndBeforeTheSize(s: Driver, chunks: seq<Chunk>, c: Chunk, p: seq<Byte>)
    requires AwaitsPacket(s) && IsPlain(p) && |p| < s.size <= BUFFER_SIZE && Splits(s, chunks + [c], p)
    ensures Interrupt(Feed(s, chunks), c).notice == None
  {
    PlainPacketIsFramed(p);
    PacketEndsAtItsLastByte(s, p, chunks, c);
  }

  lemma {:induction false} AskRestoresSize(b: Driver, size: nat)
    requires AwaitsPacket(b) && b.reading && b.status == Receiving && size >= 1
    ensures var u := StartReceive(b, size);
            AwaitsPacket(u) && u.size == size && u.rxFifo == b.rxFifo && u.reading && u.status == Receiving
  {
  }

  lemma {:induction false} BreakIsRead(s: Driver, chunks: seq<Chunk>, nul: Byte)
    requires Valid(s) && s.reading
    ensures var b := Break(Feed(s, chunks), nul).state;
            b.reading && b.status == Receiving && Enabled(b, TaskTakes) && forall m: nat :: Enabled(b, TaskAsks(m))
    decreases |chunks|
  {
    if chunks != [] {
      BreakIsRead(s, chunks[..|chunks| - 1], nul);
    }
  }

  /**
   The adaptation can be undone although nothing is taken: a receive call that read the size before the
   break asks for that many slots after it, and then no interrupt declares the end of an n-slot packet.
   */
  lemma {:induction false} AdaptationCanBeUndone(
      s: Driver, chunks: seq<Chunk>, n: nat, nul: Byte, p: seq<Byte>, later: seq<Chunk>, c: Chunk)
    requires AwaitsPacket(s) && s.reading && n < s.size <= BUFFER_SIZE && DeliversPlain(s, chunks, n)
    requires IsPlain(p) && |p| == n && Delivers(later + [c], p)
    ensures var b := Break(Feed(s, chunks), nul).state;
            && b.size == n && Enabled(b, TaskAsks(s.size))
            && var u := StartReceive(b, s.size);
               u.size == s.size && Interrupt(Feed(u, later), c).notice == None
  {
    SizeAdapts(s, chunks, n, nul);
    BreakIsRead(s, chunks, nul);
    var b := Break(Feed(s, chunks), nul).state;
    var u := StartReceive(b, s.size);
    AskRestoresSize(b, s.size);
    assert Stream(u, later + [c]) == p;
    NoEndBeforeTheSize(u, later, c, p);
  }

  // ---------- a full packet ----------

  /** The events of a packet of 513 slots, the last of which comes with the null byte of the next break. */
  function FullPacketEvents(first: seq<Byte>, last: Byte, nul: Byte): seq<Event> {
    [ReceiveInterrupt(true, NoError)] + ([Arrives(first)] + ([ReceiveInterrupt(false, NoError)] +
      ([Arrives([last, nul])] + ([ReceiveInterrupt(true, NoError)] + []))))
  }

  lemma {:induction false} FirstBreak(s: Driver, first: seq<Byte>)
    requires s == Installed() && IsPlain(first) && |first| == BUFFER_SIZE - 1
    ensures var a := Receive(s, true, NoError).state;
            && IsListening(a) && a.size == BUFFER_SIZE && a.rxFifo == [] && Consistent(a)
  {
  }

  lemma {:induction false} AllButOneSlot(a: Driver, first: seq<Byte>)
    requires IsListening(a) && Consistent(a) && a.size == BUFFER_SIZE && a.rxFifo == []
    requires IsPlain(first) && |first| == BUFFER_SIZE - 1
    ensures var b := a.(rxFifo := a.rxFifo + first);
            var c := Receive(b, false, NoError).state;
            && c.progress == InData && c.reading && c.status != Sending && c.head == BUFFER_SIZE - 1
            && c.size == BUFFER_SIZE && c.rxFifo == [] && Stored(c, first)
            && Consistent(b) && Consistent(c)
  {
    var b := a.(rxFifo := a.rxFifo + first);
    assert b.rxFifo == first;
    PlainPacketIsFramed(first);
    InterruptIsJudged(b, first, first);
    InterruptKeepsStored(b, first, NoError);
    ReceiveKeepsConsistent(b, false, NoError);
    FillKeepsStored(b, first);
    assert SameBuffer(Fill(b), Receive(b, false, NoError).state);
  }

  lemma {:induction false} LastSlotAndNull(c: Driver, first: seq<Byte>, last: Byte, nul: Byte)
    requires Valid(c) && Consistent(c) && c.progress == InData && c.reading && c.head == BUFFER_SIZE - 1
    requires Stored(c, first) && |first| == BUFFER_SIZE - 1
    ensures var d := c.(rxFifo := c.rxFifo + [last, nul]);
            var o := Receive(d, true, NoError);
            && Consistent(d) && Consistent(o.state) && o.notice == Some(NotEnoughSlots)
            && o.state.size == BUFFER_SIZE - 1 && AwaitsPacket(o.state) && o.state.rxFifo == [nul]
            && o.state.data == first + [last]
  {
    var d := c.(rxFifo := c.rxFifo + [last, nul]);
    var r := first + [last, nul];
    ArrivalKeepsStored(c, first, [last, nul]);
    BreakLeaves(d, r, NoError);
    FillKeepsStored(d, r);
    ReceiveKeepsConsistent(d, true, NoError);
    assert r[..BUFFER_SIZE] == first + [last] && r[BUFFER_SIZE..] == [nul];
  }

  /**
   A run from an installed driver: a packet of 513 slots is received in full, but its last slot comes with
   the null byte of the next break. It is declared too short, one slot less is expected from then on, and
   the null byte stays in the UART.
   */
  lemma {:induction false} FullPacketLeavesItsNull(first: seq<Byte>, last: Byte, nul: Byte)
      returns (states: seq<Driver>, t: Driver)
    requires IsPlain(first) && |first| == BUFFER_SIZE - 1
    ensures IsRun(states, FullPacketEvents(first, last, nul)) && states[0] == Installed() && states[5] == t
    ensures AwaitsPacket(t) && t.data == first + [last] && t.size == BUFFER_SIZE - 1 && t.rxFifo == [nul]
  {
    var s := Installed();
    var a := Receive(s, true, NoError).state;
    var b := a.(rxFifo := a.rxFifo + first);
    var c := Receive(b, false, NoError).state;
    var d := c.(rxFifo := c.rxFifo + [last, nul]);
    t := Receive(d, true, NoError).state;
    InstalledHasNoHeader();
    FirstBreak(s, first);
    AllButOneSlot(a, first);
    LastSlotAndNull(c, first, last, nul);
    var breakEvents := [ReceiveInterrupt(true, NoError)] + [];
    var lastEvents := [Arrives([last, nul])] + breakEvents;
    assert LeadsTo(t, [], t);
    OneMoreEvent(d, ReceiveInterrupt(true, NoError), [], t);
    OneMoreEvent(c, Arrives([last, nul]), breakEvents, t);
    OneMoreEvent(b, ReceiveInterrupt(false, NoError), lastEvents, t);
    OneMoreEvent(a, Arrives(first), [ReceiveInterrupt(false, NoError)] + lastEvents, t);
    OneMoreEvent(s, ReceiveInterrupt(true, NoError),
        [Arrives(first)] + ([ReceiveInterrupt(false, NoError)] + lastEvents), t);
    states := RunThatLeadsTo(s, FullPacketEvents(first, last, nul), t);
  }

  /**
   A standard packet after it is stored behind that null byte, however it is split. Neither is it declared
   when it has come in full, nor is its header read.
   */
  lemma {:induction false} NextPacketIsShifted(t: Driver, chunks: seq<Chunk>, h: Header, pd: seq<Byte>)
    requires AwaitsPacket(t) && t.size == BUFFER_SIZE - 1 && t.rxFifo == [0]
    requires |pd| <= Formats.PD_MAX && CcIsValid(h.cc) && Delivers(chunks, StandardPacket(h, pd))
    ensures var u, r := Feed(t, chunks), [0] + StandardPacket(h, pd);
            u.progress == InData && u.data[..|r|] == r && ReadHeader(u.data) == None
  {
    var r := [0] + StandardPacket(h, pd);
    assert Stream(t, chunks) == r;
    PlainPacketIsFramed(r);
    StateWithinPacket(t, r, chunks);
    DeliveredIsInBuffer(t, chunks);
    PlainStartIsRead(t, chunks);
  }
}
