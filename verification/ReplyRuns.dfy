/**
 Sending a discovery reply, which no break precedes: its slots reach the bus in order and once each if and
 only if the timer is not running when it is sent.
 */
module ReplyRuns {
  import opened Bytes
  import opened Uids
  import opened Encoding
  import opened Encoder
  import opened Packets
  import opened Drivers
  import opened Runs
  import opened TransmitRuns

  /** A run that begins with sending what is in the buffer, up to the end of the transmission at most. */
  ghost predicate IsReplyRun(s: Driver, states: seq<Driver>, events: seq<Event>) {
    && IsRun(states, events) && events != [] && states[0] == s && events[0].TaskSends?
    && forall k :: 1 <= k < |events| ==> events[k] != TxDoneInterrupt
  }

  predicate IsConserved(s: Driver, t: Driver)
    requires Valid(s)
  {
    0 <= t.head <= BUFFER_SIZE && t.wire == s.wire + Signal(s, t.head)
  }

  /** Is the reply in the buffer conserved by every run, whatever the room in the UART and whatever else happens? */
  ghost predicate ReplyIsConserved(s: Driver)
    requires Valid(s)
  {
    forall states, events :: IsReplyRun(s, states, events) ==> IsConserved(s, states[|events|])
  }

  /** A discovery reply has slots. */
  lemma {:induction false} ReplyHasSlots(s: Driver, size: nat)
    requires Valid(s)
    ensures HasDiscoveryReply(s) ==> SendSize(HeaderToSend(s.data), size) > 0 && ReadHeader(s.data).Some?
  {
    assert s.data[..0] == [];
  }

  lemma {:induction false} StoppedTimerConserves(s: Driver, states: seq<Driver>, events: seq<Event>)
    requires Valid(s) && !s.timerRunning && IsReplyRun(s, states, events)
    ensures HasDiscoveryReply(s) ==> IsConserved(s, states[|events|])
  {
    if HasDiscoveryReply(s) {
      ReplyHasSlots(s, 0);
      assert IsStep(states, events, 0);
      TransmitConserves(states, events, 0, |events|);
    }
  }

  /**
   The alarm of a timer that is running starts the reply again: more slots are sent than were put in the
   UART last.
   */
  lemma {:induction false} RunningTimerRepeatsReply(s: Driver)
    requires Valid(s) && Consistent(s) && s.status != Sending && HasDiscoveryReply(s) && s.timerRunning
    ensures var t := Send(s, 0, BUFFER_SIZE);
            var u := Alarm(t, 1);
            t.timerRunning && |u.wire| > |s.wire| + u.head
  {
    ReplyHasSlots(s, 0);
    SentAtOnce(s);
  }

  lemma {:induction false} SentAtOnce(s: Driver)
    requires Valid(s) && HasDiscoveryReply(s)
    ensures var t := Send(s, 0, BUFFER_SIZE);
            && t.status == Sending && t.timerRunning == s.timerRunning && t.size == SendSize(HeaderToSend(s.data), 0)
            && t.head == t.size && |t.wire| == |s.wire| + t.size
  {
  }

  lemma {:induction false} TwoSteps(s: Driver, a: Event, b: Event)
    requires Valid(s) && Consistent(s) && Enabled(s, a)
    requires var t := Apply(s, a).state; Consistent(t) && Enabled(t, b)
    ensures var t := Apply(s, a).state;
            IsRun([s, t, Apply(t, b).state], [a, b])
  {
    var t := Apply(s, a).state;
    var states, events := [s, t, Apply(t, b).state], [a, b];
    assert IsStep(states, events, 0) && IsStep(states, events, 1);
  }

  /**
   The reply is conserved, for every room and every interleaving, if and only if the timer is not running
   at the call.
   */
  lemma {:induction false} ReplyIsConservedExactly(s: Driver)
    requires Valid(s) && Consistent(s) && s.status != Sending && HasDiscoveryReply(s)
    ensures ReplyIsConserved(s) <==> !s.timerRunning
  {
    if s.timerRunning {
      var t := Send(s, 0, BUFFER_SIZE);
      var u := Alarm(t, 1);
      RunningTimerRepeatsReply(s);
      StepKeepsConsistent(s, TaskSends(0, BUFFER_SIZE));
      TwoSteps(s, TaskSends(0, BUFFER_SIZE), TimerAlarm(1));
      assert IsReplyRun(s, [s, t, u], [TaskSends(0, BUFFER_SIZE), TimerAlarm(1)]);
      assert !IsConserved(s, u);
    } else {
      forall states, events | IsReplyRun(s, states, events)
        ensures IsConserved(s, states[|events|])
      {
        StoppedTimerConserves(s, states, events);
      }
    }
  }

  // ---------- the timer can be running ----------

  /** A packet that is not RDM is sent, and leaves the port idle. */
  lemma {:induction false} FirstPacketIsSent(s: Driver)
    requires Valid(s) && Consistent(s) && s.status != Sending && HeaderToSend(s.data) == None
    ensures var a := Send(s, 0, 0);
            var b := Alarm(a, 0);
            var c := Alarm(b, BUFFER_SIZE);
            && a.timerRunning && a.status == Sending && b.timerRunning && b.status == Sending && c.txDoneEnabled
            && Consistent(a) && Consistent(b) && Consistent(c)
            && var d := TxDone(c);
               d.status == Idle && d.isController && !d.reading && !d.timerRunning && d.size == BUFFER_SIZE &&
                   Consistent(d)
  {
  }

  /** A task asks for a packet and gives up. */
  lemma {:induction false} WaitIsGivenUp(d: Driver)
    requires Valid(d) && Consistent(d) && d.status == Idle && d.isController && !d.reading && d.size == BUFFER_SIZE
    ensures var e := StartReceive(d, BUFFER_SIZE);
            var f := Await(e);
            && e.status == Idle && e.progress == Stale && f.status == Idle && f.timerRunning && f.data == d.data
            && Consistent(e) && Consistent(f)
  {
  }

  lemma {:induction false} HeaderThatIsRead(data: seq<Byte>, h: Header)
    requires |data| == BUFFER_SIZE && ReadHeader(data) == Some(h) && h.cc == CC_DISC_COMMAND_RESPONSE
    ensures HeaderToSend(data) == Some(h)
  {
  }

  lemma {:induction false} ReplyIsToBeSent(u: Uid, rest: seq<Byte>)
    requires |DiscoveryReply(u, PREAMBLE_MAX) + rest| == BUFFER_SIZE
    ensures HeaderToSend(DiscoveryReply(u, PREAMBLE_MAX) + rest) == Some(ReplyHeader(u, PREAMBLE_MAX))
  {
    DiscoveryRoundTrip(u, PREAMBLE_MAX, rest);
    HeaderThatIsRead(DiscoveryReply(u, PREAMBLE_MAX) + rest, ReplyHeader(u, PREAMBLE_MAX));
  }

  /** What is written to an idle port is at the start of its buffer. */
  lemma {:induction false} WrittenAtStart(f: Driver, bytes: seq<Byte>)
    requires Valid(f) && Consistent(f) && f.status == Idle && 0 < |bytes| <= BUFFER_SIZE
    ensures var g := WriteOffset(f, 0, bytes);
            && g.data == bytes + f.data[|bytes|..] && g.status == Idle && g.timerRunning == f.timerRunning
            && Consistent(g)
  {
    assert bytes[..|bytes|] == bytes;
  }

  /** A task asks for a packet and gives up, and what it writes then is a reply. */
  lemma {:induction false} ReplyIsWritten(d: Driver, u: Uid)
    requires Valid(d) && Consistent(d) && d.status == Idle && d.isController && !d.reading && d.size == BUFFER_SIZE
    ensures |DiscoveryReply(u, PREAMBLE_MAX)| == 24
    ensures var e := StartReceive(d, BUFFER_SIZE);
            var f := Await(e);
            var g := WriteOffset(f, 0, DiscoveryReply(u, PREAMBLE_MAX));
            && e.status == Idle && e.progress == Stale && f.status == Idle
            && g.status == Idle && g.timerRunning && HeaderToSend(g.data) == Some(ReplyHeader(u, PREAMBLE_MAX))
            && Consistent(e) && Consistent(f) && Consistent(g)
  {
    var reply := DiscoveryReply(u, PREAMBLE_MAX);
    WaitIsGivenUp(d);
    WrittenAtStart(Await(StartReceive(d, BUFFER_SIZE)), reply);
    ReplyIsToBeSent(u, d.data[24..]);
  }

  /** The seven events after which the timer runs when a reply is sent. */
  function TimerEvents(u: Uid): seq<Event> {
    [TaskSends(0, 0)] + ([TimerAlarm(0)] + ([TimerAlarm(BUFFER_SIZE)] + ([TxDoneInterrupt] +
      ([TaskAsks(BUFFER_SIZE)] + ([TaskWaits] + ([TaskWrites(0, DiscoveryReply(u, PREAMBLE_MAX))] + []))))))
  }

  /**
   The timer can be running when a discovery reply is sent: from an installed driver, after a packet was
   sent and a task gave up waiting for another, when a task writes the reply.
   */
  lemma {:induction false} TimerCanRun(u: Uid) returns (states: seq<Driver>, s: Driver)
    ensures IsRun(states, TimerEvents(u)) && states[0] == Installed() && states[|TimerEvents(u)|] == s
    ensures Valid(s) && s.status != Sending && s.timerRunning && HasDiscoveryReply(s) && !ReplyIsConserved(s)
  {
    var s0 := Installed();
    InstalledHasNoHeader();
    FirstPacketIsSent(s0);
    var a := Send(s0, 0, 0);
    var b := Alarm(a, 0);
    var c := Alarm(b, BUFFER_SIZE);
    var d := TxDone(c);
    ReplyIsWritten(d, u);
    var reply := DiscoveryReply(u, PREAMBLE_MAX);
    var e := StartReceive(d, BUFFER_SIZE);
    var f := Await(e);
    s := WriteOffset(f, 0, reply);
    var last := [TaskWrites(0, reply)] + [];
    assert LeadsTo(s, [], s);
    OneMoreEvent(f, TaskWrites(0, reply), [], s);
    OneMoreEvent(e, TaskWaits, last, s);
    OneMoreEvent(d, TaskAsks(BUFFER_SIZE), [TaskWaits] + last, s);
    var fromIdle := [TaskAsks(BUFFER_SIZE)] + ([TaskWaits] + last);
    OneMoreEvent(c, TxDoneInterrupt, fromIdle, s);
    OneMoreEvent(b, TimerAlarm(BUFFER_SIZE), [TxDoneInterrupt] + fromIdle, s);
    OneMoreEvent(a, TimerAlarm(0), [TimerAlarm(BUFFER_SIZE)] + ([TxDoneInterrupt] + fromIdle), s);
    OneMoreEvent(s0, TaskSends(0, 0), [TimerAlarm(0)] + ([TimerAlarm(BUFFER_SIZE)] + ([TxDoneInterrupt] + fromIdle)),
        s);
    states := RunThatLeadsTo(s0, TimerEvents(u), s);
    ReplyIsConservedExactly(s);
  }
}
