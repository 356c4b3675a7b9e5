/**
 A packet and what comes after it on the bus: what goes out is the packet in the buffer, the bus is turned to
 reading if the packet is a request that is answered, and the answer is received.
 */
module Turnarounds {
  import opened Bytes
  import opened Uids
  import Formats
  import opened Packets
  import opened Drivers
  import opened Runs
  import opened TransmitRuns
  import opened ReceiveRuns
  import opened PacketRuns
  import Requests

  // ---------- what goes out ----------

  lemma {:induction false} HeaderThatIsRead(data: seq<Byte>, h: Header)
    requires |data| == BUFFER_SIZE && ReadHeader(data) == Some(h)
    ensures HeaderToSend(data) == if CcIsValid(h.cc) then Some(h) else None
  {
  }

  lemma {:induction false} HeaderOfStandard(data: seq<Byte>, h: Header, pd: seq<Byte>)
    requires |data| == BUFFER_SIZE && |pd| <= Formats.PD_MAX && StandardPacket(h, pd) <= data
    ensures ReadHeader(data) == Some(WithPd(h, pd))
    ensures HeaderToSend(data) == if CcIsValid(h.cc) then Some(WithPd(h, pd)) else None
  {
    var p := StandardPacket(h, pd);
    PacketRoundTrip(h, pd, data[|p|..]);
    assert data == p + data[|p|..];
    HeaderThatIsRead(data, WithPd(h, pd));
  }

  lemma {:induction false} ReplyIsRead(data: seq<Byte>, p: seq<Byte>, u: Uid, n: nat)
    requires |data| == BUFFER_SIZE && n <= PREAMBLE_MAX && p == DiscoveryReply(u, n) && p <= data
    ensures ReadHeader(data) == Some(ReplyHeader(u, n)) && |p| == n + 17
  {
    ReplyStart(u, n);
    assert data == p + data[|p|..];
    DiscoveryRoundTrip(u, n, data[|p|..]);
  }

  lemma {:induction false} PacketGoesOut(s: Driver, p: seq<Byte>, h: Header, size: nat)
    requires Valid(s) && p <= s.data && ReadHeader(s.data) == Some(h) && CcIsValid(h.cc)
    requires |p| == if IsDiscoveryReply(h) then h.messageLen as int else h.messageLen as int + 2
    ensures var n := SendSize(HeaderToSend(s.data), size);
            Signal(s, n) == (if IsDiscoveryReply(h) then [] else [BreakBegins, BreakEnds]) + Slots(p)
  {
    HeaderThatIsRead(s.data, h);
  }

  /** A packet that is RDM is sent as it is, whatever size is asked for. */
  lemma {:induction false} StandardGoesOut(s: Driver, p: seq<Byte>, h: Header, pd: seq<Byte>, size: nat)
    requires |pd| <= Formats.PD_MAX && CcIsValid(h.cc) && !IsDiscoveryReply(h) && p == StandardPacket(h, pd)
    requires Valid(s) && p <= s.data
    ensures var n := SendSize(HeaderToSend(s.data), size);
            Signal(s, n) == [BreakBegins, BreakEnds] + Slots(p)
  {
    HeaderOfStandard(s.data, h, pd);
    PacketGoesOut(s, p, WithPd(h, pd), size);
  }

  lemma {:induction false} ReplyHeaderIsOne(h: Header, u: Uid, n: nat)
    requires n <= PREAMBLE_MAX && h == ReplyHeader(u, n)
    ensures IsDiscoveryReply(h) && CcIsValid(h.cc) && h.messageLen == n + 17
  {
  }

  /** A discovery reply goes out without a break. */
  lemma {:induction false} ReplyGoesOut(s: Driver, p: seq<Byte>, u: Uid, preamble: nat, size: nat)
    requires preamble <= PREAMBLE_MAX && p == DiscoveryReply(u, preamble)
    requires Valid(s) && p <= s.data
    ensures var n := SendSize(HeaderToSend(s.data), size);
            Signal(s, n) == Slots(p)
  {
    var h := ReplyHeader(u, preamble);
    ReplyIsRead(s.data, p, u, preamble);
    ReplyHeaderIsOne(h, u, preamble);
    PacketGoesOut(s, p, h, size);
    assert [] + Slots(p) == Slots(p);
  }

  /** Of a packet that is not RDM, as many slots go out as are asked for; all if none are, or too many. */
  lemma {:induction false} SlotsGoOut(s: Driver, size: nat)
    requires Valid(s) && (ReadHeader(s.data).Some? ==> !CcIsValid(ReadHeader(s.data).value.cc))
    ensures var n := SendSize(HeaderToSend(s.data), size);
            && (1 <= size <= 513 ==> Signal(s, n) == [BreakBegins, BreakEnds] + Slots(s.data[..size]))
            && (size == 0 || size > 513 ==> Signal(s, n) == [BreakBegins, BreakEnds] + Slots(s.data))
  {
    assert s.data[..BUFFER_SIZE] == s.data;
  }

  // ---------- what is remembered of it ----------

  /** Is the packet a request that is answered: an RDM request to one device, or a DISC_UNIQUE_BRANCH? */
  predicate IsAnswered(header: Option<Header>) {
    header.Some? && CcIsValid(header.value.cc) && header.value.cc % 2 == 0 && header.value.pid != 0 &&
    (header.value.dest.dev != 0xffff_ffff || header.value.pid == 0x0001)
  }

  predicate IsAnsweredWithoutBreak(header: Option<Header>) {
    IsAnswered(header) && header.value.pid == 0x0001
  }

  /** Is this what is to be remembered of a packet that is sent, if its header is this one? */
  predicate Remembers(t: Driver, header: Option<Header>) {
    if header.None? || !CcIsValid(header.value.cc) then
      t.isController && t.lastControllerPid == 0 && !t.responderSentLast
    else if header.value.cc % 2 == 0 then
      && t.isController && t.lastControllerPid == header.value.pid && !t.responderSentLast
      && (t.lastRequestWasBroadcast <==> header.value.dest.dev == 0xffff_ffff)
    else !t.isController && t.lastResponderPid == header.value.pid && t.responderSentLast
  }

  lemma {:induction false} PreparedIsRemembered(s: Driver, size: nat)
    requires Valid(s)
    ensures Remembers(Prepare(s, HeaderToSend(s.data), size), ReadHeader(s.data))
  {
  }

  lemma {:induction false} BeginKeepsRecord(s: Driver, header: Option<Header>, space: nat)
    requires Valid(s) && 0 <= s.size <= BUFFER_SIZE
    ensures SameRecord(s, Begin(s, header, space))
  {
  }

  lemma {:induction false} SentIsRemembered(s: Driver, size: nat, space: nat)
    requires Valid(s)
    ensures Remembers(Send(s, size, space), ReadHeader(s.data))
  {
    var t := Prepare(s, HeaderToSend(s.data), size);
    PreparedIsRemembered(s, size);
    BeginKeepsRecord(t, HeaderToSend(s.data), space);
  }

  predicate SameRecord(s: Driver, t: Driver) {
    && t.isController == s.isController && t.lastControllerPid == s.lastControllerPid
    && t.lastResponderPid == s.lastResponderPid && t.responderSentLast == s.responderSentLast
    && t.lastRequestWasBroadcast == s.lastRequestWasBroadcast
  }

  lemma {:induction false} StepKeepsRecord(t: Driver, e: Event)
    requires Valid(t) && Consistent(t) && Enabled(t, e) && t.status == Sending && e != TxDoneInterrupt
    ensures SameRecord(t, Apply(t, e).state)
  {
  }

  predicate KeepsRecordAt(states: seq<Driver>, k: nat)
    requires k + 1 < |states|
  {
    SameRecord(states[k], states[k + 1])
  }

  lemma {:induction false} RecordStaysAt(states: seq<Driver>, events: seq<Event>, i: nat, j: nat, k: nat)
    requires IsRun(states, events) && Sends(states, events, i, j) && i < k < j
    ensures KeepsRecordAt(states, k)
  {
    TransmitConserves(states, events, i, k);
    assert IsStep(states, events, k);
    StepKeepsRecord(states[k], events[k]);
  }

  lemma {:induction false} SameThroughout(states: seq<Driver>, i: nat, k: nat)
    requires i <= k < |states| && forall l :: i <= l < k ==> KeepsRecordAt(states, l)
    ensures SameRecord(states[i], states[k])
    decreases k
  {
    if i < k {
      SameThroughout(states, i, k - 1);
      assert KeepsRecordAt(states, k - 1);
    }
  }

  lemma {:induction false} RecordStays(states: seq<Driver>, events: seq<Event>, i: nat, j: nat, k: nat)
    requires IsRun(states, events) && Sends(states, events, i, j) && i < k <= j
    ensures SameRecord(states[i + 1], states[k])
  {
    forall l | i + 1 <= l < k
      ensures KeepsRecordAt(states, l)
    {
      RecordStaysAt(states, events, i, j, l);
    }
    SameThroughout(states, i + 1, k);
  }

  lemma {:induction false} RecordedUntilEnd(states: seq<Driver>, events: seq<Event>, i: nat, j: nat)
    requires IsRun(states, events) && Sends(states, events, i, j)
    ensures Valid(states[i]) && Remembers(states[j], ReadHeader(states[i].data))
  {
    assert IsStep(states, events, i);
    SentIsRemembered(states[i], events[i].size, events[i].space);
    RecordStays(states, events, i, j, j);
  }

  // ---------- the bus is turned around ----------

  /** A port that waits for a break: whatever comes before it is dropped. */
  predicate AwaitsBreak(t: Driver) {
    Valid(t) && t.reading && t.status == Idle && t.head == -1 && t.progress == Stale
  }

  lemma {:induction false} EndTurnsAround(t: Driver, header: Option<Header>)
    requires Valid(t) && !t.reading && Remembers(t, header)
    ensures var u := TxDone(t);
            && u.status == Idle && !u.txDataEnabled && !u.txDoneEnabled && SameRecord(t, u)
            && (u.reading <==> IsAnswered(header))
            && (IsAnsweredWithoutBreak(header) ==> IsListening(u) && u.progress == InData && u.rxFifo == [])
            && (IsAnswered(header) && !IsAnsweredWithoutBreak(header) ==> AwaitsBreak(u) && u.rxFifo == [])
            && (!IsAnswered(header) ==> u.progress == Complete)
  {
  }

  /**
   At the end of a transmission the bus is turned to reading if and only if the packet that was in the
   buffer at the call is an RDM request, with a PID, to one device, or a DISC_UNIQUE_BRANCH request. After
   the latter the port is ready for slots at once, otherwise it waits for a break; what is in the UART from
   before is dropped.
   */
  lemma {:induction false} BusIsTurnedExactly(states: seq<Driver>, events: seq<Event>, i: nat, j: nat)
    requires IsRun(states, events) && Sends(states, events, i, j) && j < |events| && events[j] == TxDoneInterrupt
    ensures Valid(states[i])
    ensures var header, u := ReadHeader(states[i].data), states[j + 1];
            && u.status == Idle && (u.reading <==> IsAnswered(header))
            && (IsAnsweredWithoutBreak(header) ==> IsListening(u) && u.progress == InData && u.rxFifo == [])
            && (IsAnswered(header) && !IsAnsweredWithoutBreak(header) ==> AwaitsBreak(u) && u.rxFifo == [])
            && Remembers(u, header)
  {
    TransmitConserves(states, events, i, j);
    RecordedUntilEnd(states, events, i, j);
    assert IsStep(states, events, j);
    EndTurnsAround(states[j], ReadHeader(states[i].data));
  }

  /** A responder's call turns the bus to reading itself, once its response was sent, and waits for a break. */
  lemma {:induction false} ResponderTurnsBusItself(states: seq<Driver>, events: seq<Event>, i: nat, j: nat)
    requires IsRun(states, events) && Sends(states, events, i, j) && j < |events| && events[j] == TxDoneInterrupt
    requires Valid(states[i])
    requires var h := ReadHeader(states[i].data); h.Some? && CcIsValid(h.value.cc) && h.value.cc % 2 == 1
    ensures !states[j + 1].reading && Valid(states[j + 1]) && Consistent(states[j + 1])
    ensures Enabled(states[j + 1], TaskResponded)
    ensures var u := Apply(states[j + 1], TaskResponded).state;
            u.reading && u.head == -1 && u.status == Idle && !IsLive(u.progress) && u.data == states[j + 1].data
  {
    TransmitConserves(states, events, i, j);
    RecordedUntilEnd(states, events, i, j);
    assert IsStep(states, events, j);
    EndTurnsAround(states[j], ReadHeader(states[i].data));
  }

  // ---------- up to the break of the answer ----------

  lemma {:induction false} StepAwaitsBreak(t: Driver, e: Event)
    requires AwaitsBreak(t) && Consistent(t) && Enabled(t, e) && IsReceiving(e)
    ensures AwaitsBreak(Apply(t, e).state) && Apply(t, e).notice == None
  {
  }

  lemma {:induction false} BreakIsSeen(t: Driver, err: Error)
    requires AwaitsBreak(t) && Consistent(t)
    ensures var o := Receive(t, true, err);
            IsListening(o.state) && o.state.rxFifo == [] && o.state.size == t.size && o.notice == None
  {
  }

  predicate AwaitsBreakAt(states: seq<Driver>, k: nat)
    requires k < |states|
  {
    AwaitsBreak(states[k])
  }

  lemma {:induction false} KeepsAwaiting(states: seq<Driver>, events: seq<Event>, i: nat, k: nat)
    requires IsRun(states, events) && i <= k <= |events| && AwaitsBreakAt(states, i)
    requires forall l :: i <= l < k ==> IsReceiving(events[l])
    ensures AwaitsBreakAt(states, k)
    decreases k
  {
    if i < k {
      KeepsAwaiting(states, events, i, k - 1);
      assert IsStep(states, events, k - 1);
      StepAwaitsBreak(states[k - 1], events[k - 1]);
    }
  }

  /**
   Whatever tasks do while the port waits for the break of an answer, and whatever bytes come before it, the
   break makes the port ready for a packet, of which nothing has come yet.
   */
  lemma {:induction false} BreakOfAnswerIsSeen(states: seq<Driver>, events: seq<Event>, i: nat, j: nat)
    requires IsRun(states, events) && i <= j && IsBreakEvent(events, j) && AwaitsBreak(states[i])
    requires forall l :: i <= l < j ==> IsReceiving(events[l])
    ensures IsListening(states[j + 1]) && states[j + 1].rxFifo == []
  {
    KeepsAwaiting(states, events, i, j);
    assert IsStep(states, events, j);
    BreakIsSeen(states[j], events[j].err);
  }

  // ---------- the answer ----------

  lemma {:induction false} BufferAfterInterrupt(t: Driver, r: seq<Byte>, p: seq<Byte>, n: nat)
    requires Valid(t) && Stored(t, r) && n <= |r| && n <= BUFFER_SIZE && r <= p && n <= |p|
    ensures Receive(t, false, NoError).state.data[..n] == p[..n]
  {
    PrefixInBuffer(t, r, p);
    var v := Fill(t);
    assert SameBuffer(v, Receive(t, false, NoError).state);
    ShorterPrefix(v.data, p, Min(v.head, BUFFER_SIZE), n);
  }

  /** What the buffer holds after the interrupt at `k`, of a packet that begins at `i`. */
  lemma {:induction false} FoundIsInBuffer(
      states: seq<Driver>, events: seq<Event>, i: nat, j: nat, p: seq<Byte>, more: seq<Byte>, k: nat)
    requires PacketRuns.Receives(states, events, i, j, p + more) && i <= k < j && |p| <= BUFFER_SIZE
    requires FindsFirst(states, events, i, k, |p|) && events[k].err == NoError
    ensures Valid(states[k + 1]) && p <= states[k + 1].data
  {
    StateWithin(states, events, i, j, p + more, k);
    assert IsStep(states, events, k);
    ComeGrows(states, events, i, k, j);
    BufferAfterInterrupt(states[k], Come(states, events, i, k), p + more, |p|);
    assert (p + more)[..|p|] == p;
    assert states[k + 1].data[..|p|] == p;
  }

  lemma {:induction false} ReplyIsInBuffer(
      states: seq<Driver>, events: seq<Event>, i: nat, j: nat, u: Uid, n: nat, more: seq<Byte>, k: nat)
    requires n <= PREAMBLE_MAX && PacketRuns.Receives(states, events, i, j, DiscoveryReply(u, n) + more) && i <= k < j
    requires FindsFirst(states, events, i, k, n + 17) && events[k].err == NoError
    ensures Valid(states[k + 1]) && ReadHeader(states[k + 1].data) == Some(ReplyHeader(u, n))
  {
    var p := DiscoveryReply(u, n);
    ReplyStart(u, n);
    FoundIsInBuffer(states, events, i, j, p, more, k);
    ReplyIsRead(states[k + 1].data, p, u, n);
  }

  /**
   The event at `k` declares the reply if it delivers the last byte and no task gave the packet up; once
   it is delivered, its header is read from the buffer.
   */
  predicate IsReplyAt(states: seq<Driver>, events: seq<Event>, i: nat, k: nat, u: Uid, n: nat)
    requires i <= k < |events| && |states| == |events| + 1 && IsStep(states, events, k) && n <= PREAMBLE_MAX
  {
    && Apply(states[k], events[k]).notice ==
       (if FindsFirst(states, events, i, k, n + 17) && !IsGivenUp(states, events, i, k)
        then Some(events[k].err) else None)
    && (FindsFirst(states, events, i, k, n + 17) && events[k].err == NoError ==>
          Valid(states[k + 1]) && ReadHeader(states[k + 1].data) == Some(ReplyHeader(u, n)))
  }

  lemma {:induction false} ReplyIsReceived(
      states: seq<Driver>, events: seq<Event>, i: nat, j: nat, p: seq<Byte>, u: Uid, n: nat, more: seq<Byte>, k: nat)
    requires n <= PREAMBLE_MAX && p == DiscoveryReply(u, n) + more
    requires PacketRuns.Receives(states, events, i, j, p) && i <= k < j
    ensures IsStep(states, events, k) && IsReplyAt(states, events, i, k, u, n)
  {
    DiscoveryReplyIsDeclaredExactly(states, events, i, j, u, n, more, k);
    if FindsFirst(states, events, i, k, n + 17) && events[k].err == NoError {
      ReplyIsInBuffer(states, events, i, j, u, n, more, k);
    }
  }

  /** A packet whose header is this one is sent, from the call at `i` to its end at `j`. */
  ghost predicate IsSent(states: seq<Driver>, events: seq<Event>, i: nat, j: nat, header: Option<Header>) {
    && IsRun(states, events) && Sends(states, events, i, j) && j < |events| && events[j] == TxDoneInterrupt
    && Valid(states[i]) && header == ReadHeader(states[i].data)
  }

  /**
   From the send to the reply: after a DISC_UNIQUE_BRANCH request was sent, a discovery reply is received
   without a break, however much of its preamble is lost, however it is split, and whatever tasks ask for:
   its end is declared at the interrupt that delivers its last byte, if and only if no task gave it up,
   and its sender's UID is read from the buffer then.
   */
  lemma {:induction false} ReplyIsReceivedAfterSend(
      states: seq<Driver>, events: seq<Event>, i: nat, j: nat, m: nat, request: Option<Header>, p: seq<Byte>, u: Uid,
      n: nat, more: seq<Byte>, k: nat)
    requires IsSent(states, events, i, j, request) && IsAnsweredWithoutBreak(request)
    requires n <= PREAMBLE_MAX && p == DiscoveryReply(u, n) + more
    requires Comes(states, events, j + 1, m, p) && j + 1 <= k < m
    ensures IsStep(states, events, k) && IsReplyAt(states, events, j + 1, k, u, n)
  {
    BusIsTurnedExactly(states, events, i, j);
    ReplyIsReceived(states, events, j + 1, m, p, u, n, more, k);
  }

  /**
   From the send to the response: after any other request to one device was sent, whatever happens until a
   break comes at `b`, a standard packet after that break is received, and its header and data are read.
   */
  lemma {:induction false} ResponseIsReceivedAfterSend(
      states: seq<Driver>, events: seq<Event>, i: nat, j: nat, b: nat, m: nat, request: Option<Header>, h: Header,
      pd: seq<Byte>, more: seq<Byte>, k: nat)
    requires IsSent(states, events, i, j, request) && IsAnswered(request) && !IsAnsweredWithoutBreak(request)
    requires |pd| <= Formats.PD_MAX && CcIsValid(h.cc)
    requires Comes(states, events, b + 1, m, StandardPacket(h, pd) + more) && b + 1 <= k < m
    requires j + 1 <= b && IsBreakEvent(events, b) && forall l :: j + 1 <= l < b ==> IsReceiving(events[l])
    ensures IsStep(states, events, k)
    ensures var size := |StandardPacket(h, pd)|;
            && Apply(states[k], events[k]).notice ==
               (if FindsFirst(states, events, b + 1, k, size) && !IsGivenUp(states, events, b + 1, k)
                then Some(events[k].err) else None)
            && (FindsFirst(states, events, b + 1, k, size) && events[k].err == NoError ==>
                  && Valid(states[k + 1]) && ReadHeader(states[k + 1].data) == Some(WithPd(h, pd))
                  && StandardPacket(h, pd) <= states[k + 1].data)
  {
    BusIsTurnedExactly(states, events, i, j);
    BreakOfAnswerIsSeen(states, events, j + 1, b);
    StandardPacketIsOne(h, pd);
    var p := StandardPacket(h, pd);
    StandardPacketIsDeclaredExactly(states, events, b + 1, m, p, more, k);
    if FindsFirst(states, events, b + 1, k, |p|) && events[k].err == NoError {
      FoundIsInBuffer(states, events, b + 1, m, p, more, k);
      HeaderOfStandard(states[k + 1].data, h, pd);
    }
  }

  // ---------- the request routine and the port ----------

  /** The request routine waits for a response exactly when the port listens for one after its packet. */
  lemma {:induction false} RequestIsListenedFor(data: seq<Byte>, q: Requests.Request, uid: Uid, tn: Byte, port: Byte)
    requires Requests.IsProper(q) && port > 0 && q.pdl < Formats.PD_MAX && Requests.HasPd(q)
    requires Requests.IsSerializable(q, uid, tn, port)
    requires |data| == BUFFER_SIZE && Requests.PacketOf(q, uid, tn, port) <= data
    ensures IsAnswered(ReadHeader(data)) <==> Requests.ExpectsResponse(q)
    ensures IsAnsweredWithoutBreak(ReadHeader(data)) <==> q.pid == PID_DISC_UNIQUE_BRANCH
  {
    var p := Requests.PacketOf(q, uid, tn, port);
    assert data == p + data[|p|..];
    Requests.RequestOnWire(q, uid, tn, port, data[|p|..]);
  }

  // ---------- what is remembered of a packet that is received ----------

  lemma {:induction false} IsClassified(data: seq<Byte>, h: Header, pd: seq<Byte>, head: int, size: int)
    requires |data| == BUFFER_SIZE && |pd| <= Formats.PD_MAX && CcIsValid(h.cc) && StandardPacket(h, pd) <= data
    requires head >= |StandardPacket(h, pd)|
    ensures Classify(data, head, size) == Packet && data[20] == h.cc && WordAt(data, 21) == h.pid
  {
    HeaderOfStandard(data, h, pd);
    StandardPacketIsOne(h, pd);
    var p := StandardPacket(h, pd);
    assert data[0] == p[0] && data[1] == p[1] && data[2] == p[2] && data[20] == p[20];
  }

  lemma {:induction false} ReplyIsClassified(data: seq<Byte>, p: seq<Byte>, u: Uid, n: nat, head: int, size: int)
    requires |data| == BUFFER_SIZE && n <= PREAMBLE_MAX && p == DiscoveryReply(u, n) && p <= data && head >= n + 17
    ensures Classify(data, head, size) == Reply
  {
    ReplyIsRead(data, p, u, n);
    ReplyStart(u, n);
    forall i | 0 <= i <= n
      ensures data[i] == p[i]
    {
    }
    DelimiterSlotOfReply(data, n, 0);
  }

  /** Is this what is to be remembered of a packet that was received? */
  predicate RemembersReceived(t: Driver, cc: Byte, pid: Word) {
    if cc % 2 == 0 then t.lastControllerPid == pid && !t.responderSentLast
    else t.lastResponderPid == pid && t.responderSentLast
  }

  lemma {:induction false} VerdictIsRecorded(v: Driver, verdict: Verdict)
    requires Valid(v) && verdict == Classify(v.data, v.head, v.size) && IsLive(v.progress)
    ensures SameRecord(Record(v.(progress := InData), verdict), ReceiveSlots(v, NoError).state)
  {
  }

  lemma {:induction false} RecordOf(v: Driver, verdict: Verdict)
    requires Valid(v)
    ensures var u := Record(v, verdict);
            && (verdict == Packet ==> RemembersReceived(u, v.data[20], WordAt(v.data, 21)))
            && (verdict == Reply ==> RemembersReceived(u, CC_DISC_COMMAND_RESPONSE, PID_DISC_UNIQUE_BRANCH))
            && (verdict.Plain? ==> RemembersReceived(u, 0, 0))
  {
  }

  lemma {:induction false} ReceivedIsRecorded(v: Driver)
    requires Valid(v) && IsLive(v.progress)
    ensures var u, verdict := ReceiveSlots(v, NoError).state, Classify(v.data, v.head, v.size);
            && (verdict == Packet ==> RemembersReceived(u, v.data[20], WordAt(v.data, 21)))
            && (verdict == Reply ==> RemembersReceived(u, CC_DISC_COMMAND_RESPONSE, PID_DISC_UNIQUE_BRANCH))
            && (verdict.Plain? ==> RemembersReceived(u, 0, 0))
  {
    var verdict := Classify(v.data, v.head, v.size);
    VerdictIsRecorded(v, verdict);
    RecordOf(v.(progress := InData), verdict);
  }

  lemma {:induction false} StartIsInBuffer(t: Driver, r: seq<Byte>, p: seq<Byte>)
    requires Valid(t) && Stored(t, r) && p <= r && |p| <= BUFFER_SIZE
    ensures p <= Fill(t).data && Fill(t).head >= |p|
  {
    FillKeepsStored(t, r);
    var v := Fill(t);
    ShorterPrefix(v.data, r, Min(v.head, BUFFER_SIZE), |p|);
    assert v.data[..|p|] == p;
  }

  /**
   When a standard packet has come in full, the port remembers its PID and which side sent it: the
   controller if the packet is a request, and a responder if it is a response.
   */
  lemma {:induction false} ReceivedIsRemembered(t: Driver, r: seq<Byte>, h: Header, pd: seq<Byte>)
    requires Valid(t) && IsLive(t.progress) && Stored(t, r)
    requires |pd| <= Formats.PD_MAX && CcIsValid(h.cc) && StandardPacket(h, pd) <= r
    ensures RemembersReceived(Receive(t, false, NoError).state, h.cc, h.pid)
  {
    var v := Fill(t);
    StartIsInBuffer(t, r, StandardPacket(h, pd));
    IsClassified(v.data, h, pd, v.head, v.size);
    ReceivedIsRecorded(v);
  }

  /** A discovery reply is remembered as a response to DISC_UNIQUE_BRANCH. */
  lemma {:induction false} ReceivedReplyIsRemembered(t: Driver, r: seq<Byte>, p: seq<Byte>, u: Uid, n: nat)
    requires Valid(t) && IsLive(t.progress) && Stored(t, r)
    requires n <= PREAMBLE_MAX && p == DiscoveryReply(u, n) && p <= r
    ensures RemembersReceived(Receive(t, false, NoError).state, CC_DISC_COMMAND_RESPONSE, PID_DISC_UNIQUE_BRANCH)
  {
    var v := Fill(t);
    ReplyStart(u, n);
    StartIsInBuffer(t, r, p);
    ReplyIsClassified(v.data, p, u, n, v.head, v.size);
    ReceivedIsRecorded(v);
  }

  /** A packet that is not RDM is remembered as a controller's, without a PID, from its first slot on. */
  lemma {:induction false} PlainIsRemembered(t: Driver, r: seq<Byte>)
    requires Valid(t) && IsLive(t.progress) && Stored(t, r) && IsPlain(r)
    ensures RemembersReceived(Receive(t, false, NoError).state, 0, 0)
  {
    var v := Fill(t);
    StartIsInBuffer(t, r, r[..1]);
    assert v.data[0] == r[..1][0];
    ReceivedIsRecorded(v);
  }

  // ---------- calls that turn the bus ----------

  /**
   A receive call turns the bus to reading. If it was turned to sending, the port waits for a break;
   otherwise what was received so far stays. Either way the size asked for is expected from then on.
   */
  lemma {:induction false} AskTurnsBus(s: Driver, size: nat)
    requires Valid(s) && s.status != Sending
    ensures var t := StartReceive(s, size);
            && t.reading && t.size == size && t.data == s.data && SameRecord(s, t) && t.wire == s.wire
            && (!s.reading ==> t.head == -1 && !IsLive(t.progress))
            && (s.reading ==> t.head == s.head && t.rxFifo == s.rxFifo)
  {
  }

  /**
   A write turns the bus to sending, and puts the bytes it has room for at the offset and nowhere else. To
   an RDM packet that is being sent nothing is written.
   */
  lemma {:induction false} WriteTurnsBus(s: Driver, offset: nat, bytes: seq<Byte>, i: nat)
    requires Valid(s) && offset < 513 && i < 513
    ensures var t := WriteOffset(s, offset, bytes);
            if s.status == Sending && ReadHeader(s.data).Some? then t == s
            else
              && t.data[i] == (if offset <= i < offset + |bytes| then bytes[i - offset] else s.data[i])
              && (bytes != [] ==> !t.reading)
              && t == s.(data := t.data, reading := t.reading)
  {
  }
}
