/**
 The state of a DMX port, and what each interrupt, timer alarm and critical section of a task does to it.
 */
module Drivers {
  import opened Bytes
  import opened Uids
  import opened Packets

  datatype Status = Idle | Receiving | Sending

  datatype Progress = Stale | InBreak | InMab | InData | Complete

  /** What is seen on the bus while the port sends. */
  datatype Symbol = BreakBegins | BreakEnds | Slot(value: Byte)

  datatype Error = NoError | UartOverflow | ImproperSlot | NotEnoughSlots

  const WAITING_FOR_BREAK := -1

  /**
   The state. `reading` is the direction of the bus transceiver. `rxFifo` holds what the UART received
   and the driver did not yet read, `wire` what was put on the bus since the port was installed.
   */
  datatype Driver = Driver(
    head: int,
    data: seq<Byte>,
    size: int,
    status: Status,
    progress: Progress,
    lastControllerPid: Word,
    lastResponderPid: Word,
    responderSentLast: bool,
    lastRequestWasBroadcast: bool,
    isController: bool,
    reading: bool,
    rxFifo: seq<Byte>,
    timerRunning: bool,
    txDataEnabled: bool,
    txDoneEnabled: bool,
    wire: seq<Symbol>
  )

  predicate Valid(s: Driver) {
    && |s.data| == BUFFER_SIZE && WAITING_FOR_BREAK <= s.head && 0 <= s.size
    && (s.status == Sending ==> s.size <= BUFFER_SIZE)
  }

  /** The state of a port whose driver was just installed. */
  function Installed(): (s: Driver)
    ensures Valid(s)
  {
    Driver(WAITING_FOR_BREAK, seq(BUFFER_SIZE, _ => 0), BUFFER_SIZE, Idle, Stale, 0, 0, false, false, false, true, [],
           false, false, false, [])
  }

  /** A signed 32-bit number compared with an unsigned one is converted to unsigned first. */
  function Unsigned(x: int): int {
    if x < 0 then x + 0x1_0000_0000 else x
  }

  /** Is the port within a packet, as far as the receiver knows? */
  predicate IsLive(p: Progress) {
    p == InBreak || p == InMab || p == InData
  }

  // ---------- receiving ----------

  /** Moves bytes from the UART to the buffer. Once the buffer is full, bytes are counted and dropped. */
  function Fill(s: Driver): (s': Driver)
    requires Valid(s)
    ensures Valid(s') && s'.progress == s.progress && s'.size == s.size
    ensures s'.status == s.status && s'.reading == s.reading
  {
    if 0 <= s.head < BUFFER_SIZE then
      var n := Min(BUFFER_SIZE - s.head, |s.rxFifo|);
      s.(data := s.data[..s.head] + s.rxFifo[..n] + s.data[s.head + n..], head := s.head + n, rxFifo := s.rxFifo[n..])
    else
      s.(head := if s.head > 0 then s.head + |s.rxFifo| else s.head, rxFifo := [])
  }

  /** What the bytes received so far amount to. */
  datatype Verdict = Waiting | Reply | Packet | Plain(complete: bool) {
    predicate IsComplete() {
      Reply? || Packet? || (Plain? && complete)
    }
  }

  /** The index of the delimiter of a discovery reply: 8 if eight slots are preamble, 9 if another byte comes first. */
  function DelimiterSlot(data: seq<Byte>, i: nat): (n: nat)
    requires |data| >= 8 && i <= 8
    decreases 8 - i
  {
    if i == 8 then 8
    else if data[i] == DELIMITER then i
    else if data[i] != PREAMBLE then 9
    else DelimiterSlot(data, i + 1)
  }

  function Classify(data: seq<Byte>, head: int, size: int): Verdict
    requires |data| == BUFFER_SIZE
  {
    if data[0] == SC then
      if Unsigned(head) < HEADER_SIZE + 2 then Waiting
      else if data[1] != SUB_SC || !CcIsValid(data[20]) || data[2] < HEADER_SIZE then Plain(head >= size)
      else if head - 2 < data[2] then Waiting
      else if ReadHeader(data) == None then Plain(head >= size)
      else Packet
    else if data[0] == PREAMBLE || data[0] == DELIMITER then
      if head < 17 then Waiting
      else if DelimiterSlot(data, 0) > 8 then Plain(head >= size)
      else if head < DelimiterSlot(data, 0) + 17 then Waiting
      else if ReadHeader(data) == None then Plain(head >= size)
      else Reply
    else Plain(head >= size)
  }

  /** Do the states agree on everything but the record of packets, the progress and the timer? */
  predicate SameBuffer(s: Driver, t: Driver) {
    && t.head == s.head && t.data == s.data && t.size == s.size && t.rxFifo == s.rxFifo
    && t.reading == s.reading && t.wire == s.wire
    && t.txDataEnabled == s.txDataEnabled && t.txDoneEnabled == s.txDoneEnabled
  }

  /** What is remembered of the packet that the verdict is about. */
  function Record(s: Driver, v: Verdict): (t: Driver)
    requires Valid(s)
    ensures Valid(t) && SameBuffer(s, t) && t.progress == s.progress && t.status == s.status
  {
    match v
    case Waiting => s
    case Reply => s.(lastResponderPid := PID_DISC_UNIQUE_BRANCH, responderSentLast := true)
    case Packet =>
      if CcIsRequest(s.data[20]) then s.(lastControllerPid := WordAt(s.data, 21), responderSentLast := false)
      else s.(lastResponderPid := WordAt(s.data, 21), responderSentLast := true)
    case Plain(_) => s.(lastControllerPid := 0, responderSentLast := false)
  }

  /** The state after a step, and the end of a packet that the receiving task is told of, if any. */
  datatype Outcome = Outcome(state: Driver, notice: Option<Error>)

  function FinishPacket(s: Driver, err: Error): (o: Outcome)
    requires Valid(s)
    ensures Valid(o.state) && SameBuffer(s, o.state) && o.notice == Some(err) && o.state.progress == Complete
  {
    Outcome(s.(progress := Complete, status := Idle, timerRunning := false), Some(err))
  }

  /** The verdict on the packet whose slots are being received. */
  function Judge(s: Driver): (o: Outcome)
    requires Valid(s)
    ensures Valid(o.state) && SameBuffer(s, o.state)
    ensures if o.notice.Some? then o.state.progress == Complete else o.state.progress == s.progress
  {
    var v := Classify(s.data, s.head, s.size);
    if v.IsComplete() then FinishPacket(Record(s, v), NoError) else Outcome(Record(s, v), None)
  }

  /** A break: a packet that it cuts short is ended, and the next one begins. */
  function ReceiveBreak(s: Driver): (o: Outcome)
    requires Valid(s)
    ensures Valid(o.state) && o.state.reading == s.reading && (o.notice.Some? ==> s.progress == InData)
  {
    var tooShort := s.progress == InData && s.head > 0;
    Outcome(s.(size := if tooShort then s.head - 1 else s.size, status := Receiving, progress := InBreak, head := 0),
            if tooShort then Some(NotEnoughSlots) else None)
  }

  /** Data, or an error, while no break is seen. */
  function ReceiveSlots(s: Driver, err: Error): (o: Outcome)
    requires Valid(s)
    ensures Valid(o.state) && SameBuffer(s, o.state)
    ensures !IsLive(s.progress) ==> o == Outcome(s, None)
    ensures IsLive(s.progress) ==> o.state.progress == if o.notice.Some? then Complete else InData
  {
    if !IsLive(s.progress) then Outcome(s, None)
    else
      var t := s.(progress := InData);
      if err != NoError then FinishPacket(t, err) else Judge(t)
  }

  /** The interrupt for received data: a break, an error, or neither. */
  function Receive(s: Driver, isBreak: bool, err: Error): (o: Outcome)
    requires Valid(s)
    ensures Valid(o.state) && o.state.reading == s.reading
    ensures !isBreak && !IsLive(s.progress) ==> o.notice == None && o.state.progress == s.progress
    ensures !isBreak && o.notice.Some? ==> o.state.progress == Complete
    ensures isBreak && o.notice.Some? ==> s.progress == InData
  {
    if isBreak then ReceiveBreak(Fill(s)) else ReceiveSlots(Fill(s), err)
  }

  // ---------- sending ----------

  function Slots(s: seq<Byte>): (r: seq<Symbol>)
    ensures |r| == |s| && forall i :: 0 <= i < |s| ==> r[i] == Slot(s[i])
  {
    seq(|s|, i requires 0 <= i < |s| => Slot(s[i]))
  }

  function SendSize(header: Option<Header>, size: nat): (n: nat)
    ensures n <= BUFFER_SIZE
  {
    match header
    case Some(h) => if IsDiscoveryReply(h) then h.messageLen as int else h.messageLen as int + 2
    case None => if size == 0 || size > BUFFER_SIZE then BUFFER_SIZE else size
  }

  /** The header of the packet to be sent, if it is an RDM packet. */
  function HeaderToSend(data: seq<Byte>): Option<Header>
    requires |data| == BUFFER_SIZE
  {
    var header := ReadHeader(data);
    if header.Some? && !CcIsValid(header.value.cc) then None else header
  }

  /** What is remembered of the packet that is about to be sent. */
  function Remember(s: Driver, header: Option<Header>): (t: Driver)
    requires Valid(s)
    ensures Valid(t) && SameBuffer(s, t) && t.status == s.status && t.timerRunning == s.timerRunning
  {
    var pid: Word := if header.Some? then header.value.pid else 0;
    if header.None? || CcIsRequest(header.value.cc) then
      s.(isController := true, lastControllerPid := pid, responderSentLast := false,
         lastRequestWasBroadcast := header.Some? && IsBroadcast(header.value.dest))
    else s.(isController := false, lastResponderPid := pid, responderSentLast := true)
  }

  /** The bus is turned to sending, and the packet's size and kind noted. */
  function Prepare(s: Driver, header: Option<Header>, size: nat): (t: Driver)
    requires Valid(s)
    ensures Valid(t) && t.status == Sending && !t.reading && t.size == SendSize(header, size) && t.data == s.data
    ensures t.wire == s.wire && t.timerRunning == s.timerRunning
    ensures t.txDataEnabled == s.txDataEnabled && t.txDoneEnabled == s.txDoneEnabled
  {
    Remember(s.(reading := false, size := SendSize(header, size), status := Sending), header)
  }

  /** The first step of a transmission: slots for a discovery reply, a break for any other packet. */
  function Begin(s: Driver, header: Option<Header>, space: nat): (t: Driver)
    requires Valid(s) && 0 <= s.size <= BUFFER_SIZE
    ensures Valid(t) && t.reading == s.reading
  {
    if header.Some? && IsDiscoveryReply(header.value) then
      var n := Min(s.size, space);
      s.(head := n, txDataEnabled := true, txDoneEnabled := true, wire := s.wire + Slots(s.data[..n]))
    else
      s.(head := 0, progress := InBreak, timerRunning := true, wire := s.wire + [BreakBegins])
  }

  /** The start of a transmission. `space` is the room in the UART, where a discovery reply goes at once. */
  function Send(s: Driver, size: nat, space: nat): (s': Driver)
    requires Valid(s)
    ensures Valid(s') && !s'.reading
  {
    var header := HeaderToSend(s.data);
    Begin(Prepare(s, header, size), header, space)
  }

  /** The timer alarm. While sending it ends the break, and then starts the data. */
  function Alarm(s: Driver, space: nat): (s': Driver)
    requires Valid(s)
    ensures Valid(s') && s'.reading == s.reading && (IsLive(s'.progress) ==> IsLive(s.progress))
  {
    if s.status != Sending then s.(timerRunning := false)
    else if s.progress == InBreak then s.(progress := InMab, wire := s.wire + [BreakEnds])
    else
      var n := Min(s.size, space);
      s.(head := n, timerRunning := false, txDataEnabled := true, txDoneEnabled := true,
         wire := s.wire + Slots(s.data[..n]))
  }

  /** The interrupt for room in the UART while data is left to send. */
  function TxData(s: Driver, space: nat): (s': Driver)
    requires Valid(s) && s.status == Sending && 0 <= s.head <= s.size
    ensures Valid(s') && s'.reading == s.reading && s'.progress == s.progress
  {
    var n := Min(s.size - s.head, space);
    s.(head := s.head + n, txDataEnabled := s.txDataEnabled && s.head + n != s.size,
       wire := s.wire + Slots(s.data[s.head..s.head + n]))
  }

  /** Is a discovery reply, which no break precedes, expected after this transmission? */
  predicate ExpectsDiscoveryReply(s: Driver) {
    s.isController && s.lastControllerPid == PID_DISC_UNIQUE_BRANCH
  }

  predicate ExpectsResponse(s: Driver) {
    s.isController && s.lastControllerPid != 0 &&
    (!s.lastRequestWasBroadcast || s.lastControllerPid == PID_DISC_UNIQUE_BRANCH)
  }

  /** The interrupt for the end of a transmission: the bus is turned around if a response is expected. */
  function TxDone(s: Driver): (s': Driver)
    requires Valid(s)
    ensures Valid(s') && (IsLive(s'.progress) ==> ExpectsDiscoveryReply(s))
  {
    var t := s.(txDataEnabled := false, txDoneEnabled := false, progress := Complete, status := Idle);
    if !ExpectsResponse(t) then t
    else if ExpectsDiscoveryReply(t) then t.(progress := InData, head := 0, rxFifo := [], reading := true)
    else t.(progress := Stale, head := WAITING_FOR_BREAK, rxFifo := [], reading := true)
  }

  // ---------- tasks ----------

  /** A task asks for a packet of `size` slots: the bus is turned to reading, and the new size compared. */
  function StartReceive(s: Driver, size: nat): (s': Driver)
    requires Valid(s) && s.status != Sending
    ensures Valid(s') && (IsLive(s'.progress) ==> s.reading && IsLive(s.progress))
  {
    var t := if !s.reading then s.(progress := Stale, head := WAITING_FOR_BREAK, reading := true) else s;
    if size == t.size then t
    else
      var u := t.(size := size);
      if u.progress != Stale && Unsigned(u.head) >= size then u.(progress := Complete) else u
  }

  /** The task waits for the packet. A controller, which expects a response, does not wait for ever. */
  function Await(s: Driver): (s': Driver)
    requires Valid(s)
    ensures Valid(s') && s'.progress == s.progress && s'.reading == s.reading
  {
    s.(timerRunning := s.timerRunning || s.isController)
  }

  /** The task takes the packet, which is not to be parsed again. */
  function TakePacket(s: Driver): (s': Driver)
    requires Valid(s)
    ensures Valid(s') && !IsLive(s'.progress)
  {
    s.(progress := Stale)
  }

  /** Writing to the buffer turns the bus to sending. While an RDM packet is being sent, nothing is written. */
  function WriteOffset(s: Driver, offset: nat, bytes: seq<Byte>): (s': Driver)
    requires Valid(s) && offset < BUFFER_SIZE
    ensures Valid(s') && s'.progress == s.progress && (s'.reading ==> s.reading)
  {
    if bytes == [] || (s.status == Sending && ReadHeader(s.data).Some?) then s
    else
      var n := Min(|bytes|, BUFFER_SIZE - offset);
      s.(reading := false, data := s.data[..offset] + bytes[..n] + s.data[offset + n..])
  }

  /** A responder's last step after its response was sent: the bus is turned to reading again. */
  function AfterResponse(s: Driver): (s': Driver)
    requires Valid(s)
    ensures Valid(s') && s'.progress == s.progress
  {
    s.(head := WAITING_FOR_BREAK, reading := true)
  }
}
