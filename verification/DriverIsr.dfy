/**
 The driver as the library has it: a structure whose fields the interrupt routines of the UART and of
 the timer, and the calls of tasks, update in place. Each is a step of `Drivers`.
 */
module DriverIsr {
  import opened Bytes
  import opened Uids
  import opened Packets
  import opened PacketIO
  import opened Drivers

  /** What kind of packet is being received, as far as is known. */
  datatype RdmType = NotRdm | Discovery | Unknown

  class DmxDriver {
    const data: array<Byte>
    var head: int
    var size: int
    var status: Status
    var progress: Progress
    var lastControllerPid: Word
    var lastResponderPid: Word
    var responderSentLast: bool
    var lastRequestWasBroadcast: bool
    var isController: bool

    // The hardware: the direction of the bus, the UART's queue and interrupts, and the timer.
    var reading: bool
    var rxFifo: seq<Byte>
    var txDataEnabled: bool
    var txDoneEnabled: bool
    var timerRunning: bool
    ghost var wire: seq<Symbol>

    ghost function State(): Driver
      reads this, data
    {
      Driver(head, data[..], size, status, progress, lastControllerPid, lastResponderPid, responderSentLast,
             lastRequestWasBroadcast, isController, reading, rxFifo, timerRunning, txDataEnabled, txDoneEnabled, wire)
    }

    ghost predicate Valid()
      reads this, data
    {
      Drivers.Valid(State())
    }

    /** A new driver waits for a break. */
    constructor ()
      ensures Valid() && fresh(data)
      ensures State() == Installed()
    {
      data := new Byte[BUFFER_SIZE](_ => 0);
      head, size, status, progress := WAITING_FOR_BREAK, BUFFER_SIZE, Idle, Stale;
      lastControllerPid, lastResponderPid, responderSentLast := 0, 0, false;
      lastRequestWasBroadcast, isController := false, false;
      reading, rxFifo, txDataEnabled, txDoneEnabled, timerRunning := true, [], false, false, false;
      wire := [];
      new;
      assert data[..] == seq(BUFFER_SIZE, _ => 0);
    }

    // ---------- receiving ----------

    /** Reads what the UART received into the buffer if there is room, and counts it in any case. */
    method ReadFifo()
      requires Valid()
      modifies this, data
      ensures Valid() && State() == Fill(old(State()))
    {
      if 0 <= head < BUFFER_SIZE {
        var n := Min(BUFFER_SIZE - head, |rxFifo|);
        forall i | 0 <= i < n {
          data[head + i] := rxFifo[i];
        }
        assert data[..] == old(data[..head]) + rxFifo[..n] + old(data[head + n..]);
        head := head + n;
        rxFifo := rxFifo[n..];
      } else {
        if head > 0 {
          head := head + |rxFifo|;
        }
        rxFifo := [];
      }
    }

    /** The index of the delimiter of a discovery reply; more than 8 if there is none where one can be. */
    method DelimiterAt() returns (at: nat)
      requires Valid()
      ensures at == DelimiterSlot(data[..], 0)
    {
      at := 0;
      while at <= 7
        invariant at <= 8 && DelimiterSlot(data[..], at) == DelimiterSlot(data[..], 0)
      {
        if data[at] != PREAMBLE {
          if data[at] != DELIMITER {
            at := 9;
          }
          break;
        }
        at := at + 1;
      }
    }

    /** Parses a discovery reply. */
    method ParseReply() returns (kind: RdmType, complete: bool)
      requires Valid() && data[0] != SC && (data[0] == PREAMBLE || data[0] == DELIMITER)
      modifies this
      ensures var v := Classify(old(data[..]), old(head), old(size));
              if kind == NotRdm then v == Plain(head >= size) && State() == old(State())
              else State() == Record(old(State()), v) && complete == v.IsComplete()
    {
      if head < 17 {
        return Discovery, false;
      }
      var at := DelimiterAt();
      if at > 8 {
        return NotRdm, false;
      }
      if head < at + 17 {
        return Discovery, false;
      }
      var header := ReadPacketHeader(data);
      if header.None? {
        return NotRdm, false;
      }
      lastResponderPid := PID_DISC_UNIQUE_BRANCH;
      responderSentLast := true;
      return Discovery, true;
    }

    /** Parses a standard packet. */
    method ParseStandard() returns (kind: RdmType, complete: bool)
      requires Valid() && data[0] == SC
      modifies this
      ensures var v := Classify(old(data[..]), old(head), old(size));
              if kind == NotRdm then v == Plain(head >= size) && State() == old(State())
              else State() == Record(old(State()), v) && complete == v.IsComplete()
    {
      if Unsigned(head) < HEADER_SIZE + 2 {
        return Unknown, false;
      }
      if data[1] != SUB_SC || !CcIsValid(data[20]) || data[2] < HEADER_SIZE {
        return NotRdm, false;
      }
      if head < data[2] as int + 2 {
        return Unknown, false;
      }
      var header := ReadPacketHeader(data);
      if header.None? {
        return NotRdm, false;
      }
      if CcIsRequest(data[20]) {
        lastControllerPid := Be16(data[21], data[22]);
        responderSentLast := false;
      } else {
        lastResponderPid := Be16(data[21], data[22]);
        responderSentLast := true;
      }
      return Unknown, true;
    }

    /** Finds out whether the packet being received is complete. One that turns out to be malformed is taken for DMX. */
    method ParsePacket() returns (complete: bool)
      requires Valid()
      modifies this
      ensures var v := Classify(old(data[..]), old(head), old(size));
              State() == Record(old(State()), v) && complete == v.IsComplete()
    {
      var sc := data[0];
      var kind := NotRdm;
      complete := false;
      if sc == SC {
        kind, complete := ParseStandard();
      } else if sc == PREAMBLE || sc == DELIMITER {
        kind, complete := ParseReply();
      }
      if kind == NotRdm {
        lastControllerPid := 0;
        responderSentLast := false;
        complete := head >= size;
      }
    }

    /** The interrupt for received data. Returns what the waiting task is told, if anything. */
    method RxInterrupt(isBreak: bool, err: Error) returns (notice: Option<Error>)
      requires Valid()
      modifies this, data
      ensures Valid() && Outcome(State(), notice) == Receive(old(State()), isBreak, err)
    {
      ReadFifo();
      if isBreak {
        notice := OnBreak();
      } else {
        notice := OnSlots(err);
      }
    }

    method OnBreak() returns (notice: Option<Error>)
      requires Valid()
      modifies this
      ensures Valid() && Outcome(State(), notice) == ReceiveBreak(old(State()))
    {
      notice := None;
      if progress == InData && head > 0 {
        size := head - 1;
        notice := Some(NotEnoughSlots);
      }
      status := Receiving;
      progress := InBreak;
      head := 0;
    }

    method OnSlots(err: Error) returns (notice: Option<Error>)
      requires Valid()
      modifies this
      ensures Valid() && Outcome(State(), notice) == ReceiveSlots(old(State()), err)
    {
      if progress == InBreak || progress == InMab {
        progress := InData;
      }
      if progress != InData {
        return None;
      }
      if err == NoError {
        var complete := ParsePacket();
        if !complete {
          return None;
        }
      }
      notice := EndPacket(err);
    }

    method EndPacket(err: Error) returns (notice: Option<Error>)
      requires Valid()
      modifies this
      ensures Valid() && Outcome(State(), notice) == FinishPacket(old(State()), err)
    {
      timerRunning := false;
      progress := Complete;
      status := Idle;
      notice := Some(err);
    }

    // ---------- sending ----------

    /** Puts up to `n` slots, from `at` on, into a UART that has room for `space`. */
    method WriteFifo(at: nat, n: nat, space: nat) returns (written: nat)
      requires at + n <= data.Length
      modifies this`wire
      ensures written == Min(n, space) && wire == old(wire) + Slots(data[..][at..at + written])
    {
      written := Min(n, space);
      wire := wire + Slots(data[..][at..at + written]);
    }

    method TxDataInterrupt(space: nat)
      requires Valid() && status == Sending && 0 <= head <= size
      modifies this
      ensures Valid() && State() == TxData(old(State()), space)
    {
      var written := WriteFifo(head, size - head, space);
      head := head + written;
      if head == size {
        txDataEnabled := false;
      }
    }

    method TxDoneInterrupt()
      requires Valid()
      modifies this
      ensures Valid() && State() == TxDone(old(State()))
    {
      txDataEnabled, txDoneEnabled := false, false;
      progress := Complete;
      status := Idle;
      if !isController || lastControllerPid == 0 ||
         (lastRequestWasBroadcast && lastControllerPid != PID_DISC_UNIQUE_BRANCH) {
        return;
      }
      var next := Stale;
      if lastControllerPid == PID_DISC_UNIQUE_BRANCH {
        next := InData;
        head := 0;
      } else {
        head := WAITING_FOR_BREAK;
      }
      rxFifo := [];
      reading := true;
      progress := next;
    }

    method TimerInterrupt(space: nat)
      requires Valid()
      modifies this
      ensures Valid() && State() == Alarm(old(State()), space)
    {
      if status == Sending {
        if progress == InBreak {
          wire := wire + [BreakEnds];
          progress := InMab;
        } else {
          head := WriteFifo(0, size, space);
          timerRunning := false;
          txDataEnabled, txDoneEnabled := true, true;
        }
      } else {
        timerRunning := false;
      }
    }

    /** Starts to send the packet in the buffer, once the port is done with the last. Returns its size. */
    method SendNum(num: nat, space: nat) returns (sent: nat)
      requires Valid() && status != Sending
      modifies this
      ensures Valid() && State() == Send(old(State()), num, space)
      ensures sent == SendSize(HeaderToSend(data[..]), num)
    {
      var header := ReadPacketHeader(data);
      if header.Some? && !CcIsValid(header.value.cc) {
        header := None;
      }
      sent := PrepareToSend(header, num);
      Start(header, space);
    }

    method PrepareToSend(header: Option<Header>, num: nat) returns (sent: nat)
      requires Valid()
      modifies this
      ensures Valid() && State() == Prepare(old(State()), header, num) && sent == SendSize(header, num)
    {
      sent := SizeToSend(header, num);
      reading, size, status := false, sent, Sending;
      NotePacket(header);
    }

    method Start(header: Option<Header>, space: nat)
      requires Valid() && 0 <= size <= BUFFER_SIZE
      modifies this
      ensures Valid() && State() == Begin(old(State()), header, space)
    {
      if header.Some? && header.value.cc == CC_DISC_COMMAND_RESPONSE && header.value.pid == PID_DISC_UNIQUE_BRANCH {
        head := WriteFifo(0, size, space);
        txDataEnabled, txDoneEnabled := true, true;
      } else {
        head := 0;
        progress := InBreak;
        timerRunning := true;
        wire := wire + [BreakBegins];
      }
    }

    method SizeToSend(header: Option<Header>, num: nat) returns (n: nat)
      ensures n == SendSize(header, num)
    {
      n := num;
      if header.Some? {
        if header.value.cc == CC_DISC_COMMAND_RESPONSE && header.value.pid == PID_DISC_UNIQUE_BRANCH {
          n := header.value.messageLen;
        } else {
          n := header.value.messageLen as nat + 2;
        }
      } else if num == 0 || num > BUFFER_SIZE {
        n := BUFFER_SIZE;
      }
    }

    /** Records what kind of packet is sent. */
    method NotePacket(header: Option<Header>)
      requires Valid()
      modifies this
      ensures Valid() && State() == Remember(old(State()), header)
    {
      isController := header.None? || CcIsRequest(header.value.cc);
      var pid: Word := if header.Some? then header.value.pid else 0;
      if isController {
        lastControllerPid := pid;
        lastRequestWasBroadcast := header.Some? && IsBroadcast(header.value.dest);
        responderSentLast := false;
      } else {
        lastResponderPid := pid;
        responderSentLast := true;
      }
    }

    // ---------- reading and writing ----------

    /** Turns the bus to reading and updates the number of slots expected. */
    method ReceiveNum(num: nat)
      requires Valid() && status != Sending
      modifies this
      ensures Valid() && State() == StartReceive(old(State()), num)
    {
      if !reading {
        progress := Stale;
        head := WAITING_FOR_BREAK;
        reading := true;
      }
      if num != size {
        size := num;
        if progress != Stale && Unsigned(head) >= num {
          progress := Complete;
        }
      }
    }

    /** Copies bytes of the buffer to a destination of `num` bytes. Returns how many. */
    method ReadOffset(offset: nat, destination: array<Byte>, num: nat) returns (n: nat)
      requires Valid() && offset < BUFFER_SIZE && destination != data
      requires Min(num, BUFFER_SIZE - offset) <= destination.Length
      modifies destination
      ensures n == Min(num, BUFFER_SIZE - offset)
      ensures destination[..n] == data[offset..offset + n] && destination[n..] == old(destination[n..])
    {
      n := if num + offset > BUFFER_SIZE then BUFFER_SIZE - offset else num;
      forall i | 0 <= i < n {
        destination[i] := data[offset + i];
      }
    }

    /** Copies bytes to the buffer, unless an RDM packet is being sent. Returns how many. */
    method WriteOffset(offset: nat, source: seq<Byte>) returns (n: nat)
      requires Valid() && offset < BUFFER_SIZE
      modifies this, data
      ensures Valid() && State() == Drivers.WriteOffset(old(State()), offset, source)
      ensures n == if old(status) == Sending && ReadHeader(old(data[..])).Some? then 0
                   else Min(|source|, BUFFER_SIZE - offset)
    {
      n := if |source| + offset > BUFFER_SIZE then BUFFER_SIZE - offset else |source|;
      if n == 0 {
        return;
      }
      if status == Sending {
        var header := ReadPacketHeader(data);
        if header.Some? {
          return 0;
        }
      }
      reading := false;
      forall i | 0 <= i < n {
        data[offset + i] := source[i];
      }
      assert data[..] == old(data[..offset]) + source[..n] + old(data[offset + n..]);
    }
  }
}
