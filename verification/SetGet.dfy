/**
 A SET request and a later GET request of the same parameter, over the wire.
 */
module SetGet {
  import opened Bytes
  import opened Uids
  import opened Formats
  import opened Encoding
  import opened Encoder
  import opened Packets
  import opened PacketIO
  import opened RoundTrip
  import opened Responders
  import opened ResponderRuns
  import Answers
  import Parameters

  /** The most parameter data in a response: a packet of more than 255 bytes is replaced by a NACK. */
  const RESPONSE_PD_MAX := 229

  /**
   Is the parameter, of `n` bytes, handled by the simple handler, with the same format for what is set
   and what is got: fixed-size fields without literals, that the size is made of?
   */
  predicate IsSimple(r: Responder, pid: Word, format: string, n: nat) {
    && Responders.Valid(r) && pid > 0 && pid != PID_DISC_UNIQUE_BRANCH && 1 <= n < PD_MAX
    && Parameters.Find(r.table.entries, pid, 0).Some? && Parameters.HasData(r.table, pid)
    && Parameters.SizeOf(r.table, pid) == n
    && pid in r.definitions && r.definitions[pid].pidCc == GetSet && r.definitions[pid].handler == SimpleHandler
    && r.definitions[pid].getResponse == Some(format) && r.definitions[pid].setRequest == Some(format)
    && IsFixed(format, n)
  }

  predicate IsFixed(format: string, n: nat) {
    && Formats.Valid(format) && Lex(format) != EndOfString
    && Usable(Lex(format)) && !HasLiteral(Lex(format)) && Fits(Lex(format), n)
  }

  /** The parameter as it is in memory. */
  function Value(r: Responder, pid: Word): seq<Byte>
    requires pid > 0 && Parameters.HasData(r.table, pid)
  {
    Parameters.Copy(r.table, pid, PD_MAX)
  }

  /** Does the buffer start with a request for the parameter, that targets this device? */
  predicate Receives(r: Responder, h: Header, pd: seq<Byte>) {
    && Responders.Valid(r) && |pd| <= PD_MAX && h.pdl == |pd| && h.messageLen == HEADER_SIZE + h.pdl
    && StandardPacket(h, pd) <= r.data
    && h.subDevice == SUB_DEVICE_ROOT && IsTarget(r.uid, h.dest)
  }

  lemma {:induction false} RequestIsReceived(r: Responder, h: Header, pd: seq<Byte>)
    requires Receives(r, h, pd) && CcIsValid(h.cc)
    ensures RequestFor(r) == Some(h) && pd <= r.data[HEADER_SIZE..]
    ensures h.pdl != 0 ==> r.data[23] == h.pdl
  {
    var p := StandardPacket(h, pd);
    var rest := r.data[|p|..];
    assert r.data == p + rest;
    PacketRoundTrip(h, pd, rest);
    assert WithPd(h, pd) == h;
    TargetHandles(r, h);
    if h.pdl != 0 {
      PdlIsRead(r.data, h);
    }
  }

  /** Decoding gives as many bytes as there are, and encoding those gives the wire's bytes back. */
  lemma {:induction false} DecodeThenEncode(format: string, n: nat, wire: seq<Byte>, rest: seq<Byte>)
    requires IsFixed(format, n) && |wire| == n
    ensures var f := Lex(format);
            && Encodable(f, wire + rest, n)
            && var out := Encode(f, wire + rest, n, true);
               |out| == n && Encodable(f, out, n) && Encode(f, out, n, false) == wire
  {
    var f := Lex(format);
    NoLiteralsInPlace(f, wire + rest, n);
    EncodeTwice(f, wire + rest, n, [], true, false);
    PartsOfConcat(wire, rest);
    var out := Encode(f, wire + rest, n, true);
    assert out + [] == out;
  }

  // ---------- SET ----------

  /** What the bytes on the wire stand for in memory. */
  predicate StandsFor(format: string, memory: seq<Byte>, wire: seq<Byte>) {
    IsFixed(format, |wire|) && |memory| == |wire| && Encodable(Lex(format), memory, |wire|)
    && Encode(Lex(format), memory, |wire|, false) == wire
  }

  lemma {:induction false} SpliceAtStart(buffer: seq<Byte>, bytes: seq<Byte>)
    requires |bytes| <= |buffer|
    ensures Splice(buffer, 0, bytes)[..|bytes|] == bytes
  {
    PartsOfConcat(bytes, buffer[|bytes|..]);
    assert Splice(buffer, 0, bytes) == bytes + buffer[|bytes|..];
  }

  lemma {:induction false} DataStandFor(data: seq<Byte>, stack: seq<Byte>, format: string, n: nat, wire: seq<Byte>)
    requires |data| == BUFFER_SIZE && |stack| == PD_MAX && IsFixed(format, n) && n <= PD_MAX
    requires |wire| == n == data[23] && wire <= data[HEADER_SIZE..]
    ensures Encodable(Lex(format), data[HEADER_SIZE..], n) && |PdOf(data, Lex(format), n)| == n
    ensures StandsFor(format, Splice(stack, 0, PdOf(data, Lex(format), n))[..n], wire)
  {
    var tail := data[HEADER_SIZE..];
    assert tail == wire + tail[n..];
    DecodeThenEncode(format, n, wire, tail[n..]);
    assert PdOf(data, Lex(format), n) == Encode(Lex(format), tail, n, true);
    SpliceAtStart(stack, PdOf(data, Lex(format), n));
  }

  lemma {:induction false} SetIsDecoded(r: Responder, h: Header, format: string, wire: seq<Byte>)
    requires IsSimple(r, h.pid, format, |wire|) && Receives(r, h, wire) && CcIsValid(h.cc)
    ensures var def := r.definitions[h.pid];
            CanSet(r, def, h.pdl) && StandsFor(format, Decoded(r, def, h.pdl), wire)
  {
    RequestIsReceived(r, h, wire);
    DataStandFor(r.data, r.stack, format, h.pdl, wire);
  }

  lemma {:induction false} SetIsStored(t: Parameters.Table, pid: Word, bytes: seq<Byte>)
    requires pid > 0 && Parameters.HasData(t, pid) && Parameters.Find(t.entries, pid, 0).Some?
    requires bytes != [] && |bytes| == Parameters.SizeOf(t, pid) <= PD_MAX
    ensures var u := Parameters.Set(t, pid, bytes).0;
            && Parameters.Find(u.entries, pid, 0).Some? && Parameters.HasData(u, pid)
            && Parameters.SizeOf(u, pid) == |bytes| && Parameters.Copy(u, pid, PD_MAX) == bytes
  {
    var at := Parameters.Find(t.entries, pid, 0).value;
    var u := Parameters.Set(t, pid, bytes).0;
    Parameters.FindAfterUpdate(t.entries, at, u.entries[at], pid, 0);
    var cell := t.entries[at].cell.value;
    PartsOfConcat(bytes, t.heap[cell][|bytes|..]);
    assert bytes[..|bytes|] == bytes;
  }

  /** Is the parameter's memory its own? */
  predicate IsPrivate(t: Parameters.Table, pid: Word)
    requires pid > 0
  {
    var at := Parameters.Find(t.entries, pid, 0);
    at.Some? && t.entries[at.value].cell.Some?
    && forall i :: 0 <= i < |t.entries| && i != at.value && t.entries[i].pid != 0 ==>
       t.entries[i].cell != t.entries[at.value].cell
  }

  lemma {:induction false} SetKeepsPrivate(t: Parameters.Table, pid: Word, bytes: seq<Byte>)
    requires pid > 0 && Parameters.HasData(t, pid) && IsPrivate(t, pid)
    ensures IsPrivate(Parameters.Set(t, pid, bytes).0, pid)
  {
    var u, at := Parameters.Set(t, pid, bytes).0, Parameters.Find(t.entries, pid, 0);
    Parameters.FindAfterUpdate(t.entries, at.value, u.entries[at.value], pid, 0);
  }

  lemma {:induction false} SetIsAcknowledged(r: Responder, h: Header, format: string, n: nat)
    requires IsSimple(r, h.pid, format, n) && IsRequest(h) && ReadHeader(r.data) == Some(h) && CanHandle(r, h)
    requires h.cc == CC_SET_COMMAND && h.subDevice == SUB_DEVICE_ROOT && h.pdl <= PD_MAX && IsTarget(r.uid, h.dest)
    ensures h.cc < 0xff && Respond(r).sent ==
            if IsBroadcast(h.dest) then None
            else Some(StandardPacket(Answers.AnswerHeader(r, h, RESPONSE_ACK, 0), []))
  {
    Answers.KnownIsDefined(r, h);
    Answers.EveryAnswerIsExact(r, h);
    assert Answers.AnswerTo(r, h) == Answers.Ack([]);
  }

  /**
   A SET request, addressed to this device or broadcast, stores what its parameter data stand for. If it
   is not a broadcast it is acknowledged, without data.
   */
  lemma {:induction false} SetStores(r: Responder, h: Header, format: string, wire: seq<Byte>)
    requires IsSimple(r, h.pid, format, |wire|) && Receives(r, h, wire) && h.cc == CC_SET_COMMAND
    ensures RequestFor(r) == Some(h) && CanHandle(r, h)
    ensures var u := Respond(r).state;
            && IsSimple(u, h.pid, format, |wire|) && StandsFor(format, Value(u, h.pid), wire)
            && (IsPrivate(r.table, h.pid) ==> IsPrivate(u.table, h.pid))
    ensures h.cc < 0xff && Respond(r).sent ==
            if IsBroadcast(h.dest) then None
            else Some(StandardPacket(Answers.AnswerHeader(r, h, RESPONSE_ACK, 0), []))
  {
    RequestIsReceived(r, h, wire);
    SetIsDecoded(r, h, format, wire);
    var def := r.definitions[h.pid];
    SetIsStored(r.table, h.pid, Decoded(r, def, h.pdl));
    var u := r.(table := Parameters.Set(r.table, h.pid, Decoded(r, def, h.pdl)).0);
    AckAnswers(u, h, None, None, 0);
    SetIsAcknowledged(r, h, format, |wire|);
    if IsPrivate(r.table, h.pid) {
      SetKeepsPrivate(r.table, h.pid, Decoded(r, def, h.pdl));
    }
  }

  // ---------- GET ----------

  /** What answers a GET of a parameter that stands for these bytes. */
  function GetAnswer(wire: seq<Byte>): (a: Answers.Answer)
    requires |wire| < PD_MAX
    ensures a.Ack? ==> |a.pd| <= PD_MAX
  {
    if |wire| <= RESPONSE_PD_MAX then Answers.Ack(wire) else Answers.Nack(NR_HARDWARE_FAULT)
  }

  function GetResponse(r: Responder, h: Header, wire: seq<Byte>): seq<Byte>
    requires h.cc < 0xff && |wire| < PD_MAX
  {
    Answers.AnswerPacket(r, h, GetAnswer(wire)).value
  }

  lemma {:induction false} GetIsAnswered(r: Responder, h: Header, format: string, wire: seq<Byte>)
    requires IsSimple(r, h.pid, format, |wire|) && StandsFor(format, Value(r, h.pid), wire)
    requires IsRequest(h) && h.cc == CC_GET_COMMAND && h.subDevice == SUB_DEVICE_ROOT && h.pdl == 0
    ensures CanHandle(r, h) && Answers.AnswerTo(r, h) == GetAnswer(wire)
  {
    Answers.KnownIsDefined(r, h);
    assert Answers.ParameterData(r, r.definitions[h.pid], h.pid) == wire;
  }

  lemma {:induction false} GetKeepsTable(r: Responder, h: Header)
    requires Responders.Valid(r) && CanHandle(r, h) && h.cc == CC_GET_COMMAND && RequestFor(r) == Some(h)
    ensures Respond(r).state.table == r.table
  {
    OnlyHandlersChangeTable(r, h);
  }

  /**
   A GET request addressed to this device is answered with the bytes that the parameter stands for, if
   they are at most 229. The response to one of 230 bytes is written, and then replaced by a NACK.
   */
  lemma {:induction false} GetSends(r: Responder, h: Header, format: string, wire: seq<Byte>)
    requires IsSimple(r, h.pid, format, |wire|) && StandsFor(format, Value(r, h.pid), wire)
    requires Receives(r, h, []) && h.cc == CC_GET_COMMAND && !IsBroadcast(h.dest)
    ensures RequestFor(r) == Some(h) && CanHandle(r, h)
    ensures Respond(r).sent == Some(GetResponse(r, h, wire))
    ensures Respond(r).state.table == r.table
  {
    RequestIsReceived(r, h, []);
    GetIsAnswered(r, h, format, wire);
    Answers.EveryAnswerIsExact(r, h);
    GetKeepsTable(r, h);
  }

  // ---------- from one to the other ----------

  /** The same parameter, in the same memory, with the same contents. */
  predicate IsUnchanged(t: Parameters.Table, u: Parameters.Table, pid: Word)
    requires pid > 0
  {
    && Parameters.HasData(t, pid) && Parameters.HasData(u, pid)
    && Parameters.Find(u.entries, pid, 0) == Parameters.Find(t.entries, pid, 0)
    && Parameters.SizeOf(u, pid) == Parameters.SizeOf(t, pid)
    && Parameters.Copy(u, pid, PD_MAX) == Parameters.Copy(t, pid, PD_MAX)
    && (IsPrivate(t, pid) ==> IsPrivate(u, pid))
  }

  lemma {:induction false} SetKeepsOthers(t: Parameters.Table, pid: Word, other: Word, bytes: seq<Byte>)
    requires pid > 0 && Parameters.HasData(t, pid) && IsPrivate(t, pid)
    requires other > 0 && other != pid && Parameters.HasData(t, other)
    ensures IsUnchanged(t, Parameters.Set(t, other, bytes).0, pid)
  {
    var u, at := Parameters.Set(t, other, bytes).0, Parameters.Find(t.entries, other, 0);
    if at.Some? {
      Parameters.FindAfterUpdate(t.entries, at.value, u.entries[at.value], pid, 0);
    }
  }

  predicate IsNoSet(h: Header, pid: Word) {
    h.pid != pid || h.cc == CC_GET_COMMAND
  }

  /** Only a handler changes the table. */
  lemma {:induction false} OnlyHandlersChangeTable(r: Responder, h: Header)
    requires CanHandle(r, h)
    ensures var d := DefinitionOf(r, h.subDevice, h.pid);
            || Dispatch(r, h).state.table == r.table
            || (d.Some? && Supports(d.value, h.cc) && Dispatch(r, h).state.table == Handle(r, d.value, h).state.table)
  {
  }

  lemma {:induction false} HandlerKeepsParameter(r: Responder, def: Definition, h: Header, pid: Word)
    requires CanHandle(r, h) && DefinitionOf(r, h.subDevice, h.pid) == Some(def) && Supports(def, h.cc)
    requires pid > 0 && Parameters.HasData(r.table, pid) && IsPrivate(r.table, pid) && IsNoSet(h, pid)
    ensures IsUnchanged(r.table, Handle(r, def, h).state.table, pid)
  {
    if def.handler == SimpleHandler && h.cc != CC_GET_COMMAND {
      SetKeepsOthers(r.table, pid, h.pid, Decoded(r, def, h.pdl));
    } else if def.handler == DiscoveryHandler && h.pid != PID_DISC_UNIQUE_BRANCH {
      SetKeepsOthers(r.table, pid, h.pid, [if h.pid == PID_DISC_MUTE then 1 else 0]);
    }
  }

  /** A packet for another parameter, or a GET, leaves the parameter as it is. */
  lemma {:induction false} OthersKeepParameter(r: Responder, pid: Word)
    requires Responders.Valid(r) && pid > 0 && Parameters.HasData(r.table, pid) && IsPrivate(r.table, pid)
    requires RequestFor(r).Some? ==> CanHandle(r, RequestFor(r).value) && IsNoSet(RequestFor(r).value, pid)
    ensures IsUnchanged(r.table, Respond(r).state.table, pid)
  {
    if RequestFor(r).Some? {
      var h := RequestFor(r).value;
      var d := DefinitionOf(r, h.subDevice, h.pid);
      OnlyHandlersChangeTable(r, h);
      if d.Some? && Supports(d.value, h.cc) {
        HandlerKeepsParameter(r, d.value, h, pid);
      }
    }
  }

  /**
   The device after it handled the packets that the buffer held, one after the other, none of them a SET
   of the parameter.
   */
  function Serve(r: Responder, buffers: seq<seq<Byte>>, pid: Word): (u: Responder)
    requires LeaveAlone(r, buffers, pid)
    ensures u == r.(data := u.data, table := u.table)
    decreases |buffers|
  {
    if buffers == [] then r else Serve(Respond(r.(data := buffers[0])).state, buffers[1..], pid)
  }

  predicate LeaveAlone(r: Responder, buffers: seq<seq<Byte>>, pid: Word)
    decreases |buffers|
  {
    Responders.Valid(r) &&
    (buffers == [] ||
     var s := r.(data := buffers[0]);
     && Responders.Valid(s)
     && (RequestFor(s).Some? ==> CanHandle(s, RequestFor(s).value) && IsNoSet(RequestFor(s).value, pid))
     && LeaveAlone(Respond(s).state, buffers[1..], pid))
  }

  lemma {:induction false} ServeKeepsParameter(r: Responder, buffers: seq<seq<Byte>>, pid: Word)
    requires LeaveAlone(r, buffers, pid) && pid > 0 && Parameters.HasData(r.table, pid) && IsPrivate(r.table, pid)
    ensures IsUnchanged(r.table, Serve(r, buffers, pid).table, pid)
    decreases |buffers|
  {
    if buffers != [] {
      var s := r.(data := buffers[0]);
      OthersKeepParameter(s, pid);
      ServeKeepsParameter(Respond(s).state, buffers[1..], pid);
    }
  }

  /** Does the receiver of the packet in the buffer read this header, and these parameter data? */
  predicate Reads(data: seq<Byte>, header: Header, pd: seq<Byte>)
    requires |data| == BUFFER_SIZE
  {
    ReadHeader(data) == Some(header) && pd <= data[HEADER_SIZE..]
  }

  lemma {:induction false} UnchangedIsSimple(r: Responder, u: Responder, pid: Word, format: string, wire: seq<Byte>)
    requires IsSimple(r, pid, format, |wire|) && StandsFor(format, Value(r, pid), wire)
    requires Responders.Valid(u) && u.definitions == r.definitions && IsUnchanged(r.table, u.table, pid)
    ensures IsSimple(u, pid, format, |wire|) && StandsFor(format, Value(u, pid), wire)
  {
  }

  /** The header of a response that acknowledges a GET. */
  function GetHeader(get: Header, uid: Uid, queueSize: Byte, pdl: Byte): Header
    requires pdl < PD_MAX
  {
    Header(HEADER_SIZE + pdl, get.src, uid, get.tn, RESPONSE_ACK, queueSize, SUB_DEVICE_ROOT, CC_GET_COMMAND + 1,
        get.pid, pdl)
  }

  /**
   Whatever follows the response in its receiver's buffer, what is read is the parameter if and only if
   that is short enough.
   */
  lemma {:induction false} ResponseCarries(r: Responder, h: Header, wire: seq<Byte>, rest: seq<Byte>)
    requires h.cc == CC_GET_COMMAND && h.subDevice == SUB_DEVICE_ROOT && |wire| < PD_MAX
    requires |GetResponse(r, h, wire) + rest| == BUFFER_SIZE
    ensures Reads(GetResponse(r, h, wire) + rest, GetHeader(h, r.uid, r.queueSize, |wire|), wire) <==>
            |wire| <= RESPONSE_PD_MAX
  {
    if |wire| <= RESPONSE_PD_MAX {
      PacketRoundTrip(GetHeader(h, r.uid, r.queueSize, |wire|), wire, rest);
    } else {
      PacketRoundTrip(Answers.AnswerHeader(r, h, RESPONSE_NACK_REASON, 2), WordWire(NR_HARDWARE_FAULT), rest);
    }
  }

  lemma {:induction false} GetAfter(
      u: Responder, wire: seq<Byte>, between: seq<seq<Byte>>, last: seq<Byte>, getHeader: Header, format: string)
    requires IsSimple(u, getHeader.pid, format, |wire|) && StandsFor(format, Value(u, getHeader.pid), wire) &&
             IsPrivate(u.table, getHeader.pid)
    requires LeaveAlone(u, between, getHeader.pid)
    requires Receives(Serve(u, between, getHeader.pid).(data := last), getHeader, [])
    requires getHeader.cc == CC_GET_COMMAND && !IsBroadcast(getHeader.dest)
    ensures var t := Serve(u, between, getHeader.pid).(data := last);
            && RequestFor(t) == Some(getHeader) && CanHandle(t, getHeader)
            && Respond(t).sent == Some(GetResponse(t, getHeader, wire))
  {
    var t := Serve(u, between, getHeader.pid).(data := last);
    ServeKeepsParameter(u, between, getHeader.pid);
    UnchangedIsSimple(u, t, getHeader.pid, format, wire);
    GetSends(t, getHeader, format, wire);
  }

  /** The device after it handled a SET of the parameter. */
  function AfterSet(r: Responder, h: Header, format: string, wire: seq<Byte>): (u: Responder)
    requires IsSimple(r, h.pid, format, |wire|) && IsPrivate(r.table, h.pid)
    requires Receives(r, h, wire) && h.cc == CC_SET_COMMAND
    ensures u == r.(data := u.data, table := u.table) && IsSimple(u, h.pid, format, |wire|)
    ensures StandsFor(format, Value(u, h.pid), wire) && IsPrivate(u.table, h.pid)
  {
    SetStores(r, h, format, wire);
    Respond(r).state
  }

  /**
   SET, then GET: whatever the device handles in between that is not a SET of the parameter, the GET is
   answered with exactly the bytes of the SET, if and only if these are at most 229. The response is
   addressed to the GET's sender, comes from this device, and has the GET's transaction number,
   sub-device and PID, and its command class made a response. A longer parameter, of 230 bytes, is
   stored by the SET, but the GET is answered with a NACK. `rest` is what follows the response in the
   buffer of its receiver.
   */
  lemma {:induction false} SetThenGet(
      r: Responder, setHeader: Header, wire: seq<Byte>, between: seq<seq<Byte>>, last: seq<Byte>, getHeader: Header,
      format: string, rest: seq<Byte>)
    requires IsSimple(r, setHeader.pid, format, |wire|) && IsPrivate(r.table, setHeader.pid)
    requires Receives(r, setHeader, wire) && setHeader.cc == CC_SET_COMMAND
    requires LeaveAlone(AfterSet(r, setHeader, format, wire), between, setHeader.pid)
    requires Receives(Serve(AfterSet(r, setHeader, format, wire), between, setHeader.pid).(data := last), getHeader, [])
    requires getHeader.cc == CC_GET_COMMAND && getHeader.pid == setHeader.pid && !IsBroadcast(getHeader.dest)
    ensures var t := Serve(AfterSet(r, setHeader, format, wire), between, setHeader.pid).(data := last);
            && RequestFor(t) == Some(getHeader) && CanHandle(t, getHeader)
            && var response := Respond(t).sent;
               && response == Some(GetResponse(t, getHeader, wire))
               && (|response.value + rest| == BUFFER_SIZE ==>
                     (Reads(response.value + rest, GetHeader(getHeader, r.uid, r.queueSize, |wire|), wire) <==>
                         |wire| <= RESPONSE_PD_MAX))
  {
    var t := Serve(AfterSet(r, setHeader, format, wire), between, setHeader.pid).(data := last);
    GetAfter(AfterSet(r, setHeader, format, wire), wire, between, last, getHeader, format);
    if |GetResponse(t, getHeader, wire) + rest| == BUFFER_SIZE {
      ResponseCarries(t, getHeader, wire, rest);
    }
  }
}
