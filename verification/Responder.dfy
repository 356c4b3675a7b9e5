/**
 A responder: what it makes of the packet in its driver's buffer, and what it sends in return.
 */
module Responders {
  import opened Bytes
  import opened Uids
  import opened Formats
  import opened Encoding
  import opened Encoder
  import opened Packets
  import opened PacketIO
  import Parameters
  import Drivers

  const NR_UNKNOWN_PID: Word := 0x0000
  const NR_FORMAT_ERROR: Word := 0x0001
  const NR_HARDWARE_FAULT: Word := 0x0002
  const NR_UNSUPPORTED_COMMAND_CLASS: Word := 0x0005
  const NR_SUB_DEVICE_OUT_OF_RANGE: Word := 0x0009

  /** The length from which on parameter data is refused: one more than the longest that fits a packet. */
  const PD_SIZE_MAX := 232

  /** The command classes a parameter supports. */
  datatype PidCc = Disc | Get | Set | GetSet

  datatype Handler = DiscoveryHandler | SimpleHandler

  datatype Definition = Definition(
    pidCc: PidCc,
    getRequest: Option<string>,
    getResponse: Option<string>,
    setRequest: Option<string>,
    handler: Handler
  )

  /**
   The responder. `mute` is the structure that a mute reply carries, `queueSize` the number of messages
   that wait, and `stack` what is in the memory that a handler decodes parameter data into.
   */
  datatype Responder = Responder(
    uid: Uid,
    table: Parameters.Table,
    definitions: map<Word, Definition>,
    data: seq<Byte>,
    queueSize: Byte,
    mute: seq<Byte>,
    stack: seq<Byte>
  )

  predicate Valid(r: Responder) {
    |r.data| == BUFFER_SIZE && |r.mute| == 8 && |r.stack| == PD_MAX
  }

  /** The responder after a handler wrote to its buffer, and the size of what it wrote. */
  datatype Written = Written(state: Responder, size: nat)

  // ---------- writing ----------

  function WritePacket(r: Responder, h: Header, format: Option<string>, pd: Option<seq<Byte>>): (w: Written)
    requires Valid(r) && (Accepts(h, format, pd) ==> Serializable(h, format, pd))
    ensures Valid(w.state) && w.state == r.(data := w.state.data)
  {
    if Accepts(h, format, pd) then
      Written(r.(data := Splice(r.data, 0, PacketBytes(h, format, pd))), |PacketBytes(h, format, pd)|)
    else Written(r, 0)
  }

  /** The header of the reply to a request. */
  function ResponseHeader(r: Responder, h: Header, responseType: Byte, pdl: Byte): Header
    requires CcIsRequest(h.cc) && pdl < PD_MAX
  {
    Header(HEADER_SIZE + pdl, h.src, r.uid, h.tn, responseType, r.queueSize, h.subDevice, Or(h.cc, 1), h.pid, pdl)
  }

  function WriteAck(r: Responder, h: Header, format: Option<string>, pd: Option<seq<Byte>>, pdl: Byte): (w: Written)
    requires Valid(r) && CcIsRequest(h.cc) && pdl < PD_MAX
    requires var header := ResponseHeader(r, h, RESPONSE_ACK, pdl); Accepts(header, format, pd) ==>
             Serializable(header, format, pd)
    ensures Valid(w.state) && w.state == r.(data := w.state.data)
  {
    WritePacket(r, ResponseHeader(r, h, RESPONSE_ACK, pdl), format, pd)
  }

  lemma {:induction false} NackIsSerializable(r: Responder, h: Header, reason: Word)
    requires CcIsRequest(h.cc)
    ensures var header := ResponseHeader(r, h, RESPONSE_NACK_REASON, 2);
            Accepts(header, Some("w"), Some(Le16(reason))) ==> Serializable(header, Some("w"), Some(Le16(reason)))
    ensures Formats.Valid("w") && Lex("w") == Then(WordField, false, EndOfString)
  {
    LexW();
    assert WholePasses(0, 2);
  }

  lemma {:induction false} LexW()
    ensures Formats.Valid("w") && Lex("w") == Then(WordField, false, EndOfString)
  {
    assert "w"[1..] == "";
  }

  function WriteNackReason(r: Responder, h: Header, reason: Word): (w: Written)
    requires Valid(r) && CcIsRequest(h.cc)
    ensures Valid(w.state) && w.state == r.(data := w.state.data)
  {
    NackIsSerializable(r, h, reason);
    WritePacket(r, ResponseHeader(r, h, RESPONSE_NACK_REASON, 2), Some("w"), Some(Le16(reason)))
  }

  // ---------- discovery requests ----------

  /** The bounds in the parameter data of a DISC_UNIQUE_BRANCH request. */
  function LowerBound(data: seq<Byte>): Uid
    requires |data| == BUFFER_SIZE
  {
    UidAt(data, HEADER_SIZE)
  }

  function UpperBound(data: seq<Byte>): Uid
    requires |data| == BUFFER_SIZE
  {
    UidAt(data, HEADER_SIZE + 6)
  }

  /** The mute flag. If there is no such parameter, the responder counts as muted. */
  predicate IsMuted(t: Parameters.Table)
    requires Parameters.HasData(t, PID_DISC_MUTE)
  {
    var flag := Parameters.Copy(t, PID_DISC_MUTE, 1);
    flag == [] || flag[0] != 0
  }

  /** Is the request in the buffer one that the handler of DISC_UNIQUE_BRANCH answers? */
  predicate IsSought(r: Responder)
    requires Valid(r) && Parameters.HasData(r.table, PID_DISC_MUTE)
  {
    && !IsMuted(r.table)
    && 0 < r.data[23] <= PD_MAX
    && !IsLt(r.uid, LowerBound(r.data)) && !IsGt(r.uid, UpperBound(r.data))
  }

  const BRANCH_FORMAT := "uu$"
  const MUTE_FORMAT := "wv"

  /** The definitions with which the discovery parameters are registered. */
  const BRANCH_DEFINITION := Definition(Disc, Some(BRANCH_FORMAT), None, None, DiscoveryHandler)
  const FLAG_DEFINITION := Definition(Disc, None, Some(MUTE_FORMAT), None, DiscoveryHandler)

  lemma {:induction false} LexBranch()
    ensures Lex(BRANCH_FORMAT) == Then(UidField, false, Then(UidField, false, Last(Dollar, false)))
    ensures Formats.Valid(BRANCH_FORMAT)
  {
    assert BRANCH_FORMAT[1..] == "u$" && "u$"[1..] == "$" && "$"[1..] == "";
    assert Lex("$") == Last(Dollar, false);
    assert Lex("u$") == Then(UidField, false, Lex("$"));
  }

  lemma {:induction false} LexMute()
    ensures Lex(MUTE_FORMAT) == Then(WordField, false, Last(OptionalUid, false))
    ensures Formats.Valid(MUTE_FORMAT)
  {
    assert MUTE_FORMAT[1..] == "v" && "v"[1..] == "";
    assert Lex("v") == Last(OptionalUid, false);
  }

  lemma {:induction false} MuteIsSerializable(h: Header, mute: seq<Byte>)
    requires h.pdl == 8 && |mute| == 8
    ensures Accepts(h, Some(MUTE_FORMAT), Some(mute)) ==> Serializable(h, Some(MUTE_FORMAT), Some(mute))
  {
    LexMute();
    assert Readable(Last(OptionalUid, false), mute[2..], 6);
  }

  function HandleDiscovery(r: Responder, def: Definition, h: Header): (w: Written)
    requires Valid(r) && CcIsRequest(h.cc) && h.pid > 0
    requires Parameters.HasData(r.table, PID_DISC_MUTE)
    requires h.pid != PID_DISC_UNIQUE_BRANCH ==>
             Parameters.HasData(r.table, h.pid) && def.getResponse == Some(MUTE_FORMAT)
    ensures Valid(w.state) && w.state == r.(data := w.state.data, table := w.state.table)
  {
    if h.subDevice != SUB_DEVICE_ROOT then Written(r, 0)
    else if h.pid == PID_DISC_UNIQUE_BRANCH then
      if !IsSought(r) then Written(r, 0) else WriteAck(r, h, None, None, 0)
    else
      var u := r.(table := Parameters.Set(r.table, h.pid, [if h.pid == PID_DISC_MUTE then 1 else 0]).0);
      MuteIsSerializable(ResponseHeader(u, h, RESPONSE_ACK, 8), r.mute);
      WriteAck(u, h, def.getResponse, Some(r.mute), 8)
  }

  // ---------- simple requests ----------

  /** What the handler needs to serialize a parameter for a GET response. */
  predicate CanGet(r: Responder, def: Definition, pid: Word) {
    pid > 0 && Parameters.HasData(r.table, pid) && Parameters.Find(r.table.entries, pid, 0).Some? ==>
      && Parameters.SizeOf(r.table, pid) < PD_MAX
      && def.getResponse.Some? && Formats.Valid(def.getResponse.value) && !HasUpper(Lex(def.getResponse.value))
      && Encodable(Lex(def.getResponse.value), Parameters.Copy(r.table, pid, PD_MAX), Parameters.SizeOf(r.table, pid))
  }

  /** What the handler needs to deserialize the parameter data of a SET request. */
  predicate CanSet(r: Responder, def: Definition, pdl: Byte)
    requires Valid(r)
  {
    && def.setRequest.Some? && Lex(def.setRequest.value) != EndOfString
    && (Formats.Valid(def.setRequest.value) ==>
          && !HasUpper(Lex(def.setRequest.value))
          && Encodable(Lex(def.setRequest.value), r.data[HEADER_SIZE..], Min(r.data[23], pdl))
          && |PdOf(r.data, Lex(def.setRequest.value), pdl)| <= PD_MAX)
  }

  /** The parameter data of a SET request, as the handler decodes them: as many bytes as the PDL says. */
  function Decoded(r: Responder, def: Definition, pdl: Byte): seq<Byte>
    requires Valid(r) && CanSet(r, def, pdl)
  {
    var n := r.data[23];
    if !Formats.Valid(def.setRequest.value) || n == 0 || n > PD_MAX then []
    else Splice(r.stack, 0, PdOf(r.data, Lex(def.setRequest.value), pdl))[..n]
  }

  function HandleSimple(r: Responder, def: Definition, h: Header): (w: Written)
    requires Valid(r) && CcIsRequest(h.cc) && h.pid > 0 && h.subDevice < SUB_DEVICE_MAX
    requires Parameters.HasData(r.table, h.pid)
    requires if h.cc == CC_GET_COMMAND then CanGet(r, def, h.pid) else CanSet(r, def, h.pdl)
    ensures Valid(w.state) && w.state == r.(data := w.state.data, table := w.state.table)
  {
    if h.subDevice != SUB_DEVICE_ROOT || Parameters.Find(r.table.entries, h.pid, 0) == None then
      WriteNackReason(r, h, NR_SUB_DEVICE_OUT_OF_RANGE)
    else if h.cc == CC_GET_COMMAND then
      var size := Parameters.SizeOf(r.table, h.pid);
      WriteAck(r, h, def.getResponse, Some(Parameters.Copy(r.table, h.pid, PD_MAX)), size)
    else
      var u := r.(table := Parameters.Set(r.table, h.pid, Decoded(r, def, h.pdl)).0);
      WriteAck(u, h, None, None, 0)
  }

  // ---------- any request ----------

  function DefinitionOf(r: Responder, subDevice: Word, pid: Word): Option<Definition> {
    if subDevice == SUB_DEVICE_ROOT && Parameters.Find(r.table.entries, pid, 0).Some? && pid in r.definitions
    then Some(r.definitions[pid])
    else None
  }

  /** Is the command class one that the parameter supports? */
  predicate Supports(def: Definition, cc: Byte) {
    match def.pidCc
    case Disc => cc == CC_DISC_COMMAND
    case Get => cc == CC_GET_COMMAND
    case Set => cc == CC_SET_COMMAND
    case GetSet => cc != CC_DISC_COMMAND
  }

  /** What the library asserts of a request, and of the definition of its parameter, before it is handled. */
  predicate CanHandle(r: Responder, h: Header) {
    && Valid(r) && CcIsRequest(h.cc) && h.pid > 0 && h.subDevice < SUB_DEVICE_MAX
    && var def := DefinitionOf(r, h.subDevice, h.pid);
       def.Some? ==>
         match def.value.handler
         case DiscoveryHandler =>
           && Parameters.HasData(r.table, PID_DISC_MUTE) && def.value.pidCc == Disc
           && (h.pid != PID_DISC_UNIQUE_BRANCH ==>
                 Parameters.HasData(r.table, h.pid) && def.value.getResponse == Some(MUTE_FORMAT))
         case SimpleHandler =>
           && Parameters.HasData(r.table, h.pid) && h.pid != PID_DISC_UNIQUE_BRANCH
           && def.value.pidCc != Disc
           && (Supports(def.value, h.cc) ==>
                 if h.cc == CC_GET_COMMAND then CanGet(r, def.value, h.pid) else CanSet(r, def.value, h.pdl))
  }

  function Handle(r: Responder, def: Definition, h: Header): (w: Written)
    requires CanHandle(r, h) && DefinitionOf(r, h.subDevice, h.pid) == Some(def) && Supports(def, h.cc)
    ensures Valid(w.state) && w.state == r.(data := w.state.data, table := w.state.table)
  {
    match def.handler
    case DiscoveryHandler => HandleDiscovery(r, def, h)
    case SimpleHandler => HandleSimple(r, def, h)
  }

  /** Nothing is sent in place of a discovery reply of the wrong size, and a NACK in place of a missing response. */
  function Validate(w: Written, h: Header): (v: Written)
    requires Valid(w.state) && CcIsRequest(h.cc)
    ensures Valid(v.state) && v.state == w.state.(data := v.state.data)
  {
    if h.pid == PID_DISC_UNIQUE_BRANCH && (0 < w.size < 17 || w.size > 24) then Written(w.state, 0)
    else if w.size > 255 || (w.size == 0 && !IsBroadcast(h.dest)) then WriteNackReason(w.state, h, NR_HARDWARE_FAULT)
    else w
  }

  function Dispatch(r: Responder, h: Header): (w: Written)
    requires CanHandle(r, h)
    ensures Valid(w.state) && w.state == r.(data := w.state.data, table := w.state.table)
  {
    match DefinitionOf(r, h.subDevice, h.pid)
    case None => WriteNackReason(r, h, NR_UNKNOWN_PID)
    case Some(def) =>
      if h.pdl >= PD_SIZE_MAX then WriteNackReason(r, h, NR_FORMAT_ERROR)
      else if def.pidCc == Disc && h.cc != CC_DISC_COMMAND then Written(r, 0)
      else if !Supports(def, h.cc) then WriteNackReason(r, h, NR_UNSUPPORTED_COMMAND_CLASS)
      else Validate(Handle(r, def, h), h)
  }

  /** The responder after a request, and what it sends, if anything. */
  datatype Response = Response(state: Responder, sent: Option<seq<Byte>>)

  /** Is the packet in the buffer one that the responder has to handle? */
  function RequestFor(r: Responder): Option<Header>
    requires Valid(r)
  {
    match ReadHeader(r.data)
    case None => None
    case Some(h) => if CcIsValid(h.cc) && IsTarget(r.uid, h.dest) then Some(h) else None
  }

  /** Handles the packet in the buffer. What is sent is what the sending routine makes of the buffer. */
  function Respond(r: Responder): (p: Response)
    requires Valid(r) && (RequestFor(r).Some? ==> CanHandle(r, RequestFor(r).value))
    ensures Valid(p.state) && p.state == r.(data := p.state.data, table := p.state.table)
  {
    match RequestFor(r)
    case None => Response(r, None)
    case Some(h) =>
      var w := Dispatch(r, h);
      var size := if IsBroadcast(h.dest) && h.pid != PID_DISC_UNIQUE_BRANCH then 0 else w.size;
      Response(w.state, if size > 0 then Some(Transmission(w.state.data, size)) else None)
  }

  /** What sending `size` slots of the buffer transmits, break apart. */
  function Transmission(data: seq<Byte>, size: nat): seq<Byte>
    requires |data| == BUFFER_SIZE
  {
    data[..Drivers.SendSize(Drivers.HeaderToSend(data), size)]
  }
}
