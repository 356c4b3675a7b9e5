/**
 What a responder sends: responses that name the request they answer, discovery replies exactly when
 the protocol wants them, and, after a SET, the same bytes to a GET.
 */
module ResponderRuns {
  import opened Bytes
  import opened Uids
  import opened Formats
  import opened Encoding
  import opened Encoder
  import opened Packets
  import opened PacketIO
  import opened RoundTrip
  import opened Responders
  import Drivers
  import Parameters
  import Discovery
  import DiscoveryExact

  // ---------- what is written is what is sent ----------

  lemma {:induction false} StandardIsSent(data: seq<Byte>, h: Header, pd: seq<Byte>, size: nat)
    requires |data| == BUFFER_SIZE && |pd| <= PD_MAX && CcIsValid(h.cc) && !IsDiscoveryReply(h)
    ensures var packet := StandardPacket(h, pd);
            var after := Splice(data, 0, packet);
            ReadHeader(after) == Some(WithPd(h, pd)) && Transmission(after, size) == packet
  {
    var packet := StandardPacket(h, pd);
    var rest := data[|packet|..];
    PacketRoundTrip(h, pd, rest);
    PartsOfConcat(packet, rest);
    SpliceAtStart(data, packet);
  }

  lemma {:induction false} ReplyHeaderIsSent(u: Uid, n: nat)
    requires n <= PREAMBLE_MAX
    ensures var h := ReplyHeader(u, n); CcIsValid(h.cc) && Drivers.SendSize(Some(h), 0) == n + 17
  {
  }

  /** What is written at the start of the buffer is followed by what was there before. */
  lemma {:induction false} SpliceAtStart(data: seq<Byte>, packet: seq<Byte>)
    requires |packet| <= |data|
    ensures Splice(data, 0, packet) == packet + data[|packet|..]
    ensures (packet + data[|packet|..])[..|packet|] == packet
  {
  }

  lemma {:induction false} ReplyIsTransmitted(packet: seq<Byte>, rest: seq<Byte>, u: Uid, n: nat, size: nat)
    requires |packet + rest| == BUFFER_SIZE && n <= PREAMBLE_MAX && |packet| == n + 17
    requires ReadHeader(packet + rest) == Some(ReplyHeader(u, n)) && (packet + rest)[..|packet|] == packet
    ensures Transmission(packet + rest, size) == packet
  {
    ReplyHeaderIsSent(u, n);
  }

  lemma {:induction false} DiscoveryReplyIsSent(data: seq<Byte>, u: Uid, n: nat, size: nat)
    requires |data| == BUFFER_SIZE && n <= PREAMBLE_MAX
    ensures var packet := DiscoveryReply(u, n);
            |packet| == n + 17 && Transmission(Splice(data, 0, packet), size) == packet
  {
    var packet := DiscoveryReply(u, n);
    var rest := data[|packet|..];
    DiscoveryRoundTrip(u, n, rest);
    SpliceAtStart(data, packet);
    ReplyIsTransmitted(packet, rest, u, n, size);
  }

  lemma {:induction false} LowNibble(cc: Byte)
    requires cc % 2 == 0 && cc % 0x10 < 2
    ensures cc % 0x10 == 0 && (cc + 1) % 0x10 == 1 && (cc + 1) % 2 == 1
  {
    assert cc == cc / 0x10 * 0x10 + cc % 0x10;
  }

  lemma {:induction false} ResponseCc(cc: Byte)
    requires CcIsRequest(cc) && CcIsValid(cc)
    ensures cc < 0xff && Or(cc, 1) == cc + 1 && CcIsValid(cc + 1) && !CcIsRequest(cc + 1)
  {
    OrOne(cc);
    LowNibble(cc);
  }

  lemma {:induction false} ResponseIsAccepted(
      r: Responder, h: Header, responseType: Byte, pdl: Byte, format: Option<string>, pd: Option<seq<Byte>>)
    requires CcIsRequest(h.cc) && CcIsValid(h.cc) && h.subDevice < SUB_DEVICE_MAX && pdl < PD_MAX
    requires ResponseTypeIsValid(responseType)
    requires (format.Some? ==> Formats.Valid(format.value)) && (pdl == 0 || (format.Some? && pd.Some?))
    ensures Accepts(ResponseHeader(r, h, responseType, pdl), format, pd)
  {
    ResponseCc(h.cc);
  }

  // ---------- every response names its request ----------

  /** Is the packet in the buffer, of the size given, a response to the request? It may be none at all. */
  predicate AnswersTo(w: Written, h: Header)
    requires Responders.Valid(w.state)
  {
    var d := ReadHeader(w.state.data);
    w.size > 0 ==>
      && d.Some? && |Transmission(w.state.data, w.size)| == w.size
      && d.value.dest == h.src && d.value.src == w.state.uid && d.value.tn == h.tn
      && d.value.subDevice == h.subDevice && d.value.cc == h.cc + 1 && d.value.pid == h.pid
  }

  lemma {:induction false} WriteIsSent(r: Responder, header: Header, format: Option<string>, pd: Option<seq<Byte>>)
    requires Responders.Valid(r) && Accepts(header, format, pd) && Serializable(header, format, pd)
    requires !IsDiscoveryReply(header)
    ensures var w, out := WritePacket(r, header, format, pd), WirePd(header, format, pd);
            && w.size == HEADER_SIZE + |out| + 2
            && ReadHeader(w.state.data) == Some(WithPd(header, out))
            && Transmission(w.state.data, w.size) == StandardPacket(header, out)
  {
    var out := WirePd(header, format, pd);
    StandardIsSent(r.data, header, out, HEADER_SIZE + |out| + 2);
  }

  lemma {:induction false} WriteAnswers(
      r: Responder, h: Header, header: Header, format: Option<string>, pd: Option<seq<Byte>>)
    requires Responders.Valid(r) && Accepts(header, format, pd) && Serializable(header, format, pd)
    requires header.dest == h.src && header.src == r.uid && header.tn == h.tn && header.subDevice == h.subDevice
    requires header.cc == h.cc + 1 && header.pid == h.pid && h.pid != PID_DISC_UNIQUE_BRANCH
    ensures var w := WritePacket(r, header, format, pd);
            AnswersTo(w, h) && w.size > 0
  {
    WriteIsSent(r, header, format, pd);
  }

  lemma {:induction false} WriteAnswersBranch(
      r: Responder, h: Header, header: Header, format: Option<string>, pd: Option<seq<Byte>>)
    requires Responders.Valid(r) && Accepts(header, format, pd) && Serializable(header, format, pd)
    requires IsDiscoveryReply(header) && header.src == r.uid
    ensures var w := WritePacket(r, header, format, pd);
            w.size == 24 && Transmission(w.state.data, w.size) == DiscoveryReply(r.uid, PREAMBLE_MAX)
  {
    DiscoveryReplyIsSent(r.data, r.uid, PREAMBLE_MAX, 24);
  }

  /** The request that a responder handles: one that the library's assertions let through. */
  predicate IsRequest(h: Header) {
    CcIsRequest(h.cc) && CcIsValid(h.cc) && h.pid > 0 && h.subDevice < SUB_DEVICE_MAX
  }

  /** The reply to a DISC_UNIQUE_BRANCH request is a discovery reply, even where a NACK is meant. */
  predicate WritesReply(w: Written) {
    Responders.Valid(w.state) && w.size == 24 &&
    Transmission(w.state.data, w.size) == DiscoveryReply(w.state.uid, PREAMBLE_MAX)
  }

  predicate IsBranchRequest(h: Header) {
    h.cc == CC_DISC_COMMAND && h.pid == PID_DISC_UNIQUE_BRANCH
  }

  lemma {:induction false} NackAnswers(r: Responder, h: Header, reason: Word)
    requires Responders.Valid(r) && IsRequest(h)
    ensures var w := WriteNackReason(r, h, reason);
            && w.size > 0
            && (h.pid != PID_DISC_UNIQUE_BRANCH ==> AnswersTo(w, h))
            && (IsBranchRequest(h) ==> WritesReply(w))
  {
    var header := ResponseHeader(r, h, RESPONSE_NACK_REASON, 2);
    NackIsSerializable(r, h, reason);
    ResponseCc(h.cc);
    ResponseIsAccepted(r, h, RESPONSE_NACK_REASON, 2, Some("w"), Some(Le16(reason)));
    if IsDiscoveryReply(header) {
      WriteAnswersBranch(r, h, header, Some("w"), Some(Le16(reason)));
    } else if h.pid != PID_DISC_UNIQUE_BRANCH {
      WriteAnswers(r, h, header, Some("w"), Some(Le16(reason)));
    } else {
      WriteIsSent(r, header, Some("w"), Some(Le16(reason)));
    }
  }

  lemma {:induction false} AckAnswers(r: Responder, h: Header, format: Option<string>, pd: Option<seq<Byte>>, pdl: Byte)
    requires Responders.Valid(r) && IsRequest(h) && pdl < PD_MAX
    requires (format.Some? ==> Formats.Valid(format.value)) && (pdl == 0 || (format.Some? && pd.Some?))
    requires var header := ResponseHeader(r, h, RESPONSE_ACK, pdl); Accepts(header, format, pd) ==>
             Serializable(header, format, pd)
    ensures var w := WriteAck(r, h, format, pd, pdl);
            && w.size > 0
            && (h.pid != PID_DISC_UNIQUE_BRANCH ==> AnswersTo(w, h))
            && (IsBranchRequest(h) ==> WritesReply(w))
  {
    var header := ResponseHeader(r, h, RESPONSE_ACK, pdl);
    ResponseCc(h.cc);
    ResponseIsAccepted(r, h, RESPONSE_ACK, pdl, format, pd);
    if IsDiscoveryReply(header) {
      WriteAnswersBranch(r, h, header, format, pd);
    } else if h.pid != PID_DISC_UNIQUE_BRANCH {
      WriteAnswers(r, h, header, format, pd);
    } else {
      WriteIsSent(r, header, format, pd);
    }
  }

  lemma {:induction false} SimpleAnswers(r: Responder, def: Definition, h: Header)
    requires CanHandle(r, h) && IsRequest(h) && DefinitionOf(r, h.subDevice, h.pid) == Some(def)
    requires def.handler == SimpleHandler && Supports(def, h.cc)
    ensures var w := HandleSimple(r, def, h);
            w.size > 0 && AnswersTo(w, h)
  {
    if h.cc == CC_GET_COMMAND {
      var size := Parameters.SizeOf(r.table, h.pid);
      AckAnswers(r, h, def.getResponse, Some(Parameters.Copy(r.table, h.pid, PD_MAX)), size);
    } else {
      var u := r.(table := Parameters.Set(r.table, h.pid, Decoded(r, def, h.pdl)).0);
      AckAnswers(u, h, None, None, 0);
    }
  }

  lemma {:induction false} MuteRequestAnswers(r: Responder, def: Definition, h: Header)
    requires CanHandle(r, h) && IsRequest(h) && DefinitionOf(r, h.subDevice, h.pid) == Some(def)
    requires def.handler == DiscoveryHandler && h.pid != PID_DISC_UNIQUE_BRANCH
    ensures var w := HandleDiscovery(r, def, h);
            w.size > 0 && AnswersTo(w, h)
  {
    var u := r.(table := Parameters.Set(r.table, h.pid, [if h.pid == PID_DISC_MUTE then 1 else 0]).0);
    MuteIsSerializable(ResponseHeader(u, h, RESPONSE_ACK, 8), r.mute);
    LexMute();
    AckAnswers(u, h, def.getResponse, Some(r.mute), 8);
  }

  /** A request that is not a DISC_UNIQUE_BRANCH, and is not of a class that gets no answer, is answered. */
  lemma {:induction false} DispatchAnswers(r: Responder, h: Header)
    requires CanHandle(r, h) && IsRequest(h) && h.pid != PID_DISC_UNIQUE_BRANCH
    ensures var w := Dispatch(r, h);
            AnswersTo(w, h) && (!IsBroadcast(h.dest) ==> (w.size > 0 <==> !IsSilent(r, h)))
  {
    var d := DefinitionOf(r, h.subDevice, h.pid);
    if d == None {
      NackAnswers(r, h, NR_UNKNOWN_PID);
    } else if h.pdl >= PD_SIZE_MAX {
      NackAnswers(r, h, NR_FORMAT_ERROR);
    } else if IsSilent(r, h) {
    } else if !Supports(d.value, h.cc) {
      NackAnswers(r, h, NR_UNSUPPORTED_COMMAND_CLASS);
    } else {
      HandleAnswers(r, d.value, h);
      NackAnswers(Handle(r, d.value, h).state, h, NR_HARDWARE_FAULT);
    }
  }

  lemma {:induction false} HandleAnswers(r: Responder, def: Definition, h: Header)
    requires CanHandle(r, h) && IsRequest(h) && h.pid != PID_DISC_UNIQUE_BRANCH
    requires DefinitionOf(r, h.subDevice, h.pid) == Some(def) && Supports(def, h.cc)
    ensures AnswersTo(Handle(r, def, h), h) && Handle(r, def, h).size > 0
  {
    if def.handler == SimpleHandler {
      SimpleAnswers(r, def, h);
    } else {
      MuteRequestAnswers(r, def, h);
    }
  }

  /** A discovery parameter keeps silent about any other command class. */
  predicate IsSilent(r: Responder, h: Header) {
    var d := DefinitionOf(r, h.subDevice, h.pid);
    d.Some? && h.pdl < PD_SIZE_MAX && d.value.pidCc == Disc && h.cc != CC_DISC_COMMAND
  }

  /**
   A packet for another device changes nothing and is not answered, and neither is a broadcast. Any
   other request is answered, unless it is a GET or SET of a discovery parameter; the answer goes
   back to the sender, from this device, with the request's transaction number, sub-device and PID,
   and its command class made a response.
   */
  lemma {:induction false} EveryRequestIsAnswered(r: Responder, h: Header)
    requires Responders.Valid(r) && ReadHeader(r.data) == Some(h) && IsRequest(h) && h.pid != PID_DISC_UNIQUE_BRANCH
    requires IsTarget(r.uid, h.dest) ==> CanHandle(r, h)
    ensures var p := Respond(r);
            && (p.sent.Some? <==> IsTarget(r.uid, h.dest) && !IsBroadcast(h.dest) && !IsSilent(r, h))
            && (!IsTarget(r.uid, h.dest) ==> p.state == r)
            && (p.sent.Some? ==>
                  var d := ReadHeader(p.state.data);
                  && d.Some? && p.sent.value <= p.state.data
                  && d.value.dest == h.src && d.value.src == r.uid && d.value.tn == h.tn
                  && d.value.subDevice == h.subDevice && d.value.cc == h.cc + 1 && d.value.pid == h.pid)
  {
    if IsTarget(r.uid, h.dest) {
      DispatchAnswers(r, h);
    }
  }

  // ---------- discovery ----------

  /**
   A discovery reply is sent exactly when the device is sought, or when the handler's silence, or an
   error, is turned into a NACK: that is sent as a discovery reply too.
   */
  lemma {:induction false} BranchIsAnsweredExactly(r: Responder, h: Header)
    requires Responders.Valid(r) && RequestFor(r) == Some(h) && CanHandle(r, h) && IsBranchRequest(h)
    ensures var p := Respond(r);
            && (p.sent.Some? <==>
                  || DefinitionOf(r, h.subDevice, h.pid) == None || h.pdl >= PD_SIZE_MAX
                  || !IsBroadcast(h.dest) || IsSought(r))
            && (p.sent.Some? ==> p.sent == Some(DiscoveryReply(r.uid, PREAMBLE_MAX)))
            && p.state.table == r.table
  {
    var d := DefinitionOf(r, h.subDevice, h.pid);
    if d == None {
      NackAnswers(r, h, NR_UNKNOWN_PID);
    } else if h.pdl >= PD_SIZE_MAX {
      NackAnswers(r, h, NR_FORMAT_ERROR);
    } else if IsSought(r) {
      AckAnswers(r, h, None, None, 0);
    } else {
      NackAnswers(r, h, NR_HARDWARE_FAULT);
    }
  }

  // ---------- the discovery protocol on the wire ----------

  /** The header and the parameter data of a controller's discovery request. */
  function RequestHeader(q: Discovery.Request, src: Uid, tn: Byte, port: Byte): Header {
    match q
    case UniqueBranch(_) =>
      Header(36, BROADCAST_ALL, src, tn, port, 0, SUB_DEVICE_ROOT, CC_DISC_COMMAND, PID_DISC_UNIQUE_BRANCH, 12)
    case Mute(dest) => Header(24, FromValue(dest), src, tn, port, 0, SUB_DEVICE_ROOT, CC_DISC_COMMAND, PID_DISC_MUTE, 0)
    case UnMute(dest) => Header(24, FromValue(dest), src, tn, port, 0, SUB_DEVICE_ROOT, CC_DISC_COMMAND,
        PID_DISC_UN_MUTE, 0)
  }

  function RequestData(q: Discovery.Request): (pd: seq<Byte>)
    ensures |pd| <= PD_MAX
  {
    if q.UniqueBranch? then UidWire(FromValue(q.range.lo)) + UidWire(FromValue(q.range.hi)) else []
  }

  function RequestPacket(q: Discovery.Request, src: Uid, tn: Byte, port: Byte): seq<Byte> {
    StandardPacket(RequestHeader(q, src, tn, port), RequestData(q))
  }

  /** Has the device registered its three discovery parameters? */
  predicate IsRegistered(r: Responder, cell: nat) {
    && Responders.Valid(r)
    && Parameters.IsSharedFlag(r.table, PID_DISC_MUTE, PID_DISC_UN_MUTE, cell)
    && Parameters.Find(r.table.entries, PID_DISC_UNIQUE_BRANCH, 0).Some?
    && IsDefined(r.definitions, PID_DISC_UNIQUE_BRANCH, BRANCH_DEFINITION)
    && IsDefined(r.definitions, PID_DISC_MUTE, FLAG_DEFINITION) &&
       IsDefined(r.definitions, PID_DISC_UN_MUTE, FLAG_DEFINITION)
  }

  predicate IsDefined(definitions: map<Word, Definition>, pid: Word, def: Definition) {
    pid in definitions && definitions[pid] == def
  }

  lemma {:induction false} RequestIsRead(r: Responder, q: Discovery.Request, src: Uid, tn: Byte, port: Byte)
    requires Responders.Valid(r) && RequestPacket(q, src, tn, port) <= r.data
    ensures ReadHeader(r.data) == Some(RequestHeader(q, src, tn, port))
    ensures RequestData(q) <= r.data[HEADER_SIZE..]
  {
    var p := RequestPacket(q, src, tn, port);
    var rest := r.data[|p|..];
    assert r.data == p + rest;
    PacketRoundTrip(RequestHeader(q, src, tn, port), RequestData(q), rest);
  }

  lemma {:induction false} BoundsAreRead(r: Responder, q: Discovery.Request)
    requires Responders.Valid(r) && q.UniqueBranch? && RequestData(q) <= r.data[HEADER_SIZE..]
    ensures Value(LowerBound(r.data)) == q.range.lo && Value(UpperBound(r.data)) == q.range.hi
  {
    var lo, hi := FromValue(q.range.lo), FromValue(q.range.hi);
    var pd := UidWire(lo) + UidWire(hi);
    UidWireRoundTrip(lo);
    UidWireRoundTrip(hi);
    assert forall i :: 0 <= i < 6 ==> r.data[HEADER_SIZE + i] == r.data[HEADER_SIZE..][i] == pd[i] == UidWire(lo)[i];
    assert forall i :: 0 <= i < 6 ==>
           r.data[HEADER_SIZE + 6 + i] == r.data[HEADER_SIZE..][6 + i] == pd[6 + i] == UidWire(hi)[i];
    assert UidAt(r.data, HEADER_SIZE) == UidAt(UidWire(lo), 0);
    assert UidAt(r.data, HEADER_SIZE + 6) == UidAt(UidWire(hi), 0);
    ValueRoundTrip(q.range.lo);
    ValueRoundTrip(q.range.hi);
  }

  /** Being sought is what the protocol means by having to answer. */
  lemma {:induction false} SoughtMeansAnswers(r: Responder, q: Discovery.Request)
    requires Responders.Valid(r) && Parameters.HasData(r.table, PID_DISC_MUTE) && q.UniqueBranch? &&
             0 < r.data[23] <= PD_MAX
    ensures Value(LowerBound(r.data)) == q.range.lo && Value(UpperBound(r.data)) == q.range.hi ==>
              (IsSought(r) <==> DiscoveryExact.Answers(Value(r.uid), IsMuted(r.table), q))
  {
    OrderIsAddressOrder(r.uid, LowerBound(r.data));
    OrderIsAddressOrder(r.uid, UpperBound(r.data));
  }

  lemma {:induction false} BranchIsHandled(r: Responder, cell: nat, h: Header)
    requires IsRegistered(r, cell) && h.pid == PID_DISC_UNIQUE_BRANCH && h.cc == CC_DISC_COMMAND &&
             h.subDevice == SUB_DEVICE_ROOT
    ensures CanHandle(r, h) && DefinitionOf(r, h.subDevice, h.pid).Some?
  {
  }

  lemma {:induction false} TargetHandles(r: Responder, h: Header)
    requires Responders.Valid(r) && ReadHeader(r.data) == Some(h) && CcIsValid(h.cc) && IsTarget(r.uid, h.dest)
    ensures RequestFor(r) == Some(h)
  {
  }

  lemma {:induction false} BranchRequestIsHandled(
      r: Responder, cell: nat, q: Discovery.Request, src: Uid, tn: Byte, port: Byte)
    requires IsRegistered(r, cell) && q.UniqueBranch? && RequestPacket(q, src, tn, port) <= r.data
    ensures var h := RequestHeader(q, src, tn, port);
            RequestFor(r) == Some(h) && CanHandle(r, h) && DefinitionOf(r, h.subDevice, h.pid).Some?
  {
    var h := RequestHeader(q, src, tn, port);
    RequestIsRead(r, q, src, tn, port);
    BranchIsHandled(r, cell, h);
    TargetHandles(r, h);
  }

  lemma {:induction false} BranchRequestFollows(
      r: Responder, cell: nat, q: Discovery.Request, src: Uid, tn: Byte, port: Byte)
    requires IsRegistered(r, cell) && q.UniqueBranch? && RequestPacket(q, src, tn, port) <= r.data
    ensures Responders.Valid(r) && (RequestFor(r).Some? ==> CanHandle(r, RequestFor(r).value))
    ensures var p := Respond(r);
            && (p.sent.Some? <==> IsSought(r))
            && (p.sent.Some? ==> p.sent == Some(DiscoveryReply(r.uid, PREAMBLE_MAX)))
            && p.state == r.(data := p.state.data)
  {
    BranchRequestIsHandled(r, cell, q, src, tn, port);
    BranchIsAnsweredExactly(r, RequestHeader(q, src, tn, port));
  }

  /** The device after the mute flag was set or cleared. */
  function WithFlag(r: Responder, pid: Word): Responder
    requires pid > 0 && Parameters.HasData(r.table, pid)
  {
    r.(table := Parameters.Set(r.table, pid, [if pid == PID_DISC_MUTE then 1 else 0]).0)
  }

  lemma {:induction false} FlagIsSet(r: Responder, cell: nat, pid: Word)
    requires IsRegistered(r, cell) && (pid == PID_DISC_MUTE || pid == PID_DISC_UN_MUTE)
    ensures Parameters.HasData(r.table, pid) && Parameters.HasData(r.table, PID_DISC_MUTE)
    ensures var u := WithFlag(r, pid);
            IsRegistered(u, cell) && (IsMuted(u.table) <==> pid == PID_DISC_MUTE)
  {
    Parameters.SharedFlagIsCopied(r.table, PID_DISC_MUTE, PID_DISC_UN_MUTE, cell, 0);
    Parameters.SharedFlagIsCopied(r.table, PID_DISC_UN_MUTE, PID_DISC_MUTE, cell, 1);
    var at := Parameters.Find(r.table.entries, pid, 0).value;
    Parameters.FindAfterUpdate(r.table.entries, at, WithFlag(r, pid).table.entries[at], PID_DISC_UNIQUE_BRANCH, 0);
  }

  lemma {:induction false} FlagRequestIsRead(r: Responder, q: Discovery.Request, src: Uid, tn: Byte, port: Byte)
    requires Responders.Valid(r) && !q.UniqueBranch? && RequestPacket(q, src, tn, port) <= r.data
    ensures var h := RequestHeader(q, src, tn, port);
            && ReadHeader(r.data) == Some(h)
            && (IsTarget(r.uid, h.dest) <==> Reaches(q.dest, Value(r.uid)))
            && (IsBroadcast(h.dest) <==> IsBroadcastAddress(q.dest))
  {
    var h := RequestHeader(q, src, tn, port);
    RequestIsRead(r, q, src, tn, port);
    ValueRoundTrip(q.dest);
    AddressPredicatesAgree(r.uid, h.dest);
    AddressPredicatesAgree(h.dest, h.dest);
  }

  lemma {:induction false} FlagRequestIsHandled(
      r: Responder, cell: nat, q: Discovery.Request, src: Uid, tn: Byte, port: Byte)
    requires IsRegistered(r, cell) && !q.UniqueBranch? && RequestPacket(q, src, tn, port) <= r.data
    ensures var h := RequestHeader(q, src, tn, port);
            && CanHandle(r, h) && IsRequest(h) && !IsSilent(r, h) && Parameters.HasData(r.table, h.pid)
            && Dispatch(r, h).state == WithFlag(r, h.pid).(data := Dispatch(r, h).state.data)
  {
    var h := RequestHeader(q, src, tn, port);
    MuteRequestAnswers(r, DefinitionOf(r, h.subDevice, h.pid).value, h);
  }

  lemma {:induction false} FlagRequestFollows(
      r: Responder, cell: nat, q: Discovery.Request, src: Uid, tn: Byte, port: Byte)
    requires IsRegistered(r, cell) && !q.UniqueBranch? && RequestPacket(q, src, tn, port) <= r.data
    ensures Responders.Valid(r) && (RequestFor(r).Some? ==> CanHandle(r, RequestFor(r).value))
    ensures var p, h := Respond(r), RequestHeader(q, src, tn, port);
            && Parameters.HasData(r.table, h.pid)
            && (p.sent.Some? <==> Reaches(q.dest, Value(r.uid)) && !IsBroadcastAddress(q.dest))
            && p.state == (if Reaches(q.dest, Value(r.uid)) then WithFlag(r, h.pid) else r).(data := p.state.data)
  {
    var h := RequestHeader(q, src, tn, port);
    FlagRequestIsRead(r, q, src, tn, port);
    FlagRequestIsHandled(r, cell, q, src, tn, port);
    EveryRequestIsAnswered(r, h);
  }

  /**
   A device that receives a controller's discovery request does what discovery is proved against: it
   replies exactly when the protocol's responder answers, and its mute flag, which the two parameters
   share, changes exactly as the protocol's does.
   */
  lemma {:induction false} ResponderFollowsProtocol(
      r: Responder, cell: nat, q: Discovery.Request, src: Uid, tn: Byte, port: Byte)
    requires IsRegistered(r, cell) && RequestPacket(q, src, tn, port) <= r.data
    ensures Responders.Valid(r) && (RequestFor(r).Some? ==> CanHandle(r, RequestFor(r).value))
    ensures var p := Respond(r);
            && IsRegistered(p.state, cell) && p.state.uid == r.uid
            && (p.sent.Some? <==> DiscoveryExact.Answers(Value(r.uid), IsMuted(r.table), q))
            && (IsMuted(p.state.table) <==> DiscoveryExact.MutedBy(Value(r.uid), IsMuted(r.table), q))
  {
    if q.UniqueBranch? {
      BranchRequestIsHandled(r, cell, q, src, tn, port);
      BranchRequestFollows(r, cell, q, src, tn, port);
      RequestIsRead(r, q, src, tn, port);
      PdlIsRead(r.data, RequestHeader(q, src, tn, port));
      BoundsAreRead(r, q);
      SoughtMeansAnswers(r, q);
    } else {
      FlagRequestFollows(r, cell, q, src, tn, port);
      FlagIsSet(r, cell, RequestHeader(q, src, tn, port).pid);
    }
  }

  /** A request as it arrives: what the buffer holds begins with its packet. */
  datatype Arrival = Arrival(q: Discovery.Request, src: Uid, tn: Byte, port: Byte, buffer: seq<Byte>)

  predicate HasArrived(a: Arrival) {
    |a.buffer| == BUFFER_SIZE && RequestPacket(a.q, a.src, a.tn, a.port) <= a.buffer
  }

  /** The device after a request. */
  function Hear(r: Responder, cell: nat, a: Arrival): (u: Responder)
    requires IsRegistered(r, cell) && HasArrived(a)
    ensures IsRegistered(u, cell) && u.uid == r.uid
    ensures IsMuted(u.table) <==> DiscoveryExact.MutedBy(Value(r.uid), IsMuted(r.table), a.q)
  {
    var before := r.(data := a.buffer);
    ResponderFollowsProtocol(before, cell, a.q, a.src, a.tn, a.port);
    Respond(before).state
  }

  function HearAll(r: Responder, cell: nat, arrivals: seq<Arrival>): (u: Responder)
    requires IsRegistered(r, cell) && forall i :: 0 <= i < |arrivals| ==> HasArrived(arrivals[i])
    ensures IsRegistered(u, cell) && u.uid == r.uid
  {
    if arrivals == [] then r else Hear(HearAll(r, cell, arrivals[..|arrivals| - 1]), cell, arrivals[|arrivals| - 1])
  }

  /** The mute flag of the protocol's responder after the requests. */
  predicate FlagAfter(a: Address, muted: bool, arrivals: seq<Arrival>) {
    if arrivals == [] then muted
    else DiscoveryExact.MutedBy(a, FlagAfter(a, muted, arrivals[..|arrivals| - 1]), arrivals[|arrivals| - 1].q)
  }

  /** Over any run of discovery requests, the device's flag is that of the protocol's responder. */
  lemma {:induction false} FlagFollowsRun(r: Responder, cell: nat, arrivals: seq<Arrival>)
    requires IsRegistered(r, cell) && forall i :: 0 <= i < |arrivals| ==> HasArrived(arrivals[i])
    ensures IsMuted(HearAll(r, cell, arrivals).table) <==> FlagAfter(Value(r.uid), IsMuted(r.table), arrivals)
  {
    if arrivals != [] {
      FlagFollowsRun(r, cell, arrivals[..|arrivals| - 1]);
    }
  }
}
