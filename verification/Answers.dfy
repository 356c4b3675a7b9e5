/**
 What a responder sends in answer to each request, to the byte: an acknowledgement with the parameter's data,
 or a NACK with the reason for it.
 */
module Answers {
  import opened Bytes
  import opened Uids
  import opened Formats
  import opened Encoding
  import opened Encoder
  import opened Packets
  import opened PacketIO
  import opened RoundTrip
  import opened Responders
  import opened PacketLayouts
  import opened ResponderRuns
  import Parameters

  datatype Answer = Silence | Nack(reason: Word) | Ack(pd: seq<Byte>)

  /** Has the root device such a parameter, and was it defined? */
  predicate IsKnown(r: Responder, h: Header) {
    && h.subDevice == 0 && h.pid in r.definitions
    && exists i :: 0 <= i < |r.table.entries| && r.table.entries[i].pid == h.pid
  }

  /** Is the command class none that the parameter is defined for? */
  predicate IsUnsupported(def: Definition, cc: Byte) {
    || (def.pidCc == Get && cc != 0x20)
    || (def.pidCc == Set && cc != 0x30)
    || (def.pidCc == GetSet && cc == 0x10)
  }

  /**
   The answer to a request that is no DISC_UNIQUE_BRANCH: the first that applies of an unknown PID, too
   much data, silence about a discovery parameter, and an unsupported class; or else what the parameter's
   handler acknowledges with. An answer that is too long for a packet of 255 slots becomes a hardware fault.
   */
  function AnswerTo(r: Responder, h: Header): Answer
    requires CanHandle(r, h) && !IsBranchRequest(h)
  {
    if !IsKnown(r, h) then Nack(0x0000)
    else if h.pdl > 231 then Nack(0x0001)
    else
      var def := r.definitions[h.pid];
      KnownIsDefined(r, h);
      if def.pidCc == Disc && h.cc != 0x10 then Silence
      else if IsUnsupported(def, h.cc) then Nack(0x0005)
      else if def.handler == DiscoveryHandler then Ack(MuteData(r.mute))
      else if h.cc == 0x20 then
        var pd := ParameterData(r, def, h.pid);
        if 24 + |pd| + 2 > 255 then Nack(0x0002) else Ack(pd)
      else Ack([])
  }

  /** What a parameter is on the wire. */
  function ParameterData(r: Responder, def: Definition, pid: Word): seq<Byte>
    requires CanGet(r, def, pid) && pid > 0 && Parameters.HasData(r.table, pid)
    requires Parameters.Find(r.table.entries, pid, 0).Some?
  {
    var size := Parameters.SizeOf(r.table, pid);
    Encode(Lex(def.getResponse.value), Parameters.Copy(r.table, pid, PD_MAX), size, false)
  }

  /** What the structure of a mute reply is on the wire. */
  function MuteData(mute: seq<Byte>): seq<Byte>
    requires |mute| == 8
  {
    LexMute();
    assert Readable(Last(OptionalUid, false), mute[2..], 6);
    Encode(Lex(MUTE_FORMAT), mute, 8, false)
  }

  /** The control field comes first, and then the UID, unless it is null. */
  lemma {:induction false} MuteDataOnWire(control: Word, binding: Uid)
    ensures MuteData(Le16(control) + UidMemory(binding)) ==
            WordWire(control) + if UidMemory(binding) == NULL_UID then [] else UidWire(binding)
  {
    LexMute();
    var f, uid := Lex(MUTE_FORMAT), UidMemory(binding);
    assert uid[..6] == uid;
    PassOverField(f, Le16(control), uid, 8, false);
    assert EncodePass(f.rest, uid, 6, false).out == if uid == NULL_UID then [] else SwapUid(uid);
  }

  lemma {:induction false} KnownIsDefined(r: Responder, h: Header)
    requires h.pid > 0
    ensures IsKnown(r, h) <==> DefinitionOf(r, h.subDevice, h.pid).Some?
    ensures IsKnown(r, h) ==>
              Parameters.Find(r.table.entries, h.pid, 0).Some? &&
              DefinitionOf(r, h.subDevice, h.pid) == Some(r.definitions[h.pid])
  {
  }

  // ---------- the packets ----------

  /** The header of an answer: back to the sender, from this device, in the request's own terms. */
  function AnswerHeader(r: Responder, h: Header, responseType: Byte, pdl: nat): Header
    requires h.cc < 0xff && pdl <= PD_MAX
  {
    Header(24 + pdl, h.src, r.uid, h.tn, responseType, r.queueSize, h.subDevice, h.cc + 1, h.pid, pdl)
  }

  function AnswerPacket(r: Responder, h: Header, a: Answer): Option<seq<Byte>>
    requires h.cc < 0xff && (a.Ack? ==> |a.pd| <= PD_MAX)
  {
    match a
    case Silence => None
    case Nack(reason) => Some(StandardPacket(AnswerHeader(r, h, 0x02, 2), WordWire(reason)))
    case Ack(pd) => Some(StandardPacket(AnswerHeader(r, h, 0x00, |pd|), pd))
  }

  lemma {:induction false} ReasonOnWire(reason: Word)
    ensures Usable(Lex("w")) && Encodable(Lex("w"), Le16(reason), 2)
    ensures Encode(Lex("w"), Le16(reason), 2, false) == WordWire(reason)
  {
    LexW();
    assert WholePasses(0, 2);
    EncodeRepeating(Lex("w"), Le16(reason), [], 2, false);
    assert Le16(reason) + [] == Le16(reason);
    assert WordWire(reason) + [] == WordWire(reason);
  }

  /** A packet is the same whatever the lengths in the header that it is written from. */
  lemma {:induction false} SamePacket(r: Responder, h: Header, responseType: Byte, pdl: Byte, pd: seq<Byte>)
    requires IsRequest(h) && pdl < PD_MAX && |pd| <= PD_MAX
    ensures h.cc < 0xff
    ensures StandardPacket(ResponseHeader(r, h, responseType, pdl), pd) ==
            StandardPacket(AnswerHeader(r, h, responseType, |pd|), pd)
  {
    ResponseCc(h.cc);
    var a, b := ResponseHeader(r, h, responseType, pdl), AnswerHeader(r, h, responseType, |pd|);
    assert WithPd(a, pd) == WithPd(b, pd);
  }

  lemma {:induction false} NoReply(r: Responder, h: Header, responseType: Byte, pdl: Byte)
    requires IsRequest(h) && pdl < PD_MAX && !IsBranchRequest(h)
    ensures !IsDiscoveryReply(ResponseHeader(r, h, responseType, pdl))
  {
    ResponseCc(h.cc);
  }

  lemma {:induction false} NackIsSent(r: Responder, h: Header, reason: Word)
    requires Responders.Valid(r) && IsRequest(h) && !IsBranchRequest(h)
    ensures h.cc < 0xff
    ensures var w := WriteNackReason(r, h, reason);
            && w.size == 28 && w.state.table == r.table
            && Some(Transmission(w.state.data, w.size)) == AnswerPacket(r, h, Nack(reason))
  {
    var header := ResponseHeader(r, h, RESPONSE_NACK_REASON, 2);
    NackIsSerializable(r, h, reason);
    SamePacket(r, h, RESPONSE_NACK_REASON, 2, WordWire(reason));
    NoReply(r, h, RESPONSE_NACK_REASON, 2);
    ResponseIsAccepted(r, h, RESPONSE_NACK_REASON, 2, Some("w"), Some(Le16(reason)));
    ReasonOnWire(reason);
    WriteIsSent(r, header, Some("w"), Some(Le16(reason)));
  }

  lemma {:induction false} AckIsSent(r: Responder, h: Header, format: Option<string>, pd: Option<seq<Byte>>, pdl: Byte)
    requires Responders.Valid(r) && IsRequest(h) && pdl < PD_MAX && h.pid != PID_DISC_UNIQUE_BRANCH
    requires Accepts(ResponseHeader(r, h, RESPONSE_ACK, pdl), format, pd)
    requires Serializable(ResponseHeader(r, h, RESPONSE_ACK, pdl), format, pd)
    ensures h.cc < 0xff && !IsDiscoveryReply(ResponseHeader(r, h, RESPONSE_ACK, pdl))
    ensures var w, out := WriteAck(r, h, format, pd, pdl), WirePd(ResponseHeader(r, h, RESPONSE_ACK, pdl), format, pd);
            && w.size == 24 + |out| + 2 && w.state.table == r.table
            && Some(Transmission(w.state.data, w.size)) == AnswerPacket(r, h, Ack(out))
  {
    var header := ResponseHeader(r, h, RESPONSE_ACK, pdl);
    NoReply(r, h, RESPONSE_ACK, pdl);
    SamePacket(r, h, RESPONSE_ACK, pdl, WirePd(header, format, pd));
    WriteIsSent(r, header, format, pd);
  }

  /** Does the handler write this answer? */
  predicate Writes(w: Written, r: Responder, h: Header, pd: seq<Byte>)
    requires Responders.Valid(w.state) && h.cc < 0xff && |pd| <= PD_MAX
  {
    w.size == 24 + |pd| + 2 && Some(Transmission(w.state.data, w.size)) == AnswerPacket(r, h, Ack(pd))
  }

  lemma {:induction false} GetIsAnswered(r: Responder, def: Definition, h: Header)
    requires CanHandle(r, h) && IsRequest(h) && DefinitionOf(r, h.subDevice, h.pid) == Some(def)
    requires def.handler == SimpleHandler && Supports(def, h.cc) && h.cc == CC_GET_COMMAND
    ensures |ParameterData(r, def, h.pid)| <= PD_MAX &&
            Writes(HandleSimple(r, def, h), r, h, ParameterData(r, def, h.pid))
  {
    var size := Parameters.SizeOf(r.table, h.pid);
    var pd := Some(Parameters.Copy(r.table, h.pid, PD_MAX));
    ResponseIsAccepted(r, h, RESPONSE_ACK, size, def.getResponse, pd);
    AckIsSent(r, h, def.getResponse, pd, size);
  }

  lemma {:induction false} SetIsAnswered(r: Responder, def: Definition, h: Header)
    requires CanHandle(r, h) && IsRequest(h) && DefinitionOf(r, h.subDevice, h.pid) == Some(def)
    requires def.handler == SimpleHandler && Supports(def, h.cc) && h.cc != CC_GET_COMMAND
    ensures h.cc < 0xff && Writes(HandleSimple(r, def, h), r, h, [])
  {
    var u := r.(table := Parameters.Set(r.table, h.pid, Decoded(r, def, h.pdl)).0);
    ResponseIsAccepted(u, h, RESPONSE_ACK, 0, None, None);
    AckIsSent(u, h, None, None, 0);
  }

  lemma {:induction false} MuteIsAnswered(r: Responder, def: Definition, h: Header)
    requires CanHandle(r, h) && IsRequest(h) && DefinitionOf(r, h.subDevice, h.pid) == Some(def)
    requires def.handler == DiscoveryHandler && h.pid != PID_DISC_UNIQUE_BRANCH
    ensures h.cc < 0xff && |MuteData(r.mute)| <= 8 && Writes(HandleDiscovery(r, def, h), r, h, MuteData(r.mute))
  {
    var u := r.(table := Parameters.Set(r.table, h.pid, [if h.pid == PID_DISC_MUTE then 1 else 0]).0);
    MuteIsSerializable(ResponseHeader(u, h, RESPONSE_ACK, 8), r.mute);
    LexMute();
    ResponseIsAccepted(u, h, RESPONSE_ACK, 8, def.getResponse, Some(r.mute));
    AckIsSent(u, h, def.getResponse, Some(r.mute), 8);
  }

  // ---------- every request ----------

  lemma {:induction false} HandleIsAnswered(r: Responder, def: Definition, h: Header)
    requires CanHandle(r, h) && IsRequest(h) && h.pid != PID_DISC_UNIQUE_BRANCH
    requires DefinitionOf(r, h.subDevice, h.pid) == Some(def) && Supports(def, h.cc)
    ensures h.cc < 0xff
    ensures var w := Handle(r, def, h);
            && (def.handler == DiscoveryHandler ==> |MuteData(r.mute)| <= 8 && Writes(w, r, h, MuteData(r.mute)))
            && (def.handler == SimpleHandler && h.cc == CC_GET_COMMAND ==>
                  |ParameterData(r, def, h.pid)| <= PD_MAX && Writes(w, r, h, ParameterData(r, def, h.pid)))
            && (def.handler == SimpleHandler && h.cc != CC_GET_COMMAND ==> Writes(w, r, h, []))
  {
    if def.handler == DiscoveryHandler {
      MuteIsAnswered(r, def, h);
    } else if h.cc == CC_GET_COMMAND {
      GetIsAnswered(r, def, h);
    } else {
      SetIsAnswered(r, def, h);
    }
  }

  /** An answer of more than 255 slots is replaced by a NACK. */
  lemma {:induction false} ValidateIsAnswered(r: Responder, h: Header, w: Written, pd: seq<Byte>)
    requires Responders.Valid(w.state) && IsRequest(h) && h.pid != PID_DISC_UNIQUE_BRANCH && h.cc < 0xff
    requires w.state.uid == r.uid && w.state.queueSize == r.queueSize && |pd| <= PD_MAX && Writes(w, r, h, pd)
    ensures var v := Validate(w, h);
            && v.size > 0
            && Some(Transmission(v.state.data, v.size)) ==
               AnswerPacket(r, h, if 24 + |pd| + 2 > 255 then Nack(0x0002) else Ack(pd))
  {
    if 24 + |pd| + 2 > 255 {
      NackIsSent(w.state, h, NR_HARDWARE_FAULT);
    }
  }

  lemma {:induction false} SupportedIsNot(def: Definition, cc: Byte)
    requires CcIsValid(cc) && CcIsRequest(cc)
    ensures Supports(def, cc) <==> !(def.pidCc == Disc && cc != 0x10) && !IsUnsupported(def, cc)
  {
  }

  /** Does the dispatch write this answer, as far as it goes out? */
  predicate Dispatches(r: Responder, h: Header, a: Answer)
    requires CanHandle(r, h) && h.cc < 0xff && (a.Ack? ==> |a.pd| <= PD_MAX)
  {
    var w := Dispatch(r, h);
    if w.size == 0 then a == Silence else Some(Transmission(w.state.data, w.size)) == AnswerPacket(r, h, a)
  }

  lemma {:induction false} RefusalIsDispatched(r: Responder, h: Header)
    requires CanHandle(r, h) && IsRequest(h) && !IsBranchRequest(h)
    requires !IsKnown(r, h) || h.pdl > 231 || !Supports(r.definitions[h.pid], h.cc)
    ensures h.cc < 0xff && !AnswerTo(r, h).Ack? && Dispatches(r, h, AnswerTo(r, h))
  {
    KnownIsDefined(r, h);
    NackIsSent(r, h, NR_UNKNOWN_PID);
    NackIsSent(r, h, NR_FORMAT_ERROR);
    NackIsSent(r, h, NR_UNSUPPORTED_COMMAND_CLASS);
    if IsKnown(r, h) {
      SupportedIsNot(r.definitions[h.pid], h.cc);
    }
  }

  lemma {:induction false} HandledIsDispatched(r: Responder, h: Header)
    requires CanHandle(r, h) && IsRequest(h) && h.pid != PID_DISC_UNIQUE_BRANCH
    requires IsKnown(r, h) && h.pdl <= 231 && Supports(r.definitions[h.pid], h.cc)
    ensures h.cc < 0xff && (AnswerTo(r, h).Ack? ==> |AnswerTo(r, h).pd| <= PD_MAX)
    ensures Dispatches(r, h, AnswerTo(r, h))
  {
    var def := r.definitions[h.pid];
    KnownIsDefined(r, h);
    SupportedIsNot(def, h.cc);
    HandleIsAnswered(r, def, h);
    var w := Handle(r, def, h);
    if def.handler == DiscoveryHandler {
      ValidateIsAnswered(r, h, w, MuteData(r.mute));
    } else if h.cc == CC_GET_COMMAND {
      ValidateIsAnswered(r, h, w, ParameterData(r, def, h.pid));
    } else {
      ValidateIsAnswered(r, h, w, []);
    }
  }

  /**
   What goes out after a packet that is no DISC_UNIQUE_BRANCH request: nothing if it is for another device,
   or a broadcast, unless that has the PID of one; otherwise exactly the packet of the answer. An
   acknowledged SET carries no data; a NACK carries its reason.
   */
  lemma {:induction false} EveryAnswerIsExact(r: Responder, h: Header)
    requires Responders.Valid(r) && ReadHeader(r.data) == Some(h) && IsRequest(h) && !IsBranchRequest(h)
    requires CanHandle(r, h)
    ensures h.cc < 0xff && (AnswerTo(r, h).Ack? ==> |AnswerTo(r, h).pd| <= PD_MAX)
    ensures Respond(r).sent ==
            if IsTarget(r.uid, h.dest) && (h.dest.dev != 0xffff_ffff || h.pid == 0x0001)
            then AnswerPacket(r, h, AnswerTo(r, h)) else None
  {
    KnownIsDefined(r, h);
    if IsKnown(r, h) && h.pdl <= 231 && Supports(r.definitions[h.pid], h.cc) {
      HandledIsDispatched(r, h);
    } else {
      RefusalIsDispatched(r, h);
    }
  }

  // ---------- which requests are sought ----------

  /** Is there a mute flag, and is it clear? */
  predicate HasClearFlag(t: Parameters.Table)
    requires Parameters.HasData(t, PID_DISC_MUTE)
  {
    var at := Parameters.Find(t.entries, 0x0002, 0);
    at.Some? && t.entries[at.value].size > 0 && t.heap[t.entries[at.value].cell.value][0] == 0
  }

  /** The address that six slots of a packet hold. */
  function AddressAt(data: seq<Byte>, i: nat): nat
    requires i + 6 <= |data|
  {
    BigEndian(data[i..i + 2]) * 0x1_0000_0000 + BigEndian(data[i + 2..i + 6])
  }

  lemma {:induction false} BoundsAreAddresses(data: seq<Byte>)
    requires |data| == BUFFER_SIZE
    ensures Value(LowerBound(data)) == AddressAt(data, 24) && Value(UpperBound(data)) == AddressAt(data, 30)
  {
    UidAtIsBigEndian(data, 24);
    UidAtIsBigEndian(data, 30);
  }

  lemma {:induction false} ClearFlagIsNotMuted(t: Parameters.Table)
    requires Parameters.HasData(t, PID_DISC_MUTE)
    ensures !IsMuted(t) <==> HasClearFlag(t)
  {
  }

  /**
   The branch handler seeks exactly a device whose mute flag is there and clear, and whose address is within
   the bounds, themselves included, that the slots from 24 on hold, of a request with 1 to 231 bytes of data.
   */
  lemma {:induction false} SoughtExactly(r: Responder)
    requires Responders.Valid(r) && Parameters.HasData(r.table, PID_DISC_MUTE)
    ensures IsSought(r) <==>
            && HasClearFlag(r.table) && 1 <= r.data[23] <= 231
            && AddressAt(r.data, 24) <= Value(r.uid) <= AddressAt(r.data, 30)
  {
    ClearFlagIsNotMuted(r.table);
    BoundsAreAddresses(r.data);
    OrderIsAddressOrder(r.uid, LowerBound(r.data));
    OrderIsAddressOrder(r.uid, UpperBound(r.data));
  }

  // ---------- requests that change nothing ----------

  /**
   A handler that is asked about another sub-device changes nothing: that of the discovery parameters
   writes nothing, and the other one a NACK that names the sub-device as the reason. So does the latter
   when the parameter is missing.
   */
  lemma {:induction false} OtherSubDevicesAreRefused(r: Responder, def: Definition, h: Header)
    requires Responders.Valid(r) && IsRequest(h) && !IsBranchRequest(h)
    requires h.subDevice != 0 || Parameters.Find(r.table.entries, h.pid, 0) == None
    ensures h.cc < 0xff
    ensures Parameters.HasData(r.table, PID_DISC_MUTE) && Parameters.HasData(r.table, h.pid) && h.subDevice != 0 &&
            def.getResponse == Some(MUTE_FORMAT) ==>
              HandleDiscovery(r, def, h) == Written(r, 0)
    ensures Parameters.HasData(r.table, h.pid) &&
            (if h.cc == CC_GET_COMMAND then CanGet(r, def, h.pid) else CanSet(r, def, h.pdl)) ==>
              var w := HandleSimple(r, def, h);
              && w.state.table == r.table
              && Some(Transmission(w.state.data, w.size)) == AnswerPacket(r, h, Nack(0x0009))
  {
    NackIsSent(r, h, NR_SUB_DEVICE_OUT_OF_RANGE);
  }

  /** A SET without data, or whose format is no format, is acknowledged, but changes nothing. */
  lemma {:induction false} EmptySetChangesNothing(r: Responder, def: Definition, h: Header)
    requires CanHandle(r, h) && IsRequest(h) && DefinitionOf(r, h.subDevice, h.pid) == Some(def)
    requires def.handler == SimpleHandler && Supports(def, h.cc) && h.cc != CC_GET_COMMAND
    requires r.data[23] == 0 || r.data[23] > 231 || !Formats.Valid(def.setRequest.value)
    ensures h.cc < 0xff && HandleSimple(r, def, h).state.table == r.table && Writes(HandleSimple(r, def, h), r, h, [])
  {
    SetIsAnswered(r, def, h);
  }
}
