/**
 The responder as the library has it: handlers that read the request from the driver's buffer, update
 the parameter table in place, and write the response over the request.
 */
module ResponderCode {
  import opened Bytes
  import opened Uids
  import opened Formats
  import opened Encoding
  import opened Encoder
  import opened Packets
  import opened PacketIO
  import opened Responders
  import Parameters
  import ParameterCode
  import Drivers

  /** Reading the bounds of a search gives the UIDs that are on the wire. */
  lemma {:induction false} BranchIsRead(data: seq<Byte>)
    requires |data| == BUFFER_SIZE && data[23] > 0
    ensures Encodable(Lex(BRANCH_FORMAT), data[HEADER_SIZE..], Min(data[23], 12))
    ensures PdOf(data, Lex(BRANCH_FORMAT), 12) == SwapUid(data[24..30]) + SwapUid(data[30..36])
  {
    LexBranch();
    var f, src := Lex(BRANCH_FORMAT), data[HEADER_SIZE..];
    FixedPass(f, src, Min(data[23], 12), true);
    SwapBranch(f, src);
    assert src[..6] == data[24..30] && src[6..][..6] == data[30..36];
  }

  lemma {:induction false} SwapBranch(f: Format, src: seq<Byte>)
    requires f == Then(UidField, false, Then(UidField, false, Last(Dollar, false))) && |src| >= 12
    ensures SwapAll(f, src) == SwapUid(src[..6]) + SwapUid(src[6..][..6])
  {
    assert SwapAll(f.rest, src[6..]) == SwapUid(src[6..][..6]) + SwapAll(f.rest.rest, src[6..][6..]);
    assert SwapAll(f.rest.rest, src[6..][6..]) == [];
  }

  class RdmResponder {
    const uid: Uid
    const device: ParameterCode.Device
    const definitions: map<Word, Definition>
    const data: array<Byte>
    const queueSize: Byte
    const mute: seq<Byte>
    const stack: seq<Byte>

    constructor (uid: Uid, device: ParameterCode.Device, definitions: map<Word, Definition>, data: array<Byte>,
                 queueSize: Byte, mute: seq<Byte>, stack: seq<Byte>)
      ensures State() == Responder(uid, device.State(), definitions, data[..], queueSize, mute, stack)
      ensures this.device == device && this.data == data
    {
      this.uid, this.device, this.definitions, this.data := uid, device, definitions, data;
      this.queueSize, this.mute, this.stack := queueSize, mute, stack;
    }

    ghost function State(): Responder
      reads device, device.entries, data
    {
      Responder(uid, device.State(), definitions, data[..], queueSize, mute, stack)
    }

    ghost predicate Valid()
      reads device, device.entries, data
    {
      Responders.Valid(State())
    }

    method WriteAck(h: Header, format: Option<string>, pd: Option<seq<Byte>>, pdl: Byte) returns (size: nat)
      requires Valid() && CcIsRequest(h.cc) && pdl < PD_MAX
      requires format.Some? ==> Lex(format.value) != EndOfString
      requires var header := ResponseHeader(State(), h, RESPONSE_ACK, pdl); Accepts(header, format, pd) ==>
               Serializable(header, format, pd)
      modifies data
      ensures Written(State(), size) == Responders.WriteAck(old(State()), h, format, pd, pdl)
    {
      var header := Header(24 + pdl, h.src, uid, h.tn, RESPONSE_ACK, queueSize, h.subDevice, Or(h.cc, 1), h.pid, pdl);
      size := Write(data, header, format, pd);
    }

    method WriteNackReason(h: Header, reason: Word) returns (size: nat)
      requires Valid() && CcIsRequest(h.cc)
      modifies data
      ensures Written(State(), size) == Responders.WriteNackReason(old(State()), h, reason)
    {
      var header := Header(24 + 2, h.src, uid, h.tn, RESPONSE_NACK_REASON, queueSize, h.subDevice, Or(h.cc, 1), h.pid,
          2);
      NackIsSerializable(State(), h, reason);
      size := Write(data, header, Some("w"), Some(Le16(reason)));
    }

    /** Is the device sought by the DISC_UNIQUE_BRANCH request in the buffer? */
    method AcceptsBranch(def: Definition) returns (sought: bool)
      requires Valid() && Parameters.HasData(device.State(), PID_DISC_MUTE) && def.getRequest == Some(BRANCH_FORMAT)
      ensures sought == IsSought(State())
    {
      var isMuted := device.CopyParameter(PID_DISC_MUTE, 1);
      if isMuted == [] || isMuted[0] != 0 {
        return false;
      }
      LexBranch();
      if data[23] > 0 {
        BranchIsRead(data[..]);
      }
      var branch := new Byte[12];
      var pdl := ReadPd(data, BRANCH_FORMAT, branch, 12);
      if pdl == 0 {
        return false;
      }
      sought := IsWithin(branch);
    }

    method IsWithin(branch: array<Byte>) returns (within: bool)
      requires Valid() && branch.Length == 12
      requires branch[..] == SwapUid(data[24..30]) + SwapUid(data[30..36])
      ensures within == (!IsLt(uid, LowerBound(data[..])) && !IsGt(uid, UpperBound(data[..])))
    {
      assert forall i :: 0 <= i < 6 ==> branch[i] == branch[..][i] == SwapUid(data[24..30])[i];
      assert forall i :: 0 <= i < 6 ==> branch[6 + i] == branch[..][6 + i] == SwapUid(data[30..36])[i];
      var lower := Uid(Be16(branch[1], branch[0]), Be32(branch[5], branch[4], branch[3], branch[2]));
      var upper := Uid(Be16(branch[7], branch[6]), Be32(branch[11], branch[10], branch[9], branch[8]));
      assert lower == LowerBound(data[..]) && upper == UpperBound(data[..]);
      if IsLt(uid, lower) || IsGt(uid, upper) {
        return false;
      }
      within := true;
    }

    method HandleDiscovery(def: Definition, h: Header) returns (size: nat)
      requires Valid() && CcIsRequest(h.cc) && h.pid > 0
      requires Parameters.HasData(device.State(), PID_DISC_MUTE)
      requires if h.pid == PID_DISC_UNIQUE_BRANCH then def.getRequest == Some(BRANCH_FORMAT)
               else def.getResponse == Some(MUTE_FORMAT) && Parameters.HasData(device.State(), h.pid)
      modifies data, device, device.entries
      ensures Written(State(), size) == Responders.HandleDiscovery(old(State()), def, h)
    {
      if h.subDevice != SUB_DEVICE_ROOT {
        return 0;
      }
      if h.pid == PID_DISC_UNIQUE_BRANCH {
        var sought := AcceptsBranch(def);
        if !sought {
          return 0;
        }
        size := WriteAck(h, None, None, 0);
      } else {
        var setMute: Byte := if h.pid == PID_DISC_MUTE then 1 else 0;
        var _ := device.SetParameter(h.pid, [setMute]);
        MuteIsSerializable(ResponseHeader(State(), h, RESPONSE_ACK, 8), mute);
        LexMute();
        size := WriteAck(h, def.getResponse, Some(mute), 8);
      }
    }

    method HandleSimple(def: Definition, h: Header) returns (size: nat)
      requires Valid() && CcIsRequest(h.cc) && h.pid > 0 && h.subDevice < SUB_DEVICE_MAX
      requires Parameters.HasData(device.State(), h.pid)
      requires if h.cc == CC_GET_COMMAND then CanGet(State(), def, h.pid) else CanSet(State(), def, h.pdl)
      requires h.cc == CC_GET_COMMAND && def.getResponse.Some? ==> Lex(def.getResponse.value) != EndOfString
      modifies data, device, device.entries
      ensures Written(State(), size) == Responders.HandleSimple(old(State()), def, h)
    {
      var entry := device.GetEntry(h.pid);
      if h.subDevice != SUB_DEVICE_ROOT || entry == None {
        size := WriteNackReason(h, NR_SUB_DEVICE_OUT_OF_RANGE);
        return;
      }
      if h.cc == CC_GET_COMMAND {
        var pdl := device.entries[entry.value].size;
        var pd := device.CopyParameter(h.pid, PD_MAX);
        size := WriteAck(h, def.getResponse, Some(pd), pdl);
      } else {
        var pd := ReadParameterData(def, h);
        var _ := device.SetParameter(h.pid, pd);
        size := WriteAck(h, None, None, 0);
      }
    }

    /** Decodes the parameter data of a SET request. */
    method ReadParameterData(def: Definition, h: Header) returns (pd: seq<Byte>)
      requires Valid() && CanSet(State(), def, h.pdl)
      ensures pd == Decoded(State(), def, h.pdl)
    {
      var buffer := new Byte[PD_MAX](i requires 0 <= i < |stack| => stack[i]);
      assert buffer[..] == stack;
      var size := ReadPd(data, def.setRequest.value, buffer, h.pdl);
      pd := buffer[..size];
    }

    /** What the library asserts, and the formats it looks at must not be blank. */
    ghost predicate CanRespond(h: Header)
      reads device, device.entries, data
    {
      && CanHandle(State(), h)
      && var def := DefinitionOf(State(), h.subDevice, h.pid);
         def.Some? ==>
           if def.value.handler == DiscoveryHandler then h.pid == PID_DISC_UNIQUE_BRANCH ==>
               def.value.getRequest == Some(BRANCH_FORMAT)
           else def.value.getResponse.Some? ==> Lex(def.value.getResponse.value) != EndOfString
    }

    method GetDefinition(subDevice: Word, pid: Word) returns (def: Option<Definition>)
      requires pid > 0
      ensures def == DefinitionOf(State(), subDevice, pid)
    {
      if subDevice != SUB_DEVICE_ROOT {
        return None;
      }
      var entry := device.GetEntry(pid);
      def := if entry.Some? && pid in definitions then Some(definitions[pid]) else None;
    }

    method CallHandler(def: Definition, h: Header) returns (size: nat)
      requires Valid() && CanRespond(h) && DefinitionOf(State(), h.subDevice, h.pid) == Some(def) && Supports(def, h.cc)
      modifies data, device, device.entries
      ensures Written(State(), size) == Handle(old(State()), def, h)
    {
      match def.handler {
        case DiscoveryHandler => size := HandleDiscovery(def, h);
        case SimpleHandler => size := HandleSimple(def, h);
      }
    }

    /** Replaces a discovery reply of the wrong size by nothing, and a missing response by a NACK. */
    method ValidateSize(h: Header, size: nat) returns (validated: nat)
      requires Valid() && CcIsRequest(h.cc)
      modifies data
      ensures Written(State(), validated) == Validate(old(Written(State(), size)), h)
    {
      validated := size;
      if h.pid == PID_DISC_UNIQUE_BRANCH && ((size > 0 && size < 17) || size > 24) {
        validated := 0;
      } else if size > 255 || (size == 0 && !IsBroadcast(h.dest)) {
        validated := WriteNackReason(h, NR_HARDWARE_FAULT);
      }
    }

    method DispatchRequest(h: Header) returns (size: nat)
      requires Valid() && CanRespond(h)
      modifies data, device, device.entries
      ensures Written(State(), size) == Dispatch(old(State()), h)
    {
      var def := GetDefinition(h.subDevice, h.pid);
      if def == None {
        size := WriteNackReason(h, NR_UNKNOWN_PID);
        return;
      }
      if h.pdl >= 232 {
        size := WriteNackReason(h, NR_FORMAT_ERROR);
        return;
      }
      var pidCc := def.value.pidCc;
      if pidCc == Disc && h.cc != CC_DISC_COMMAND {
        size := 0;
      } else if (pidCc == GetSet && h.cc == CC_DISC_COMMAND) || (pidCc == Get && h.cc != CC_GET_COMMAND)
                || (pidCc == Set && h.cc != CC_SET_COMMAND) {
        size := WriteNackReason(h, NR_UNSUPPORTED_COMMAND_CLASS);
      } else {
        size := CallHandler(def.value, h);
        size := ValidateSize(h, size);
      }
    }

    /** Handles the packet in the buffer. Returns what is sent, if anything. */
    method SendResponse() returns (sent: Option<seq<Byte>>)
      requires Valid() && (RequestFor(State()).Some? ==> CanRespond(RequestFor(State()).value))
      modifies data, device, device.entries
      ensures Response(State(), sent) == Respond(old(State()))
    {
      var header := ReadPacketHeader(data);
      if header == None || !CcIsValid(header.value.cc) || !IsTarget(uid, header.value.dest) {
        return None;
      }
      var size := DispatchRequest(header.value);
      if IsBroadcast(header.value.dest) && header.value.pid != PID_DISC_UNIQUE_BRANCH {
        size := 0;
      }
      if size == 0 {
        return None;
      }
      sent := Some(Transmission(data[..], size));
    }
  }
}
