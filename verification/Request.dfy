/**
 The controller's routine that sends a request and waits for the response, which arrives in the same
 buffer.
 */
module Requests {
  import opened Bytes
  import opened Uids
  import opened Formats
  import opened Encoding
  import opened Encoder
  import opened Packets
  import opened PacketIO
  import D = Discovery

  datatype Request = Request(
    dest: Uid,
    subDevice: Word,
    cc: Byte,
    pid: Word,
    format: Option<string>,
    pd: Option<seq<Byte>>,
    pdl: Byte
  )

  /** What the library asserts of a request. */
  predicate IsProper(q: Request) {
    && (q.subDevice < SUB_DEVICE_MAX || (q.subDevice == SUB_DEVICE_ALL && q.cc == CC_SET_COMMAND))
    && q.pid > 0 && CcIsValid(q.cc) && CcIsRequest(q.cc) && q.pdl <= PD_MAX
    && (q.format.Some? ==> Lex(q.format.value) != EndOfString && Formats.Valid(q.format.value))
    && (q.pdl > 0 ==> q.format.Some? && q.pd.Some?)
  }

  function HeaderOf(q: Request, uid: Uid, tn: Byte, port: Byte): Header
    requires q.pdl <= PD_MAX
  {
    Header(HEADER_SIZE + q.pdl, q.dest, uid, tn, port, 0, q.subDevice, q.cc, q.pid, q.pdl)
  }

  /** What is written of a request: nothing if its header is not accepted. */
  function PacketOf(q: Request, uid: Uid, tn: Byte, port: Byte): (packet: seq<Byte>)
    requires q.pdl <= PD_MAX && IsSerializable(q, uid, tn, port)
    ensures |packet| <= 257
  {
    var h := HeaderOf(q, uid, tn, port);
    if Accepts(h, q.format, q.pd) then PacketBytes(h, q.format, q.pd) else []
  }

  predicate IsSerializable(q: Request, uid: Uid, tn: Byte, port: Byte)
    requires q.pdl <= PD_MAX
  {
    var h := HeaderOf(q, uid, tn, port);
    Accepts(h, q.format, q.pd) ==> Serializable(h, q.format, q.pd)
  }

  /** The parameter data of a request as they are on the wire. */
  function RequestPd(q: Request): seq<Byte>
    requires HasPd(q)
  {
    if q.pdl == 0 then [] else Encode(Lex(q.format.value), q.pd.value, q.pdl, false)
  }

  /** Is the format in lower case, and the memory there that it reads? */
  predicate HasPd(q: Request) {
    q.pdl > 0 ==>
      && q.format.Some? && q.pd.Some? && Usable(Lex(q.format.value))
      && Encodable(Lex(q.format.value), q.pd.value, q.pdl)
  }

  lemma {:induction false} RequestIsAccepted(q: Request, uid: Uid, tn: Byte, port: Byte)
    requires IsProper(q) && port > 0 && q.pdl < PD_MAX && HasPd(q)
    ensures IsSerializable(q, uid, tn, port) && |RequestPd(q)| <= PD_MAX
    ensures PacketOf(q, uid, tn, port) == StandardPacket(HeaderOf(q, uid, tn, port), RequestPd(q))
  {
  }

  /**
   What a request is on the wire. Whatever follows it in the buffer, the header that is read from it is
   addressed to the request's destination and comes from this device; transaction number, port, sub-device,
   command class and PID are those of the request; and its parameter data follow.
   */
  lemma {:induction false} RequestOnWire(q: Request, uid: Uid, tn: Byte, port: Byte, rest: seq<Byte>)
    requires IsProper(q) && port > 0 && q.pdl < PD_MAX && HasPd(q)
    requires |PacketOf(q, uid, tn, port) + rest| >= 257
    ensures var data, pd := PacketOf(q, uid, tn, port) + rest, RequestPd(q);
            var header := ReadHeader(data);
            && header.Some? && header.value.dest == q.dest && header.value.src == uid
            && header.value.tn == tn && header.value.portId == port && header.value.messageCount == 0
            && header.value.subDevice == q.subDevice && header.value.cc == q.cc && header.value.pid == q.pid
            && header.value.pdl == |pd| && header.value.messageLen == 24 + |pd| && pd <= data[24..]
            && |PacketOf(q, uid, tn, port)| == 24 + |pd| + 2
  {
    RequestIsAccepted(q, uid, tn, port);
    PacketRoundTrip(HeaderOf(q, uid, tn, port), RequestPd(q), rest);
  }

  /** What the controller takes the bytes in its buffer for, once a packet was received. */
  function Interpret(data: seq<Byte>): D.Reply
    requires |data| == BUFFER_SIZE
  {
    match ReadHeader(data)
    case None => D.Invalid
    case Some(h) =>
      if !ResponseTypeIsValid(h.portId) then D.Invalid
      else if h.portId == RESPONSE_ACK then D.Ack(Value(h.src))
      else D.OtherType
  }

  predicate ExpectsResponse(q: Request) {
    !IsBroadcast(q.dest) || q.pid == PID_DISC_UNIQUE_BRANCH
  }

  /** The result of the call: for an acknowledgement the length of its parameter data, or 1 if there are none. */
  predicate IsResult(n: nat, header: Option<Header>) {
    n == if header.None? || header.value.portId != RESPONSE_ACK then 0
         else if header.value.pdl == 0 then 1 else header.value.pdl
  }

  /**
   What the controller makes of a response that it can read, whatever follows it in the buffer: an
   acknowledgement by its sender, another type of response (a NACK, or one that is to be asked for again),
   or nothing valid. Only an acknowledgement has a result, which is never 0.
   */
  lemma {:induction false} ResponseIsInterpreted(h: Header, pd: seq<Byte>, rest: seq<Byte>, n: nat)
    requires |pd| <= PD_MAX && |StandardPacket(h, pd) + rest| == BUFFER_SIZE
    ensures var data := StandardPacket(h, pd) + rest;
            && Interpret(data) == (if h.portId == 0x00 then D.Ack(Value(h.src))
                                   else if h.portId <= 0x03 then D.OtherType
                                   else D.Invalid)
            && (IsResult(n, ReadHeader(data)) <==>
                  n == if h.portId != 0x00 then 0 else if pd == [] then 1 else |pd|)
  {
    PacketRoundTrip(h, pd, rest);
  }

  /** What the buffer holds when the response is read. */
  function AfterResponse(data: seq<Byte>, packet: seq<Byte>, response: seq<Byte>): (r: seq<Byte>)
    requires |data| == BUFFER_SIZE && |packet| <= BUFFER_SIZE && |response| <= BUFFER_SIZE
    ensures |r| == BUFFER_SIZE
  {
    Splice(Splice(data, 0, packet), 0, response)
  }

  /** Writing back as many bytes as a request has restores the buffer, exactly if no more were changed beyond them. */
  lemma {:induction false} RestoreUndoes(data: seq<Byte>, bytes: seq<Byte>, n: nat)
    requires |bytes| <= |data| && n <= |data|
    ensures Splice(Splice(data, 0, bytes), 0, data[..n]) == data <==>
            bytes[Min(n, |bytes|)..] == data[Min(n, |bytes|)..|bytes|]
  {
    var after := Splice(Splice(data, 0, bytes), 0, data[..n]);
    if n < |bytes| {
      assert after == data[..n] + bytes[n..] + data[|bytes|..];
      assert data == data[..n] + data[n..|bytes|] + data[|bytes|..];
      assert after[n..|bytes|] == bytes[n..];
    } else {
      assert after == data;
    }
  }

  /**
   Sends a request. `sends` tells if it could be sent, `response` what was received, if anything. In
   the end, as many bytes as the request's lengths say are written back: a request that expects no
   response, or got none, leaves the buffer as it was, unless the parameter data came out longer than
   their length says. Of a response longer than the request, the end stays in the buffer.
   */
  method SendRequest(
      data: array<Byte>, q: Request, uid: Uid, tn: Byte, port: Byte, sends: bool, response: Option<seq<Byte>>)
    returns (reply: D.Reply, result: nat)
    requires data.Length == BUFFER_SIZE && IsProper(q) && port > 0 && IsSerializable(q, uid, tn, port)
    requires response.Some? ==> 0 < |response.value| <= BUFFER_SIZE
    modifies data
    ensures !sends || !ExpectsResponse(q) || response == None ==>
      && reply == D.NoReply && result == 0
      && (|PacketOf(q, uid, tn, port)| <= HEADER_SIZE + q.pdl + 2 ==> data[..] == old(data[..]))
    ensures sends && ExpectsResponse(q) && response.Some? ==>
      var received := AfterResponse(old(data[..]), PacketOf(q, uid, tn, port), response.value);
      var n := HEADER_SIZE + q.pdl + 2;
      && reply == Interpret(received) && IsResult(result, ReadHeader(received))
      && data[..] == Splice(received, 0, old(data[..n]))
  {
    ghost var before := data[..];
    var packetSize := 24 + q.pdl as nat + 2;
    var oldData := data[..packetSize];
    WriteRequest(data, q, uid, tn, port);
    if !sends || (IsBroadcast(q.dest) && q.pid != PID_DISC_UNIQUE_BRANCH) || response == None {
      RestoreUndoes(before, PacketOf(q, uid, tn, port), packetSize);
      Store(data, 0, oldData);
      return D.NoReply, 0;
    }
    Store(data, 0, response.value);
    reply, result := ReadResponse(data);
    Store(data, 0, oldData);
  }

  /** Writes the request. One whose parameter data are as long as can be is not accepted. */
  method WriteRequest(data: array<Byte>, q: Request, uid: Uid, tn: Byte, port: Byte)
    requires data.Length == BUFFER_SIZE && IsProper(q) && port > 0 && IsSerializable(q, uid, tn, port)
    modifies data
    ensures data[..] == Splice(old(data[..]), 0, PacketOf(q, uid, tn, port))
    ensures PacketOf(q, uid, tn, port) == [] <==> q.pdl == PD_MAX
  {
    var header := Header(24 + q.pdl, q.dest, uid, tn, port, 0, q.subDevice, q.cc, q.pid, q.pdl);
    var _ := Write(data, header, q.format, q.pd);
  }

  method ReadResponse(data: array<Byte>) returns (reply: D.Reply, result: nat)
    requires data.Length == BUFFER_SIZE
    ensures reply == Interpret(data[..]) && IsResult(result, ReadHeader(data[..]))
  {
    var header := ReadPacketHeader(data);
    if header == None {
      return D.Invalid, 0;
    }
    if !ResponseTypeIsValid(header.value.portId) {
      reply := D.Invalid;
    } else if header.value.portId == RESPONSE_ACK {
      reply := D.Ack(Value(header.value.src));
    } else {
      reply := D.OtherType;
    }
    result := if header.value.portId != RESPONSE_ACK then 0 else if header.value.pdl == 0 then 1 else header.value.pdl;
  }
}
