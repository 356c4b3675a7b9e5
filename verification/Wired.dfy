/**
 Discovery over a bus that is wired up from devices: packets go from the controller to each device's
 handler, and what the handlers send comes back to the controller. All of them together meet what the
 search is proved against, and so every device is found.
 */
module Wired {
  import opened Bytes
  import opened Uids
  import opened Formats
  import opened Encoding
  import opened Encoder
  import opened Packets
  import opened PacketIO
  import opened RoundTrip
  import opened Requests
  import opened Responders
  import opened ResponderRuns
  import D = Discovery
  import opened DiscoveryExact
  import Parameters

  /** What the discovery routines ask the request routine to send. */
  function DiscoveryRequest(q: D.Request): Request {
    match q
    case UniqueBranch(range) =>
      Request(BROADCAST_ALL, SUB_DEVICE_ROOT, CC_DISC_COMMAND, PID_DISC_UNIQUE_BRANCH, Some(BRANCH_FORMAT),
              Some(UidMemory(FromValue(range.lo)) + UidMemory(FromValue(range.hi))), 12)
    case Mute(dest) => Request(FromValue(dest), SUB_DEVICE_ROOT, CC_DISC_COMMAND, PID_DISC_MUTE, None, None, 0)
    case UnMute(dest) => Request(FromValue(dest), SUB_DEVICE_ROOT, CC_DISC_COMMAND, PID_DISC_UN_MUTE, None, None, 0)
  }

  lemma {:induction false} BoundsOnWire(lo: Uid, hi: Uid)
    ensures Usable(Lex(BRANCH_FORMAT)) && Lex(BRANCH_FORMAT) != EndOfString
    ensures Encodable(Lex(BRANCH_FORMAT), UidMemory(lo) + UidMemory(hi), 12)
    ensures Encode(Lex(BRANCH_FORMAT), UidMemory(lo) + UidMemory(hi), 12, false) == UidWire(lo) + UidWire(hi)
  {
    var f, src := Lex(BRANCH_FORMAT), UidMemory(lo) + UidMemory(hi);
    LexBranch();
    EncodeTerminated(f, src, false);
    SwapOverField(f, UidMemory(lo), UidMemory(hi));
    SwapOverField(f.rest, UidMemory(hi), []);
    assert UidMemory(hi) + [] == UidMemory(hi);
  }

  /** The packets that devices are proved to answer are those that the request routine writes. */
  lemma {:induction false} RequestIsWritten(q: D.Request, src: Uid, tn: Byte, port: Byte)
    requires port > 0
    ensures var request := DiscoveryRequest(q);
            && IsProper(request) && HasPd(request) && IsSerializable(request, src, tn, port)
            && PacketOf(request, src, tn, port) == RequestPacket(q, src, tn, port)
            && (ExpectsResponse(request) <==> q.UniqueBranch? || !IsBroadcastAddress(q.dest))
  {
    if q.UniqueBranch? {
      LexBranch();
      BoundsOnWire(FromValue(q.range.lo), FromValue(q.range.hi));
    } else {
      ValueRoundTrip(q.dest);
      AddressPredicatesAgree(FromValue(q.dest), FromValue(q.dest));
    }
    RequestIsAccepted(DiscoveryRequest(q), src, tn, port);
  }

  /** A discovery reply, of whose preamble some is lost, is an acknowledgement by its sender. */
  lemma {:induction false} DiscoveryReplyIsAck(stale: seq<Byte>, u: Uid, preamble: nat)
    requires |stale| == BUFFER_SIZE && preamble <= PREAMBLE_MAX
    ensures |DiscoveryReply(u, preamble)| <= BUFFER_SIZE
    ensures Interpret(Splice(stale, 0, DiscoveryReply(u, preamble))) == D.Ack(Value(u))
  {
    var packet := DiscoveryReply(u, preamble);
    DiscoveryReplyIsSent(stale, u, preamble, 0);
    var rest := stale[|packet|..];
    DiscoveryRoundTrip(u, preamble, rest);
    assert Splice(stale, 0, packet) == packet + rest;
  }

  lemma {:induction false} StandardIsAck(stale: seq<Byte>, h: Header, pd: seq<Byte>)
    requires |stale| == BUFFER_SIZE && |pd| <= PD_MAX && CcIsValid(h.cc) && !IsDiscoveryReply(h) &&
             h.portId == RESPONSE_ACK
    ensures Interpret(Splice(stale, 0, StandardPacket(h, pd))) == D.Ack(Value(h.src))
  {
    StandardIsSent(stale, h, pd, 0);
  }

  lemma {:induction false} FlagDispatchIsAck(r: Responder, cell: nat, h: Header)
    requires IsRegistered(r, cell) && CanHandle(r, h) && IsRequest(h) && h.cc == CC_DISC_COMMAND && h.pdl == 0
    requires (h.pid == PID_DISC_MUTE || h.pid == PID_DISC_UN_MUTE) && h.subDevice == SUB_DEVICE_ROOT
    ensures Parameters.HasData(r.table, h.pid)
    ensures var header := ResponseHeader(WithFlag(r, h.pid), h, RESPONSE_ACK, 8);
            && Accepts(header, Some(MUTE_FORMAT), Some(r.mute)) && Serializable(header, Some(MUTE_FORMAT), Some(r.mute))
            && CcIsValid(header.cc) && !IsDiscoveryReply(header)
            && var w, pd := Dispatch(r, h), WirePd(header, Some(MUTE_FORMAT), Some(r.mute));
               w.size > 0 && Transmission(w.state.data, w.size) == StandardPacket(header, pd)
  {
    var u := WithFlag(r, h.pid);
    var header := ResponseHeader(u, h, RESPONSE_ACK, 8);
    LexMute();
    ResponseCc(h.cc);
    ResponseIsAccepted(u, h, RESPONSE_ACK, 8, Some(MUTE_FORMAT), Some(r.mute));
    MuteIsSerializable(header, r.mute);
    MutePdFits(header, r.mute);
    WriteIsSent(u, header, Some(MUTE_FORMAT), Some(r.mute));
  }

  lemma {:induction false} MutePdFits(h: Header, mute: seq<Byte>)
    requires h.pdl == 8 && |mute| == 8
    requires Accepts(h, Some(MUTE_FORMAT), Some(mute)) && Serializable(h, Some(MUTE_FORMAT), Some(mute)) &&
             !IsDiscoveryReply(h)
    ensures |WirePd(h, Some(MUTE_FORMAT), Some(mute))| <= 8
  {
    LexMute();
  }

  /** What a device sends in reply to a mute request is an acknowledgement with its own UID. */
  lemma {:induction false} FlagReplyIsAck(
      r: Responder, cell: nat, q: D.Request, src: Uid, tn: Byte, port: Byte, stale: seq<Byte>)
    requires IsRegistered(r, cell) && !q.UniqueBranch? && RequestPacket(q, src, tn, port) <= r.data &&
             |stale| == BUFFER_SIZE
    ensures Responders.Valid(r) && (RequestFor(r).Some? ==> CanHandle(r, RequestFor(r).value))
    ensures var p := Respond(r);
            Reaches(q.dest, Value(r.uid)) && !IsBroadcastAddress(q.dest) ==>
            && p.sent.Some? && |p.sent.value| <= BUFFER_SIZE
            && Interpret(Splice(stale, 0, p.sent.value)) == D.Ack(Value(r.uid))
  {
    var h := RequestHeader(q, src, tn, port);
    FlagRequestIsRead(r, q, src, tn, port);
    FlagRequestIsHandled(r, cell, q, src, tn, port);
    FlagDispatchIsAck(r, cell, h);
    var header := ResponseHeader(WithFlag(r, h.pid), h, RESPONSE_ACK, 8);
    StandardIsAck(stale, header, WirePd(header, Some(MUTE_FORMAT), Some(r.mute)));
  }

  /** The start of a discovery reply may be lost, that of a response may not. */
  function Shortened(q: D.Request, preamble: nat, packet: seq<Byte>): seq<Byte> {
    var lost := PREAMBLE_MAX - preamble;
    if q.UniqueBranch? && 0 <= lost <= |packet| then packet[lost..] else packet
  }

  lemma {:induction false} ShortenedReply(u: Uid, n: nat)
    requires n <= PREAMBLE_MAX
    ensures |DiscoveryReply(u, PREAMBLE_MAX)| == PREAMBLE_MAX + 17
    ensures DiscoveryReply(u, PREAMBLE_MAX)[PREAMBLE_MAX - n..] == DiscoveryReply(u, n)
  {
    var rest := [DELIMITER] + (Halves(UidWire(u)) + Halves(WordWire(ReplyChecksum(u))));
    assert (Preamble(PREAMBLE_MAX) + rest)[PREAMBLE_MAX - n..] == Preamble(PREAMBLE_MAX)[PREAMBLE_MAX - n..] + rest;
  }

  lemma {:induction false} SearchReplyIsAck(
      r: Responder, cell: nat, q: D.Request, src: Uid, tn: Byte, port: Byte, preamble: nat, stale: seq<Byte>)
    requires IsRegistered(r, cell) && q.UniqueBranch? && RequestPacket(q, src, tn, port) <= r.data &&
             |stale| == BUFFER_SIZE
    requires Answers(Value(r.uid), IsMuted(r.table), q) && preamble <= PREAMBLE_MAX
    ensures RequestFor(r).Some? ==> CanHandle(r, RequestFor(r).value)
    ensures var p := Respond(r);
            && p.sent.Some? && |Shortened(q, preamble, p.sent.value)| <= BUFFER_SIZE
            && Interpret(Splice(stale, 0, Shortened(q, preamble, p.sent.value))) == D.Ack(Value(r.uid))
  {
    RequestIsRead(r, q, src, tn, port);
    PdlIsRead(r.data, RequestHeader(q, src, tn, port));
    BoundsAreRead(r, q);
    SoughtMeansAnswers(r, q);
    BranchRequestFollows(r, cell, q, src, tn, port);
    ShortenedReply(r.uid, preamble);
    DiscoveryReplyIsAck(stale, r.uid, preamble);
  }

  /** What the controller takes a device's answer for, when nothing else is on the bus: the device's acknowledgement. */
  function Perceived(r: Responder, cell: nat, a: Arrival, preamble: nat, stale: seq<Byte>): (reply: D.Reply)
    requires IsRegistered(r, cell) && HasArrived(a) && Answers(Value(r.uid), IsMuted(r.table), a.q)
    requires preamble <= PREAMBLE_MAX && |stale| == BUFFER_SIZE
    ensures reply == D.Ack(Value(r.uid))
  {
    var s := r.(data := a.buffer);
    if a.q.UniqueBranch? then
      SearchReplyIsAck(s, cell, a.q, a.src, a.tn, a.port, preamble, stale);
      Interpret(Splice(stale, 0, Shortened(a.q, preamble, Respond(s).sent.value)))
    else
      FlagReplyIsAck(s, cell, a.q, a.src, a.tn, a.port, stale);
      Interpret(Splice(stale, 0, Respond(s).sent.value))
  }

  // ---------- the bus ----------

  /** A responder, and the address of its mute flag. */
  datatype Device = Device(responder: Responder, cell: nat)

  /**
   The devices, by address, and all that chance decides, as functions of the requests sent so far:
   whether the last request reaches a device and what is sent in return reaches the controller, how
   much is left of the preamble of a discovery reply, what the controller makes of a collision, and
   what it makes of the bus when nothing reaches it.
   */
  datatype Wire = Wire(
    devices: map<Address, Device>,
    src: Uid,
    port: Byte,
    tn: seq<D.Request> -> Byte,
    hears: (seq<D.Request>, Address) -> bool,
    arrives: seq<D.Request> -> bool,
    preamble: seq<D.Request> -> nat,
    collision: seq<D.Request> -> D.Reply,
    silence: seq<D.Request> -> D.Reply,
    stale: seq<Byte>
  )

  predicate GetsThrough(w: Wire, log: seq<D.Request>, a: Address) {
    w.hears(log, a) && w.arrives(log)
  }

  /** Of three equal requests in a row, one gets through to a device, and so does what is sent in return. */
  predicate OneOfThreeGetsThrough(w: Wire, log: seq<D.Request>, q: D.Request, a: Address) {
    GetsThrough(w, log + [q], a) || GetsThrough(w, log + [q] + [q], a) || GetsThrough(w, log + [q] + [q] + [q], a)
  }

  predicate IsDevice(w: Wire, a: Address)
    requires a in w.devices
  {
    && IsRegistered(w.devices[a].responder, w.devices[a].cell) && Value(w.devices[a].responder.uid) == a
    && !IsBroadcastAddress(a)
  }

  /** What is assumed of the wire itself, and of what chance decides on it. */
  ghost predicate GetsOneOfThreeThrough(w: Wire) {
    && |w.stale| == BUFFER_SIZE && w.port > 0
    && (forall log :: w.preamble(log) <= PREAMBLE_MAX)
    && (forall log :: w.collision(log) != D.NoReply)
    && (forall log :: w.silence(log) == D.NoReply || w.silence(log) == D.Invalid)
    && (forall log, q, a :: a in w.devices ==> OneOfThreeGetsThrough(w, log, q, a))
  }

  ghost predicate IsWired(w: Wire) {
    GetsOneOfThreeThrough(w) && forall a :: a in w.devices ==> IsDevice(w, a)
  }

  // ---------- the devices over a run ----------

  /** The last request of the run as a device receives it, over what is left in its buffer. */
  function Arriving(w: Wire, r: Responder, log: seq<D.Request>): (a: Arrival)
    requires log != [] && Responders.Valid(r) && w.port > 0
    ensures HasArrived(a) && a.q == log[|log| - 1]
  {
    var q := log[|log| - 1];
    RequestIsWritten(q, w.src, w.tn(log), w.port);
    Arrival(q, w.src, w.tn(log), w.port, Splice(r.data, 0, PacketOf(DiscoveryRequest(q), w.src, w.tn(log), w.port)))
  }

  /** The device at an address after the run. */
  ghost function After(w: Wire, a: Address, log: seq<D.Request>): (r: Responder)
    requires IsWired(w) && a in w.devices
    ensures IsRegistered(r, w.devices[a].cell) && Value(r.uid) == a
  {
    assert IsDevice(w, a);
    if log == [] then w.devices[a].responder
    else
      var before := After(w, a, log[..|log| - 1]);
      if w.hears(log, a) then Hear(before, w.devices[a].cell, Arriving(w, before, log)) else before
  }

  /** Does the device at an address send something in return for the last request? */
  ghost predicate Sends(w: Wire, a: Address, log: seq<D.Request>)
    requires IsWired(w) && a in w.devices && log != []
  {
    w.hears(log, a) && Answers(a, IsMuted(After(w, a, log[..|log| - 1]).table), log[|log| - 1])
  }

  ghost function Senders(w: Wire, log: seq<D.Request>): set<Address>
    requires IsWired(w) && log != []
  {
    set a | a in w.devices && Sends(w, a, log)
  }

  // ---------- what the controller receives ----------

  ghost function Received(w: Wire, log: seq<D.Request>): D.Reply
    requires IsWired(w) && log != []
  {
    var senders := Senders(w, log);
    if senders == {} || !w.arrives(log) then w.silence(log)
    else if a :| a in senders && senders == {a} then Alone(w, a, log)
    else w.collision(log)
  }

  /** What the controller makes of what one device sends alone. */
  ghost function Alone(w: Wire, a: Address, log: seq<D.Request>): (reply: D.Reply)
    requires IsWired(w) && a in w.devices && log != []
    ensures Sends(w, a, log) ==> reply == D.Ack(a)
  {
    var before := After(w, a, log[..|log| - 1]);
    if !Sends(w, a, log) then w.silence(log)
    else Perceived(before, w.devices[a].cell, Arriving(w, before, log), w.preamble(log), w.stale)
  }

  /** The wire as the search sees it. */
  ghost function BusOf(w: Wire): D.Bus
    requires IsWired(w)
  {
    D.Bus(log => if log == [] then D.NoReply else Received(w, log), w.hears,
          a => a in w.devices && StartsMuted(w.devices[a]))
  }

  predicate StartsMuted(d: Device) {
    Parameters.HasData(d.responder.table, PID_DISC_MUTE) && IsMuted(d.responder.table)
  }

  // ---------- the wire follows the protocol ----------

  /** The devices' flags are those that the protocol goes by. */
  lemma {:induction false} FlagsAgree(w: Wire, a: Address, log: seq<D.Request>)
    requires IsWired(w) && a in w.devices
    ensures IsMuted(After(w, a, log).table) <==> Muted(BusOf(w), a, log)
  {
    if log == [] {
      assert IsDevice(w, a);
    } else {
      FlagsAgree(w, a, log[..|log| - 1]);
    }
  }

  lemma {:induction false} SendsWhenAnswers(w: Wire, a: Address, log: seq<D.Request>)
    requires IsWired(w) && a in w.devices && log != []
    ensures Sends(w, a, log) <==>
            w.hears(log, a) && Answers(a, Muted(BusOf(w), a, log[..|log| - 1]), log[|log| - 1])
  {
    FlagsAgree(w, a, log[..|log| - 1]);
  }

  /** A mute request that is no broadcast is answered by no device but the one it is addressed to. */
  lemma {:induction false} OnlyAddresseeSends(w: Wire, log: seq<D.Request>, dest: Address)
    requires IsWired(w) && log != [] && log[|log| - 1] == D.Mute(dest) && !IsBroadcastAddress(dest)
    ensures Senders(w, log) <= {dest}
  {
    forall a | a in Senders(w, log)
      ensures a == dest
    {
      SendsWhenAnswers(w, a, log);
    }
  }

  lemma {:induction false} ReceivedAlone(w: Wire, log: seq<D.Request>, a: Address)
    requires IsWired(w) && log != []
    ensures Senders(w, log) == {a} && w.arrives(log) ==> Received(w, log) == D.Ack(a)
  {
    if Senders(w, log) == {a} {
      assert a in Senders(w, log);
      assert Alone(w, a, log) == D.Ack(a);
    }
  }

  lemma {:induction false} AnyoneIsHeard(w: Wire, log: seq<D.Request>)
    requires IsWired(w) && log != []
    ensures Senders(w, log) != {} && w.arrives(log) ==> Received(w, log) != D.NoReply
  {
    if b :| b in Senders(w, log) && Senders(w, log) == {b} {
      ReceivedAlone(w, log, b);
    }
  }

  lemma {:induction false} MuteIsHeard(w: Wire, log: seq<D.Request>, a: Address)
    requires IsWired(w) && a in w.devices && log != [] && log[|log| - 1] == D.Mute(a)
    ensures a in Senders(w, log) && w.arrives(log) ==> Received(w, log) == D.Ack(a)
  {
    assert IsDevice(w, a);
    OnlyAddresseeSends(w, log, a);
    if a in Senders(w, log) {
      assert Senders(w, log) == {a};
      ReceivedAlone(w, log, a);
    }
  }

  /** When a device answers, and it gets through, the request is settled. */
  lemma {:induction false} ThroughSettles(w: Wire, log: seq<D.Request>, q: D.Request, a: Address)
    requires IsWired(w) && a in w.devices && (q.UniqueBranch? || q == D.Mute(a))
    requires GetsThrough(w, log + [q], a) && Answers(a, Muted(BusOf(w), a, log), q)
    ensures D.Settles(q, Received(w, log + [q]))
  {
    var log' := log + [q];
    assert log'[..|log'| - 1] == log && log'[|log'| - 1] == q;
    SendsWhenAnswers(w, a, log');
    assert a in Senders(w, log');
    if q.Mute? {
      MuteIsHeard(w, log', a);
    } else {
      AnyoneIsHeard(w, log');
    }
  }

  /** Asking again does not change the answer. */
  lemma {:induction false} StillAnswers(w: Wire, log: seq<D.Request>, q: D.Request, a: Address)
    requires IsWired(w) && a in w.devices && (q.UniqueBranch? || q == D.Mute(a))
    requires Answers(a, Muted(BusOf(w), a, log), q)
    ensures Answers(a, Muted(BusOf(w), a, log + [q]), q)
  {
    assert (log + [q])[..|log|] == log;
  }

  lemma {:induction false} AnswersGetThrough(w: Wire, log: seq<D.Request>, q: D.Request, a: Address)
    requires IsWired(w) && a in w.devices && (q.UniqueBranch? || q == D.Mute(a))
    requires Answers(a, Muted(BusOf(w), a, log), q)
    ensures AnswerArrives(BusOf(w), log, q, a)
  {
    assert OneOfThreeGetsThrough(w, log, q, a);
    StillAnswers(w, log, q, a);
    StillAnswers(w, log + [q], q, a);
    if GetsThrough(w, log + [q], a) {
      ThroughSettles(w, log, q, a);
    } else if GetsThrough(w, log + [q] + [q], a) {
      ThroughSettles(w, log + [q], q, a);
    } else {
      ThroughSettles(w, log + [q] + [q], q, a);
    }
  }

  /** Only the device addressed can acknowledge a mute. */
  lemma {:induction false} WiredAcksAreHonest(w: Wire, log: seq<D.Request>, dest: Address)
    requires IsWired(w) && !IsBroadcastAddress(dest)
    ensures Received(w, log + [D.Mute(dest)]).Ack? ==>
      dest in w.devices && Received(w, log + [D.Mute(dest)]) == D.Ack(dest) && w.hears(log + [D.Mute(dest)], dest)
  {
    var log' := log + [D.Mute(dest)];
    OnlyAddresseeSends(w, log', dest);
    if Received(w, log').Ack? {
      assert Senders(w, log') == {dest};
      ReceivedAlone(w, log', dest);
      SendsWhenAnswers(w, dest, log');
    }
  }

  lemma {:induction false} WiredAnswersArrive(w: Wire)
    requires IsWired(w)
    ensures AnswersArrive(BusOf(w), w.devices.Keys)
  {
    var bus, devices := BusOf(w), w.devices.Keys;
    forall log, q, a | a in devices
      ensures AnswerArrives(bus, log, q, a)
    {
      if (q.UniqueBranch? || q == D.Mute(a)) && Answers(a, Muted(bus, a, log), q) {
        AnswersGetThrough(w, log, q, a);
      }
    }
  }

  lemma {:induction false} AllAcksAreHonest(w: Wire)
    requires IsWired(w)
    ensures AcksAreHonest(BusOf(w), w.devices.Keys)
  {
    var bus := BusOf(w);
    forall log, dest | !IsBroadcastAddress(dest) && bus.reply(log + [D.Mute(dest)]).Ack?
      ensures dest in w.devices.Keys && bus.reply(log + [D.Mute(dest)]).src == dest &&
              bus.hears(log + [D.Mute(dest)], dest)
    {
      WiredAcksAreHonest(w, log, dest);
    }
  }

  /** The devices, their handlers and the controller's reception meet what discovery is proved against. */
  lemma {:induction false} WireFollows(w: Wire)
    requires IsWired(w)
    ensures Follows(BusOf(w), w.devices.Keys)
  {
    WiredAnswersArrive(w);
    AllAcksAreHonest(w);
    forall a | a in w.devices.Keys
      ensures !IsBroadcastAddress(a)
    {
      assert IsDevice(w, a);
    }
  }

  lemma {:induction false} HearersAreUnmuted(w: Wire)
    requires IsWired(w)
    ensures forall a :: a in w.devices && w.hears(D.UN_MUTE_ALL, a) ==> !StaysMuted(BusOf(w), a)
  {
    forall a | a in w.devices && w.hears(D.UN_MUTE_ALL, a)
      ensures !StaysMuted(BusOf(w), a)
    {
      HearingUnmutes(BusOf(w), a);
    }
  }

  lemma {:induction false} FoundOnWire(w: Wire, found: seq<Address>)
    requires IsWired(w) && IsExactResult(BusOf(w), w.devices.Keys, found)
    ensures Ascending(found) && forall a :: a in found ==> a in w.devices
    ensures forall a :: a in w.devices && w.hears(D.UN_MUTE_ALL, a) ==> a in found
    ensures (forall a :: a in w.devices ==> w.hears(D.UN_MUTE_ALL, a)) ==> |found| == |w.devices|
  {
    HearersAreUnmuted(w);
  }

  /**
   End to end: over a bus of devices that share it with the controller, where up to two of any three
   equal requests, or what is sent in return, may be lost, discovery reports every device that hears
   the first request, once each and in ascending order, and nothing but devices. If all hear it, all
   are reported.
   */
  lemma {:induction false} EveryDeviceIsFound(w: Wire, root: D.Range)
    requires IsWired(w) && D.IsRoot(root)
    ensures var found := D.Search(BusOf(w), D.UN_MUTE_ALL, root).found;
            && Ascending(found)
            && (forall a :: a in found ==> a in w.devices)
            && (forall a :: a in w.devices && w.hears(D.UN_MUTE_ALL, a) ==> a in found)
            && ((forall a :: a in w.devices ==> w.hears(D.UN_MUTE_ALL, a)) ==> |found| == |w.devices|)
  {
    WireFollows(w);
    DiscoveryFindsAll(BusOf(w), w.devices.Keys, root);
    FoundOnWire(w, D.Search(BusOf(w), D.UN_MUTE_ALL, root).found);
  }

  /** A wire that loses nothing meets all that is asked of a wire. */
  lemma {:induction false} LossFreeIsWired(w: Wire)
    requires |w.stale| == BUFFER_SIZE && w.port > 0
    requires forall log, a :: w.hears(log, a)
    requires forall log :: w.arrives(log) && w.preamble(log) == PREAMBLE_MAX
    requires forall log :: w.collision(log) == D.Invalid && w.silence(log) == D.NoReply
    requires forall a :: a in w.devices ==> IsDevice(w, a)
    ensures IsWired(w)
  {
    forall log, q, a | a in w.devices
      ensures OneOfThreeGetsThrough(w, log, q, a)
    {
    }
  }
}
