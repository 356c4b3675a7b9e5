/**
 RDM packets (section 6.2 of ANSI E1.20-2010) and discovery replies (section 7.5): what is written into
 the driver's buffer, and what a header is read back from.
 */
module Packets {
  import opened Bytes
  import opened Uids
  import opened Formats
  import opened Encoding

  const BUFFER_SIZE := 513
  const HEADER_SIZE := 24
  const SC := 0xcc
  const SUB_SC := 0x01
  const PREAMBLE := 0xfe
  const DELIMITER := 0xaa
  const PREAMBLE_MAX := 7

  const CC_DISC_COMMAND := 0x10
  const CC_DISC_COMMAND_RESPONSE := 0x11
  const CC_GET_COMMAND := 0x20
  const CC_SET_COMMAND := 0x30
  const PID_DISC_UNIQUE_BRANCH := 0x0001
  const PID_DISC_MUTE := 0x0002
  const PID_DISC_UN_MUTE := 0x0003
  const RESPONSE_ACK := 0x00
  const RESPONSE_NACK_REASON := 0x02
  const SUB_DEVICE_ROOT := 0
  const SUB_DEVICE_MAX := 513
  const SUB_DEVICE_ALL := 0xffff

  /** The header of a packet. In a response, `portId` holds the response type. */
  datatype Header = Header(
    messageLen: Byte,
    dest: Uid,
    src: Uid,
    tn: Byte,
    portId: Byte,
    messageCount: Byte,
    subDevice: Word,
    cc: Byte,
    pid: Word,
    pdl: Byte
  )

  /** The command class test shifts an 8-bit value by 8, so that it looks at the low nibble only. */
  predicate CcIsValid(cc: Byte) {
    cc / 0x100 < 4 && cc % 0x10 < 2
  }

  /** The command classes of the standard: discovery, GET and SET, and the response to each. */
  predicate IsCommandClass(cc: Byte) {
    1 <= cc / 0x10 <= 3 && cc % 0x10 < 2
  }

  /**
   The test accepts whatever has the low nibble of a command class; the high nibble, which tells the
   classes apart, is not tested.
   */
  lemma {:induction false} CcTestIsTooWide(cc: Byte)
    ensures IsCommandClass(cc) <==> CcIsValid(cc) && 1 <= cc / 0x10 <= 3
    ensures CcIsValid(cc) <==> cc % 0x10 < 2
    ensures CcIsValid(0x40) && !IsCommandClass(0x40)
  {
  }

  predicate CcIsRequest(cc: Byte) {
    cc % 2 == 0
  }

  /** Is the packet a discovery reply, which is not laid out like any other packet? */
  predicate IsDiscoveryReply(h: Header) {
    h.cc == CC_DISC_COMMAND_RESPONSE && h.pid == PID_DISC_UNIQUE_BRANCH
  }

  predicate ResponseTypeIsValid(t: Byte) {
    t <= 3
  }

  // ---------- the header ----------

  /** A UID in memory, and on the wire. */
  function UidMemory(u: Uid): (s: seq<Byte>)
    ensures |s| == 6
  {
    Le16(u.man) + Le32(u.dev)
  }

  function UidWire(u: Uid): (s: seq<Byte>)
    ensures |s| == 6
  {
    SwapUid(UidMemory(u))
  }

  function WordWire(x: Word): (s: seq<Byte>)
    ensures |s| == 2
  {
    [Le16(x)[1], Le16(x)[0]]
  }

  function UidAt(data: seq<Byte>, i: nat): Uid
    requires i + 6 <= |data|
  {
    Uid(Be16(data[i], data[i + 1]), Be32(data[i + 2], data[i + 3], data[i + 4], data[i + 5]))
  }

  function WordAt(data: seq<Byte>, i: nat): Word
    requires i + 2 <= |data|
  {
    Be16(data[i], data[i + 1])
  }

  lemma {:induction false} UidWireRoundTrip(u: Uid)
    ensures UidAt(UidWire(u), 0) == u
  {
    Le16RoundTrip(u.man);
    Le32RoundTrip(u.dev);
  }

  /** The header structure in memory: the fields from each offset on. The first two bytes are not fields. */
  function Memory18(h: Header): seq<Byte> {
    Le16(h.subDevice) + ([h.cc] + (Le16(h.pid) + [h.pdl]))
  }

  function Memory15(h: Header): seq<Byte> {
    [h.tn] + ([h.portId] + ([h.messageCount] + Memory18(h)))
  }

  function HeaderMemory(h: Header): seq<Byte> {
    [0] + ([0] + ([h.messageLen] + (UidMemory(h.dest) + (UidMemory(h.src) + Memory15(h)))))
  }

  /** The header on the wire: the fields from each offset on. */
  function Wire18(h: Header): (s: seq<Byte>)
    ensures |s| == 6
  {
    WordWire(h.subDevice) + ([h.cc] + (WordWire(h.pid) + [h.pdl]))
  }

  function Wire15(h: Header): (s: seq<Byte>)
    ensures |s| == 9
  {
    [h.tn] + ([h.portId] + ([h.messageCount] + Wire18(h)))
  }

  function HeaderWire(h: Header): (s: seq<Byte>)
    ensures |s| == HEADER_SIZE
  {
    [SC] + ([SUB_SC] + ([h.messageLen] + (UidWire(h.dest) + (UidWire(h.src) + Wire15(h)))))
  }

  const HEADER_STRING := "xCCx01buubbbwbwb"

  function HeaderFormat(): Format {
    Then(Literal(SC), false, Then(Literal(SUB_SC), false, Then(ByteField, false, HeaderFormat3())))
  }

  function HeaderFormat3(): Format {
    Then(UidField, false, Then(UidField, false, HeaderFormat15()))
  }

  function HeaderFormat15(): Format {
    Then(ByteField, false, Then(ByteField, false, Then(ByteField, false, HeaderFormat18())))
  }

  function HeaderFormat18(): Format {
    Then(WordField, false, Then(ByteField, false, Then(WordField, false, Then(ByteField, false, EndOfString))))
  }

  lemma {:induction false} LexField(s: string, i: nat)
    requires i < |s| && FieldOf(s[i]).Some?
    ensures Lex(s[i..]) == Then(FieldOf(s[i]).value, IsUpper(s[i]), Lex(s[i + 1..]))
  {
    assert s[i..][1..] == s[i + 1..];
  }

  lemma {:induction false} LexLiteral(s: string, i: nat)
    requires i + 2 < |s| && s[i] == 'x' && IsHexDigit(s[i + 1]) && IsHexDigit(s[i + 2])
    ensures Lex(s[i..]) == Then(Literal(HexDigit(s[i + 1]) * 16 + HexDigit(s[i + 2])), false, Lex(s[i + 3..]))
  {
    assert s[i..][3..] == s[i + 3..];
  }

  lemma {:induction false} LexFrom12(s: string)
    requires s == HEADER_STRING
    ensures Lex(s[12..]) == HeaderFormat18()
  {
    assert Lex(s[16..]) == EndOfString;
    LexField(s, 15);
    LexField(s, 14);
    LexField(s, 13);
    LexField(s, 12);
  }

  lemma {:induction false} LexFrom9(s: string)
    requires s == HEADER_STRING
    ensures Lex(s[9..]) == HeaderFormat15()
  {
    LexFrom12(s);
    LexField(s, 11);
    LexField(s, 10);
    LexField(s, 9);
  }

  lemma {:induction false} LexFrom7(s: string)
    requires s == HEADER_STRING
    ensures Lex(s[7..]) == HeaderFormat3()
  {
    LexFrom9(s);
    LexField(s, 8);
    LexField(s, 7);
  }

  lemma {:induction false} LexFrom3(s: string)
    requires s == HEADER_STRING
    ensures Lex(s[3..]) == HeaderFormat().rest
  {
    LexFrom7(s);
    LexField(s, 6);
    LexLiteral(s, 3);
  }

  /** The format string that headers are written by. */
  lemma {:induction false} HeaderStringLexes(s: string)
    requires s == HEADER_STRING
    ensures Lex(s) == HeaderFormat()
  {
    LexFrom3(s);
    LexLiteral(s, 0);
    assert s[0..] == s;
  }

  lemma {:induction false} HeaderFormatIsUsable()
    ensures Usable(HeaderFormat()) && Size(HeaderFormat()) == HEADER_SIZE
    ensures Repeats(HeaderFormat()) && IsFixedFormat(HeaderFormat())
    ensures WholePasses(HEADER_SIZE, HEADER_SIZE)
  {
    assert Repeats(HeaderFormat18());
    assert !HasStray(HeaderFormat18()) && !HasUpper(HeaderFormat18()) && Size(HeaderFormat18()) == 6;
    assert Repeats(HeaderFormat15());
    assert !HasStray(HeaderFormat15()) && !HasUpper(HeaderFormat15()) && Size(HeaderFormat15()) == 9;
    assert Repeats(HeaderFormat3());
    assert !HasStray(HeaderFormat3()) && !HasUpper(HeaderFormat3()) && Size(HeaderFormat3()) == 21;
    RepeatingIsFixed(HeaderFormat());
  }

  lemma {:induction false} Serializes18(h: Header)
    ensures IsFixedFormat(HeaderFormat18()) && Size(HeaderFormat18()) == 6
    ensures SwapAll(HeaderFormat18(), Memory18(h)) == Wire18(h)
  {
    HeaderFormatIsUsable();
    var f := HeaderFormat18();
    SwapOverField(f.rest.rest.rest, [h.pdl], []);
    SwapOverField(f.rest.rest, Le16(h.pid), [h.pdl]);
    SwapOverField(f.rest, [h.cc], Le16(h.pid) + [h.pdl]);
    SwapOverField(f, Le16(h.subDevice), [h.cc] + (Le16(h.pid) + [h.pdl]));
    assert [h.pdl] + [] == [h.pdl];
  }

  lemma {:induction false} Serializes15(h: Header)
    ensures IsFixedFormat(HeaderFormat15()) && Size(HeaderFormat15()) == 9
    ensures SwapAll(HeaderFormat15(), Memory15(h)) == Wire15(h)
  {
    HeaderFormatIsUsable();
    var f := HeaderFormat15();
    Serializes18(h);
    SwapOverField(f.rest.rest, [h.messageCount], Memory18(h));
    SwapOverField(f.rest, [h.portId], [h.messageCount] + Memory18(h));
    SwapOverField(f, [h.tn], [h.portId] + ([h.messageCount] + Memory18(h)));
  }

  /** Serializing a header from memory puts it on the wire in the standard's byte order. */
  lemma {:induction false} HeaderSerializes(h: Header)
    ensures IsFixedFormat(HeaderFormat()) && Size(HeaderFormat()) == HEADER_SIZE
    ensures |HeaderMemory(h)| == HEADER_SIZE
    ensures SwapAll(HeaderFormat(), HeaderMemory(h)) == HeaderWire(h)
  {
    HeaderFormatIsUsable();
    var f := HeaderFormat();
    var g := HeaderFormat3();
    Serializes15(h);
    SwapOverField(g.rest, UidMemory(h.src), Memory15(h));
    SwapOverField(g, UidMemory(h.dest), UidMemory(h.src) + Memory15(h));
    var m := UidMemory(h.dest) + (UidMemory(h.src) + Memory15(h));
    SwapOverField(f.rest.rest, [h.messageLen], m);
    SwapOverField(f.rest, [0], [h.messageLen] + m);
    SwapOverField(f, [0], [0] + ([h.messageLen] + m));
  }

  /** The header in a buffer that starts with a standard packet. */
  function Decode(data: seq<Byte>): Header
    requires |data| >= HEADER_SIZE
  {
    Header(data[2], UidAt(data, 3), UidAt(data, 9), data[15], data[16], data[17], WordAt(data, 18), data[20],
           WordAt(data, 21), data[23])
  }

  lemma {:induction false} Wire15Bytes(h: Header)
    ensures var w, s, p := Wire15(h), WordWire(h.subDevice), WordWire(h.pid);
            && w[0] == h.tn && w[1] == h.portId && w[2] == h.messageCount && w[5] == h.cc && w[8] == h.pdl
            && w[3] == s[0] && w[4] == s[1] && w[6] == p[0] && w[7] == p[1]
  {
  }

  lemma {:induction false} HeaderWireBytes(h: Header, rest: seq<Byte>)
    ensures var data := HeaderWire(h) + rest;
            && data[0] == SC && data[1] == SUB_SC && data[2] == h.messageLen
            && (forall i :: 0 <= i < 6 ==> data[3 + i] == UidWire(h.dest)[i])
            && (forall i :: 0 <= i < 6 ==> data[9 + i] == UidWire(h.src)[i])
            && (forall i :: 0 <= i < 9 ==> data[15 + i] == Wire15(h)[i])
  {
  }

  /** A header is read back from the wire as it was written. */
  lemma {:induction false} HeaderRoundTrip(h: Header, rest: seq<Byte>)
    ensures Decode(HeaderWire(h) + rest) == h
  {
    var data := HeaderWire(h) + rest;
    HeaderWireBytes(h, rest);
    Wire15Bytes(h);
    UidWireRoundTrip(h.dest);
    UidWireRoundTrip(h.src);
    Le16RoundTrip(h.subDevice);
    Le16RoundTrip(h.pid);
    assert UidAt(data, 3) == UidAt(UidWire(h.dest), 0);
    assert UidAt(data, 9) == UidAt(UidWire(h.src), 0);
  }

  // ---------- standard packets ----------

  /** The 16-bit sum of the bytes. */
  function Checksum(s: seq<Byte>): Word {
    Sum(s) % 0x1_0000
  }

  /** The header that a packet with these parameter data carries. */
  function WithPd(h: Header, pd: seq<Byte>): Header
    requires |pd| <= PD_MAX
  {
    h.(messageLen := HEADER_SIZE + |pd|, pdl := |pd|)
  }

  function Body(h: Header, pd: seq<Byte>): seq<Byte>
    requires |pd| <= PD_MAX
  {
    HeaderWire(WithPd(h, pd)) + pd
  }

  /** A packet: header, parameter data, checksum. */
  function StandardPacket(h: Header, pd: seq<Byte>): (s: seq<Byte>)
    requires |pd| <= PD_MAX
    ensures |s| == HEADER_SIZE + |pd| + 2
  {
    Body(h, pd) + WordWire(Checksum(Body(h, pd)))
  }

  /** What reading a header from the buffer gives. */
  function ReadHeader(data: seq<Byte>): Option<Header>
    requires |data| >= 257
  {
    if data[0] == SC && data[1] == SUB_SC then
      var len := data[2];
      if Checksum(data[..len]) == WordAt(data, len) then Some(Decode(data)) else None
    else if data[0] == PREAMBLE || data[0] == DELIMITER then
      ReadDiscoveryReply(data)
    else None
  }

  /** The checksum of a packet is at most 255 * 255, so that its 16-bit sum never overflows. */
  lemma {:induction false} ChecksumNeverOverflows(h: Header, pd: seq<Byte>)
    requires |pd| <= PD_MAX
    ensures Sum(Body(h, pd)) < 0x1_0000
    ensures Checksum(Body(h, pd)) == Sum(Body(h, pd))
  {
  }

  /** A packet is accepted, and its header read back, whatever follows it in the buffer. */
  lemma {:induction false} PacketRoundTrip(h: Header, pd: seq<Byte>, rest: seq<Byte>)
    requires |pd| <= PD_MAX && |StandardPacket(h, pd) + rest| >= 257
    ensures ReadHeader(StandardPacket(h, pd) + rest) == Some(WithPd(h, pd))
    ensures (StandardPacket(h, pd) + rest)[HEADER_SIZE..] == pd + (WordWire(Checksum(Body(h, pd))) + rest)
  {
    var body := Body(h, pd);
    var sum := WordWire(Checksum(body));
    var data := StandardPacket(h, pd) + rest;
    Associative(body, sum, rest);
    PartsOfConcat(body, sum + rest);
    Associative(HeaderWire(WithPd(h, pd)), pd, sum + rest);
    PartsOfConcat(HeaderWire(WithPd(h, pd)), pd + (sum + rest));
    HeaderWireBytes(WithPd(h, pd), pd + (sum + rest));
    HeaderRoundTrip(WithPd(h, pd), pd + (sum + rest));
    Le16RoundTrip(Checksum(body));
    assert data[|body|] == sum[0] && data[|body| + 1] == sum[1];
  }

  // ---------- discovery replies ----------

  /** Each byte in its two halves. */
  function Halves(s: seq<Byte>): (r: seq<Byte>)
    ensures |r| == 2 * |s|
    ensures forall i :: 0 <= i < |s| ==> r[2 * i] == HighHalf(s[i]) && r[2 * i + 1] == LowHalf(s[i])
  {
    if s == [] then [] else Halves(s[..|s| - 1]) + [HighHalf(s[|s| - 1]), LowHalf(s[|s| - 1])]
  }

  /** What the sender adds up: the UID's bytes, and 0xff for each. */
  function HalvesSum(s: seq<Byte>): (n: nat)
    ensures n <= 510 * |s|
  {
    if s == [] then 0 else HalvesSum(s[..|s| - 1]) + s[|s| - 1] + 0xff
  }

  /** The sender's sum over the UID is the sum that the receiver makes over the encoded bytes. */
  lemma {:induction false} SumsAgree(s: seq<Byte>)
    ensures Sum(Halves(s)) == HalvesSum(s)
  {
    if s != [] {
      var init, last := s[..|s| - 1], s[|s| - 1];
      SumsAgree(init);
      HalvesRestore(last);
      SumConcat(Halves(init), [HighHalf(last), LowHalf(last)]);
      assert [HighHalf(last), LowHalf(last)][..1] == [HighHalf(last)];
      assert [HighHalf(last)][..0] == [];
    }
  }

  function Preamble(n: nat): (s: seq<Byte>)
    ensures |s| == n
  {
    seq(n, _ => PREAMBLE)
  }

  /** The checksum of a discovery reply, which fits into 16 bits. */
  function ReplyChecksum(u: Uid): Word {
    HalvesSum(UidWire(u))
  }

  /** A discovery reply of which `preamble` preamble bytes are left. */
  function DiscoveryReply(u: Uid, preamble: nat): seq<Byte> {
    Preamble(preamble) + ([DELIMITER] + (Halves(UidWire(u)) + Halves(WordWire(ReplyChecksum(u)))))
  }

  /** The index of the first delimiter among the first eight bytes from `i` on; 8 if there is none. */
  function DelimiterIndex(data: seq<Byte>, i: nat): (n: nat)
    requires |data| >= 8 && i <= 8
    ensures i <= n <= 8
    decreases 8 - i
  {
    if i == 8 || data[i] == DELIMITER then i else DelimiterIndex(data, i + 1)
  }

  function ReplyHeader(u: Uid, preamble: nat): Header
    requires preamble <= PREAMBLE_MAX
  {
    Header(preamble + 17, BROADCAST_ALL, u, 0, RESPONSE_ACK, 0, SUB_DEVICE_ROOT, CC_DISC_COMMAND_RESPONSE,
           PID_DISC_UNIQUE_BRANCH, 0)
  }

  function AndPair(data: seq<Byte>, i: nat): Byte
    requires i + 1 < |data|
  {
    And(data[i], data[i + 1])
  }

  /** The UID in the twelve encoded bytes. */
  function DecodeEuid(d: seq<Byte>): Uid
    requires |d| >= 12
  {
    Uid(Be16(AndPair(d, 0), AndPair(d, 2)), Be32(AndPair(d, 4), AndPair(d, 6), AndPair(d, 8), AndPair(d, 10)))
  }

  function ReadDiscoveryReply(data: seq<Byte>): Option<Header>
    requires |data| >= 257
  {
    var preamble := DelimiterIndex(data, 0);
    if preamble > PREAMBLE_MAX then None
    else
      var d := data[preamble + 1..];
      if Checksum(d[..12]) == Be16(AndPair(d, 12), AndPair(d, 14)) then Some(ReplyHeader(DecodeEuid(d), preamble))
      else None
  }

  lemma {:induction false} DelimiterAfterPreamble(n: nat, i: nat, rest: seq<Byte>)
    requires i <= n <= PREAMBLE_MAX && |rest| >= 8
    ensures DelimiterIndex(Preamble(n) + ([DELIMITER] + rest), i) == n
    decreases n - i
  {
    if i < n {
      assert (Preamble(n) + ([DELIMITER] + rest))[i] == PREAMBLE;
      DelimiterAfterPreamble(n, i + 1, rest);
    }
  }

  lemma {:induction false} AndPairOfHalves(s: seq<Byte>, i: nat, rest: seq<Byte>)
    requires i < |s|
    ensures AndPair(Halves(s) + rest, 2 * i) == s[i]
  {
    HalvesRestore(s[i]);
  }

  lemma {:induction false} EuidRoundTrip(u: Uid, rest: seq<Byte>)
    ensures DecodeEuid(Halves(UidWire(u)) + rest) == u
  {
    var w := UidWire(u);
    AndPairOfHalves(w, 0, rest);
    AndPairOfHalves(w, 1, rest);
    AndPairOfHalves(w, 2, rest);
    AndPairOfHalves(w, 3, rest);
    AndPairOfHalves(w, 4, rest);
    AndPairOfHalves(w, 5, rest);
    UidWireRoundTrip(u);
  }

  lemma {:induction false} ChecksumsAgree(u: Uid)
    ensures Checksum(Halves(UidWire(u))) == ReplyChecksum(u)
  {
    SumsAgree(UidWire(u));
  }

  lemma {:induction false} SumPairsRoundTrip(x: Word, rest: seq<Byte>)
    ensures Be16(AndPair(Halves(WordWire(x)) + rest, 0), AndPair(Halves(WordWire(x)) + rest, 2)) == x
  {
    AndPairOfHalves(WordWire(x), 0, rest);
    AndPairOfHalves(WordWire(x), 1, rest);
    Le16RoundTrip(x);
  }

  /** What is read from the bytes after the delimiter. */
  lemma {:induction false} ReplyBodyRoundTrip(u: Uid, rest: seq<Byte>)
    ensures var d := Halves(UidWire(u)) + (Halves(WordWire(ReplyChecksum(u))) + rest);
            && Checksum(d[..12]) == Be16(AndPair(d, 12), AndPair(d, 14))
            && DecodeEuid(d) == u
  {
    var euid, tail := Halves(UidWire(u)), Halves(WordWire(ReplyChecksum(u))) + rest;
    var d := euid + tail;
    PartsOfConcat(euid, tail);
    ChecksumsAgree(u);
    EuidRoundTrip(u, tail);
    SumPairsRoundTrip(ReplyChecksum(u), rest);
    assert AndPair(d, 12) == AndPair(tail, 0) && AndPair(d, 14) == AndPair(tail, 2);
  }

  /** A discovery reply is accepted, and its UID read back, however much of its preamble is lost. */
  lemma {:induction false} DiscoveryRoundTrip(u: Uid, preamble: nat, rest: seq<Byte>)
    requires preamble <= PREAMBLE_MAX && |DiscoveryReply(u, preamble) + rest| >= 257
    ensures ReadHeader(DiscoveryReply(u, preamble) + rest) == Some(ReplyHeader(u, preamble))
  {
    var euid, sum := Halves(UidWire(u)), Halves(WordWire(ReplyChecksum(u)));
    var d := euid + (sum + rest);
    var data := DiscoveryReply(u, preamble) + rest;
    ReplyInParts(Preamble(preamble), euid, sum, rest);
    DelimiterAfterPreamble(preamble, 0, d);
    assert data[preamble + 1..] == d;
    ReplyBodyRoundTrip(u, rest);
  }

  lemma {:induction false} ReplyInParts(preamble: seq<Byte>, euid: seq<Byte>, sum: seq<Byte>, rest: seq<Byte>)
    ensures (preamble + ([DELIMITER] + (euid + sum))) + rest == preamble + ([DELIMITER] + (euid + (sum + rest)))
  {
  }
}
