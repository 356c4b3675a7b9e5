/**
 The routines that read packets from, and write them into, the driver's buffer of 513 bytes.
 */
module PacketIO {
  import opened Bytes
  import opened Uids
  import opened Formats
  import opened Encoding
  import opened Encoder
  import opened Packets

  // ---------- reading ----------

  /** Adds up `count` bytes from `at` on, in 16 bits. */
  method SumBytes(data: array<Byte>, at: nat, count: nat) returns (checksum: Word)
    requires at + count <= data.Length
    ensures checksum == Checksum(data[at..at + count])
  {
    checksum := 0;
    for i := 0 to count
      invariant checksum == Checksum(data[at..at + i])
    {
      assert data[at..at + i + 1][..i] == data[at..at + i];
      checksum := (checksum + data[at + i]) % 0x1_0000;
    }
  }

  method FindDelimiter(data: array<Byte>) returns (preamble: nat)
    requires data.Length == BUFFER_SIZE
    ensures preamble == DelimiterIndex(data[..], 0)
  {
    preamble := 0;
    while preamble <= PREAMBLE_MAX
      invariant preamble <= 8 && DelimiterIndex(data[..], preamble) == DelimiterIndex(data[..], 0)
    {
      if data[preamble] == DELIMITER {
        break;
      }
      preamble := preamble + 1;
    }
  }

  /** Reads the header of the packet in the buffer, if there is one and its checksum is right. */
  method ReadPacketHeader(data: array<Byte>) returns (header: Option<Header>)
    requires data.Length == BUFFER_SIZE
    ensures header == ReadHeader(data[..])
  {
    if data[0] == SC && data[1] == SUB_SC {
      var checksum := SumBytes(data, 0, data[2]);
      assert data[0..data[2]] == data[..][..data[2]];
      if checksum != Be16(data[data[2]], data[data[2] + 1]) {
        return None;
      }
      var dest := Uid(Be16(data[3], data[4]), Be32(data[5], data[6], data[7], data[8]));
      var src := Uid(Be16(data[9], data[10]), Be32(data[11], data[12], data[13], data[14]));
      header := Some(Header(data[2], dest, src, data[15], data[16], data[17], Be16(data[18], data[19]), data[20],
                            Be16(data[21], data[22]), data[23]));
    } else if data[0] == PREAMBLE || data[0] == DELIMITER {
      header := ReadReply(data);
    } else {
      header := None;
    }
  }

  method ReadReply(data: array<Byte>) returns (header: Option<Header>)
    requires data.Length == BUFFER_SIZE
    ensures header == ReadDiscoveryReply(data[..])
  {
    var preamble := FindDelimiter(data);
    if preamble > PREAMBLE_MAX {
      return None;
    }
    var at := preamble + 1;
    ghost var d := data[..][at..];
    var checksum := SumBytes(data, at, 12);
    assert data[at..at + 12] == d[..12];
    if checksum != Be16(And(data[at + 12], data[at + 13]), And(data[at + 14], data[at + 15])) {
      return None;
    }
    var euid := new Byte[6];
    for i := 0 to 6
      invariant forall j :: 0 <= j < i ==> euid[j] == AndPair(d, 2 * j)
    {
      euid[i] := And(data[at + 2 * i], data[at + 2 * i + 1]);
    }
    assert euid[0] == AndPair(d, 0) && euid[1] == AndPair(d, 2) && euid[2] == AndPair(d, 4);
    assert euid[3] == AndPair(d, 6) && euid[4] == AndPair(d, 8) && euid[5] == AndPair(d, 10);
    header := Some(ReplyHeader(Uid(Be16(euid[0], euid[1]), Be32(euid[2], euid[3], euid[4], euid[5])), preamble));
  }

  /** The parameter data that reading into a destination of `size` bytes gives. */
  function PdOf(data: seq<Byte>, f: Format, size: nat): seq<Byte>
    requires |data| == BUFFER_SIZE && Usable(f)
    requires Encodable(f, data[HEADER_SIZE..], Min(data[23], size))
  {
    Encode(f, data[HEADER_SIZE..], Min(data[23], size), true)
  }

  /**
   Reads parameter data by a format into a destination of `size` bytes, if there is one. Returns the
   length of the parameter data in the packet.
   */
  method ReadPd(data: array<Byte>, format: string, destination: array?<Byte>, size: nat) returns (pdl: nat)
    requires data.Length == BUFFER_SIZE && destination != data
    requires Lex(format) != EndOfString
    requires Valid(format) && destination != null ==>
      && !HasUpper(Lex(format)) && Encodable(Lex(format), data[HEADER_SIZE..], Min(data[23], size))
      && |PdOf(data[..], Lex(format), size)| <= destination.Length
    modifies destination
    ensures pdl == if Valid(format) && 0 < data[23] <= PD_MAX then data[23] else 0
    ensures destination != null && pdl > 0 ==>
      destination[..] == Splice(old(destination[..]), 0, PdOf(data[..], Lex(format), size))
    ensures destination != null && pdl == 0 ==> destination[..] == old(destination[..])
  {
    var ok := FormatIsValid(format);
    if !ok {
      return 0;
    }
    pdl := data[23];
    if pdl == 0 || pdl > 231 {
      return 0;
    }
    if destination != null {
      var _ := FormatEncode(destination, 0, format, data[HEADER_SIZE..], Min(pdl, size), true);
    }
  }

  // ---------- writing ----------

  /** The checks made on a packet before it is written. */
  predicate Accepts(h: Header, format: Option<string>, pd: Option<seq<Byte>>) {
    && h.messageLen == HEADER_SIZE + h.pdl
    && (h.subDevice < SUB_DEVICE_MAX || h.subDevice == SUB_DEVICE_ALL)
    && CcIsValid(h.cc)
    && h.pdl < PD_MAX
    && (if CcIsRequest(h.cc) then h.portId > 0 else ResponseTypeIsValid(h.portId))
    && (format.Some? ==> Valid(format.value))
    && (h.pdl == 0 || (format.Some? && pd.Some?))
  }

  /** What the caller owes if the checks pass: a format in lower case, and the memory it has to read. */
  predicate Serializable(h: Header, format: Option<string>, pd: Option<seq<Byte>>)
    requires Accepts(h, format, pd)
  {
    h.pdl > 0 && !IsDiscoveryReply(h) ==>
      !HasUpper(Lex(format.value)) && Encodable(Lex(format.value), pd.value, h.pdl)
  }

  /** The parameter data as they go into the packet. */
  function WirePd(h: Header, format: Option<string>, pd: Option<seq<Byte>>): (out: seq<Byte>)
    requires Accepts(h, format, pd) && Serializable(h, format, pd) && !IsDiscoveryReply(h)
    ensures |out| <= PD_MAX
  {
    if h.pdl == 0 then [] else Encode(Lex(format.value), pd.value, h.pdl, false)
  }

  /** The bytes that writing a packet puts at the start of the buffer. */
  function PacketBytes(h: Header, format: Option<string>, pd: Option<seq<Byte>>): (s: seq<Byte>)
    requires Accepts(h, format, pd) && Serializable(h, format, pd)
    ensures |s| <= 257
  {
    if IsDiscoveryReply(h) then DiscoveryReply(h.src, PREAMBLE_MAX)
    else StandardPacket(h, WirePd(h, format, pd))
  }

  /** Writes a packet into the buffer. Returns its size, or 0 if it is not acceptable. */
  method Write(data: array<Byte>, h: Header, format: Option<string>, pd: Option<seq<Byte>>) returns (written: nat)
    requires data.Length == BUFFER_SIZE
    requires format.Some? ==> Lex(format.value) != EndOfString
    requires Accepts(h, format, pd) ==> Serializable(h, format, pd)
    modifies data
    ensures !Accepts(h, format, pd) ==> written == 0 && data[..] == old(data[..])
    ensures Accepts(h, format, pd) ==>
      written == |PacketBytes(h, format, pd)| && data[..] == Splice(old(data[..]), 0, PacketBytes(h, format, pd))
  {
    if h.messageLen < 24 || h.messageLen != 24 + h.pdl {
      return 0;
    }
    if !(h.subDevice < SUB_DEVICE_MAX || h.subDevice == SUB_DEVICE_ALL) || !CcIsValid(h.cc) || h.pdl >= 231 {
      return 0;
    }
    if CcIsRequest(h.cc) {
      if h.portId == 0 {
        return 0;
      }
    } else if !ResponseTypeIsValid(h.portId) {
      return 0;
    }
    if format.Some? {
      var ok := FormatIsValid(format.value);
      if !ok {
        return 0;
      }
    }
    if !(h.pdl == 0 || (format.Some? && pd.Some?)) {
      return 0;
    }
    if h.cc == CC_DISC_COMMAND_RESPONSE && h.pid == PID_DISC_UNIQUE_BRANCH {
      written := WriteReply(data, h.src);
    } else {
      written := WriteStandard(data, h, format, pd);
    }
  }

  lemma {:induction false} HeaderUpdate(h: Header, pd: seq<Byte>, rest: seq<Byte>)
    requires |pd| <= PD_MAX
    ensures (HeaderWire(h) + rest)[2 := HEADER_SIZE + |pd|][23 := |pd|] == HeaderWire(WithPd(h, pd)) + rest
  {
    var data, expected := (HeaderWire(h) + rest)[2 := HEADER_SIZE + |pd|][23 := |pd|], HeaderWire(WithPd(h, pd)) + rest;
    HeaderWireBytes(h, rest);
    HeaderWireBytes(WithPd(h, pd), rest);
    Wire15Bytes(h);
    Wire15Bytes(WithPd(h, pd));
    forall i | 0 <= i < HEADER_SIZE
      ensures data[i] == expected[i]
    {
      if 3 <= i < 9 {
        assert data[3 + (i - 3)] == expected[3 + (i - 3)];
      } else if 9 <= i < 15 {
        assert data[9 + (i - 9)] == expected[9 + (i - 9)];
      } else if 15 <= i {
        assert (HeaderWire(h) + rest)[15 + (i - 15)] == Wire15(h)[i - 15];
        assert expected[15 + (i - 15)] == Wire15(WithPd(h, pd))[i - 15];
      }
    }
  }

  lemma {:induction false} SumFromTwo(body: seq<Byte>)
    requires 2 <= |body| <= 255 && body[0] == SC && body[1] == SUB_SC
    ensures Checksum(body) == (Checksum(body[2..]) + SC + SUB_SC) % 0x1_0000
  {
    SumConcat(body[..2], body[2..]);
    TakeDrop(body, 2);
    assert body[..2][..1] == [SC] && body[..2][..1][..0] == [];
  }

  /**
   Writes a standard packet: header, then parameter data, then the lengths again if they differ, then the
   checksum.
   */
  method WriteStandard(
      data: array<Byte>, h: Header, format: Option<string>, pd: Option<seq<Byte>>) returns (written: nat)
    requires data.Length == BUFFER_SIZE && Accepts(h, format, pd) && Serializable(h, format, pd) && !IsDiscoveryReply(h)
    modifies data
    ensures var packet := StandardPacket(h, WirePd(h, format, pd));
            written == |packet| && data[..] == Splice(old(data[..]), 0, packet)
  {
    ghost var before, out := data[..], WirePd(h, format, pd);
    WriteHeader(data, h);
    var messageLen := HEADER_SIZE;
    if pd.Some? && h.pdl > 0 {
      var pdl := FormatEncode(data, HEADER_SIZE, format.value, pd.value, h.pdl, false);
      messageLen := HEADER_SIZE + pdl;
    }
    SpliceTwice(before, 0, HeaderWire(h), out);
    UpdateLengths(data, before, h, out, messageLen);
    WriteChecksum(data, before, Body(h, out), messageLen);
    written := messageLen + 2;
  }

  /** Corrects the lengths in the header if the parameter data turned out to be of another length. */
  method UpdateLengths(data: array<Byte>, ghost before: seq<Byte>, h: Header, ghost pd: seq<Byte>, messageLen: nat)
    requires data.Length == |before| == BUFFER_SIZE && |pd| <= PD_MAX && messageLen == HEADER_SIZE + |pd|
    requires h.messageLen == HEADER_SIZE + h.pdl
    requires data[..] == Splice(before, 0, HeaderWire(h) + pd)
    modifies data
    ensures data[..] == Splice(before, 0, Body(h, pd))
  {
    ghost var rest := pd + before[messageLen..];
    HeaderUpdate(h, pd, rest);
    Associative(HeaderWire(h), pd, before[messageLen..]);
    Associative(HeaderWire(WithPd(h, pd)), pd, before[messageLen..]);
    assert data[..] == HeaderWire(h) + rest;
    if h.pdl != messageLen - HEADER_SIZE {
      data[2] := messageLen;
      data[23] := messageLen - HEADER_SIZE;
      assert data[..] == (HeaderWire(h) + rest)[2 := messageLen][23 := |pd|];
    }
  }

  method WriteChecksum(data: array<Byte>, ghost before: seq<Byte>, ghost body: seq<Byte>, messageLen: nat)
    requires data.Length == |before| == BUFFER_SIZE && messageLen == |body| && 2 <= messageLen <= 255
    requires body[0] == SC && body[1] == SUB_SC
    requires data[..] == Splice(before, 0, body)
    modifies data
    ensures data[..] == Splice(before, 0, body + WordWire(Checksum(body)))
  {
    assert data[2..messageLen] == body[2..];
    var checksum := SumBytes(data, 2, messageLen - 2);
    SumFromTwo(body);
    checksum := (checksum + SC + SUB_SC) % 0x1_0000;
    Store(data, messageLen, [checksum / 0x100, checksum % 0x100]);
    SpliceTwice(before, 0, body, WordWire(Checksum(body)));
  }

  method WritePreamble(data: array<Byte>)
    requires data.Length == BUFFER_SIZE
    modifies data
    ensures Holds(data[..], old(data[..]), 0, Preamble(PREAMBLE_MAX) + [DELIMITER])
  {
    for i := 0 to PREAMBLE_MAX
      invariant Holds(data[..], old(data[..]), 0, Preamble(i))
    {
      Append(data, old(data[..]), 0, Preamble(i), i, [PREAMBLE]);
      assert Preamble(i) + [PREAMBLE] == Preamble(i + 1);
    }
    Append(data, old(data[..]), 0, Preamble(PREAMBLE_MAX), PREAMBLE_MAX, [DELIMITER]);
  }

  lemma {:induction false} OneMoreByte(done: seq<Byte>, s: seq<Byte>, j: nat)
    requires j < |s|
    ensures done + Halves(s[..j + 1]) == done + Halves(s[..j]) + [HighHalf(s[j]), LowHalf(s[j])]
    ensures HalvesSum(s[..j + 1]) == HalvesSum(s[..j]) + s[j] + 0xff
  {
    assert s[..j + 1][..j] == s[..j];
    Associative(done, Halves(s[..j]), [HighHalf(s[j]), LowHalf(s[j])]);
  }

  /** Writes byte `j` in its two halves, after those before it, and adds it to the checksum. */
  method WriteHalvesAt(
      data: array<Byte>, ghost before: seq<Byte>, ghost done: seq<Byte>, start: nat, s: seq<Byte>, j: nat, sum: Word)
    returns (checksum: Word)
    requires j < |s| <= 6 && start == |done| && start + 2 * |s| <= data.Length
    requires Holds(data[..], before, 0, done + Halves(s[..j])) && sum == HalvesSum(s[..j])
    modifies data
    ensures Holds(data[..], before, 0, done + Halves(s[..j + 1]))
    ensures checksum == HalvesSum(s[..j + 1])
  {
    OneMoreByte(done, s, j);
    Append(data, before, 0, done + Halves(s[..j]), start + 2 * j, [HighHalf(s[j]), LowHalf(s[j])]);
    checksum := (sum + s[j] + 0xff) % 0x1_0000;
  }

  /** Writes bytes, each in its two halves, after the `start` bytes written so far, and adds up the checksum. */
  method WriteHalves(data: array<Byte>, ghost before: seq<Byte>, ghost done: seq<Byte>, start: nat, s: seq<Byte>)
    returns (checksum: Word)
    requires Holds(data[..], before, 0, done) && start == |done| && start + 2 * |s| <= data.Length && |s| <= 6
    modifies data
    ensures Holds(data[..], before, 0, done + Halves(s))
    ensures checksum == HalvesSum(s)
  {
    checksum := 0;
    assert done + Halves(s[..0]) == done;
    for j := 0 to |s|
      invariant Holds(data[..], before, 0, done + Halves(s[..j]))
      invariant checksum == HalvesSum(s[..j])
    {
      checksum := WriteHalvesAt(data, before, done, start, s, j, checksum);
    }
    assert s[..|s|] == s;
  }

  /** Writes a discovery reply with a full preamble. */
  method WriteReply(data: array<Byte>, src: Uid) returns (written: nat)
    requires data.Length == BUFFER_SIZE
    modifies data
    ensures written == |DiscoveryReply(src, PREAMBLE_MAX)|
    ensures data[..] == Splice(old(data[..]), 0, DiscoveryReply(src, PREAMBLE_MAX))
  {
    ghost var before, pre, w := data[..], Preamble(PREAMBLE_MAX) + [DELIMITER], UidWire(src);
    WritePreamble(data);
    var checksum := WriteHalves(data, before, pre, 8, UidWire(src));
    var _ := WriteHalves(data, before, pre + Halves(w), 20, WordWire(checksum));
    HoldsIsSplice(data[..], before, 0, pre + Halves(w) + Halves(WordWire(checksum)));
    ReplyFromPieces(src, pre, checksum);
    written := 24;
  }

  lemma {:induction false} ReplyFromPieces(u: Uid, pre: seq<Byte>, checksum: Word)
    requires pre == Preamble(PREAMBLE_MAX) + [DELIMITER] && checksum == ReplyChecksum(u)
    ensures pre + Halves(UidWire(u)) + Halves(WordWire(checksum)) == DiscoveryReply(u, PREAMBLE_MAX)
  {
    var euid, sum := Halves(UidWire(u)), Halves(WordWire(checksum));
    Associative(Preamble(PREAMBLE_MAX), [DELIMITER], euid + sum);
    Associative(pre, euid, sum);
  }

  /** Writes the bytes of the header from the structure in memory. */
  method WriteHeader(data: array<Byte>, h: Header)
    requires data.Length == BUFFER_SIZE
    modifies data
    ensures data[..] == Splice(old(data[..]), 0, HeaderWire(h))
  {
    HeaderStringLexes(HEADER_STRING);
    HeaderFormatIsUsable();
    HeaderEncodes(h);
    var _ := FormatEncode(data, 0, HEADER_STRING, HeaderMemory(h), HEADER_SIZE, false);
  }

  lemma {:induction false} HeaderEncodes(h: Header)
    ensures Usable(HeaderFormat()) && Encodable(HeaderFormat(), HeaderMemory(h), HEADER_SIZE)
    ensures Encode(HeaderFormat(), HeaderMemory(h), HEADER_SIZE, false) == HeaderWire(h)
  {
    HeaderFormatIsUsable();
    HeaderSerializes(h);
    EncodeRepeating(HeaderFormat(), HeaderMemory(h), [], HEADER_SIZE, false);
    assert HeaderMemory(h) + [] == HeaderMemory(h);
    assert HeaderWire(h) + [] == HeaderWire(h);
  }
}
