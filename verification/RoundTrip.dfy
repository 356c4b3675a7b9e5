/**
 Writing a packet into the buffer and reading it back.
 */
module RoundTrip {
  import opened Bytes
  import opened Formats
  import opened Encoding
  import opened Encoder
  import opened Packets
  import opened PacketIO
  import opened PacketLayouts

  /**
   Every packet that is written is a legal one, by the numbers of its slots: its lengths are right, its
   sub-device is one of 512, the root, or all, and a request names a port, a response one of the four types.
   Only a discovery reply is laid out in another way.
   */
  lemma {:induction false} WrittenIsLegal(h: Header, format: Option<string>, pd: Option<seq<Byte>>)
    requires Accepts(h, format, pd) && Serializable(h, format, pd)
    ensures var p := PacketBytes(h, format, pd);
            if h.cc == 0x11 && h.pid == 0x0001 then p == DiscoveryReply(h.src, 7)
            else
              && 26 <= |p| <= 257 && p[2] == |p| - 2 && p[23] == |p| - 26
              && (BigEndian(p[18..20]) <= 512 || BigEndian(p[18..20]) == 0xffff) && p[20] % 0x10 < 2
              && (if p[20] % 2 == 0 then p[16] > 0 else p[16] <= 3)
  {
    if !IsDiscoveryReply(h) {
      StandardLayout(h, WirePd(h, format, pd));
    }
  }

  /** The bytes after a packet that was written at the start of the buffer. */
  lemma {:induction false} PacketIsRead(before: seq<Byte>, h: Header, pd: seq<Byte>)
    requires |before| == BUFFER_SIZE && |pd| <= PD_MAX
    ensures var data := Splice(before, 0, StandardPacket(h, pd));
            && ReadHeader(data) == Some(WithPd(h, pd))
            && pd <= data[HEADER_SIZE..]
            && (pd != [] ==> data[23] == |pd|)
  {
    var packet := StandardPacket(h, pd);
    var rest := before[|packet|..];
    PacketRoundTrip(h, pd, rest);
    assert Splice(before, 0, packet) == packet + rest;
    if pd != [] {
      PdlIsRead(packet + rest, WithPd(h, pd));
    }
  }

  lemma {:induction false} PdlIsRead(data: seq<Byte>, h: Header)
    requires |data| == BUFFER_SIZE && ReadHeader(data) == Some(h) && h.pdl != 0
    ensures data[23] == h.pdl
  {
  }

  lemma {:induction false} FixedIsWritten(h: Header, format: string, pd: seq<Byte>)
    requires Accepts(h, Some(format), Some(pd)) && !IsDiscoveryReply(h) && h.pdl == |pd|
    requires Usable(Lex(format)) && Fits(Lex(format), h.pdl)
    ensures Encodable(Lex(format), pd, h.pdl) && Serializable(h, Some(format), Some(pd))
    ensures var out := Encode(Lex(format), pd, h.pdl, false);
            |out| == h.pdl && PacketBytes(h, Some(format), Some(pd)) == StandardPacket(h, out) && WithPd(h, out) == h
  {
    EncodeTwice(Lex(format), pd, h.pdl, [], false, true);
  }

  lemma {:induction false} FixedIsRead(data: seq<Byte>, f: Format, pd: seq<Byte>, size: nat)
    requires |data| == BUFFER_SIZE && Usable(f) && Fits(f, |pd|) && 0 < |pd| <= size && data[23] == |pd|
    requires Encodable(f, pd, |pd|) && Encode(f, pd, |pd|, false) <= data[HEADER_SIZE..]
    ensures Encodable(f, data[HEADER_SIZE..], Min(data[23], size))
    ensures PdOf(data, f, size) == pd <==> LiteralsInPlace(f, pd, |pd|)
  {
    var out, tail := Encode(f, pd, |pd|, false), data[HEADER_SIZE..];
    EncodeTwice(f, pd, |pd|, tail[|out|..], false, true);
    assert tail == out + tail[|out|..];
    assert pd[..|pd|] == pd;
  }

  /**
   For every header that is accepted, and every format of fixed-size fields that the data fit, reading
   gives back the same header, and the same data if and only if they hold the format's literals.
   */
  lemma {:induction false} WriteThenReadFixed(before: seq<Byte>, h: Header, format: string, pd: seq<Byte>, size: nat)
    requires |before| == BUFFER_SIZE && Accepts(h, Some(format), Some(pd)) && !IsDiscoveryReply(h)
    requires Usable(Lex(format)) && Fits(Lex(format), h.pdl) && h.pdl == |pd| <= size
    ensures Serializable(h, Some(format), Some(pd))
    ensures var data, f := Splice(before, 0, PacketBytes(h, Some(format), Some(pd))), Lex(format);
            && ReadHeader(data) == Some(h)
            && (h.pdl > 0 ==>
                  && Encodable(f, data[HEADER_SIZE..], Min(data[23], size))
                  && (PdOf(data, f, size) == pd <==> LiteralsInPlace(f, pd, h.pdl)))
  {
    FixedIsWritten(h, format, pd);
    var out := Encode(Lex(format), pd, h.pdl, false);
    PacketIsRead(before, h, out);
    if h.pdl > 0 {
      FixedIsRead(Splice(before, 0, StandardPacket(h, out)), Lex(format), pd, size);
    }
  }

  lemma {:induction false} TerminatedIsRead(data: seq<Byte>, f: Format, pd: seq<Byte>, pdl: nat, size: nat)
    requires |data| == BUFFER_SIZE && Usable(f) && !Repeats(f) && Transferable(f, pd, pdl) && 0 < pdl < SIZE_MODULUS
    requires var out := Encode(f, pd, pdl, false); out != [] && out <= data[HEADER_SIZE..] && data[23] == |out| <= size
    ensures Encodable(f, data[HEADER_SIZE..], Min(data[23], size)) && PdOf(data, f, size) == Image(f, pd, pdl)
  {
    var out, tail := Encode(f, pd, pdl, false), data[HEADER_SIZE..];
    assert tail == out + tail[|out|..];
    PassRoundTrip(f, pd, pdl, tail[|out|..]);
  }

  /**
   For every format that ends in an optional UID, a string or '$', reading gives back the data as the
   format describes them: a UID that was left out is null again, and a string ends in null again. The
   destination need only have room for what is on the wire. The header has the length of that.
   */
  lemma {:induction false} WriteThenReadTerminated(
      before: seq<Byte>, h: Header, format: string, pd: seq<Byte>, size: nat)
    requires |before| == BUFFER_SIZE && Accepts(h, Some(format), Some(pd)) && !IsDiscoveryReply(h) && h.pdl > 0
    requires Usable(Lex(format)) && !Repeats(Lex(format)) && Transferable(Lex(format), pd, h.pdl)
    ensures Serializable(h, Some(format), Some(pd))
    ensures var data := Splice(before, 0, PacketBytes(h, Some(format), Some(pd)));
            var out := WirePd(h, Some(format), Some(pd));
            && ReadHeader(data) == Some(WithPd(h, out))
            && (out != [] && |out| <= size ==>
                  && Encodable(Lex(format), data[HEADER_SIZE..], Min(data[23], size))
                  && PdOf(data, Lex(format), size) == Image(Lex(format), pd, h.pdl))
  {
    var out := WirePd(h, Some(format), Some(pd));
    PacketIsRead(before, h, out);
    if out != [] && |out| <= size {
      TerminatedIsRead(Splice(before, 0, StandardPacket(h, out)), Lex(format), pd, h.pdl, size);
    }
  }
}
