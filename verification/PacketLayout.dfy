/**
 Where everything is in a packet, by number: standard packets (section 6.2 of ANSI E1.20-2010) and discovery
 replies (section 7.5).
 */
module PacketLayouts {
  import opened Bytes
  import opened Uids
  import opened Formats
  import opened Encoding
  import opened Packets

  /** Do a manufacturer ID and a device ID stand at `i`, in this order? */
  predicate IsUidAt(p: seq<Byte>, i: nat, u: Uid) {
    i + 6 <= |p| && BigEndian(p[i..i + 2]) == u.man && BigEndian(p[i + 2..i + 6]) == u.dev
  }

  /** The header of a packet with this header and so many bytes of data, by the numbers of its slots. */
  predicate IsHeaderOf(p: seq<Byte>, h: Header, pdl: nat) {
    && |p| >= 24
    && p[0] == 0xcc && p[1] == 0x01 && p[2] == 24 + pdl
    && IsUidAt(p, 3, h.dest) && IsUidAt(p, 9, h.src)
    && p[15] == h.tn && p[16] == h.portId && p[17] == h.messageCount
    && BigEndian(p[18..20]) == h.subDevice && p[20] == h.cc
    && BigEndian(p[21..23]) == h.pid && p[23] == pdl
  }

  lemma {:induction false} FourBytes(a: Byte, b: Byte, c: Byte, d: Byte)
    ensures BigEndian([a, b, c, d]) == Be32(a, b, c, d)
  {
    TwoBytes(a, b);
    BigEndianAppend([a, b], c);
    BigEndianAppend([a, b, c], d);
    assert [a, b] + [c] == [a, b, c] && [a, b, c] + [d] == [a, b, c, d];
  }

  lemma {:induction false} WordAtIsBigEndian(p: seq<Byte>, i: nat)
    requires i + 2 <= |p|
    ensures BigEndian(p[i..i + 2]) == WordAt(p, i)
  {
    TwoBytes(p[i], p[i + 1]);
    assert p[i..i + 2] == [p[i], p[i + 1]];
  }

  lemma {:induction false} UidAtIsBigEndian(p: seq<Byte>, i: nat)
    requires i + 6 <= |p|
    ensures IsUidAt(p, i, UidAt(p, i))
  {
    WordAtIsBigEndian(p, i);
    FourBytes(p[i + 2], p[i + 3], p[i + 4], p[i + 5]);
    assert p[i + 2..i + 6] == [p[i + 2], p[i + 3], p[i + 4], p[i + 5]];
  }

  /** What is read as the header is what the numbers of the slots say. */
  lemma {:induction false} DecodedIsHeader(p: seq<Byte>)
    requires |p| >= 24 && p[0] == 0xcc && p[1] == 0x01 && p[2] as int == 24 + p[23] as int
    ensures IsHeaderOf(p, Decode(p), p[23])
  {
    UidAtIsBigEndian(p, 3);
    UidAtIsBigEndian(p, 9);
    WordAtIsBigEndian(p, 18);
    WordAtIsBigEndian(p, 21);
  }

  lemma {:induction false} HeaderIsInPlace(h: Header, pdl: nat, rest: seq<Byte>)
    requires h.messageLen == 24 + pdl && h.pdl == pdl
    ensures IsHeaderOf(HeaderWire(h) + rest, h, pdl)
  {
    HeaderWireBytes(h, rest);
    Wire15Bytes(h);
    HeaderRoundTrip(h, rest);
    assert (HeaderWire(h) + rest)[23] == Wire15(h)[8];
    DecodedIsHeader(HeaderWire(h) + rest);
  }

  /**
   A standard packet: the header, the parameter data from slot 24 on, and the sum of all slots before it,
   as far as 16 bits go, in the last two.
   */
  lemma {:induction false} StandardLayout(h: Header, pd: seq<Byte>)
    requires |pd| <= PD_MAX
    ensures var p := StandardPacket(h, pd);
            && |p| == 24 + |pd| + 2 && IsHeaderOf(p, h, |pd|) && p[24..24 + |pd|] == pd
            && BigEndian(p[24 + |pd|..]) == Sum(p[..24 + |pd|]) % 0x1_0000
  {
    var g, body := WithPd(h, pd), Body(h, pd);
    var sum := WordWire(Checksum(body));
    Associative(HeaderWire(g), pd, sum);
    HeaderIsInPlace(g, |pd|, pd + sum);
    PartsOfConcat(body, sum);
    PartsOfConcat(HeaderWire(g), pd + sum);
    DataInPlace(HeaderWire(g), pd, sum);
    TwoBytes(sum[0], sum[1]);
    Le16RoundTrip(Checksum(body));
    assert sum == [sum[0], sum[1]];
  }

  lemma {:induction false} DataInPlace(a: seq<Byte>, b: seq<Byte>, c: seq<Byte>)
    ensures (a + (b + c))[|a|..|a| + |b|] == b
  {
  }

  /** Are these two slots the byte, the first with all odd bits set and the second with all even ones? */
  predicate AreHalvesOf(p: seq<Byte>, i: nat, b: Byte) {
    i + 2 <= |p| &&
    forall j: nat :: j < 8 ==>
      && (Bit(p[i], j) <==> j % 2 == 1 || Bit(b, j))
      && (Bit(p[i + 1], j) <==> j % 2 == 0 || Bit(b, j))
  }

  lemma {:induction false} HalvesAreHalves(s: seq<Byte>, k: nat)
    requires k < |s|
    ensures AreHalvesOf(Halves(s), 2 * k, s[k])
  {
    forall j: nat | j < 8
      ensures Bit(Halves(s)[2 * k], j) <==> j % 2 == 1 || Bit(s[k], j)
      ensures Bit(Halves(s)[2 * k + 1], j) <==> j % 2 == 0 || Bit(s[k], j)
    {
      HalvesKeepBits(s[k], j);
    }
  }

  lemma {:induction false} HalvesWithin(s: seq<Byte>, before: seq<Byte>, after: seq<Byte>, k: nat)
    requires k < |s|
    ensures AreHalvesOf(before + (Halves(s) + after), |before| + 2 * k, s[k])
  {
    HalvesAreHalves(s, k);
    var p := before + (Halves(s) + after);
    assert p[|before| + 2 * k] == Halves(s)[2 * k] && p[|before| + 2 * k + 1] == Halves(s)[2 * k + 1];
  }

  /** The six bytes of a UID, and the two of the checksum, as they stand for their numbers. */
  lemma {:induction false} UidBytes(u: Uid, w: Word)
    ensures IsUidAt(UidWire(u), 0, u) && BigEndian(WordWire(w)) == w
  {
    UidWireRoundTrip(u);
    UidAtIsBigEndian(UidWire(u), 0);
    Le16RoundTrip(w);
    TwoBytes(WordWire(w)[0], WordWire(w)[1]);
    assert WordWire(w) == [WordWire(w)[0], WordWire(w)[1]];
  }

  /**
   A discovery reply: the preamble, the delimiter, the six bytes of the UID in two slots each, and the sum
   of those twelve slots in four. `euid` and `sum` are the bytes that are halved.
   */
  lemma {:induction false} ReplyLayout(u: Uid, n: nat)
    requires n <= PREAMBLE_MAX
    ensures var p, euid, sum := DiscoveryReply(u, n), UidWire(u), WordWire(ReplyChecksum(u));
            && |p| == n + 17 && (forall i :: 0 <= i < n ==> p[i] == 0xfe) && p[n] == 0xaa
            && (forall k :: 0 <= k < 6 ==> AreHalvesOf(p, n + 1 + 2 * k, euid[k]))
            && (forall k :: 0 <= k < 2 ==> AreHalvesOf(p, n + 13 + 2 * k, sum[k]))
            && IsUidAt(euid, 0, u) && BigEndian(sum) == Sum(p[n + 1..n + 13])
  {
    var p, euid, sum := DiscoveryReply(u, n), UidWire(u), WordWire(ReplyChecksum(u));
    var a, b, c := Preamble(n) + [DELIMITER], Halves(euid), Halves(sum);
    UidBytes(u, ReplyChecksum(u));
    Associative(Preamble(n), [DELIMITER], b + c);
    Associative(a, b, c);
    forall k | 0 <= k < 6
      ensures AreHalvesOf(p, n + 1 + 2 * k, euid[k])
    {
      HalvesWithin(euid, a, c, k);
    }
    forall k | 0 <= k < 2
      ensures AreHalvesOf(p, n + 13 + 2 * k, sum[k])
    {
      HalvesWithin(sum, a + b, [], k);
      assert c + [] == c;
    }
    SumsAgree(euid);
    DataInPlace(a, b, c);
  }

  // ---------- what is no packet ----------

  /**
   In a buffer that begins with the start code of RDM, a header is read if and only if the sub-start code
   follows and the checksum is right, wherever the length says it is. With any other first slot but a
   preamble or a delimiter, none is read.
   */
  lemma {:induction false} HeaderIsReadExactly(data: seq<Byte>)
    requires |data| >= 257
    ensures data[0] == 0xcc ==>
              (ReadHeader(data).Some? <==>
                 data[1] == 0x01 &&
                 BigEndian(data[data[2]..data[2] as int + 2]) == Sum(data[..data[2]]) % 0x1_0000)
    ensures data[0] != 0xcc && data[0] != 0xfe && data[0] != 0xaa ==> ReadHeader(data) == None
  {
    WordAtIsBigEndian(data, data[2]);
  }

  lemma {:induction false} DelimiterIsFirst(data: seq<Byte>, n: nat, i: nat)
    requires |data| >= 8 && i <= n <= 8 && (n < 8 ==> data[n] == 0xaa) && forall j :: i <= j < n ==> data[j] != 0xaa
    ensures DelimiterIndex(data, i) == n
    decreases n - i
  {
    if i < n {
      DelimiterIsFirst(data, n, i + 1);
    }
  }

  /**
   In a buffer that begins with a preamble or a delimiter, whose first delimiter is in slot `n`, the header of
   a reply is read if and only if that is one of the first eight, and the sum of the twelve slots after it
   is what the next four hold.
   */
  lemma {:induction false} ReplyIsReadExactly(data: seq<Byte>, n: nat)
    requires |data| >= 257 && (data[0] == 0xfe || data[0] == 0xaa) && n <= 8
    requires (n < 8 ==> data[n] == 0xaa) && forall j :: 0 <= j < n ==> data[j] != 0xaa
    ensures ReadHeader(data).Some? <==>
            && n < 8
            && Sum(data[n + 1..n + 13]) % 0x1_0000 ==
               BigEndian([And(data[n + 13], data[n + 14]), And(data[n + 15], data[n + 16])])
  {
    DelimiterIsFirst(data, n, 0);
    if n < 8 {
      var d := data[n + 1..];
      TwoBytes(And(data[n + 13], data[n + 14]), And(data[n + 15], data[n + 16]));
      assert d[..12] == data[n + 1..n + 13];
    }
  }

  lemma {:induction false} SumUpdate(s: seq<Byte>, i: nat, b: Byte)
    requires i < |s|
    ensures Sum(s[i := b]) == Sum(s) - s[i] + b
  {
    var init := s[..|s| - 1];
    if i == |s| - 1 {
      assert s[i := b][..|s| - 1] == init;
    } else {
      SumUpdate(init, i, b);
      assert s[i := b][..|s| - 1] == init[i := b];
    }
  }

  lemma {:induction false} WrongSum(a: nat, x: Byte, y: Byte)
    requires x != y && a >= x
    ensures (a - x + y) % 0x1_0000 != a % 0x1_0000
  {
  }

  lemma {:induction false} SumHoldsEach(s: seq<Byte>, i: nat)
    requires i < |s|
    ensures Sum(s) >= s[i]
  {
    if i < |s| - 1 {
      SumHoldsEach(s[..|s| - 1], i);
    }
  }

  /** The body and the checksum of what is at the start of a buffer. */
  lemma {:induction false} PartsInBuffer(body: seq<Byte>, sum: seq<Byte>, rest: seq<Byte>)
    requires |sum| == 2
    ensures var data := body + sum + rest;
            data[..|body|] == body && data[|body|] == sum[0] && data[|body| + 1] == sum[1]
  {
  }

  /** Of a packet whose lengths are intact, the header is read only if the sum of the body is the checksum. */
  lemma {:induction false} ReadNeedsSum(body: seq<Byte>, sum: seq<Byte>, rest: seq<Byte>)
    requires 3 <= |body| <= 255 && |sum| == 2 && |body + sum + rest| >= 257
    requires body[0] == 0xcc && body[1] == 0x01 && body[2] == |body|
    ensures ReadHeader(body + sum + rest).Some? <==> BigEndian(sum) == Sum(body) % 0x1_0000
  {
    PartsInBuffer(body, sum, rest);
    TwoBytes(sum[0], sum[1]);
    assert sum == [sum[0], sum[1]];
    assert (body + sum + rest)[2] == body[2];
  }

  lemma {:induction false} BodyIsIntact(h: Header, pd: seq<Byte>)
    requires |pd| <= PD_MAX
    ensures var body, sum := Body(h, pd), WordWire(Checksum(Body(h, pd)));
            && StandardPacket(h, pd) == body + sum && 24 <= |body| <= 255
            && body[0] == 0xcc && body[1] == 0x01 && body[2] == |body|
            && BigEndian(sum) == Sum(body) % 0x1_0000 && sum == [sum[0], sum[1]]
  {
    var sum := WordWire(Checksum(Body(h, pd)));
    HeaderWireBytes(WithPd(h, pd), pd);
    TwoBytes(sum[0], sum[1]);
    Le16RoundTrip(Checksum(Body(h, pd)));
    assert sum == [sum[0], sum[1]];
  }

  /**
   The checksum finds any one wrong slot after the length: with another byte in its place, no header is
   read, whatever follows the packet.
   */
  lemma {:induction false} OneWrongSlotIsFound(h: Header, pd: seq<Byte>, rest: seq<Byte>, i: nat, b: Byte)
    requires |pd| <= PD_MAX && |StandardPacket(h, pd) + rest| >= 257
    requires 3 <= i < |StandardPacket(h, pd)| && b != StandardPacket(h, pd)[i]
    ensures ReadHeader(StandardPacket(h, pd)[i := b] + rest) == None
  {
    var body, sum := Body(h, pd), WordWire(Checksum(Body(h, pd)));
    BodyIsIntact(h, pd);
    if i < |body| {
      SumUpdate(body, i, b);
      SumHoldsEach(body, i);
      WrongSum(Sum(body), body[i], b);
      ReadNeedsSum(body[i := b], sum, rest);
      assert (body + sum)[i := b] == body[i := b] + sum;
    } else {
      var wrong := sum[i - |body| := b];
      TwoBytes(sum[0], sum[1]);
      TwoBytes(wrong[0], wrong[1]);
      assert wrong == [wrong[0], wrong[1]];
      ReadNeedsSum(body, wrong, rest);
      assert (body + sum)[i := b] == body + wrong;
    }
  }
}
