/**
 Receiving a packet over any number of interrupts: nothing is lost or reordered, and where the packet
 ends does not depend on how it is split.
 */
module ReceiveRuns {
  import opened Bytes
  import opened Uids
  import Formats
  import opened Packets
  import opened Encoding
  import opened Drivers

  /** The bytes that arrive before an interrupt, and the error it reports, if any. */
  datatype Chunk = Chunk(bytes: seq<Byte>, err: Error)

  function Interrupt(s: Driver, c: Chunk): (o: Outcome)
    requires Valid(s)
    ensures Valid(o.state)
  {
    Receive(s.(rxFifo := s.rxFifo + c.bytes), false, c.err)
  }

  /** The state after the interrupts, none of which sees a break. */
  function Feed(s: Driver, chunks: seq<Chunk>): (t: Driver)
    requires Valid(s)
    ensures Valid(t)
  {
    if chunks == [] then s else Interrupt(Feed(s, chunks[..|chunks| - 1]), chunks[|chunks| - 1]).state
  }

  function Received(chunks: seq<Chunk>): seq<Byte> {
    if chunks == [] then [] else Received(chunks[..|chunks| - 1]) + chunks[|chunks| - 1].bytes
  }

  // ---------- conservation ----------

  /** The buffer holds the first bytes of `r`, and the UART those not read yet; all of them are counted. */
  predicate Stored(s: Driver, r: seq<Byte>) {
    && |s.data| == BUFFER_SIZE
    && 0 <= s.head <= |r|
    && s.rxFifo == r[s.head..]
    && s.data[..Min(s.head, BUFFER_SIZE)] == r[..Min(s.head, BUFFER_SIZE)]
  }

  lemma {:induction false} ArrivalKeepsStored(s: Driver, r: seq<Byte>, bytes: seq<Byte>)
    requires Stored(s, r)
    ensures Stored(s.(rxFifo := s.rxFifo + bytes), r + bytes)
  {
    assert (r + bytes)[s.head..] == r[s.head..] + bytes;
  }

  lemma {:induction false} FillKeepsStored(s: Driver, r: seq<Byte>)
    requires Valid(s) && Stored(s, r)
    ensures Stored(Fill(s), r)
    ensures s.head < BUFFER_SIZE ==> Fill(s).head == Min(|r|, BUFFER_SIZE)
    ensures s.head >= BUFFER_SIZE ==> Fill(s).head == |r|
  {
    if s.head < BUFFER_SIZE {
      var n := Min(BUFFER_SIZE - s.head, |s.rxFifo|);
      var t := Fill(s);
      assert r[..t.head] == r[..s.head] + r[s.head..][..n];
      assert t.data[..t.head] == s.data[..s.head] + s.rxFifo[..n];
      assert r[s.head..][n..] == r[t.head..];
    }
  }

  /** What has come from the start of a packet on: what the UART held then, and what it received since. */
  function Stream(s: Driver, chunks: seq<Chunk>): seq<Byte> {
    s.rxFifo + Received(chunks)
  }

  lemma {:induction false} StreamGrows(s: Driver, chunks: seq<Chunk>)
    requires chunks != []
    ensures Stream(s, chunks) == Stream(s, chunks[..|chunks| - 1]) + chunks[|chunks| - 1].bytes
  {
  }

  /**
   After a break, however the bytes are split over interrupts and whatever errors these report, the
   buffer holds the first bytes, in order, up to its 513: what the break left in the UART, and then what
   is received. Every one of them is counted in `head` or still in the UART. After a full buffer, the
   rest is counted and dropped.
   */
  lemma {:induction false} ReceiveConserves(s: Driver, chunks: seq<Chunk>)
    requires Valid(s) && s.head == 0
    ensures Stored(Feed(s, chunks), Stream(s, chunks))
    ensures chunks != [] && Feed(s, chunks).rxFifo != [] ==> Feed(s, chunks).head == BUFFER_SIZE
  {
    if chunks != [] {
      var init, last := chunks[..|chunks| - 1], chunks[|chunks| - 1];
      var t := Feed(s, init);
      var u := t.(rxFifo := t.rxFifo + last.bytes);
      ReceiveConserves(s, init);
      StreamGrows(s, chunks);
      ArrivalKeepsStored(t, Stream(s, init), last.bytes);
      FillKeepsStored(u, Stream(s, chunks));
      assert SameBuffer(Fill(u), Feed(s, chunks));
    }
  }

  // ---------- where a packet ends ----------

  /**
   After how many bytes a packet ends: an RDM packet at its own length, any other at the number of slots
   expected, but not before it is known not to be RDM.
   */
  datatype Extent = Rdm(length: nat) | Sized(least: nat) {
    function Need(size: int): int {
      if Rdm? then length else if size < least then least else size
    }
  }

  function ExtentIn(data: seq<Byte>): Extent
    requires |data| == BUFFER_SIZE
  {
    if data[0] == SC then
      if data[1] != SUB_SC || !CcIsValid(data[20]) || data[2] < HEADER_SIZE then Sized(HEADER_SIZE + 2)
      else if ReadHeader(data) == None then Sized(data[2] as int + 2)
      else Rdm(data[2] as int + 2)
    else if data[0] == PREAMBLE || data[0] == DELIMITER then
      var n := DelimiterSlot(data, 0);
      if n > 8 then Sized(17) else if ReadHeader(data) == None then Sized(n + 17) else Rdm(n + 17)
    else Sized(1)
  }

  /** The buffer into which nothing but `p` came. */
  function Image(p: seq<Byte>): (data: seq<Byte>)
    ensures |data| == BUFFER_SIZE
  {
    if |p| >= BUFFER_SIZE then p[..BUFFER_SIZE] else p + seq(BUFFER_SIZE - |p|, _ => 0)
  }

  /** Where a packet ends that consists of these bytes. */
  function ExtentOf(p: seq<Byte>): Extent {
    ExtentIn(Image(p))
  }

  lemma {:induction false} PrefixAgrees(data: seq<Byte>, p: seq<Byte>, k: nat, i: nat)
    requires k <= |data| && k <= |p| && data[..k] == p[..k] && i < k
    ensures data[i] == p[i]
  {
    assert data[..k][i] == p[..k][i];
  }

  /** A prefix of equal bytes has equal prefixes. */
  lemma {:induction false} ShorterPrefix(data: seq<Byte>, p: seq<Byte>, k: nat, i: nat)
    requires k <= |data| && k <= |p| && data[..k] == p[..k] && i <= k
    ensures data[..i] == p[..i]
  {
    assert data[..k][..i] == p[..k][..i];
  }

  lemma {:induction false} StandardVerdict(data: seq<Byte>, d: seq<Byte>, k: nat, m: nat, size: int)
    requires |data| == |d| == BUFFER_SIZE && 1 <= m <= BUFFER_SIZE && m <= k && (m < BUFFER_SIZE ==> m == k)
    requires data[..m] == d[..m] && d[0] == SC
    ensures Classify(data, k, size).IsComplete() <==> ExtentIn(d).Need(size) <= k
  {
    PrefixAgrees(data, d, m, 0);
    if m >= HEADER_SIZE + 2 {
      PrefixAgrees(data, d, m, 1);
      PrefixAgrees(data, d, m, 2);
      PrefixAgrees(data, d, m, 20);
      var len := d[2] as int;
      if m >= len + 2 {
        ShorterPrefix(data, d, m, len);
        PrefixAgrees(data, d, m, len);
        PrefixAgrees(data, d, m, len + 1);
      }
    }
  }

  lemma {:induction false} SameDelimiter(data: seq<Byte>, d: seq<Byte>, i: nat)
    requires |data| >= 8 && |d| >= 8 && i <= 8 && forall j :: 0 <= j < 8 ==> data[j] == d[j]
    ensures DelimiterSlot(data, i) == DelimiterSlot(d, i)
    ensures DelimiterIndex(data, i) == DelimiterIndex(d, i)
    ensures DelimiterSlot(d, i) <= 8 ==> DelimiterIndex(d, i) == DelimiterSlot(d, i)
    decreases 8 - i
  {
    if i < 8 {
      SameDelimiter(data, d, i + 1);
    }
  }

  lemma {:induction false} SameReplyBody(b: seq<Byte>, c: seq<Byte>)
    requires |b| >= 16 && |c| >= 16 && forall i :: 0 <= i < 16 ==> b[i] == c[i]
    ensures b[..12] == c[..12] && DecodeEuid(b) == DecodeEuid(c)
    ensures AndPair(b, 12) == AndPair(c, 12) && AndPair(b, 14) == AndPair(c, 14)
  {
  }

  lemma {:induction false} SameReply(data: seq<Byte>, d: seq<Byte>, n: nat)
    requires |data| == |d| == BUFFER_SIZE && n <= PREAMBLE_MAX
    requires data[..n + 17] == d[..n + 17] && DelimiterIndex(data, 0) == DelimiterIndex(d, 0) == n
    ensures ReadDiscoveryReply(data) == ReadDiscoveryReply(d)
  {
    var b, c := data[n + 1..], d[n + 1..];
    forall i | 0 <= i < 16
      ensures b[i] == c[i]
    {
      PrefixAgrees(data, d, n + 17, n + 1 + i);
    }
    SameReplyBody(b, c);
  }

  lemma {:induction false} ReplyVerdict(data: seq<Byte>, d: seq<Byte>, k: nat, m: nat, size: int)
    requires |data| == |d| == BUFFER_SIZE && 1 <= m <= BUFFER_SIZE && m <= k && (m < BUFFER_SIZE ==> m == k)
    requires data[..m] == d[..m] && (d[0] == PREAMBLE || d[0] == DELIMITER)
    ensures Classify(data, k, size).IsComplete() <==> ExtentIn(d).Need(size) <= k
  {
    PrefixAgrees(data, d, m, 0);
    if m >= 17 {
      ShorterPrefix(data, d, m, 8);
      assert forall i :: 0 <= i < 8 ==> data[i] == data[..8][i] == d[..8][i] == d[i];
      SameDelimiter(data, d, 0);
      var n := DelimiterSlot(d, 0);
      if n <= PREAMBLE_MAX && m >= n + 17 {
        ShorterPrefix(data, d, m, n + 17);
        SameReply(data, d, n);
      }
    }
  }

  /**
   The verdict depends on nothing but the bytes received, whatever they are, and not on what earlier
   packets left in the buffer; and it is that the packet is complete from one number of bytes on.
   */
  lemma {:induction false} VerdictReadsReceived(data: seq<Byte>, p: seq<Byte>, k: nat, size: int)
    requires |data| == BUFFER_SIZE && 1 <= k <= |p| && data[..Min(k, BUFFER_SIZE)] == p[..Min(k, BUFFER_SIZE)]
    ensures Classify(data, k, size).IsComplete() <==> ExtentOf(p).Need(size) <= k
  {
    var d, m := Image(p), Min(k, BUFFER_SIZE);
    assert d[..m] == p[..m];
    PrefixAgrees(data, d, m, 0);
    if d[0] == SC {
      StandardVerdict(data, d, k, m, size);
    } else if d[0] == PREAMBLE || d[0] == DELIMITER {
      ReplyVerdict(data, d, k, m, size);
    }
  }

  /** Interrupts that each deliver something and see no error, the start of `p` in all. */
  predicate Splits(s: Driver, chunks: seq<Chunk>, p: seq<Byte>) {
    && Stream(s, chunks) <= p
    && forall i :: 0 <= i < |chunks| ==> chunks[i].bytes != [] && chunks[i].err == NoError
  }

  /** A break came. It may have left bytes in the UART. */
  predicate AwaitsPacket(s: Driver) {
    Valid(s) && s.head == 0 && IsLive(s.progress)
  }

  lemma {:induction false} SplitsInit(s: Driver, chunks: seq<Chunk>, p: seq<Byte>)
    requires Splits(s, chunks, p) && chunks != []
    ensures Splits(s, chunks[..|chunks| - 1], p)
  {
    StreamGrows(s, chunks);
  }

  lemma {:induction false} NoticeFollowsVerdict(v: Driver)
    requires Valid(v) && IsLive(v.progress)
    ensures ReceiveSlots(v, NoError).notice ==
            if Classify(v.data, v.head, v.size).IsComplete() then Some(NoError) else None
  {
  }

  /** How many bytes are counted after an interrupt, when `n` have come and `head` were counted before. */
  function Counted(head: int, n: nat): int {
    if head < BUFFER_SIZE then Min(n, BUFFER_SIZE) else n
  }

  lemma {:induction false} CountedReaches(head: int, n: nat, need: int)
    requires need <= BUFFER_SIZE
    ensures need <= Counted(head, n) <==> need <= n
  {
  }

  /** What an interrupt leaves in the buffer. */
  lemma {:induction false} PrefixInBuffer(t: Driver, r: seq<Byte>, p: seq<Byte>)
    requires Valid(t) && Stored(t, r) && r <= p
    ensures var v := Fill(t);
            && Stored(v, r) && v.head == Counted(t.head, |r|)
            && v.data[..Min(v.head, BUFFER_SIZE)] == p[..Min(v.head, BUFFER_SIZE)]
  {
    FillKeepsStored(t, r);
    var m := Min(Fill(t).head, BUFFER_SIZE);
    assert r[..m] == p[..m];
  }

  /** The verdict at an interrupt, on the start `r` of `p`. */
  lemma {:induction false} VerdictOnFill(t: Driver, r: seq<Byte>, p: seq<Byte>)
    requires Valid(t) && Stored(t, r) && r <= p && r != []
    ensures var v := Fill(t);
            Classify(v.data, v.head, v.size).IsComplete() <==> ExtentOf(p).Need(t.size) <= Counted(t.head, |r|)
  {
    PrefixInBuffer(t, r, p);
    VerdictReadsReceived(Fill(t).data, p, Fill(t).head, t.size);
  }

  /** The verdict at an interrupt depends on nothing but the bytes received so far. */
  lemma {:induction false} VerdictAtInterrupt(t: Driver, before: seq<Byte>, c: Chunk, p: seq<Byte>)
    requires Valid(t) && Stored(t, before) && IsLive(t.progress)
    requires c.bytes != [] && c.err == NoError && before + c.bytes <= p
    ensures var o := Interrupt(t, c);
            if ExtentOf(p).Need(t.size) <= Counted(t.head, |before + c.bytes|)
            then o.notice == Some(NoError) && o.state.progress == Complete
            else o.notice == None && o.state.progress == InData
  {
    var u := t.(rxFifo := t.rxFifo + c.bytes);
    ArrivalKeepsStored(t, before, c.bytes);
    VerdictOnFill(u, before + c.bytes, p);
    NoticeFollowsVerdict(Fill(u));
  }

  lemma {:induction false} InterruptAfterPacket(t: Driver, c: Chunk)
    requires Valid(t) && t.progress == Complete
    ensures var o := Interrupt(t, c);
            o.notice == None && o.state.progress == Complete
  {
  }

  lemma {:induction false} InterruptKeepsSize(t: Driver, c: Chunk)
    requires Valid(t)
    ensures Interrupt(t, c).state.size == t.size
  {
  }

  /** Has an interrupt delivered the last byte of the packet? */
  predicate HasEnded(s: Driver, chunks: seq<Chunk>, p: seq<Byte>) {
    chunks != [] && ExtentOf(p).Need(s.size) <= |Stream(s, chunks)|
  }

  /** The state after some interrupts of a packet. */
  lemma {:induction false} StateWithinPacket(s: Driver, p: seq<Byte>, chunks: seq<Chunk>)
    requires AwaitsPacket(s) && ExtentOf(p).Need(s.size) <= BUFFER_SIZE && Splits(s, chunks, p)
    ensures var t := Feed(s, chunks);
            && t.size == s.size
            && (if HasEnded(s, chunks, p) then t.progress == Complete else IsLive(t.progress))
            && (chunks != [] && !HasEnded(s, chunks, p) ==> t.progress == InData)
  {
    if chunks != [] {
      var init, last := chunks[..|chunks| - 1], chunks[|chunks| - 1];
      var t := Feed(s, init);
      SplitsInit(s, chunks, p);
      StreamGrows(s, chunks);
      StateWithinPacket(s, p, init);
      ReceiveConserves(s, init);
      InterruptKeepsSize(t, last);
      if HasEnded(s, init, p) {
        InterruptAfterPacket(t, last);
      } else {
        VerdictAtInterrupt(t, Stream(s, init), last, p);
        CountedReaches(t.head, |Stream(s, chunks)|, ExtentOf(p).Need(s.size));
      }
    }
  }

  /**
   Framing does not depend on chunking: however a packet is split over interrupts, its end is declared,
   without an error, at the first interrupt by which the byte has come at which it ends, and at no other.
   The bytes that the break left in the UART are the packet's first.
   */
  lemma {:induction false} PacketEndsAtItsLastByte(s: Driver, p: seq<Byte>, chunks: seq<Chunk>, c: Chunk)
    requires AwaitsPacket(s) && ExtentOf(p).Need(s.size) <= BUFFER_SIZE && Splits(s, chunks + [c], p)
    ensures Interrupt(Feed(s, chunks), c).notice ==
            if HasEnded(s, chunks + [c], p) && !HasEnded(s, chunks, p) then Some(NoError) else None
  {
    assert (chunks + [c])[..|chunks|] == chunks && (chunks + [c])[|chunks|] == c;
    SplitsInit(s, chunks + [c], p);
    StreamGrows(s, chunks + [c]);
    StateWithinPacket(s, p, chunks);
    ReceiveConserves(s, chunks);
    var t := Feed(s, chunks);
    if HasEnded(s, chunks, p) {
      InterruptAfterPacket(t, c);
    } else {
      VerdictAtInterrupt(t, Stream(s, chunks), c, p);
      CountedReaches(t.head, |Stream(s, chunks + [c])|, ExtentOf(p).Need(s.size));
    }
  }

  // ---------- the three kinds of packet ----------

  /** A standard RDM packet, of any contents, whose lengths and checksum are right. */
  predicate IsStandardPacket(p: seq<Byte>) {
    && |p| >= HEADER_SIZE + 2 && p[0] == SC && p[1] == SUB_SC && HEADER_SIZE <= p[2] && |p| == p[2] as int + 2
    && CcIsValid(p[20])
    && Checksum(p[..|p| - 2]) == WordAt(p, |p| - 2)
  }

  lemma {:induction false} StandardPacketIsOne(h: Header, pd: seq<Byte>)
    requires |pd| <= Formats.PD_MAX && CcIsValid(h.cc)
    ensures IsStandardPacket(StandardPacket(h, pd))
  {
    var body, sum := Body(h, pd), WordWire(Checksum(Body(h, pd)));
    var p := StandardPacket(h, pd);
    PartsOfConcat(body, sum);
    HeaderWireBytes(WithPd(h, pd), pd);
    Wire15Bytes(WithPd(h, pd));
    Le16RoundTrip(Checksum(body));
    assert p[20] == body[15 + 5];
    assert p[|body|] == sum[0] && p[|body| + 1] == sum[1];
  }

  lemma {:induction false} ImageStarts(p: seq<Byte>, more: seq<Byte>)
    requires |p| <= BUFFER_SIZE
    ensures Image(p + more)[..|p|] == p && Image(p + more) == p + Image(p + more)[|p|..]
    ensures forall i :: 0 <= i < |p| ==> Image(p + more)[i] == p[i]
  {
  }

  /** A standard packet ends at the second byte of its checksum, however many slots are expected. */
  lemma {:induction false} StandardPacketIsFramed(p: seq<Byte>, more: seq<Byte>)
    requires IsStandardPacket(p)
    ensures ExtentOf(p + more) == Rdm(|p|)
  {
    var data := Image(p + more);
    ImageStarts(p, more);
    assert data[..|p| - 2] == data[..|p|][..|p| - 2] == p[..|p| - 2];
  }

  lemma {:induction false} DelimiterSlotOfReply(data: seq<Byte>, n: nat, i: nat)
    requires |data| >= 8 && i <= n <= PREAMBLE_MAX && data[n] == DELIMITER
    requires forall j :: i <= j < n ==> data[j] == PREAMBLE
    ensures DelimiterSlot(data, i) == n
    decreases n - i
  {
    if i < n {
      DelimiterSlotOfReply(data, n, i + 1);
    }
  }

  lemma {:induction false} ReplyStart(u: Uid, n: nat)
    requires n <= PREAMBLE_MAX
    ensures |DiscoveryReply(u, n)| == n + 17
    ensures forall i :: 0 <= i < n ==> DiscoveryReply(u, n)[i] == PREAMBLE
    ensures DiscoveryReply(u, n)[n] == DELIMITER
  {
  }

  /** A discovery reply ends at the last byte of its checksum, however much of its preamble is left. */
  lemma {:induction false} DiscoveryReplyIsFramed(u: Uid, preamble: nat, more: seq<Byte>)
    requires preamble <= PREAMBLE_MAX
    ensures ExtentOf(DiscoveryReply(u, preamble) + more) == Rdm(preamble + 17)
  {
    var p := DiscoveryReply(u, preamble);
    var data := Image(p + more);
    ReplyStart(u, preamble);
    ImageStarts(p, more);
    DelimiterSlotOfReply(data, preamble, 0);
    DiscoveryRoundTrip(u, preamble, data[|p|..]);
  }

  predicate IsPlain(p: seq<Byte>) {
    p != [] && p[0] != SC && p[0] != PREAMBLE && p[0] != DELIMITER
  }

  /** A packet that is not RDM ends at the slot that makes it as long as expected, and no header is read from it. */
  lemma {:induction false} PlainPacketIsFramed(p: seq<Byte>)
    requires IsPlain(p)
    ensures ExtentOf(p) == Sized(1)
    ensures forall data: seq<Byte> :: |data| == BUFFER_SIZE && data[0] == p[0] ==> ReadHeader(data) == None
  {
  }

  /** One whose checksum is wrong is taken for a packet that is not RDM, once it has come in full. */
  lemma {:induction false} DamagedPacketIsFramed(p: seq<Byte>, more: seq<Byte>)
    requires |p| >= HEADER_SIZE + 2 && p[0] == SC && p[1] == SUB_SC && HEADER_SIZE <= p[2] && |p| == p[2] as int + 2
    requires CcIsValid(p[20]) && Checksum(p[..|p| - 2]) != WordAt(p, |p| - 2)
    ensures ExtentOf(p + more) == Sized(|p|)
  {
    var data := Image(p + more);
    ImageStarts(p, more);
    assert data[..|p| - 2] == data[..|p|][..|p| - 2] == p[..|p| - 2];
  }

  /** One whose header is not that of RDM is, once its header and a checksum would have come. */
  lemma {:induction false} MalformedPacketIsFramed(p: seq<Byte>)
    requires |p| >= 26 && p[0] == SC && (p[1] != SUB_SC || !CcIsValid(p[20]) || p[2] < HEADER_SIZE)
    ensures ExtentOf(p) == Sized(26)
  {
    assert p + [] == p;
    ImageStarts(p[..26], p[26..]);
    assert p[..26] + p[26..] == p;
  }

  lemma {:induction false} NoDelimiterSlot(data: seq<Byte>, n: nat, i: nat)
    requires |data| >= 8 && i <= n <= 8 && forall j :: i <= j < n ==> data[j] == PREAMBLE
    requires n < 8 ==> data[n] != PREAMBLE && data[n] != DELIMITER
    ensures DelimiterSlot(data, i) == if n < 8 then 9 else 8
    decreases n - i
  {
    if i < n {
      NoDelimiterSlot(data, n, i + 1);
    }
  }

  /**
   What begins with `n` preamble bytes and is no discovery reply is taken for a packet that is not RDM: from
   17 bytes on if another byte than the delimiter follows, and from 25 if eight are preamble; if the
   checksum is wrong, once it has come in full.
   */
  lemma {:induction false} MalformedReplyIsFramed(p: seq<Byte>, n: nat)
    requires |p| >= n + 17 && n <= 8 && (p[0] == PREAMBLE || p[0] == DELIMITER)
    requires forall j :: 0 <= j < n ==> p[j] == PREAMBLE
    ensures n < 8 && p[n] != PREAMBLE && p[n] != DELIMITER ==> ExtentOf(p) == Sized(17)
    ensures n == 8 ==> ExtentOf(p) == Sized(25)
    ensures n < 8 && p[n] == DELIMITER ==>
              ExtentOf(p) == if ReadHeader(Image(p)) == None then Sized(n + 17) else Rdm(n + 17)
  {
    var data := Image(p);
    ImageStarts(p[..n + 17], p[n + 17..]);
    assert p[..n + 17] + p[n + 17..] == p;
    if n < 8 && p[n] == DELIMITER {
      DelimiterSlotOfReply(data, n, 0);
    } else if n == 8 || p[n] != PREAMBLE {
      NoDelimiterSlot(data, n, 0);
      if n == 8 {
        PreambleOnly(data, 0);
      }
    }
  }

  lemma {:induction false} PreambleOnly(data: seq<Byte>, i: nat)
    requires |data| >= 8 && i <= 8 && forall j :: 0 <= j < 8 ==> data[j] == PREAMBLE
    ensures DelimiterIndex(data, i) == 8
    decreases 8 - i
  {
    if i < 8 {
      PreambleOnly(data, i + 1);
    }
  }

  /**
   When a break left bytes in the UART that no RDM packet begins with, the end of a standard packet after
   it is found if and only if as many slots are expected as come in all.
   */
  lemma {:induction false} LeftBytesHideThePacket(left: seq<Byte>, p: seq<Byte>, size: int)
    requires IsStandardPacket(p) && (left == [] || IsPlain(left))
    ensures ExtentOf(left + p).Need(size) == |left + p| <==> left == [] || size == |left + p|
  {
    if left == [] {
      StandardPacketIsFramed(p, []);
      assert left + p == p == p + [];
    } else {
      PlainPacketIsFramed(left + p);
    }
  }

  // ---------- what is read in the end ----------

  /** The interrupts deliver all of a packet. */
  predicate Delivers(chunks: seq<Chunk>, p: seq<Byte>) {
    && Received(chunks) == p
    && forall i :: 0 <= i < |chunks| ==> chunks[i].bytes != [] && chunks[i].err == NoError
  }

  lemma {:induction false} StoredIsInBuffer(t: Driver, r: seq<Byte>)
    requires Stored(t, r) && |r| < BUFFER_SIZE && (t.rxFifo != [] ==> t.head == BUFFER_SIZE)
    ensures t.data == r + t.data[|r|..]
  {
    assert t.data[..|r|] == r;
  }

  lemma {:induction false} DeliveredIsInBuffer(s: Driver, chunks: seq<Chunk>)
    requires Valid(s) && s.head == 0 && chunks != [] && |Stream(s, chunks)| < BUFFER_SIZE
    ensures var r, data := Stream(s, chunks), Feed(s, chunks).data;
            data == r + data[|r|..]
  {
    ReceiveConserves(s, chunks);
    StoredIsInBuffer(Feed(s, chunks), Stream(s, chunks));
  }

  /** Is this packet declared, and read back with its header and its parameter data? */
  predicate IsRead(t: Driver, h: Header, pd: seq<Byte>)
    requires Valid(t) && |pd| <= Formats.PD_MAX
  {
    t.progress == Complete && ReadHeader(t.data) == Some(WithPd(h, pd)) && pd <= t.data[HEADER_SIZE..]
  }

  /** An RDM packet that nothing precedes is complete once it is delivered, and in the buffer. */
  lemma {:induction false} DeliveredPacketEnds(s: Driver, chunks: seq<Chunk>, p: seq<Byte>)
    requires AwaitsPacket(s) && s.rxFifo == [] && Delivers(chunks, p)
    requires ExtentOf(p) == Rdm(|p|) && 0 < |p| < BUFFER_SIZE
    ensures Feed(s, chunks).progress == Complete && Feed(s, chunks).data == p + Feed(s, chunks).data[|p|..]
  {
    assert Stream(s, chunks) == p;
    StateWithinPacket(s, p, chunks);
    DeliveredIsInBuffer(s, chunks);
  }

  lemma {:induction false} StandardPacketIsRead(s: Driver, chunks: seq<Chunk>, h: Header, pd: seq<Byte>)
    requires AwaitsPacket(s) && |pd| <= Formats.PD_MAX && CcIsValid(h.cc) && Delivers(chunks, StandardPacket(h, pd))
    requires s.rxFifo == []
    ensures IsRead(Feed(s, chunks), h, pd)
  {
    var p := StandardPacket(h, pd);
    StandardPacketIsOne(h, pd);
    StandardPacketIsFramed(p, []);
    assert p + [] == p;
    DeliveredPacketEnds(s, chunks, p);
    PacketRoundTrip(h, pd, Feed(s, chunks).data[|p|..]);
  }

  lemma {:induction false} PlainStartIsRead(s: Driver, chunks: seq<Chunk>)
    requires Valid(s) && s.head == 0 && IsPlain(s.rxFifo) && chunks != []
    ensures ReadHeader(Feed(s, chunks).data) == None
  {
    var t, r := Feed(s, chunks), Stream(s, chunks);
    ReceiveConserves(s, chunks);
    assert t.head > 0;
    assert t.data[0] == t.data[..Min(t.head, BUFFER_SIZE)][0] == r[0];
    PlainPacketIsFramed(r);
  }

  /**
   A packet that a standard sender wrote is declared, and read back with its header and its parameter
   data, however it was split over interrupts, if and only if the break before it left nothing in the
   UART. Otherwise what was left, such as the null byte of a break, is taken for the packet's start.
   */
  lemma {:induction false} StandardPacketIsReceived(s: Driver, chunks: seq<Chunk>, h: Header, pd: seq<Byte>)
    requires AwaitsPacket(s) && |pd| <= Formats.PD_MAX && CcIsValid(h.cc) && Delivers(chunks, StandardPacket(h, pd))
    requires s.rxFifo == [] || IsPlain(s.rxFifo)
    ensures IsRead(Feed(s, chunks), h, pd) <==> s.rxFifo == []
  {
    if s.rxFifo == [] {
      StandardPacketIsRead(s, chunks, h, pd);
    } else {
      PlainStartIsRead(s, chunks);
    }
  }

  /**
   After a DISC_UNIQUE_BRANCH request was sent, the port awaits a discovery reply, without a break
   before it, and reads its sender's UID, however the reply was split and however much of its preamble
   was lost.
   */
  lemma {:induction false} DiscoveryReplyIsReceived(s: Driver, chunks: seq<Chunk>, u: Uid, preamble: nat)
    requires Valid(s) && ExpectsDiscoveryReply(s) && preamble <= PREAMBLE_MAX
    requires Delivers(chunks, DiscoveryReply(u, preamble))
    ensures AwaitsPacket(TxDone(s))
    ensures var t := Feed(TxDone(s), chunks);
            t.progress == Complete && ReadHeader(t.data) == Some(ReplyHeader(u, preamble))
  {
    var p, t := DiscoveryReply(u, preamble), TxDone(s);
    ReplyStart(u, preamble);
    DiscoveryReplyIsFramed(u, preamble, []);
    assert p + [] == p;
    DeliveredPacketEnds(t, chunks, p);
    DiscoveryRoundTrip(u, preamble, Feed(t, chunks).data[|p|..]);
  }

  // ---------- the expected size ----------

  /** The break before a packet, at which one more byte, the break's own, is in the UART. */
  function Break(s: Driver, nul: Byte): (o: Outcome)
    requires Valid(s)
    ensures Valid(o.state)
  {
    Receive(s.(rxFifo := s.rxFifo + [nul]), true, NoError)
  }

  /** The interrupts deliver exactly a plain packet of n slots. */
  predicate DeliversPlain(s: Driver, chunks: seq<Chunk>, n: nat) {
    Splits(s, chunks, Stream(s, chunks)) && IsPlain(Stream(s, chunks)) && |Stream(s, chunks)| == n && chunks != []
  }

  /** The break leaves in the UART exactly what the buffer has no room for, unless the buffer was full before. */
  lemma {:induction false} BreakLeaves(t: Driver, r: seq<Byte>, err: Error)
    requires Valid(t) && Stored(t, r)
    ensures var o := Receive(t, true, err);
            && o.state.head == 0 && o.state.progress == InBreak && o.state.status == Receiving
            && o.state.rxFifo == (if t.head < BUFFER_SIZE && |r| > BUFFER_SIZE then r[BUFFER_SIZE..] else [])
            && (if t.progress == InData && r != [] then
                  o.notice == Some(NotEnoughSlots) && o.state.size == Counted(t.head, |r|) - 1
                else o.notice == None && o.state.size == t.size)
  {
    FillKeepsStored(t, r);
  }

  lemma {:induction false} FillEmptiesUart(s: Driver)
    requires Valid(s)
    ensures Fill(s).rxFifo == [] <==> !(0 <= s.head < BUFFER_SIZE && |s.rxFifo| > BUFFER_SIZE - s.head)
  {
    if 0 <= s.head < BUFFER_SIZE {
      assert |Fill(s).rxFifo| == |s.rxFifo| - Min(BUFFER_SIZE - s.head, |s.rxFifo|);
    }
  }

  lemma {:induction false} BreakKeepsUart(t: Driver)
    requires Valid(t)
    ensures ReceiveBreak(t).state.rxFifo == t.rxFifo
  {
  }

  /** Whatever the state, a break leaves the UART empty unless it holds more than the buffer has room for. */
  lemma {:induction false} BreakEmptiesUart(s: Driver, err: Error)
    requires Valid(s)
    ensures Receive(s, true, err).state.rxFifo == [] <==>
            !(0 <= s.head < BUFFER_SIZE && |s.rxFifo| > BUFFER_SIZE - s.head)
  {
    FillEmptiesUart(s);
    BreakKeepsUart(Fill(s));
  }

  lemma {:induction false} BreakAfterSlots(t: Driver, r: seq<Byte>, nul: Byte)
    requires Valid(t) && Stored(t, r) && t.head < BUFFER_SIZE && |r| < BUFFER_SIZE && t.progress == InData
    ensures var o := Break(t, nul);
            && o.notice == Some(NotEnoughSlots) && o.state.size == |r|
            && AwaitsPacket(o.state) && o.state.rxFifo == []
  {
    ArrivalKeepsStored(t, r, [nul]);
    BreakLeaves(t.(rxFifo := t.rxFifo + [nul]), r + [nul], NoError);
  }

  /**
   A plain packet of n slots, fewer than expected, is ended by the next break, with an error; from then
   on n slots are expected.
   */
  lemma {:induction false} SizeAdapts(s: Driver, chunks: seq<Chunk>, n: nat, nul: Byte)
    requires AwaitsPacket(s) && n < s.size <= BUFFER_SIZE && DeliversPlain(s, chunks, n)
    ensures var o := Break(Feed(s, chunks), nul);
            && o.notice == Some(NotEnoughSlots) && o.state.size == n && AwaitsPacket(o.state)
            && o.state.rxFifo == []
  {
    var p, t := Stream(s, chunks), Feed(s, chunks);
    PlainPacketIsFramed(p);
    StateWithinPacket(s, p, chunks);
    ReceiveConserves(s, chunks);
    BreakAfterSlots(t, p, nul);
  }
}
