/**
 Frames on the byte stream: TcpSession::Send (ClientSession.h) puts a header before the payload, ClientSession::OnRead
 (ClientSession.cpp) takes packets apart again from whatever the reads delivered.
 */
module Framing {
  import opened Bytes
  import opened Endian
  import opened BinaryCodec
  import opened NetBuffer

  // ----- Taking packets apart -----

  datatype Outcome = Outcome(payloads: seq<bytes>, rest: bytes, threw: bool)

  /** The int32_t at the front, in host order. */
  function SizeOf(b: bytes): (size: int)
    requires |b| >= 4
    ensures -0x8000_0000 <= size < 0x8000_0000
  {
    Pow256Of4();
    LittleValueBound(b[..4]);
    ToSigned(LittleValue(b[..4]), 4)
  }

  lemma SizeOfFront(b: bytes)
    requires |b| >= 4
    ensures SizeOf(b[..4]) == SizeOf(b)
  {
    assert b[..4][..4] == b[..4];
  }

  /** sizeof(int32_t) + packagesize, in 64-bit unsigned arithmetic. */
  function Need(size: int): (n: nat)
    requires -0x8000_0000 <= size < 0x8000_0000
    ensures size >= -4 ==> n == 4 + size
  {
    if size >= -4 then 4 + size else 0x1_0000_0000_0000_0000 + 4 + size
  }

  predicate Complete(b: bytes): (c: bool)
    ensures c ==> |b| >= 4 && (SizeOf(b) >= -4 ==> |b| >= 4 + SizeOf(b))
  {
    |b| >= 4 && |b| >= Need(SizeOf(b))
  }

  /** The loop of OnRead on a whole buffer; assign throws on a size below 6, with the size already retrieved. */
  function Deframe(b: bytes): (r: Outcome)
    ensures |r.rest| <= |b|
    decreases |b|
  {
    if !Complete(b) then Outcome([], b, false)
    else if SizeOf(b) < 6 then Outcome([], b[4..], true)
    else
      var k := 4 + SizeOf(b);
      var r := Deframe(b[k..]);
      Outcome([b[10..k]] + r.payloads, r.rest, r.threw)
  }

  /** Nothing to do until more arrives. */
  predicate Idle(b: bytes) {
    Deframe(b) == Outcome([], b, false)
  }

  lemma CompleteAppend(a: bytes, c: bytes)
    ensures |a| >= 4 ==> SizeOf(a + c) == SizeOf(a)
    ensures Complete(a) ==> Complete(a + c)
  {
    if |a| >= 4 { assert (a + c)[..4] == a[..4]; }
  }

  /** Adding c to a result: what was left, followed by c, is taken apart next. */
  function Extend(d: Outcome, c: bytes): (r: Outcome) {
    if d.threw then d.(rest := d.rest + c)
    else
      var e := Deframe(d.rest + c);
      Outcome(d.payloads + e.payloads, e.rest, e.threw)
  }

  /** Bytes that arrive later change nothing that was already handed over. */
  lemma {:induction false} DeframeAppend(a: bytes, c: bytes)
    ensures Deframe(a + c) == Extend(Deframe(a), c)
    decreases |a|
  {
    CompleteAppend(a, c);
    if Complete(a) && SizeOf(a) >= 6 {
      var k := 4 + SizeOf(a);
      DeframeAppend(a[k..], c);
      assert (a + c)[k..] == a[k..] + c && (a + c)[10..k] == a[10..k];
      ExtendCons(a[10..k], Deframe(a[k..]), c);
    } else if Complete(a) {
      assert (a + c)[4..] == a[4..] + c;
    } else {
      assert [] + Deframe(a + c).payloads == Deframe(a + c).payloads;
    }
  }

  lemma ExtendCons(p: bytes, d: Outcome, c: bytes)
    ensures var e := Extend(d, c);
            Extend(d.(payloads := [p] + d.payloads), c) == Outcome([p] + e.payloads, e.rest, e.threw)
  {
    var f := Deframe(d.rest + c);
    assert [p] + d.payloads + f.payloads == [p] + (d.payloads + f.payloads);
  }

  lemma {:induction false} RestIsIdle(b: bytes)
    requires !Deframe(b).threw
    ensures Idle(Deframe(b).rest)
    decreases |b|
  {
    if Complete(b) { RestIsIdle(b[4 + SizeOf(b)..]); }
  }

  // ----- Reads -----

  /** One OnRead per read, the rest kept in the buffer; nothing runs after an exception. */
  function Feed(pending: bytes, chunks: seq<bytes>): (r: Outcome)
    decreases |chunks|
  {
    if chunks == [] then Outcome([], pending, false)
    else
      var d := Deframe(pending + chunks[0]);
      if d.threw then d
      else
        var r := Feed(d.rest, chunks[1..]);
        Outcome(d.payloads + r.payloads, r.rest, r.threw)
  }

  /** However the stream is cut into reads, the same payloads come out and the same bytes stay. */
  lemma {:induction false} FeedIsDeframe(pending: bytes, chunks: seq<bytes>)
    requires Idle(pending)
    ensures var f, d := Feed(pending, chunks), Deframe(pending + Concat(chunks));
            f.payloads == d.payloads && f.threw == d.threw && (!f.threw ==> f.rest == d.rest)
    decreases |chunks|
  {
    if chunks == [] {
      assert pending + [] == pending;
    } else {
      var a, c := pending + chunks[0], Concat(chunks[1..]);
      assert pending + Concat(chunks) == a + c;
      DeframeAppend(a, c);
      if !Deframe(a).threw {
        RestIsIdle(a);
        FeedIsDeframe(Deframe(a).rest, chunks[1..]);
      }
    }
  }

  // ----- Packets -----

  /** The payloads handed over so far, then what the bytes still give. */
  ghost function Handed(payloads: seq<bytes>, b: bytes): (r: Outcome) {
    var d := Deframe(b);
    Outcome(payloads + d.payloads, d.rest, d.threw)
  }

  lemma HandedCons(p: bytes, ps: seq<bytes>, b: bytes)
    ensures var h := Handed(ps, b); Handed([p] + ps, b) == Outcome([p] + h.payloads, h.rest, h.threw)
  {
    hide Deframe;
    assert [p] + ps + Deframe(b).payloads == [p] + (ps + Deframe(b).payloads);
  }

  /** A packet as the receiver sees it: the size, six bytes it skips, the payload. */
  function Packet(head: bytes, payload: bytes): (b: bytes) {
    Little(|payload| + 6, 4) + head + payload
  }

  predicate IsPacket(head: bytes, payload: bytes) {
    |head| == 6 && |payload| + 6 < 0x8000_0000
  }

  function Packets(heads: seq<bytes>, payloads: seq<bytes>): (b: bytes)
    requires |heads| == |payloads|
  {
    if heads == [] then [] else Packet(heads[0], payloads[0]) + Packets(heads[1..], payloads[1..])
  }

  predicate ArePackets(heads: seq<bytes>, payloads: seq<bytes>) {
    |heads| == |payloads| && forall i :: 0 <= i < |heads| ==> IsPacket(heads[i], payloads[i])
  }

  lemma SizeOfPacket(head: bytes, payload: bytes, after: bytes)
    requires IsPacket(head, payload)
    ensures var b := Packet(head, payload) + after;
            SizeOf(b) == |payload| + 6 && b[10..10 + |payload|] == payload && b[10 + |payload|..] == after
  {
    Pow256Of4();
    LittleValueOfLittle(|payload| + 6, 4);
    hide Little;
    var b := Packet(head, payload) + after;
    assert b[..4] == Little(|payload| + 6, 4);
    assert b == (Little(|payload| + 6, 4) + head) + payload + after;
  }

  lemma DeframeFirst(head: bytes, payload: bytes, after: bytes)
    requires IsPacket(head, payload)
    ensures var d := Deframe(after);
            Deframe(Packet(head, payload) + after) == Outcome([payload] + d.payloads, d.rest, d.threw)
  {
    SizeOfPacket(head, payload, after);
    hide SizeOf, Little;
  }

  /** Packets are taken off the front one by one, in order. */
  lemma {:induction false} DeframePackets(heads: seq<bytes>, payloads: seq<bytes>, after: bytes)
    requires ArePackets(heads, payloads)
    ensures Deframe(Packets(heads, payloads) + after) == Handed(payloads, after)
    decreases |heads|
  {
    if heads == [] {
      assert Packets(heads, payloads) + after == after;
    } else {
      hide Packet, Deframe, Handed, IsPacket;
      PacketsSplit(heads, payloads, after);
      DeframeFirst(heads[0], payloads[0], Packets(heads[1..], payloads[1..]) + after);
      DeframePackets(heads[1..], payloads[1..], after);
      HandedCons(payloads[0], payloads[1..], after);
      assert [payloads[0]] + payloads[1..] == payloads;
    }
  }

  lemma PacketsSplit(heads: seq<bytes>, payloads: seq<bytes>, after: bytes)
    requires |heads| == |payloads| > 0
    ensures Packets(heads, payloads) + after ==
            Packet(heads[0], payloads[0]) + (Packets(heads[1..], payloads[1..]) + after)
  {
    hide Packet;
  }

  lemma PacketsCons(head: bytes, payload: bytes, heads: seq<bytes>, payloads: seq<bytes>)
    requires ArePackets(heads, payloads) && IsPacket(head, payload)
    ensures ArePackets([head] + heads, [payload] + payloads)
    ensures Packets([head] + heads, [payload] + payloads) == Packet(head, payload) + Packets(heads, payloads)
  {
    hide Packet;
    assert ([head] + heads)[1..] == heads && ([payload] + payloads)[1..] == payloads;
  }

  /** A size the loop cannot handle, with enough bytes behind it to act on it. */
  predicate BadSize(b: bytes) {
    |b| >= 4 && SizeOf(b) < 6 && |b| >= Need(SizeOf(b))
  }

  lemma SplitPacket(b: bytes)
    requires Complete(b) && SizeOf(b) >= 6
    ensures var k := 4 + SizeOf(b);
            IsPacket(b[4..10], b[10..k]) && b == Packet(b[4..10], b[10..k]) + b[k..]
  {
    var k := 4 + SizeOf(b);
    LittleOfLittleValue(b[..4]);
    Pow256Of4();
    LittleValueBound(b[..4]);
    hide Little, LittleValue;
    assert LittleValue(b[..4]) == SizeOf(b);
    assert b == b[..4] + b[4..10] + b[10..k] + b[k..];
  }

  /** The input is the packets handed over, then the rest, or a bad size. */
  ghost predicate Accounted(b: bytes, heads: seq<bytes>, tail: bytes) {
    var d := Deframe(b);
    ArePackets(heads, d.payloads) && b == Packets(heads, d.payloads) + tail
    && (if d.threw then BadSize(tail) && d.rest == tail[4..] else Idle(tail) && d.rest == tail)
  }

  lemma Associates(x: bytes, y: bytes, z: bytes)
    ensures x + (y + z) == x + y + z
  {
  }

  lemma AccountedStep(head: bytes, payload: bytes, rest: bytes, heads: seq<bytes>, tail: bytes)
    requires IsPacket(head, payload) && Accounted(rest, heads, tail)
    ensures Accounted(Packet(head, payload) + rest, [head] + heads, tail)
  {
    hide Deframe, Packet, Packets, BadSize, Idle, IsPacket;
    var ps := Deframe(rest).payloads;
    DeframeFirst(head, payload, rest);
    PacketsCons(head, payload, heads, ps);
    Associates(Packet(head, payload), Packets(heads, ps), tail);
  }

  /** Every byte is accounted for. */
  lemma {:induction false} DeframeAccounts(b: bytes) returns (heads: seq<bytes>, tail: bytes)
    ensures Accounted(b, heads, tail)
    decreases |b|
  {
    if Complete(b) && SizeOf(b) >= 6 {
      hide Accounted;
      var k := 4 + SizeOf(b);
      heads, tail := DeframeAccounts(b[k..]);
      SplitPacket(b);
      AccountedStep(b[4..10], b[10..k], b[k..], heads, tail);
      heads := [b[4..10]] + heads;
    } else {
      heads, tail := [], b;
    }
  }

  /** OnRead throws exactly on a bad size that stands behind well-formed packets. */
  lemma ThrowsIff(b: bytes)
    ensures Deframe(b).threw <==>
            exists heads, payloads, tail ::
              ArePackets(heads, payloads) && b == Packets(heads, payloads) + tail && BadSize(tail)
  {
    var hs, t := DeframeAccounts(b);
    if heads, payloads, tail :| ArePackets(heads, payloads) && b == Packets(heads, payloads) + tail && BadSize(tail) {
      DeframePackets(heads, payloads, tail);
    }
  }

  // ----- The sender -----

  /** The length as an int, narrowed and after overflow. */
  function LengthWords(n: nat): (r: (nat, nat))
    ensures r.0 < Pow256(4) && r.1 < Pow256(4)
    ensures n + 6 < 0x8000_0000 ==> r == (n + 6, n)
  {
    Pow256Of4();
    var len := Wrap32(n);
    (ToUnsigned(Wrap32(len + 6), 4), ToUnsigned(len, 4))
  }

  /** What Send leaves in the writer. */
  function Header(payload: bytes): (h: bytes)
    ensures |h| == 10
  {
    Little(LengthWords(|payload|).0, 4) + Big(LengthWords(|payload|).1, 4) + Big(0, 2)
  }

  function Frame(payload: bytes): (b: bytes) {
    Header(payload) + payload
  }

  /** What conn->send is given: the frame, whose length is passed as an int; None when that int is negative. */
  function Sent(payload: bytes): (b: Option<bytes>) {
    var n := Wrap32(|Frame(payload)|);
    if n < 0 then None else Some(Frame(payload)[..n])
  }

  /** The bytes that go out for payloads sent one after the other. */
  function Stream(ps: seq<bytes>): (b: bytes) {
    if ps == [] then [] else (if Sent(ps[0]).Some? then Sent(ps[0]).value else []) + Stream(ps[1..])
  }

  /** The whole frame is shorter than 2^31 bytes. */
  predicate Sendable(p: bytes) {
    |p| + 10 < 0x8000_0000
  }

  lemma SentIsFrame(p: bytes)
    requires Sendable(p)
    ensures Sent(p) == Some(Frame(p))
  {
    hide Header, Wrap32;
    FrameLength(p);
    assert Frame(p)[..|Frame(p)|] == Frame(p);
  }

  predicate AllSendable(ps: seq<bytes>) {
    forall i :: 0 <= i < |ps| ==> Sendable(ps[i])
  }

  function Skipped(p: bytes): (h: bytes)
    ensures |h| == 6
  {
    Big(LengthWords(|p|).1, 4) + Big(0, 2)
  }

  lemma FrameIsPacket(p: bytes)
    requires Sendable(p)
    ensures Frame(p) == Packet(Skipped(p), p) && IsPacket(Skipped(p), p)
  {
    hide Little, Big;
  }

  /** What is sent for a payload comes apart into just that payload exactly when the frame length fits an int. */
  lemma SentReadsBackIff(p: bytes)
    ensures Sent(p).Some? && Deframe(Sent(p).value) == Outcome([p], [], false) <==> Sendable(p)
  {
    FrameLength(p);
    if Sendable(p) {
      SentIsFrame(p);
      FrameIsPacket(p);
      DeframeFirst(Skipped(p), p, []);
      assert Frame(p) + [] == Frame(p);
      assert Deframe([]) == Outcome([], [], false);
    } else if Sent(p).Some? {
      hide Frame, Wrap32;
      var b := Sent(p).value;
      assert |b| < |p| + 10;
      if Complete(b) && SizeOf(b) >= 6 {
        assert |Deframe(b).payloads[0]| == SizeOf(b) - 6 < |p|;
      }
    }
  }

  /**
   The fields of a frame read as numbers: the payload length and six in host order, the payload length in network order,
   and two zero bytes before the payload.
   */
  lemma FrameFields(p: bytes)
    requires Sendable(p)
    ensures
      var b := Frame(p);
      && |b| == 10 + |p| && LittleValue(b[..4]) == |p| + 6 && BigValue(b[4..8]) == |p|
      && b[8..10] == [0, 0] && b[10..] == p
  {
    hide Little, Big, LengthWords;
    var b, words := Frame(p), LengthWords(|p|);
    assert b[..4] == Little(words.0, 4) && b[4..8] == Big(words.1, 4) && b[8..10] == Big(0, 2);
    LittleValueOfLittle(words.0, 4);
    BigValueOfBig(words.1, 4);
    ZeroBytes();
  }

  lemma ZeroBytes()
    ensures Big(0, 2) == [0, 0]
  {
    assert Big(0, 1) == [0];
  }

  function SkippedAll(ps: seq<bytes>): (hs: seq<bytes>)
    ensures |hs| == |ps| && forall i :: 0 <= i < |ps| ==> hs[i] == Skipped(ps[i])
  {
    seq(|ps|, i requires 0 <= i < |ps| => Skipped(ps[i]))
  }

  lemma {:induction false} FramesArePackets(ps: seq<bytes>)
    requires AllSendable(ps)
    ensures ArePackets(SkippedAll(ps), ps) && Stream(ps) == Packets(SkippedAll(ps), ps)
  {
    hide Frame, Packet, Skipped, Sent;
    if ps != [] {
      SentIsFrame(ps[0]);
      FrameIsPacket(ps[0]);
      FramesArePackets(ps[1..]);
      assert SkippedAll(ps)[1..] == SkippedAll(ps[1..]);
    }
  }

  lemma FramesDeframe(ps: seq<bytes>, after: bytes)
    requires AllSendable(ps)
    ensures Deframe(Stream(ps) + after) == Handed(ps, after)
  {
    FramesArePackets(ps);
    DeframePackets(SkippedAll(ps), ps, after);
  }

  /** The beginning of a frame, cut anywhere before its end. */
  predicate Cut(partial: bytes, p: bytes) {
    |partial| < |Frame(p)| && partial == Frame(p)[..|partial|]
  }

  lemma CutIsIdle(partial: bytes, p: bytes)
    requires Sendable(p) && Cut(partial, p)
    ensures Idle(partial)
  {
    if |partial| >= 4 {
      FrameIsPacket(p);
      SizeOfPacket(Skipped(p), p, []);
      hide Frame, Packet;
      assert Frame(p) + [] == Frame(p);
      CompleteAppend(partial, Frame(p)[|partial|..]);
      assert Frame(p) == partial + Frame(p)[|partial|..];
      FrameLength(p);
    }
  }

  lemma FrameLength(p: bytes)
    ensures |Frame(p)| == 10 + |p|
  {
    hide Header;
  }

  /**
   Any payloads sent, any cutting of the stream into reads, the last frame perhaps not fully arrived: exactly those
   payloads are handed over, once each and in order, and only the incomplete frame stays in the buffer.
   */
  lemma DeliveredExactly(ps: seq<bytes>, next: bytes, partial: bytes, chunks: seq<bytes>)
    requires AllSendable(ps) && Sendable(next) && Cut(partial, next)
    requires Concat(chunks) == Stream(ps) + partial
    ensures Feed([], chunks) == Outcome(ps, partial, false)
  {
    FramesThenCut(ps, next, partial);
    FeedIsDeframe([], chunks);
    assert [] + Concat(chunks) == Concat(chunks);
  }

  /** The same of the whole stream, so also of every `Receive`. */
  lemma FramesThenCut(ps: seq<bytes>, next: bytes, partial: bytes)
    requires AllSendable(ps) && Sendable(next) && Cut(partial, next)
    ensures Deframe(Stream(ps) + partial) == Outcome(ps, partial, false)
  {
    CutIsIdle(partial, next);
    FramesDeframe(ps, partial);
    assert ps + [] == ps;
  }

  function EncodeEach(ms: seq<seq<Field>>): (ps: seq<bytes>)
    ensures |ps| == |ms| && forall i :: 0 <= i < |ms| ==> ps[i] == EncodeAll(ms[i])
  {
    seq(|ms|, i requires 0 <= i < |ms| => EncodeAll(ms[i]))
  }

  /**
   From fields to fields: messages written field by field, framed, cut into reads and reassembled read back as
   written.
   */
  lemma MessagesDelivered(ms: seq<seq<Field>>, chunks: seq<bytes>)
    requires forall i :: 0 <= i < |ms| ==> AllFit(ms[i]) && AllReadable(ms[i]) && Sendable(EncodeAll(ms[i]))
    requires Concat(chunks) == Stream(EncodeEach(ms))
    ensures var f := Feed([], chunks);
            f == Outcome(EncodeEach(ms), [], false)
            && forall i :: 0 <= i < |ms| ==>
              ReadFields(f.payloads[i], 0, Shapes(ms[i])) == Some((ms[i], |f.payloads[i]|))
  {
    var ps := EncodeEach(ms);
    FrameLength([]);
    hide Frame, Stream, Feed, ReadFields, EncodeAll, AllFit, AllReadable;
    assert Cut([], []);
    assert Stream(ps) + [] == Stream(ps);
    DeliveredExactly(ps, [], [], chunks);
    forall i | 0 <= i < |ms|
      ensures ReadFields(ps[i], 0, Shapes(ms[i])) == Some((ms[i], |ps[i]|))
    {
      FieldsReadBackIff(ps[i], 0, ms[i]);
    }
  }

  /** Sending the same writer again sends the header of the first frame, not the payload. */
  lemma ResentIsHeader(p: bytes)
    ensures Sent(Header(p)).Some? && Deframe(Sent(Header(p)).value) == Outcome([Header(p)], [], false)
    ensures Header(p) == p <==> p == [16, 0, 0, 0, 0, 0, 0, 10, 0, 0]
  {
    hide Header, Deframe, Sent;
    SentReadsBackIff(Header(p));
    if |p| == 10 { HeaderOfTen(p); }
  }

  lemma HeaderOfTen(p: bytes)
    requires |p| == 10
    ensures Header(p) == [16, 0, 0, 0, 0, 0, 0, 10, 0, 0]
  {
    assert LengthWords(10) == (16, 10);
    hide LengthWords;
    assert Little(0, 2) == [0] + Little(0, 1) == [0, 0];
    assert Little(0, 3) == [0] + Little(0, 2);
    assert Little(16, 4) == [16] + Little(0, 3);
    assert Big(0, 2) == Big(0, 1) + [0] == [0, 0];
    assert Big(0, 3) == Big(0, 2) + [0];
    assert Big(10, 4) == Big(0, 3) + [10];
  }

  // ----- The operations -----

  lemma HeaderInMemory(p: bytes)
    ensures Header(p) == Little(LengthWords(|p|).0, 4) + Little(HostToNet(LengthWords(|p|).1, 4), 4)
                         + Little(HostToNet(0, 2), 2)
  {
    hide LengthWords, HostToNet, Little, Big;
    SwapTwice(LengthWords(|p|).1, 4);
    SwapTwice(0, 2);
  }

  /** Send: `sent` is what conn->send is given, None without a connection or with a negative length. */
  method Send(write: BinaryWriter, connected: bool) returns (sent: Option<bytes>)
    modifies write
    ensures sent == if connected then Sent(old(write.buffer)) else None
    ensures write.buffer == Header(old(write.buffer)) && write.index == 10
  {
    var out := write.buffer;
    write.Clear();
    var total, len := LengthWords(|out|).0, LengthWords(|out|).1;
    HeaderInMemory(out);
    hide HostToNet, Little, LengthWords, Header, Resized, Pow256, Wrap32;
    write.WriteNumber(total, 4);
    ghost var first := write.buffer;
    assert first == Little(total, 4) && write.index == 4;
    write.WriteNumber(HostToNet(len, 4), 4);
    ghost var second := write.buffer;
    assert second == first + Little(HostToNet(len, 4), 4) && write.index == 8;
    write.WriteNumber(HostToNet(0, 2), 2);
    assert write.buffer == second + Little(HostToNet(0, 2), 2);
    out := write.buffer + out;
    var length := Wrap32(|out|);
    sent := if connected && length >= 0 then Some(out[..length]) else None;
  }

  /** OnRead: the payloads in the order Process gets them. */
  method OnRead(buf: Buffer) returns (payloads: seq<bytes>, threw: bool)
    requires buf.Valid()
    modifies buf`readerIndex, buf`writerIndex
    ensures buf.Valid() && Outcome(payloads, buf.Contents(), threw) == Deframe(old(buf.Contents()))
  {
    hide Deframe, SizeOf, Need;
    payloads, threw := [], false;
    ghost var whole := buf.Contents();
    assert payloads + Deframe(whole).payloads == Deframe(whole).payloads;
    var readable := buf.ReadableBytes();
    while readable >= 4
      invariant buf.Valid() && readable == |buf.Contents()| && !threw
      invariant Deframe(whole) == Handed(payloads, buf.Contents())
      decreases readable
    {
      ghost var b := buf.Contents();
      var front := buf.Peek(0, 4);
      SizeOfFront(b);
      var size := SizeOf(front);
      if readable < Need(size) { HandedEnd(payloads, b); return; }
      buf.Retrieve(4);
      if size < 6 { HandedEnd(payloads, b); threw := true; return; }
      var msg := buf.Peek(6, size - 6);
      assert msg == b[4..][6..size] == b[10..4 + size];
      buf.Retrieve(size);
      assert buf.Contents() == b[4..][size..] == b[4 + size..];
      HandedNext(payloads, b);
      payloads := payloads + [msg];
      readable := buf.ReadableBytes();
    }
    HandedEnd(payloads, buf.Contents());
  }

  lemma HandedNext(payloads: seq<bytes>, b: bytes)
    requires Complete(b) && SizeOf(b) >= 6
    ensures var k := 4 + SizeOf(b); Handed(payloads, b) == Handed(payloads + [b[10..k]], b[k..])
  {
    var k := 4 + SizeOf(b);
    var more := Deframe(b[k..]).payloads;
    assert payloads + ([b[10..k]] + more) == payloads + [b[10..k]] + more;
  }

  lemma HandedEnd(payloads: seq<bytes>, b: bytes)
    requires Complete(b) ==> SizeOf(b) < 6
    ensures Handed(payloads, b) == if Complete(b) then Outcome(payloads, b[4..], true) else Outcome(payloads, b, false)
  {
    assert payloads + [] == payloads;
  }

  /**
   TcpConnection::handleRead into OnRead: one step of Feed on the connection's buffer; a read of nothing or an error
   calls nothing.
   */
  method HandleRead(buf: Buffer, incoming: Option<bytes>) returns (payloads: seq<bytes>, threw: bool)
    requires buf.Valid()
    requires incoming.Some? ==>
      |incoming.value| <= buf.data.Length - buf.writerIndex
        + (if buf.data.Length - buf.writerIndex < EXTRA then EXTRA else 0)
    modifies buf, buf.data
    ensures buf.Valid() && (buf.data == old(buf.data) || fresh(buf.data))
    ensures Outcome(payloads, buf.Contents(), threw) ==
            if incoming.Some? && incoming.value != [] then Deframe(old(buf.Contents()) + incoming.value)
            else Outcome([], old(buf.Contents()), false)
  {
    hide Deframe;
    var n := buf.ReadFd(incoming);
    if n > 0 {
      payloads, threw := OnRead(buf);
    } else {
      payloads, threw := [], false;
    }
  }

  // ----- A connection's reads -----

  lemma {:induction false} FeedSnoc(pending: bytes, chunks: seq<bytes>, c: bytes)
    ensures
      var f := Feed(pending, chunks);
      Feed(pending, chunks + [c]) ==
      if f.threw then f
      else var d := Deframe(f.rest + c); Outcome(f.payloads + d.payloads, d.rest, d.threw)
    decreases |chunks|
  {
    hide Deframe;
    var all := chunks + [c];
    if chunks == [] {
      var d := Deframe(pending + c);
      assert all[0] == c && all[1..] == [];
      assert d.payloads + [] == d.payloads && [] + d.payloads == d.payloads;
    } else {
      assert all[0] == chunks[0] && all[1..] == chunks[1..] + [c];
      var d := Deframe(pending + chunks[0]);
      if !d.threw {
        FeedSnoc(d.rest, chunks[1..], c);
        var f := Feed(d.rest, chunks[1..]);
        var e := Deframe(f.rest + c);
        assert d.payloads + (f.payloads + e.payloads) == d.payloads + f.payloads + e.payloads;
      }
    }
  }

  /** What one readv can take: the writable part, and the extra buffer when that part is the smaller. */
  method Room(buf: Buffer) returns (n: nat)
    requires buf.Valid()
    ensures 0 < n == buf.data.Length - buf.writerIndex
      + (if buf.data.Length - buf.writerIndex < EXTRA then EXTRA else 0)
  {
    n := buf.data.Length - buf.writerIndex;
    if n < EXTRA { n := n + EXTRA; }
  }

  /**
   The loop thread reading a stream through one buffer: each read takes as many bytes as the kernel likes, at most what
   there is room for. Whatever it chooses, the payloads handed over are those of the whole stream.
   */
  method Receive(buf: Buffer, stream: bytes) returns (payloads: seq<bytes>, threw: bool, ghost chunks: seq<bytes>)
    requires buf.Valid() && Idle(buf.Contents())
    modifies buf, buf.data
    ensures buf.Valid() && Outcome(payloads, buf.Contents(), threw) == Feed(old(buf.Contents()), chunks)
    ensures if threw then Concat(chunks) <= stream else Concat(chunks) == stream
    ensures var d := Deframe(old(buf.Contents()) + stream);
            payloads == d.payloads && threw == d.threw && (!threw ==> buf.Contents() == d.rest)
  {
    hide Deframe, Feed, Concat, Idle;
    ghost var pending := buf.Contents();
    payloads, threw, chunks := [], false, [];
    StartFeed(pending);
    var taken := 0;
    while taken < |stream| && !threw
      invariant buf.Valid() && 0 <= taken <= |stream| && (buf.data == old(buf.data) || fresh(buf.data))
      invariant Concat(chunks) == stream[..taken] && Outcome(payloads, buf.Contents(), threw) == Feed(pending, chunks)
      decreases |stream| - taken
    {
      var room := Room(buf);
      var n :| 1 <= n <= room && taken + n <= |stream|;
      var chunk := stream[taken..taken + n];
      FeedSnoc(pending, chunks, chunk);
      ConcatSnoc(chunks, chunk);
      assert stream[..taken] + chunk == stream[..taken + n];
      var more;
      more, threw := HandleRead(buf, Some(chunk));
      payloads, taken, chunks := payloads + more, taken + n, chunks + [chunk];
    }
    ReceivedAll(pending, chunks, stream, taken);
  }

  lemma StartFeed(pending: bytes)
    ensures Feed(pending, []) == Outcome([], pending, false) && Concat([]) == []
  {
  }

  lemma ReceivedAll(pending: bytes, chunks: seq<bytes>, stream: bytes, taken: nat)
    requires Idle(pending) && taken <= |stream| && Concat(chunks) == stream[..taken]
    requires Feed(pending, chunks).threw || taken == |stream|
    ensures Concat(chunks) <= stream && (taken == |stream| ==> Concat(chunks) == stream)
    ensures var f, d := Feed(pending, chunks), Deframe(pending + stream);
            f.payloads == d.payloads && f.threw == d.threw && (!f.threw ==> f.rest == d.rest)
  {
    hide Deframe, Feed, Idle, Concat;
    FeedIsDeframe(pending, chunks);
    DeframeAppend(pending + Concat(chunks), stream[taken..]);
    assert pending + Concat(chunks) + stream[taken..] == pending + stream;
    assert stream[..|stream|] == stream;
  }
}
