/** AFDX frames over SLIP (src/Fl_AFDX.cxx; RFC 1055, section "PROTOCOL"). */
module AfdxProtocol {
  import opened Bytes
  import opened CArithmetic
  import opened Sequences

  const END: Byte := 0xC0
  const ESC: Byte := 0xDB
  const ESC_END: Byte := 0xDC
  const ESC_ESC: Byte := 0xDD

  /** The buffer takes this many bytes; the next one empties it. */
  const LIMIT := 65536

  datatype Slip = Slip(escape: bool, buffer: seq<Byte>)

  const INIT := Slip(false, [])

  /** The byte an escaped byte stands for. */
  function Unescape(b: Byte): Byte {
    if b == ESC_END then END else if b == ESC_ESC then ESC else b
  }

  function Push(buffer: seq<Byte>, b: Byte): seq<Byte> {
    if |buffer| < LIMIT then buffer + [b] else []
  }

  /** One byte; the second component lists the frame it completes, if any. */
  function Step(s: Slip, b: Byte): (Slip, seq<seq<Byte>>) {
    if s.escape then (Slip(false, Push(s.buffer, Unescape(b))), [])
    else if b == ESC then (Slip(true, s.buffer), [])
    else if b == END then (Slip(false, []), if s.buffer == [] then [] else [s.buffer])
    else (Slip(false, Push(s.buffer, b)), [])
  }

  function After(s: Slip, bytes: seq<Byte>): Slip
    decreases |bytes|
  {
    if bytes == [] then s else After(Step(s, bytes[0]).0, bytes[1..])
  }

  function Frames(s: Slip, bytes: seq<Byte>): seq<seq<Byte>>
    decreases |bytes|
  {
    if bytes == [] then [] else Step(s, bytes[0]).1 + Frames(Step(s, bytes[0]).0, bytes[1..])
  }

  // ----- the encoding of RFC 1055 -----

  function EncodeByte(b: Byte): seq<Byte> {
    if b == END then [ESC, ESC_END] else if b == ESC then [ESC, ESC_ESC] else [b]
  }

  function Encode(packet: seq<Byte>): seq<Byte> {
    if packet == [] then [] else EncodeByte(packet[0]) + Encode(packet[1..])
  }

  /** Each packet is followed by END. */
  function EncodeAll(packets: seq<seq<Byte>>): seq<Byte> {
    if packets == [] then [] else Encode(packets[0]) + ([END] + EncodeAll(packets[1..]))
  }

  /** The codes of RFC 1055: 192 and 219 are replaced by two bytes each, every other byte is
      sent as it is, and 192 follows. */
  lemma EncodedBytes(b: Byte)
    ensures EncodeAll([[b]]) == if b == 192 then [219, 220, 192] else if b == 219 then [219, 221, 192] else [b, 192]
  {
    assert [b][1..] == [] && [[b]][1..] == [];
    assert Encode([b]) == EncodeByte(b) + [];
    assert EncodeAll([[b]]) == Encode([b]) + ([END] + []);
  }

  // ----- decoding a concatenation -----

  lemma {:induction false} RunConcat(s: Slip, a: seq<Byte>, b: seq<Byte>)
    ensures After(s, a + b) == After(After(s, a), b)
    ensures Frames(s, a + b) == Frames(s, a) + Frames(After(s, a), b)
    decreases |a|
  {
    if a == [] {
      assert a + b == b;
    } else {
      assert (a + b)[1..] == a[1..] + b;
      var s' := Step(s, a[0]).0;
      RunConcat(s', a[1..], b);
      Regroup(Step(s, a[0]).1, Frames(s', a[1..]), Frames(After(s, a), b));
    }
  }

  lemma RunOne(s: Slip, b: Byte)
    ensures After(s, [b]) == Step(s, b).0 && Frames(s, [b]) == Step(s, b).1
  {
    assert [b][1..] == [];
  }

  /** A byte that needs no escape and is escaped all the same stands for itself. */
  lemma OtherEscapes(buffer: seq<Byte>, b: Byte)
    requires |buffer| < 65536 && b != 220 && b != 221
    ensures After(Slip(false, buffer), [219, b]) == Slip(false, buffer + [b])
    ensures Frames(Slip(false, buffer), [219, b]) == []
  {
    assert [219, b] == [ESC] + [b];
    RunConcat(Slip(false, buffer), [ESC], [b]);
    RunOne(Slip(false, buffer), ESC);
    RunOne(Slip(true, buffer), b);
  }

  // ----- one packet -----

  /** What the buffer holds after the bytes of a packet, one by one. */
  function PushAll(buffer: seq<Byte>, packet: seq<Byte>): seq<Byte>
    decreases |packet|
  {
    if packet == [] then buffer else PushAll(Push(buffer, packet[0]), packet[1..])
  }

  lemma EncodedByteIsPushed(buffer: seq<Byte>, b: Byte)
    ensures After(Slip(false, buffer), EncodeByte(b)) == Slip(false, Push(buffer, b))
    ensures Frames(Slip(false, buffer), EncodeByte(b)) == []
  {
    var s := Slip(false, buffer);
    var e := EncodeByte(b);
    assert e == [e[0]] + e[1..];
    RunConcat(s, [e[0]], e[1..]);
    RunOne(s, e[0]);
    if |e| == 2 {
      assert e[1..] == [e[1]];
      RunOne(Slip(true, buffer), e[1]);
    } else {
      assert e[1..] == [];
    }
  }

  lemma {:induction false} EncodedPacketIsPushed(buffer: seq<Byte>, packet: seq<Byte>)
    ensures After(Slip(false, buffer), Encode(packet)) == Slip(false, PushAll(buffer, packet))
    ensures Frames(Slip(false, buffer), Encode(packet)) == []
    decreases |packet|
  {
    if packet != [] {
      EncodedByteIsPushed(buffer, packet[0]);
      EncodedPacketIsPushed(Push(buffer, packet[0]), packet[1..]);
      RunConcat(Slip(false, buffer), EncodeByte(packet[0]), Encode(packet[1..]));
    }
  }

  /** The encoding of a packet holds no END, so END marks only the ends of packets. */
  lemma {:induction false} EncodedHasNoEnd(packet: seq<Byte>)
    ensures END !in Encode(packet)
  {
    if packet != [] { EncodedHasNoEnd(packet[1..]); }
  }

  /** How many of n bytes are left when every 65537th empties the buffer. */
  function Kept(n: nat): (r: nat)
    ensures r <= n && r <= LIMIT
    ensures n <= LIMIT ==> r == n
  {
    if n <= LIMIT then n else Kept(n - (LIMIT + 1))
  }

  lemma {:induction false} KeptIsRemainder(n: nat)
    ensures Kept(n) == NatRem(n, LIMIT + 1)
  {
    if n > LIMIT { KeptIsRemainder(n - (LIMIT + 1)); }
  }

  /** What the decoder delivers for a packet. */
  function Delivered(packet: seq<Byte>): seq<Byte> {
    packet[|packet| - Kept(|packet|)..]
  }

  /** The buffer is emptied by every 65537th byte: what is left is the tail of the packet. */
  lemma {:induction false} TailIsLeft(buffer: seq<Byte>, packet: seq<Byte>)
    requires |buffer| <= LIMIT
    ensures PushAll(buffer, packet) == Delivered(buffer + packet)
    decreases |packet|
  {
    var all := buffer + packet;
    if packet == [] {
      assert all == buffer;
    } else {
      var b, rest := packet[0], packet[1..];
      TailIsLeft(Push(buffer, b), rest);
      if |buffer| < LIMIT {
        assert buffer + [b] + rest == all;
      } else {
        assert [] + rest == rest == all[LIMIT + 1..];
        assert Kept(|rest|) == Kept(|all|);
      }
    }
  }

  function DeliveredAll(packets: seq<seq<Byte>>): seq<seq<Byte>> {
    if packets == [] then []
    else (if Delivered(packets[0]) == [] then [] else [Delivered(packets[0])]) + DeliveredAll(packets[1..])
  }

  lemma PacketIsDelivered(packet: seq<Byte>)
    ensures After(INIT, Encode(packet) + [END]) == INIT
    ensures Frames(INIT, Encode(packet) + [END]) == if Delivered(packet) == [] then [] else [Delivered(packet)]
  {
    EncodedPacketIsPushed([], packet);
    TailIsLeft([], packet);
    assert [] + packet == packet;
    RunConcat(INIT, Encode(packet), [END]);
    RunOne(Slip(false, PushAll([], packet)), END);
  }

  /** What any list of encoded packets decodes to. */
  lemma {:induction false} StreamDecodes(packets: seq<seq<Byte>>)
    ensures Frames(INIT, EncodeAll(packets)) == DeliveredAll(packets)
    ensures After(INIT, EncodeAll(packets)) == INIT
    decreases |packets|
  {
    if packets != [] {
      var packet, rest := packets[0], EncodeAll(packets[1..]);
      PacketIsDelivered(packet);
      StreamDecodes(packets[1..]);
      RunConcat(INIT, Encode(packet) + [END], rest);
      Regroup(Encode(packet), [END], rest);
    }
  }

  predicate Intact(packet: seq<Byte>) {
    0 < |packet| <= LIMIT
  }

  lemma IntactIsDelivered(packet: seq<Byte>)
    ensures Intact(packet) ==> Delivered(packet) == packet
    ensures !Intact(packet) && packet != [] ==> |Delivered(packet)| < |packet|
  {
  }

  lemma {:induction false} DeliveredAreNoMore(packets: seq<seq<Byte>>)
    ensures |DeliveredAll(packets)| <= |packets|
  {
    if packets != [] { DeliveredAreNoMore(packets[1..]); }
  }

  lemma {:induction false} LongPacketSpoils(packets: seq<seq<Byte>>, i: nat)
    requires i < |packets| && |packets[i]| > LIMIT
    ensures DeliveredAll(packets) != packets
  {
    var more := DeliveredAll(packets[1..]);
    DeliveredAreNoMore(packets[1..]);
    IntactIsDelivered(packets[0]);
    if Delivered(packets[0]) == packets[0] {
      assert i > 0;
      LongPacketSpoils(packets[1..], i - 1);
      if DeliveredAll(packets) != more { assert DeliveredAll(packets)[1..] == more; }
    }
  }

  lemma {:induction false} IntactAreDelivered(packets: seq<seq<Byte>>)
    requires forall i :: 0 <= i < |packets| ==> Intact(packets[i])
    ensures DeliveredAll(packets) == packets
  {
    if packets != [] {
      IntactAreDelivered(packets[1..]);
      IntactIsDelivered(packets[0]);
      assert packets == [packets[0]] + packets[1..];
    }
  }

  /** Round trip: non-empty packets come out as they went in exactly when none is longer
      than the buffer. */
  lemma StreamRoundTrip(packets: seq<seq<Byte>>)
    requires forall i :: 0 <= i < |packets| ==> packets[i] != []
    ensures Frames(INIT, EncodeAll(packets)) == packets <==> forall i :: 0 <= i < |packets| ==> |packets[i]| <= 65536
  {
    StreamDecodes(packets);
    if forall i :: 0 <= i < |packets| ==> |packets[i]| <= LIMIT {
      IntactAreDelivered(packets);
    } else {
      var i: nat :| i < |packets| && |packets[i]| > LIMIT;
      LongPacketSpoils(packets, i);
    }
  }

  /** A packet that is too long for the buffer loses its first 65537 bytes. */
  lemma LongPacketTail(packet: seq<Byte>)
    requires 65536 < |packet| <= 131073
    ensures Frames(INIT, Encode(packet) + [END]) == if |packet| == 65537 then [] else [packet[65537..]]
  {
    PacketIsDelivered(packet);
    assert Kept(|packet|) == |packet| - 65537;
  }

  // ----- resynchronisation -----

  /** The length of the run of ESC bytes a stream ends in. */
  function EscRun(bytes: seq<Byte>): nat {
    if bytes == [] || bytes[|bytes| - 1] != ESC then 0 else 1 + EscRun(bytes[..|bytes| - 1])
  }

  lemma {:induction false} EscapeIsParity(buffer: seq<Byte>, bytes: seq<Byte>)
    ensures After(Slip(false, buffer), bytes).escape <==> EscRun(bytes) % 2 == 1
    decreases |bytes|
  {
    if bytes != [] {
      var before, b := bytes[..|bytes| - 1], bytes[|bytes| - 1];
      EscapeIsParity(buffer, before);
      assert bytes == before + [b];
      RunConcat(Slip(false, buffer), before, [b]);
      RunOne(After(Slip(false, buffer), before), b);
    }
  }

  lemma {:induction false} BufferIsBounded(s: Slip, bytes: seq<Byte>)
    requires |s.buffer| <= LIMIT
    ensures |After(s, bytes).buffer| <= LIMIT
    decreases |bytes|
  {
    if bytes != [] { BufferIsBounded(Step(s, bytes[0]).0, bytes[1..]); }
  }

  /** Noise hides the END that follows it if it ends in an odd run of ESC bytes, unless that
      END is the byte that empties a full buffer. */
  predicate Hides(noise: seq<Byte>) {
    EscRun(noise) % 2 == 1 && |After(INIT, noise).buffer| != LIMIT
  }

  lemma AfterNoise(noise: seq<Byte>)
    ensures var s := After(INIT, noise + [END]);
      !s.escape && |s.buffer| <= LIMIT && (s.buffer == [] <==> !Hides(noise))
  {
    RunConcat(INIT, noise, [END]);
    RunOne(After(INIT, noise), END);
    EscapeIsParity([], noise);
    BufferIsBounded(INIT, noise);
  }

  /** What a packet completes behind a buffer of any length: a raw frame may have left more
      than the limit, which the next byte empties. */
  function Completed(stale: seq<Byte>, packet: seq<Byte>): seq<Byte> {
    if |stale| <= LIMIT then Delivered(stale + packet) else if packet == [] then stale else Delivered(packet[1..])
  }

  lemma CompletedIsPushed(stale: seq<Byte>, packet: seq<Byte>)
    ensures PushAll(stale, packet) == Completed(stale, packet)
  {
    if |stale| <= LIMIT {
      TailIsLeft(stale, packet);
    } else if packet != [] {
      TailIsLeft([], packet[1..]);
      assert [] + packet[1..] == packet[1..];
    }
  }

  /** One packet with something left in the buffer before it. */
  lemma StaleBufferIsPrepended(stale: seq<Byte>, packet: seq<Byte>)
    ensures var d := Completed(stale, packet);
      Frames(Slip(false, stale), Encode(packet) + [END]) == if d == [] then [] else [d]
    ensures After(Slip(false, stale), Encode(packet) + [END]) == INIT
  {
    EncodedPacketIsPushed(stale, packet);
    CompletedIsPushed(stale, packet);
    RunConcat(Slip(false, stale), Encode(packet), [END]);
    RunOne(Slip(false, PushAll(stale, packet)), END);
  }

  /** A stale buffer changes the length of what is delivered. */
  lemma StaleLengthDiffers(n: nat, m: nat)
    requires 0 < n <= LIMIT && m <= LIMIT
    ensures Kept(n + m) != m
  {
    if n + m > LIMIT { assert Kept(n + m) == Kept(n + m - (LIMIT + 1)); }
  }

  /** A packet comes out as it went in exactly if nothing was left in the buffer. */
  lemma PacketSurvives(stale: seq<Byte>, packet: seq<Byte>)
    requires Intact(packet)
    ensures Frames(Slip(false, stale), Encode(packet) + [END]) == [packet] <==> stale == []
  {
    StaleBufferIsPrepended(stale, packet);
    CompletedDiffers(stale, packet);
  }

  lemma CompletedDiffers(stale: seq<Byte>, packet: seq<Byte>)
    requires Intact(packet)
    ensures Completed(stale, packet) == packet <==> stale == []
  {
    IntactIsDelivered(packet);
    if stale != [] && |stale| <= LIMIT { StaleLengthDiffers(|stale|, |packet|); }
  }

  lemma FirstPacketAfterNoise(stale: seq<Byte>, packet: seq<Byte>, rest: seq<Byte>)
    requires |stale| <= LIMIT && Intact(packet)
    ensures stale != [] ==>
      var frames := Frames(Slip(false, stale), Encode(packet) + ([END] + rest));
      var later := Frames(INIT, rest);
      frames == later || (frames != [] && frames[0] != packet && frames[1..] == later)
  {
    var s := Slip(false, stale);
    StaleBufferIsPrepended(stale, packet);
    Regroup(Encode(packet), [END], rest);
    RunConcat(s, Encode(packet) + [END], rest);
    var later := Frames(INIT, rest);
    assert [] + later == later;
    if stale != [] {
      StaleLengthDiffers(|stale|, |packet|);
      var d := Delivered(stale + packet);
      assert d != packet;
      assert ([d] + later)[1..] == later;
    }
  }

  /** Resynchronisation: after any noise and an END, every later packet is delivered intact
      exactly if the noise does not hide the END. */
  lemma ResyncAfterNoise(noise: seq<Byte>, packets: seq<seq<Byte>>)
    requires packets != [] && forall i :: 0 <= i < |packets| ==> Intact(packets[i])
    ensures Frames(INIT, noise + [END] + EncodeAll(packets)) == Frames(INIT, noise + [END]) + packets <==> !Hides(noise)
  {
    var s := After(INIT, noise + [END]);
    RunConcat(INIT, noise + [END], EncodeAll(packets));
    AfterNoise(noise);
    IntactAreDelivered(packets);
    StreamDecodes(packets);
    if Hides(noise) {
      IntactAreDelivered(packets[1..]);
      StreamDecodes(packets[1..]);
      FirstPacketAfterNoise(s.buffer, packets[0], EncodeAll(packets[1..]));
      assert s == Slip(false, s.buffer);
      AppendedDiffers(Frames(INIT, noise + [END]), Frames(s, EncodeAll(packets)), packets);
    }
  }

  lemma AppendedDiffers<T>(a: seq<T>, b: seq<T>, c: seq<T>)
    requires c != [] && (b == c[1..] || (b != [] && b[0] != c[0]))
    ensures a + b != a + c
  {
    if b == c[1..] {
      assert |a + b| != |a + c|;
    } else {
      assert (a + b)[|a|] == b[0] && (a + c)[|a|] == c[0];
    }
  }

  /** Two END bytes always resynchronise. */
  lemma TwoEndsResync(noise: seq<Byte>)
    ensures After(INIT, noise + [END] + [END]) == INIT
  {
    AfterNoise(noise);
    RunConcat(INIT, noise + [END], [END]);
    RunOne(After(INIT, noise + [END]), END);
  }

  // ----- the frame summary -----

  datatype FrameInfo = FrameInfo(payloadLength: int, virtualLink: int, seqNum: Byte, isValid: bool)

  /** The last two bytes of the destination address. */
  function VirtualLink(frame: seq<Byte>): (v: int)
    requires |frame| >= 6
    ensures 0 <= v < 65536
  {
    frame[4] as int * 256 + frame[5] as int
  }

  /** decode_frame: a frame that is too short changes only the validity. */
  function DecodeFrame(last: FrameInfo, frame: seq<Byte>): FrameInfo {
    if |frame| < 43 then last.(isValid := false)
    else
      var valid := frame[0] == 0x03 && frame[1] == 0 && frame[2] == 0 && frame[3] == 0;
      FrameInfo(|frame| - 15, if valid then VirtualLink(frame) else last.virtualLink, frame[|frame| - 1], valid)
  }

  /** An AFDX frame: the destination address with the virtual link in its last two bytes,
      the rest of the headers with the payload, and the sequence number. */
  function AfdxFrame(virtualLink: int, content: seq<Byte>, seqNum: Byte): seq<Byte>
    requires 0 <= virtualLink < 65536
  {
    [0x03, 0, 0, 0, virtualLink / 256, virtualLink % 256] + content + [seqNum]
  }

  /** MAC addresses, IP, UDP and sequence number take 43 bytes. */
  predicate FillsHeaders(content: seq<Byte>) {
    |content| >= 36
  }

  /** Building a frame and summarising it gives the link and the sequence number back. */
  lemma SummaryOfFrame(last: FrameInfo, virtualLink: int, content: seq<Byte>, seqNum: Byte)
    requires 0 <= virtualLink < 65536 && FillsHeaders(content)
    ensures DecodeFrame(last, AfdxFrame(virtualLink, content, seqNum))
         == FrameInfo(|content| - 8, virtualLink, seqNum, true)
  {
    assert virtualLink / 256 * 256 + virtualLink % 256 == virtualLink;
  }

  /** Nothing but such a frame is called valid. */
  lemma ValidIsFrame(last: FrameInfo, frame: seq<Byte>)
    ensures DecodeFrame(last, frame).isValid <==>
      |frame| >= 43
      && var v := VirtualLink(frame); frame == AfdxFrame(v, frame[6..|frame| - 1], frame[|frame| - 1])
  {
    if |frame| >= 43 {
      var v := VirtualLink(frame);
      assert v / 256 == frame[4] && v % 256 == frame[5];
      assert frame == frame[..6] + frame[6..|frame| - 1] + [frame[|frame| - 1]];
    }
  }

  /** The link is the big-endian number in bytes 4 and 5. */
  lemma LinkExample(frame: seq<Byte>)
    requires |frame| >= 6 && frame[4] == 0x12 && frame[5] == 0x34
    ensures VirtualLink(frame) == 0x1234
  {
  }

  /** What an invalid frame leaves: the link of the last valid one, and, unless it is too
      short to be looked at, its own sequence number and length. */
  lemma SummaryOfInvalid(last: FrameInfo, frame: seq<Byte>)
    requires |frame| < 43 || frame[..4] != [3, 0, 0, 0]
    ensures DecodeFrame(last, frame)
         == if |frame| < 43 then FrameInfo(last.payloadLength, last.virtualLink, last.seqNum, false)
            else FrameInfo(|frame| - 15, last.virtualLink, frame[|frame| - 1], false)
  {
  }

  /** The summaries the callback finds, for a list of completed frames. */
  function Reports(last: FrameInfo, frames: seq<seq<Byte>>): seq<FrameInfo>
    decreases |frames|
  {
    if frames == [] then []
    else
      var info := DecodeFrame(last, frames[0]);
      (if info.isValid then [info] else []) + Reports(info, frames[1..])
  }

  function LastInfo(last: FrameInfo, frames: seq<seq<Byte>>): FrameInfo
    decreases |frames|
  {
    if frames == [] then last else LastInfo(DecodeFrame(last, frames[0]), frames[1..])
  }

  lemma {:induction false} ReportsConcat(last: FrameInfo, a: seq<seq<Byte>>, b: seq<seq<Byte>>)
    ensures Reports(last, a + b) == Reports(last, a) + Reports(LastInfo(last, a), b)
    ensures LastInfo(last, a + b) == LastInfo(LastInfo(last, a), b)
    decreases |a|
  {
    if a == [] {
      assert a + b == b;
    } else {
      var info := DecodeFrame(last, a[0]);
      assert (a + b)[1..] == a[1..] + b;
      ReportsConcat(info, a[1..], b);
      Regroup(if info.isValid then [info] else [], Reports(info, a[1..]), Reports(LastInfo(last, a), b));
    }
  }

  datatype Datagram = Datagram(virtualLink: int, content: seq<Byte>, seqNum: Byte)

  predicate Sendable(d: Datagram) {
    0 <= d.virtualLink < 65536 && FillsHeaders(d.content) && |d.content| + 7 <= LIMIT
  }

  function FramesOf(ds: seq<Datagram>): seq<seq<Byte>>
    requires forall i :: 0 <= i < |ds| ==> Sendable(ds[i])
  {
    seq(|ds|, i requires 0 <= i < |ds| && Sendable(ds[i]) => AfdxFrame(ds[i].virtualLink, ds[i].content, ds[i].seqNum))
  }

  function SummariesOf(ds: seq<Datagram>): seq<FrameInfo> {
    seq(|ds|, i requires 0 <= i < |ds| => FrameInfo(|ds[i].content| - 8, ds[i].virtualLink, ds[i].seqNum, true))
  }

  lemma {:induction false} FramesAreReported(last: FrameInfo, ds: seq<Datagram>)
    requires forall i :: 0 <= i < |ds| ==> Sendable(ds[i])
    ensures Reports(last, FramesOf(ds)) == SummariesOf(ds)
    decreases |ds|
  {
    if ds != [] {
      var d := ds[0];
      SummaryOfFrame(last, d.virtualLink, d.content, d.seqNum);
      var info := DecodeFrame(last, FramesOf(ds)[0]);
      assert FramesOf(ds)[1..] == FramesOf(ds[1..]);
      FramesAreReported(info, ds[1..]);
      assert SummariesOf(ds) == [info] + SummariesOf(ds[1..]);
    }
  }

  /** End to end: every AFDX frame sent over SLIP is reported once, in order, with the
      virtual link and the sequence number it was built from. */
  lemma DatagramsAreReported(last: FrameInfo, ds: seq<Datagram>)
    requires forall i :: 0 <= i < |ds| ==> Sendable(ds[i])
    ensures Reports(last, Frames(INIT, EncodeAll(FramesOf(ds)))) == SummariesOf(ds)
  {
    var frames := FramesOf(ds);
    forall i | 0 <= i < |frames| ensures frames[i] != [] && |frames[i]| <= LIMIT {
      assert frames[i] == AfdxFrame(ds[i].virtualLink, ds[i].content, ds[i].seqNum);
    }
    StreamRoundTrip(frames);
    FramesAreReported(last, ds);
  }
}

/** The decoder as the class Fl_AFDX has it. */
module AfdxClass {
  import opened Bytes
  import opened AfdxProtocol

  class Afdx {
    var lastFrame: FrameInfo
    var escapeFlag: bool
    var buffer: seq<Byte>

    ghost function Model(): Slip
      reads this
    {
      Slip(escapeFlag, buffer)
    }

    constructor ()
      ensures Model() == INIT && lastFrame == FrameInfo(0, 0, 0, false)
    {
      lastFrame := FrameInfo(0, 0, 0, false);
      escapeFlag := false;
      buffer := [];
    }

    /** Summarises the buffer; true means the callback is called. */
    method FinishFrame() returns (called: bool)
      modifies this`lastFrame
      ensures lastFrame == DecodeFrame(old(lastFrame), buffer)
      ensures called == lastFrame.isValid
    {
      lastFrame := lastFrame.(isValid := false);
      if |buffer| < 43 { return false; }
      if buffer[0] == 0x03 && buffer[1] == 0 && buffer[2] == 0 && buffer[3] == 0 {
        lastFrame := lastFrame.(virtualLink := VirtualLink(buffer), isValid := true);
      }
      lastFrame := lastFrame.(seqNum := buffer[|buffer| - 1], payloadLength := |buffer| - 15);
      return lastFrame.isValid;
    }

    method ProcessByte(byte: Byte) returns (called: bool)
      modifies this
      ensures Model() == Step(old(Model()), byte).0
      ensures lastFrame == LastInfo(old(lastFrame), Step(old(Model()), byte).1)
      ensures Reports(old(lastFrame), Step(old(Model()), byte).1) == if called then [lastFrame] else []
    {
      var b := byte;
      called := false;
      if escapeFlag {
        if b == ESC_END {
          b := END;
        } else if b == ESC_ESC {
          b := ESC;
        }
        escapeFlag := false;
      } else {
        if b == ESC {
          escapeFlag := true;
          return;
        } else if b == END {
          if |buffer| > 0 {
            assert [buffer][1..] == [];
            called := FinishFrame();
            buffer := [];
          }
          return;
        }
      }
      if |buffer| < LIMIT {
        buffer := buffer + [b];
      } else {
        buffer := [];
      }
    }

    /** The bytes one read of the port returned, one by one. */
    method SerialData(data: seq<Byte>) returns (reports: seq<FrameInfo>)
      modifies this
      ensures Model() == After(old(Model()), data)
      ensures lastFrame == LastInfo(old(lastFrame), Frames(old(Model()), data))
      ensures reports == Reports(old(lastFrame), Frames(old(Model()), data))
    {
      ghost var start, info := Model(), lastFrame;
      reports := [];
      for i := 0 to |data|
        invariant Model() == After(start, data[..i])
        invariant lastFrame == LastInfo(info, Frames(start, data[..i]))
        invariant reports == Reports(info, Frames(start, data[..i]))
      {
        assert data[..i + 1] == data[..i] + [data[i]];
        RunConcat(start, data[..i], [data[i]]);
        RunOne(Model(), data[i]);
        ReportsConcat(info, Frames(start, data[..i]), Step(Model(), data[i]).1);
        var called := ProcessByte(data[i]);
        if called { reports := reports + [lastFrame]; }
      }
      assert data[..|data|] == data;
    }

    /** A whole frame without SLIP. It stays in the buffer, and the escape flag stays too. */
    method FeedRawFrame(data: seq<Byte>) returns (called: bool)
      modifies this
      ensures data != [] ==> Model() == Slip(old(escapeFlag), data)
      ensures data != [] ==> lastFrame == DecodeFrame(old(lastFrame), data) && called == lastFrame.isValid
      ensures data == [] ==> unchanged(this) && !called
    {
      called := false;
      if |data| > 0 {
        buffer := data;
        called := FinishFrame();
      }
    }
  }
}
