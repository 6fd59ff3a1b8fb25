/** MSP V1 frames (src/Fl_MSP.cxx): `$M`, a direction, size, command, payload, checksum. */
module MspProtocol {
  import opened Sequences
  import opened Bytes

  /** What the callback is given. */
  datatype Command = Command(cmd: Byte, payload: seq<Byte>)

  datatype State = WaitHeader1 | WaitHeader2 | WaitDirection | WaitSize | WaitCmd | WaitPayload | WaitChecksum

  /** The fields of the parser; `payload` is the filled part of the payload buffer. */
  datatype Parser = Parser(state: State, size: Byte, cmd: Byte, checksum: Byte, payload: seq<Byte>)

  const DOLLAR: Byte := 36
  const LETTER_M: Byte := 77
  const TO_FC: Byte := 60
  const FROM_FC: Byte := 62

  const INIT := Parser(WaitHeader1, 0, 0, 0, [])

  predicate IsDirection(b: Byte) {
    b == TO_FC || b == FROM_FC
  }

  function Step(p: Parser, b: Byte): (Parser, Option<Command>) {
    match p.state
    case WaitHeader1 => (if b == DOLLAR then p.(state := WaitHeader2) else p, None)
    case WaitHeader2 => (p.(state := if b == LETTER_M then WaitDirection else WaitHeader1), None)
    case WaitDirection => (p.(state := if IsDirection(b) then WaitSize else WaitHeader1), None)
    case WaitSize => (p.(size := b, checksum := b, state := WaitCmd), None)
    case WaitCmd =>
      (p.(cmd := b, checksum := Xor(p.checksum, b), payload := [], state := if p.size > 0 then WaitPayload else WaitChecksum), None)
    case WaitPayload =>
      var payload := p.payload + [b];
      (p.(payload := payload, checksum := Xor(p.checksum, b),
          state := if |payload| >= p.size then WaitChecksum else WaitPayload), None)
    case WaitChecksum =>
      (p.(state := WaitHeader1), if b == p.checksum then Some(Command(p.cmd, p.payload)) else None)
  }

  /** The parser after a stream of bytes. */
  function After(p: Parser, bytes: seq<Byte>): Parser {
    if bytes == [] then p else Step(After(p, bytes[..|bytes| - 1]), bytes[|bytes| - 1]).0
  }

  /** The callback the last byte of a stream causes. */
  function FiredLast(p: Parser, bytes: seq<Byte>): Option<Command>
    requires bytes != []
  {
    Step(After(p, bytes[..|bytes| - 1]), bytes[|bytes| - 1]).1
  }

  function AsSeq(c: Option<Command>): seq<Command> {
    if c.None? then [] else [c.value]
  }

  /** The callbacks a stream of bytes causes, in order. */
  function Fired(p: Parser, bytes: seq<Byte>): seq<Command> {
    if bytes == [] then [] else Fired(p, bytes[..|bytes| - 1]) + AsSeq(FiredLast(p, bytes))
  }

  // ----- frames -----

  /** The checksum starts as the size byte and takes in every byte after it. */
  function Checksum(size: Byte, bytes: seq<Byte>): Byte {
    if bytes == [] then size else Xor(Checksum(size, bytes[..|bytes| - 1]), bytes[|bytes| - 1])
  }

  predicate Sendable(c: Command) {
    |c.payload| <= 255
  }

  function SizeByte(payload: seq<Byte>): Byte
    requires |payload| <= 255
  {
    |payload|
  }

  /** `content` is the command byte and the payload. */
  function Wire(direction: Byte, size: Byte, content: seq<Byte>, checksum: Byte): seq<Byte> {
    [DOLLAR, LETTER_M, direction, size] + content + [checksum]
  }

  function Frame(direction: Byte, c: Command): seq<Byte>
    requires Sendable(c)
  {
    var content := [c.cmd] + c.payload;
    Wire(direction, SizeByte(c.payload), content, Checksum(SizeByte(c.payload), content))
  }

  function EncodeAll(cs: seq<Command>): seq<Byte>
    requires forall i :: 0 <= i < |cs| ==> Sendable(cs[i])
  {
    if cs == [] then [] else Frame(TO_FC, cs[0]) + EncodeAll(cs[1..])
  }

  // ----- the format on the wire -----

  /** A command for the flight controller: `$M<`, the size, the command and the payload. */
  lemma FrameBytes(c: Command)
    requires Sendable(c)
    ensures var f, n := Frame(TO_FC, c), |c.payload|;
      |f| == n + 6 && f[..5] == [36, 77, 60, n, c.cmd] && f[5..5 + n] == c.payload
  {
  }

  /** How many of the bytes have bit i set. */
  function Ones(bytes: seq<Byte>, i: nat): nat {
    if bytes == [] then 0 else Ones(bytes[..|bytes| - 1], i) + Bit(bytes[|bytes| - 1], i)
  }

  lemma {:induction false} ChecksumAt(size: Byte, bytes: seq<Byte>, i: nat)
    ensures Bit(Checksum(size, bytes), i) == (Bit(size, i) + Ones(bytes, i)) % 2
  {
    if bytes != [] {
      var n := |bytes| - 1;
      ChecksumAt(size, bytes[..n], i);
      XorAt(Checksum(size, bytes[..n]), bytes[n], i);
      ParityAdds(Bit(size, i) + Ones(bytes[..n], i), Bit(bytes[n], i));
    }
  }

  lemma ParityAdds(x: nat, y: nat)
    ensures (x % 2 + y) % 2 == (x + y) % 2
  {
  }

  lemma {:induction false} OnesConcat(a: seq<Byte>, b: seq<Byte>, i: nat)
    ensures Ones(a + b, i) == Ones(a, i) + Ones(b, i)
  {
    if b == [] {
      assert a + b == a;
    } else {
      OnesConcat(a, b[..|b| - 1], i);
      assert (a + b)[..|a + b| - 1] == a + b[..|b| - 1];
    }
  }

  /** From the size byte to the checksum every bit is set in an even number of bytes. */
  lemma FrameIsEven(direction: Byte, c: Command, i: nat)
    requires Sendable(c)
    ensures Ones(Frame(direction, c)[3..], i) % 2 == 0
  {
    var size, content := SizeByte(c.payload), [c.cmd] + c.payload;
    var sum := Checksum(size, content);
    ChecksumAt(size, content, i);
    assert Frame(direction, c)[3..] == [size] + content + [sum];
    OnesConcat([size] + content, [sum], i);
    OnesConcat([size], content, i);
    OnesOfOne(size, i);
    OnesOfOne(sum, i);
  }

  lemma OnesOfOne(b: Byte, i: nat)
    ensures Ones([b], i) == Bit(b, i)
  {
    assert [b][..0] == [];
  }

  /** The bytes that take the parser through a header: `$`, `M`, then `<` or `>`. */
  lemma HeaderBytes(p: Parser, b: Byte)
    ensures p.state == WaitHeader1 ==> (Step(p, b).0.state == WaitHeader2 <==> b == 36)
    ensures p.state == WaitHeader2 ==> (Step(p, b).0.state == WaitDirection <==> b == 77)
    ensures p.state == WaitDirection ==> (Step(p, b).0.state == WaitSize <==> b == 60 || b == 62)
  {
  }

  // ----- running over a concatenation -----

  lemma {:induction false} AfterConcat(p: Parser, a: seq<Byte>, b: seq<Byte>)
    ensures After(p, a + b) == After(After(p, a), b)
  {
    if b == [] {
      assert a + b == a;
    } else {
      var b' := b[..|b| - 1];
      AfterConcat(p, a, b');
      assert (a + b)[..|a + b| - 1] == a + b';
    }
  }

  lemma {:induction false} FiredConcat(p: Parser, a: seq<Byte>, b: seq<Byte>)
    ensures Fired(p, a + b) == Fired(p, a) + Fired(After(p, a), b)
  {
    if b == [] {
      assert a + b == a;
    } else {
      var b' := b[..|b| - 1];
      FiredConcat(p, a, b');
      LastOfConcat(p, a, b);
      assert (a + b)[..|a + b| - 1] == a + b';
      Regroup(Fired(p, a), Fired(After(p, a), b'), AsSeq(FiredLast(p, a + b)));
    }
  }

  lemma LastOfConcat(p: Parser, a: seq<Byte>, b: seq<Byte>)
    requires b != []
    ensures FiredLast(p, a + b) == FiredLast(After(p, a), b)
  {
    assert (a + b)[..|a + b| - 1] == a + b[..|b| - 1];
    AfterConcat(p, a, b[..|b| - 1]);
  }

  /** The last step of a stream, as a step. */
  lemma OneMore(p: Parser, s: seq<Byte>, b: Byte)
    ensures After(p, s + [b]) == Step(After(p, s), b).0
    ensures Fired(p, s + [b]) == Fired(p, s) + AsSeq(Step(After(p, s), b).1)
    ensures FiredLast(p, s + [b]) == Step(After(p, s), b).1
  {
    assert (s + [b])[..|s + [b]| - 1] == s;
  }

  // ----- every state knows what it has read -----

  /** The bytes of the current frame that a parser state stands for. */
  function Partial(p: Parser, direction: Byte): seq<Byte> {
    match p.state
    case WaitHeader1 => []
    case WaitHeader2 => [DOLLAR]
    case WaitDirection => [DOLLAR, LETTER_M]
    case WaitSize => [DOLLAR, LETTER_M, direction]
    case WaitCmd => [DOLLAR, LETTER_M, direction, p.size]
    case WaitPayload => [DOLLAR, LETTER_M, direction, p.size] + ([p.cmd] + p.payload)
    case WaitChecksum => [DOLLAR, LETTER_M, direction, p.size] + ([p.cmd] + p.payload)
  }

  /** The buffer never holds more than the announced payload, and the running checksum is
      that of the bytes read so far. */
  predicate Consistent(p: Parser) {
    match p.state
    case WaitHeader1 => true
    case WaitHeader2 => true
    case WaitDirection => true
    case WaitSize => true
    case WaitCmd => p.checksum == p.size
    case WaitPayload => |p.payload| < p.size && p.checksum == Checksum(p.size, [p.cmd] + p.payload)
    case WaitChecksum => |p.payload| == p.size && p.checksum == Checksum(p.size, [p.cmd] + p.payload)
  }

  /** The stream so far is some bytes after which the parser waited for a header, followed
      by the part of a frame the parser is in. */
  ghost predicate Explains(s: seq<Byte>, p: Parser, start: nat, direction: Byte) {
    && start <= |s|
    && IsDirection(direction)
    && After(INIT, s[..start]).state == WaitHeader1
    && s[start..] == Partial(p, direction)
  }

  lemma ChecksumOneMore(size: Byte, bytes: seq<Byte>, b: Byte)
    ensures Checksum(size, bytes + [b]) == Xor(Checksum(size, bytes), b)
  {
    assert (bytes + [b])[..|bytes + [b]| - 1] == bytes;
  }

  lemma CommandIsConsistent(p: Parser, b: Byte)
    requires Consistent(p) && p.state == WaitCmd
    ensures Consistent(Step(p, b).0)
  {
    ChecksumOneMore(p.size, [], b);
    assert [] + [b] == [b] + [];
  }

  lemma PayloadIsConsistent(p: Parser, b: Byte)
    requires Consistent(p) && p.state == WaitPayload
    ensures Consistent(Step(p, b).0)
  {
    ChecksumOneMore(p.size, [p.cmd] + p.payload, b);
    assert [p.cmd] + (p.payload + [b]) == [p.cmd] + p.payload + [b];
  }

  lemma StepIsConsistent(p: Parser, b: Byte)
    requires Consistent(p)
    ensures Consistent(Step(p, b).0)
  {
    match p.state
    case WaitCmd => CommandIsConsistent(p, b);
    case WaitPayload => PayloadIsConsistent(p, b);
    case _ =>
  }

  /** A byte that does not end the frame makes the read part of it one longer. */
  lemma StepExtends(p: Parser, b: Byte, direction: Byte)
    requires Step(p, b).0.state != WaitHeader1
    ensures Partial(Step(p, b).0, if p.state == WaitDirection then b else direction) == Partial(p, direction) + [b]
  {
  }

  lemma SliceOneMore(s: seq<Byte>, b: Byte, start: nat)
    requires start <= |s|
    ensures (s + [b])[..start] == s[..start] && (s + [b])[start..] == s[start..] + [b]
  {
  }

  lemma StepExplains(s: seq<Byte>, p: Parser, b: Byte, start: nat, direction: Byte)
    returns (start': nat, direction': Byte)
    requires Explains(s, p, start, direction) && p == After(INIT, s)
    ensures Explains(s + [b], Step(p, b).0, start', direction')
  {
    var p' := Step(p, b).0;
    var s' := s + [b];
    OneMore(INIT, s, b);
    if p'.state == WaitHeader1 {
      start', direction' := |s'|, direction;
      assert s'[..|s'|] == s';
    } else {
      start', direction' := start, if p.state == WaitDirection then b else direction;
      SliceOneMore(s, b, start);
      StepExtends(p, b, direction);
    }
  }

  /** Every reachable parser state is explained by the stream that led to it. */
  lemma {:induction false} EveryStateIsExplained(s: seq<Byte>) returns (start: nat, direction: Byte)
    ensures Consistent(After(INIT, s))
    ensures Explains(s, After(INIT, s), start, direction)
  {
    if s == [] {
      start, direction := 0, TO_FC;
    } else {
      var s', b := s[..|s| - 1], s[|s| - 1];
      start, direction := EveryStateIsExplained(s');
      StepIsConsistent(After(INIT, s'), b);
      start, direction := StepExplains(s', After(INIT, s'), b, start, direction);
      assert s == s' + [b];
    }
  }

  // ----- soundness -----

  /** Soundness: on any stream, a callback means that the bytes just read are, without a
      gap, a frame for that very command, and that the parser met it waiting for a header. */
  lemma CallbackMeansFrame(s: seq<Byte>, c: Command) returns (start: nat, direction: Byte)
    requires s != [] && FiredLast(INIT, s) == Some(c)
    ensures Sendable(c) && IsDirection(direction)
    ensures start <= |s| && s[start..] == Frame(direction, c)
    ensures After(INIT, s[..start]).state == WaitHeader1
  {
    var s', b := s[..|s| - 1], s[|s| - 1];
    var p := After(INIT, s');
    start, direction := EveryStateIsExplained(s');
    CallbackBytes(p, b, direction);
    SuffixOneMore(s, start);
    assert s[..start] == s'[..start];
  }

  lemma SuffixOneMore(s: seq<Byte>, start: nat)
    requires start < |s|
    ensures s[start..] == s[..|s| - 1][start..] + [s[|s| - 1]]
  {
  }

  lemma CallbackBytes(p: Parser, b: Byte, direction: Byte)
    requires Consistent(p) && Step(p, b).1.Some?
    ensures var c := Step(p, b).1.value; Sendable(c) && Partial(p, direction) + [b] == Frame(direction, c)
  {
  }

  // ----- a frame is delivered exactly where a header is awaited -----

  /** The payload loop: from the command byte on, the parser collects the content. */
  lemma {:induction false} ContentIsCollected(p: Parser, content: seq<Byte>)
    requires p.state == WaitCmd && p.checksum == p.size
    requires 0 < |content| <= p.size + 1
    ensures After(p, content) == Parser(if |content| == p.size + 1 then WaitChecksum else WaitPayload,
      p.size, content[0], Checksum(p.size, content), content[1..])
    ensures Fired(p, content) == []
  {
    var before, b := content[..|content| - 1], content[|content| - 1];
    assert content == before + [b];
    OneMore(p, before, b);
    if |content| == 1 {
      assert before == [];
    } else {
      ContentIsCollected(p, before);
      assert content[1..] == before[1..] + [b];
    }
  }

  lemma HeaderIsRead(p: Parser, header: seq<Byte>)
    requires p.state == WaitHeader1
    requires |header| == 4 && header[0] == DOLLAR && header[1] == LETTER_M && IsDirection(header[2])
    ensures After(p, header) == p.(state := WaitCmd, size := header[3], checksum := header[3])
    ensures Fired(p, header) == []
  {
    assert header[..0] == [] && header[..4] == header;
    QuietStep(p, header, 0, p);
    QuietStep(p, header, 1, p.(state := WaitHeader2));
    QuietStep(p, header, 2, p.(state := WaitDirection));
    QuietStep(p, header, 3, p.(state := WaitSize));
  }

  lemma QuietStep(p: Parser, s: seq<Byte>, i: nat, q: Parser)
    requires i < |s| && After(p, s[..i]) == q && Fired(p, s[..i]) == [] && Step(q, s[i]).1.None?
    ensures After(p, s[..i + 1]) == Step(q, s[i]).0 && Fired(p, s[..i + 1]) == []
  {
    OneMore(p, s[..i], s[i]);
    assert s[..i + 1] == s[..i] + [s[i]];
  }

  /** Any frame-shaped bytes, met where a header is awaited: the callback fires exactly if
      the checksum is right, and either way the parser awaits the next header. */
  lemma WireIsRead(p: Parser, direction: Byte, size: Byte, content: seq<Byte>, checksum: Byte)
    requires p.state == WaitHeader1 && IsDirection(direction) && |content| == size + 1
    ensures After(p, Wire(direction, size, content, checksum)).state == WaitHeader1
    ensures Fired(p, Wire(direction, size, content, checksum))
         == if checksum == Checksum(size, content) then [Command(content[0], content[1..])] else []
  {
    var header := [DOLLAR, LETTER_M, direction, size];
    HeaderIsRead(p, header);
    var q := After(p, header);
    ContentIsCollected(q, content);
    AfterConcat(p, header, content);
    FiredConcat(p, header, content);
    OneMore(p, header + content, checksum);
  }

  lemma FrameIsRead(p: Parser, direction: Byte, c: Command)
    requires p.state == WaitHeader1 && IsDirection(direction) && Sendable(c)
    ensures After(p, Frame(direction, c)).state == WaitHeader1
    ensures Fired(p, Frame(direction, c)) == [c]
  {
    var content := [c.cmd] + c.payload;
    assert content[1..] == c.payload;
    WireIsRead(p, direction, SizeByte(c.payload), content, Checksum(SizeByte(c.payload), content));
  }

  /** Round trip: the bytes of any list of commands give back those commands, each once and
      in order, whatever else the parser's fields hold. */
  lemma {:induction false} StreamRoundTrip(p: Parser, cs: seq<Command>)
    requires p.state == WaitHeader1
    requires forall i :: 0 <= i < |cs| ==> Sendable(cs[i])
    ensures Fired(p, EncodeAll(cs)) == cs
    ensures After(p, EncodeAll(cs)).state == WaitHeader1
    decreases |cs|
  {
    if cs != [] {
      var frame, rest := Frame(TO_FC, cs[0]), EncodeAll(cs[1..]);
      FrameIsRead(p, TO_FC, cs[0]);
      StreamRoundTrip(After(p, frame), cs[1..]);
      AfterConcat(p, frame, rest);
      FiredConcat(p, frame, rest);
      assert cs == [cs[0]] + cs[1..];
    }
  }

  /** After any bytes, the frame of a command is delivered exactly if those bytes left the
      parser waiting for a header. */
  lemma FrameIsDelivered(garbage: seq<Byte>, direction: Byte, c: Command)
    requires Sendable(c) && IsDirection(direction)
    ensures FiredLast(INIT, garbage + Frame(direction, c)) == Some(c) <==> After(INIT, garbage).state == WaitHeader1
  {
    var frame := Frame(direction, c);
    var s := garbage + frame;
    if After(INIT, garbage).state == WaitHeader1 {
      FrameFiresLast(After(INIT, garbage), direction, c);
      LastOfConcat(INIT, garbage, frame);
    } else if FiredLast(INIT, s) == Some(c) {
      var start, direction' := CallbackMeansFrame(s, c);
      FrameLength(direction, direction', c);
      SamePrefix(garbage, frame, start);
    }
  }

  lemma FrameLength(d: Byte, d': Byte, c: Command)
    requires Sendable(c)
    ensures |Frame(d, c)| == |Frame(d', c)| == |c.payload| + 6
  {
  }

  lemma SamePrefix(a: seq<Byte>, b: seq<Byte>, start: nat)
    requires start <= |a + b| && |(a + b)[start..]| == |b|
    ensures (a + b)[..start] == a
  {
  }

  lemma FrameFiresLast(p: Parser, direction: Byte, c: Command)
    requires p.state == WaitHeader1 && Sendable(c) && IsDirection(direction)
    ensures FiredLast(p, Frame(direction, c)) == Some(c)
  {
    var size := SizeByte(c.payload);
    var header, content := [DOLLAR, LETTER_M, direction, size], [c.cmd] + c.payload;
    HeaderIsRead(p, header);
    ContentIsCollected(After(p, header), content);
    AfterConcat(p, header, content);
    OneMore(p, header + content, Checksum(size, content));
    assert content[1..] == c.payload;
  }

  /** So a single stray `$` in front of a frame loses it. */
  lemma StrayDollarLosesFrame(direction: Byte, c: Command)
    requires Sendable(c) && IsDirection(direction)
    ensures FiredLast(INIT, [DOLLAR] + Frame(direction, c)) != Some(c)
  {
    OneMore(INIT, [], DOLLAR);
    assert [] + [DOLLAR] == [DOLLAR];
    FrameIsDelivered([DOLLAR], direction, c);
  }

  // ----- one altered byte -----

  lemma {:induction false} ChecksumCancels(size: Byte, bytes: seq<Byte>, i: nat, b: Byte)
    requires i < |bytes| && bytes[i] != b
    ensures Checksum(size, bytes[i := b]) != Checksum(size, bytes)
  {
    var n := |bytes| - 1;
    var bytes' := bytes[i := b];
    if i == n {
      assert bytes'[..n] == bytes[..n];
      XorCancels(Checksum(size, bytes[..n]), b, bytes[n]);
    } else {
      ChecksumCancels(size, bytes[..n], i, b);
      assert bytes'[..n] == bytes[..n][i := b];
      XorCancels(bytes[n], Checksum(size, bytes'[..n]), Checksum(size, bytes[..n]));
    }
  }

  /** A frame with exactly one altered byte in its command, payload or checksum fires
      nothing, and the frame after it is not lost. */
  lemma AlteredFrameIsDropped(p: Parser, direction: Byte, c: Command, i: nat, b: Byte)
    requires p.state == WaitHeader1 && Sendable(c) && IsDirection(direction)
    requires 4 <= i < |Frame(direction, c)| && b != Frame(direction, c)[i]
    ensures Fired(p, Frame(direction, c)[i := b]) == []
    ensures After(p, Frame(direction, c)[i := b]).state == WaitHeader1
  {
    var size := SizeByte(c.payload);
    var content := [c.cmd] + c.payload;
    var checksum := Checksum(size, content);
    if i == 4 + |content| {
      assert Frame(direction, c)[i := b] == Wire(direction, size, content, b);
      WireIsRead(p, direction, size, content, b);
    } else {
      assert Frame(direction, c)[i := b] == Wire(direction, size, content[i - 4 := b], checksum);
      ChecksumCancels(size, content, i - 4, b);
      WireIsRead(p, direction, size, content[i - 4 := b], checksum);
    }
  }
}

/** The parser and the sender as the class Fl_MSP has them. */
module MspClass {
  import opened Bytes
  import opened MspProtocol
  import opened Sequences

  class Msp {
    var state: State
    var payloadBuffer: array?<Byte>
    var payloadSize: Byte
    var cmd: Byte
    var currentChecksum: Byte
    var bufIdx: nat

    ghost predicate Valid()
      reads this, payloadBuffer
    {
      && (payloadBuffer != null ==> payloadBuffer.Length == 256)
      && (payloadBuffer == null ==> bufIdx == 0)
      && bufIdx < 256
      && (state == WaitPayload ==> payloadBuffer != null && bufIdx < payloadSize)
      && (state == WaitChecksum ==> bufIdx == payloadSize)
    }

    ghost function Model(): Parser
      requires Valid()
      reads this, payloadBuffer
    {
      Parser(state, payloadSize, cmd, currentChecksum, if payloadBuffer == null then [] else payloadBuffer[..bufIdx])
    }

    constructor ()
      ensures Valid() && Model() == INIT
      ensures payloadBuffer == null
    {
      state := WaitHeader1;
      payloadBuffer := null;
      payloadSize, cmd, currentChecksum, bufIdx := 0, 0, 0, 0;
    }

    /** One byte; the result is what the callback is given, if it is called. */
    method ProcessByte(b: Byte) returns (callback: Option<Command>)
      requires Valid()
      modifies this, payloadBuffer
      ensures Valid() && (payloadBuffer == old(payloadBuffer) || fresh(payloadBuffer))
      ensures (Model(), callback) == Step(old(Model()), b)
    {
      callback := None;
      match state
      case WaitHeader1 =>
        if b == DOLLAR { state := WaitHeader2; }
      case WaitHeader2 =>
        state := if b == LETTER_M then WaitDirection else WaitHeader1;
      case WaitDirection =>
        state := if b == TO_FC || b == FROM_FC then WaitSize else WaitHeader1;
      case WaitSize =>
        payloadSize, currentChecksum, state := b, b, WaitCmd;
      case WaitCmd =>
        cmd, currentChecksum, bufIdx := b, Xor(currentChecksum, b), 0;
        if payloadSize > 0 {
          if payloadBuffer == null { payloadBuffer := new Byte[256]; }
          state := WaitPayload;
        } else {
          state := WaitChecksum;
        }
      case WaitPayload =>
        payloadBuffer[bufIdx] := b;
        bufIdx := bufIdx + 1;
        assert payloadBuffer[..bufIdx] == old(payloadBuffer[..bufIdx]) + [b];
        currentChecksum := Xor(currentChecksum, b);
        if bufIdx >= payloadSize { state := WaitChecksum; }
      case WaitChecksum =>
        if b == currentChecksum {
          callback := Some(Command(cmd, if payloadBuffer == null then [] else payloadBuffer[..payloadSize]));
        }
        state := WaitHeader1;
    }

    /** The bytes one read of the port returned, one by one. */
    method SerialData(data: seq<Byte>) returns (callbacks: seq<Command>)
      requires Valid()
      modifies this, payloadBuffer
      ensures Valid() && (payloadBuffer == old(payloadBuffer) || fresh(payloadBuffer))
      ensures Model() == After(old(Model()), data)
      ensures callbacks == Fired(old(Model()), data)
    {
      ghost var start := Model();
      callbacks := [];
      for i := 0 to |data|
        invariant Valid() && (payloadBuffer == old(payloadBuffer) || fresh(payloadBuffer))
        invariant Model() == After(start, data[..i])
        invariant callbacks == Fired(start, data[..i])
      {
        OneMore(start, data[..i], data[i]);
        assert data[..i + 1] == data[..i] + [data[i]];
        var c := ProcessByte(data[i]);
        callbacks := callbacks + AsSeq(c);
      }
      assert data[..|data|] == data;
    }
  }

  /** What send_command writes to the port: built in a fixed buffer, byte by byte. */
  method SendCommand(command: Byte, payload: seq<Byte>) returns (written: seq<Byte>)
    requires |payload| <= 255
    ensures written == Frame(TO_FC, Command(command, payload))
  {
    var buf := new Byte[262];
    buf[0], buf[1], buf[2], buf[3], buf[4] := DOLLAR, LETTER_M, TO_FC, |payload|, command;
    var checksum := Xor(|payload|, command);
    ghost var content := [command] + payload;
    assert content[..1] == [] + [command];
    ChecksumOneMore(|payload|, [], command);
    for i := 0 to |payload|
      invariant buf[..5 + i] == [DOLLAR, LETTER_M, TO_FC, |payload|] + content[..i + 1]
      invariant checksum == Checksum(|payload|, content[..i + 1])
    {
      buf[5 + i] := payload[i];
      checksum := Xor(checksum, payload[i]);
      ChecksumOneMore(|payload|, content[..i + 1], payload[i]);
      assert content[..i + 2] == content[..i + 1] + [payload[i]];
    }
    assert content[..|payload| + 1] == content;
    buf[5 + |payload|] := checksum;
    written := buf[..6 + |payload|];
  }
}
