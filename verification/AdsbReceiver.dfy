/** The 14-byte receiver of src/Fl_ADSB_1090ES.cxx as a machine on bytes. */
module AdsbReceiver {
  import opened Bytes
  import opened AdsbChecksum
  import opened Sequences

  const MESSAGE_BYTES := 14

  /** The header fields process_byte fills in. */
  datatype Squitter = Squitter(df: Byte, ca: Byte, icao24: nat, typeCode: Byte, crcValid: bool)

  function Summary(m: seq<Byte>): Squitter
    requires |m| == MESSAGE_BYTES
  {
    Squitter(m[0] / 8 % 32, m[0] % 8, m[1] as int * 0x10000 + m[2] as int * 0x100 + m[3] as int, m[4] / 8 % 32, CrcWord(m) == 0)
  }

  /** One byte: the bytes waiting, and the message this byte completes, if any. */
  function Step(waiting: seq<Byte>, b: Byte): (seq<Byte>, seq<Squitter>)
    requires |waiting| < MESSAGE_BYTES
  {
    if |waiting| + 1 == MESSAGE_BYTES then ([], [Summary(waiting + [b])]) else (waiting + [b], [])
  }

  function After(waiting: seq<Byte>, bytes: seq<Byte>): (w: seq<Byte>)
    requires |waiting| < MESSAGE_BYTES
    ensures |w| < MESSAGE_BYTES
    decreases |bytes|
  {
    if bytes == [] then waiting else Step(After(waiting, bytes[..|bytes| - 1]), bytes[|bytes| - 1]).0
  }

  function Received(waiting: seq<Byte>, bytes: seq<Byte>): seq<Squitter>
    requires |waiting| < MESSAGE_BYTES
    decreases |bytes|
  {
    if bytes == [] then []
    else
      var n := |bytes| - 1;
      Received(waiting, bytes[..n]) + Step(After(waiting, bytes[..n]), bytes[n]).1
  }

  lemma OneMore(waiting: seq<Byte>, s: seq<Byte>, b: Byte)
    requires |waiting| < MESSAGE_BYTES
    ensures After(waiting, s + [b]) == Step(After(waiting, s), b).0
    ensures Received(waiting, s + [b]) == Received(waiting, s) + Step(After(waiting, s), b).1
  {
    assert (s + [b])[..|s + [b]| - 1] == s;
  }

  /** Any stream is cut into messages of 14 bytes, in order, with nothing skipped: what has
      been received and what waits account for every byte. */
  function Cut(bytes: seq<Byte>): seq<Squitter>
    decreases |bytes|
  {
    if |bytes| < MESSAGE_BYTES then [] else [Summary(bytes[..MESSAGE_BYTES])] + Cut(bytes[MESSAGE_BYTES..])
  }

  function Leftover(bytes: seq<Byte>): seq<Byte>
    decreases |bytes|
  {
    if |bytes| < MESSAGE_BYTES then bytes else Leftover(bytes[MESSAGE_BYTES..])
  }

  lemma {:induction false} CutOneMore(bytes: seq<Byte>, b: Byte)
    ensures |Leftover(bytes)| < MESSAGE_BYTES
    ensures Leftover(bytes + [b]) == Step(Leftover(bytes), b).0
    ensures Cut(bytes + [b]) == Cut(bytes) + Step(Leftover(bytes), b).1
    decreases |bytes|
  {
    var more := bytes + [b];
    if |more| < MESSAGE_BYTES {
    } else if |more| == MESSAGE_BYTES {
      assert more[..MESSAGE_BYTES] == more && more[MESSAGE_BYTES..] == [];
    } else {
      var head, tail := bytes[..MESSAGE_BYTES], bytes[MESSAGE_BYTES..];
      CutOneMore(tail, b);
      assert more[..MESSAGE_BYTES] == head && more[MESSAGE_BYTES..] == tail + [b];
      Regroup([Summary(head)], Cut(tail), Step(Leftover(tail), b).1);
    }
  }

  lemma {:induction false} StreamIsCut(bytes: seq<Byte>)
    ensures Received([], bytes) == Cut(bytes)
    ensures After([], bytes) == Leftover(bytes)
    decreases |bytes|
  {
    if bytes != [] {
      var before, b := bytes[..|bytes| - 1], bytes[|bytes| - 1];
      StreamIsCut(before);
      CutOneMore(before, b);
      assert bytes == before + [b];
    }
  }

  // ----- what the summary means -----

  lemma HighAndLow(b: Byte) returns (high: nat, low: nat)
    ensures high == b / 8 % 32 && low == b % 8 && high < 32 && low < 8
    ensures BitsOf(b, 8) == BitsOf(high, 5) + BitsOf(low, 3)
  {
    high, low := b / 8, b % 8;
    EightFold(b, high, low);
    assert Pow2(3) == 8;
    JoinBits(high, low, 5, 3);
  }

  lemma EightFold(b: Byte, high: nat, low: nat)
    requires high == b / 8 && low == b % 8
    ensures high < 32 && high == b / 8 % 32 && b == high * 8 + low
  {
  }

  /** The bits of the first five bytes, field by field. */
  lemma HeaderBits(m: seq<Byte>) returns (df: nat, ca: nat, icao: nat, tc: nat, low: nat)
    requires |m| == 5
    ensures df == m[0] / 8 % 32 && ca == m[0] % 8 && tc == m[4] / 8 % 32 && df < 32 && ca < 8 && tc < 32
    ensures icao == m[1] as int * 0x10000 + m[2] as int * 0x100 + m[3] as int && icao < 0x1000000
    ensures MessageBits(m) == BitsOf(df, 5) + BitsOf(ca, 3) + BitsOf(icao, 24) + (BitsOf(tc, 5) + BitsOf(low, 3))
  {
    df, ca := HighAndLow(m[0]);
    tc, low := HighAndLow(m[4]);
    icao := (m[1] as int * 0x100 + m[2] as int) * 0x100 + m[3] as int;
    JoinThreeBytes(m[1], m[2], m[3]);
    FiveBytes(m);
  }

  lemma FiveBytes(m: seq<Byte>)
    requires |m| == 5
    ensures MessageBits(m) == BitsOf(m[0], 8) + MessageBits([m[1], m[2], m[3]]) + BitsOf(m[4], 8)
  {
    assert m == [m[0]] + [m[1], m[2], m[3]] + [m[4]];
    MessageBitsConcat([m[0]] + [m[1], m[2], m[3]], [m[4]]);
    MessageBitsConcat([m[0]], [m[1], m[2], m[3]]);
    OneByte(m[0]);
    OneByte(m[4]);
  }

  lemma OneByte(b: Byte)
    ensures MessageBits([b]) == BitsOf(b, 8)
  {
    MessageOneMore([], b);
    assert [] + [b] == [b] && MessageBits([]) + BitsOf(b, 8) == BitsOf(b, 8);
  }

  /** The layout of a Mode S extended squitter: five bits of format, three of capability, 24
      of address, then five of type code. */
  lemma SummaryBits(m: seq<Byte>) returns (s: Squitter)
    requires |m| == MESSAGE_BYTES
    ensures s == Summary(m) && s.df < 32 && s.ca < 8 && s.icao24 < 0x1000000 && s.typeCode < 32
    ensures var bits := MessageBits(m);
      && bits[..5] == BitsOf(s.df, 5) && bits[5..8] == BitsOf(s.ca, 3)
      && bits[8..32] == BitsOf(s.icao24, 24) && bits[32..37] == BitsOf(s.typeCode, 5)
  {
    var df, ca, icao, tc, low := HeaderBits(m[..5]);
    MessageBitsConcat(m[..5], m[5..]);
    assert m == m[..5] + m[5..];
    s := Squitter(df, ca, icao, tc, CrcWord(m) == 0);
    FieldsInOrder(MessageBits(m), BitsOf(df, 5), BitsOf(ca, 3), BitsOf(icao, 24), BitsOf(tc, 5), BitsOf(low, 3), MessageBits(m[5..]));
  }

  lemma FieldsInOrder(bits: seq<bool>, a: seq<bool>, b: seq<bool>, c: seq<bool>, d: seq<bool>, e: seq<bool>, f: seq<bool>)
    requires |a| == 5 && |b| == 3 && |c| == 24 && |d| == 5 && bits == a + b + c + (d + e) + f
    ensures bits[..5] == a && bits[5..8] == b && bits[8..32] == c && bits[32..37] == d
  {
  }

  /** A transmitter's message: header fields, seven bytes of data, parity. */
  datatype Transmission = Transmission(df: nat, ca: nat, icao24: nat, typeCode: nat, low: nat, data: seq<Byte>)

  predicate Sendable(t: Transmission) {
    t.df < 32 && t.ca < 8 && t.icao24 < 0x1000000 && t.typeCode < 32 && t.low < 8 && |t.data| == 6
  }

  function Content(t: Transmission): (m: seq<Byte>)
    requires Sendable(t)
    ensures |m| == 11
  {
    [t.df * 8 + t.ca] + ParityBytes(t.icao24) + [t.typeCode * 8 + t.low] + t.data
  }

  function Encode(t: Transmission, parity: nat): (m: seq<Byte>)
    requires Sendable(t) && parity < 0x1000000
    ensures |m| == MESSAGE_BYTES
  {
    Content(t) + ParityBytes(parity)
  }

  /** The summary gives the fields back, and calls the message valid exactly if its last
      three bytes are the checksum of the first eleven. */
  lemma SummaryOfTransmission(t: Transmission, parity: nat)
    requires Sendable(t) && parity < 0x1000000
    ensures Summary(Encode(t, parity))
         == Squitter(t.df, t.ca, t.icao24, t.typeCode, parity == CrcWord(Content(t)))
  {
    var m := Encode(t, parity);
    ParityBytesCheck(Content(t), parity);
    HeaderBytes(t, parity);
    var p := ParityBytes(t.icao24);
    BytesOfWord(t.icao24);
    FieldsOfByte(t.df, t.ca);
    FieldsOfByte(t.typeCode, t.low);
  }

  lemma HeaderBytes(t: Transmission, parity: nat)
    requires Sendable(t) && parity < 0x1000000
    ensures var m, p := Encode(t, parity), ParityBytes(t.icao24);
      m[0] == t.df * 8 + t.ca && m[1] == p[0] && m[2] == p[1] && m[3] == p[2] && m[4] == t.typeCode * 8 + t.low
  {
  }

  lemma FieldsOfByte(high: nat, low: nat)
    requires high < 32 && low < 8
    ensures (high * 8 + low) / 8 % 32 == high && (high * 8 + low) % 8 == low
  {
  }

  /** What a transmitter sends. */
  function Sent(t: Transmission): (m: seq<Byte>)
    requires Sendable(t)
    ensures |m| == MESSAGE_BYTES
  {
    CrcWordIsCrc(Content(t));
    Encode(t, CrcWord(Content(t)))
  }

  /** A sent message hit by a burst of at most 24 bits is never called valid. */
  lemma CorruptedIsInvalid(t: Transmission, received: seq<Byte>, from: nat, to: nat)
    requires Sendable(t) && |received| == MESSAGE_BYTES
    requires from <= to <= 8 * MESSAGE_BYTES && to - from <= 24
    requires var s, r := MessageBits(Sent(t)), MessageBits(received);
      s != r && forall i :: 0 <= i < |s| && !(from <= i < to) ==> s[i] == r[i]
    ensures !Summary(received).crcValid
  {
    CrcWordIsCrc(Content(t));
    ParityBytesCheck(Content(t), CrcWord(Content(t)));
    BurstIsRejected(Sent(t), received, from, to);
  }
}

/** The receiver as the class Fl_ADSB_1090ES has it. */
module AdsbClass {
  import opened Bytes
  import opened AdsbChecksum
  import opened AdsbReceiver

  lemma MaskKeeps(crc: nat)
    requires crc < 0x1000000
    ensures crc % 0x1000000 == crc
  {
  }

  /** calculate_crc24: a byte at a time into the top of the register, then eight shifts. */
  method CalculateCrc24(msg: seq<Byte>) returns (crc: nat)
    ensures crc == CrcWord(msg) && crc < 0x1000000
  {
    crc := 0;
    for i := 0 to |msg|
      invariant crc == CrcWord(msg[..i])
    {
      assert msg[..i + 1][..i] == msg[..i];
      crc := XorBits(crc, msg[i] as int * 0x10000);
      ghost var loaded := crc;
      for bit := 0 to 8
        invariant crc == StepWords(loaded, bit)
      {
        if crc / 0x800000 % 2 == 1 {
          crc := XorBits(crc * 2 % 0x1_0000_0000, POLY);
        } else {
          crc := crc * 2 % 0x1_0000_0000;
        }
      }
    }
    assert msg[..|msg|] == msg;
    CrcWordIsCrc(msg);
    MaskKeeps(crc);
    crc := crc % 0x1000000;
  }

  class Adsb {
    var lastMsg: Squitter
    var bufIdx: nat
    const buffer: array<Byte>

    ghost predicate Valid()
      reads this
    {
      buffer.Length == MESSAGE_BYTES && bufIdx < MESSAGE_BYTES
    }

    ghost function Waiting(): seq<Byte>
      requires Valid()
      reads this, buffer
    {
      buffer[..bufIdx]
    }

    constructor ()
      ensures Valid() && Waiting() == [] && fresh(buffer)
    {
      buffer := new Byte[MESSAGE_BYTES];
      bufIdx := 0;
      lastMsg := Squitter(0, 0, 0, 0, false);
    }

    method ProcessByte(b: Byte) returns (called: bool)
      requires Valid()
      modifies this, buffer
      ensures Valid()
      ensures Waiting() == Step(old(Waiting()), b).0
      ensures Step(old(Waiting()), b).1 == if called then [lastMsg] else []
      ensures !called ==> lastMsg == old(lastMsg)
    {
      ghost var waiting := Waiting();
      buffer[bufIdx] := b;
      bufIdx := bufIdx + 1;
      assert buffer[..bufIdx] == waiting + [b];
      called := false;
      if bufIdx == MESSAGE_BYTES {
        assert buffer[..] == waiting + [b];
        var crc := CalculateCrc24(buffer[..]);
        lastMsg := Squitter(buffer[0] / 8 % 32, buffer[0] % 8,
          buffer[1] as int * 0x10000 + buffer[2] as int * 0x100 + buffer[3] as int, buffer[4] / 8 % 32, crc == 0);
        called := true;
        bufIdx := 0;
      }
    }

    /** The bytes one read of the port returned, one by one. */
    method SerialData(data: seq<Byte>) returns (messages: seq<Squitter>)
      requires Valid()
      modifies this, buffer
      ensures Valid()
      ensures Waiting() == After(old(Waiting()), data)
      ensures messages == Received(old(Waiting()), data)
    {
      ghost var start := Waiting();
      messages := [];
      for i := 0 to |data|
        invariant Valid()
        invariant Waiting() == After(start, data[..i])
        invariant messages == Received(start, data[..i])
      {
        OneMore(start, data[..i], data[i]);
        assert data[..i + 1] == data[..i] + [data[i]];
        var called := ProcessByte(data[i]);
        if called { messages := messages + [lastMsg]; }
      }
      assert data[..|data|] == data;
    }
  }
}
