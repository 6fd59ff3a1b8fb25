/** calculate_crc24 of src/Fl_ADSB_1090ES.cxx on machine words. */
module AdsbChecksum {
  import opened Bytes
  import opened Gf2
  import opened Crc24
  import opened Sequences

  const POLY: nat := 0x1FFF409

  /** The low `count` bits of a number, highest first. */
  function BitsOf(v: nat, count: nat): (b: Bits)
    ensures |b| == count
    decreases count, v
  {
    if count == 0 then [] else BitsOf(v / 2, count - 1) + [v % 2 == 1]
  }

  function ModeS(): (g: Bits) {
    BitsOf(POLY, 25)
  }

  /** One turn of the inner loop, on a 32-bit word. */
  function StepWord(crc: nat): nat {
    if crc / 0x800000 % 2 == 1 then XorBits(crc * 2 % 0x1_0000_0000, POLY) else crc * 2 % 0x1_0000_0000
  }

  function StepWords(crc: nat, n: nat): nat
    decreases n, crc
  {
    if n == 0 then crc else StepWord(StepWords(crc, n - 1))
  }

  function CrcWord(msg: seq<Byte>): nat {
    if msg == [] then 0
    else StepWords(XorBits(CrcWord(msg[..|msg| - 1]), msg[|msg| - 1] as int * 0x10000), 8)
  }

  function MessageBits(msg: seq<Byte>): (b: Bits)
    ensures |b| == 8 * |msg|
  {
    if msg == [] then [] else MessageBits(msg[..|msg| - 1]) + BitsOf(msg[|msg| - 1], 8)
  }

  // ----- words as bits -----

  lemma {:induction false} XorIsAdd(a: nat, b: nat, count: nat)
    ensures BitsOf(XorBits(a, b), count) == Add(BitsOf(a, count), BitsOf(b, count))
    decreases count
  {
    if count > 0 {
      XorIsAdd(a / 2, b / 2, count - 1);
      XorHalves(a, b);
      var x := Add(BitsOf(a / 2, count - 1), BitsOf(b / 2, count - 1));
      assert Add(BitsOf(a, count), BitsOf(b, count)) == x + [(a % 2 == 1) != (b % 2 == 1)];
    }
  }

  lemma XorHalves(a: nat, b: nat)
    ensures XorBits(a, b) / 2 == XorBits(a / 2, b / 2)
    ensures XorBits(a, b) % 2 == 1 <==> (a % 2 == 1) != (b % 2 == 1)
  {
  }

  lemma {:induction false} BitsOfZero(count: nat)
    ensures BitsOf(0, count) == Zeros(count)
  {
    if count > 0 { BitsOfZero(count - 1); }
  }

  /** Shifting left puts zeros below. */
  lemma {:induction false} BitsOfShifted(v: nat, count: nat, shift: nat)
    ensures BitsOf(v * Pow2(shift), count + shift) == BitsOf(v, count) + Zeros(shift)
    decreases shift
  {
    if shift == 0 {
      assert BitsOf(v, count) + Zeros(0) == BitsOf(v, count);
    } else {
      var half := v * Pow2(shift - 1);
      assert v * Pow2(shift) == 2 * half;
      BitsOfShifted(v, count, shift - 1);
      assert Zeros(shift) == Zeros(shift - 1) + [false];
      assert BitsOf(v, count) + Zeros(shift) == BitsOf(v, count) + Zeros(shift - 1) + [false];
    }
  }

  /** The highest bit, and the bits below it. */
  lemma {:induction false} TopBit(v: nat, count: nat)
    requires v < Pow2(count + 1)
    ensures BitsOf(v, count + 1)[0] <==> v >= Pow2(count)
    ensures BitsOf(v, count + 1)[1..] == BitsOf(v, count)
    decreases count
  {
    if count > 0 {
      TopBit(v / 2, count - 1);
      assert BitsOf(v, count + 1) == BitsOf(v / 2, count) + [v % 2 == 1];
      assert BitsOf(v, count + 1)[1..] == BitsOf(v / 2, count)[1..] + [v % 2 == 1];
    }
  }

  /** Different numbers have different bits. */
  lemma {:induction false} BitsOfCancels(a: nat, b: nat, count: nat)
    requires a < Pow2(count) && b < Pow2(count)
    ensures BitsOf(a, count) == BitsOf(b, count) <==> a == b
    decreases count
  {
    if count > 0 {
      BitsOfCancels(a / 2, b / 2, count - 1);
      if BitsOf(a, count) == BitsOf(b, count) {
        assert BitsOf(a, count)[..count - 1] == BitsOf(a / 2, count - 1);
        assert BitsOf(b, count)[..count - 1] == BitsOf(b / 2, count - 1);
        assert BitsOf(a, count)[count - 1] == (a % 2 == 1);
        assert BitsOf(b, count)[count - 1] == (b % 2 == 1);
      }
    }
  }

  lemma {:induction false} Pow2Adds(a: nat, b: nat)
    ensures Pow2(a + b) == Pow2(a) * Pow2(b)
    decreases b
  {
    if b > 0 {
      Pow2Adds(a, b - 1);
      assert Pow2(a + b) == 2 * (Pow2(a) * Pow2(b - 1));
    }
  }

  lemma WordSizes()
    ensures Pow2(8) == 0x100 && Pow2(16) == 0x10000 && Pow2(23) == 0x800000
    ensures Pow2(24) == 0x1000000 && Pow2(25) == 0x2000000
  {
    assert Pow2(8) == 0x100;
    Pow2Adds(8, 8);
    assert Pow2(7) == 0x80;
    Pow2Adds(16, 7);
    assert Pow2(24) == 2 * Pow2(23) && Pow2(25) == 2 * Pow2(24);
  }

  /** The Mode S polynomial has degree 24 and a constant term. */
  lemma ModeSIsGenerator()
    ensures IsGenerator(ModeS())
  {
    WordSizes();
    TopBit(POLY, 24);
    assert ModeS() == BitsOf(POLY / 2, 24) + [POLY % 2 == 1];
  }

  lemma {:induction false} BitsOfAt(v: nat, count: nat, i: nat)
    requires i < count
    ensures BitsOf(v, count)[i] <==> Bit(v, count - 1 - i) == 1
    decreases count
  {
    if i < count - 1 { BitsOfAt(v / 2, count - 1, i); }
  }

  /** The generator of Mode S: x^24 to x^12, x^10, x^3 and 1. */
  lemma ModeSCoefficients(i: nat)
    requires i <= 24
    ensures ModeS()[24 - i] <==> 12 <= i || i == 10 || i == 3 || i == 0
  {
    BitsOfAt(POLY, 25, 24 - i);
    PolyBit(i, 0x1FFF, 0x409, 13, 12);
  }

  lemma PolyBit(i: nat, high: nat, low: nat, count: nat, width: nat)
    requires i <= 24 && high == 0x1FFF && low == 0x409 && count == 13 && width == 12
    ensures Bit(POLY, i) == 1 <==> 12 <= i || i == 10 || i == 3 || i == 0
  {
    assert Pow2(12) == 4096 && Pow2(13) == 8192;
    JoinedBit(high, low, count, width, i);
    if i < 12 { LowPolyBits(i); } else { AllOnes(13, i - 12); }
  }

  lemma JoinedBit(high: nat, low: nat, count: nat, width: nat, i: nat)
    requires low < Pow2(width) && i < count + width
    ensures Bit(high * Pow2(width) + low, i) == if i < width then Bit(low, i) else Bit(high, i - width)
  {
    JoinedAt(high, low, count, width, i);
    BitsOfAt(high * Pow2(width) + low, count + width, count + width - 1 - i);
  }

  lemma JoinedAt(high: nat, low: nat, count: nat, width: nat, i: nat)
    requires low < Pow2(width) && i < count + width
    ensures BitsOf(high * Pow2(width) + low, count + width)[count + width - 1 - i]
        <==> (if i < width then Bit(low, i) else Bit(high, i - width)) == 1
  {
    JoinBits(high, low, count, width);
    if i < width { BitsOfAt(low, width, width - 1 - i); } else { BitsOfAt(high, count, count + width - 1 - i); }
  }

  lemma LowPolyBits(i: nat)
    requires i < 12
    ensures Bit(0x409, i) == 1 <==> i == 10 || i == 3 || i == 0
  {
    assert Bit(0x409, 0) == 1 && Bit(0x409, 1) == 0 && Bit(0x409, 2) == 0 && Bit(0x409, 3) == 1;
    assert Bit(0x409, 4) == 0 && Bit(0x409, 5) == 0 && Bit(0x409, 6) == 0 && Bit(0x409, 7) == 0;
    assert Bit(0x409, 8) == 0 && Bit(0x409, 9) == 0 && Bit(0x409, 10) == 1 && Bit(0x409, 11) == 0;
  }

  lemma {:induction false} AllOnes(n: nat, i: nat)
    requires i < n
    ensures Bit(Pow2(n) - 1, i) == 1
    decreases n
  {
    if i > 0 {
      AllOnes(n - 1, i - 1);
      assert (Pow2(n) - 1) / 2 == Pow2(n - 1) - 1;
    }
  }

  // ----- the loops -----

  lemma StepWordCases(crc: nat)
    requires crc < 0x1000000
    ensures StepWord(crc) == if crc >= 0x800000 then XorBits(2 * crc, POLY) else 2 * crc
  {
    TopBitMask(crc);
  }

  lemma TopBitMask(crc: nat)
    requires crc < 0x1000000
    ensures crc / 0x800000 % 2 == 1 <==> crc >= 0x800000
    ensures crc * 2 % 0x1_0000_0000 == 2 * crc
  {
  }

  /** A one falls out: bit 24 of the polynomial cancels it. */
  lemma StepWordWithOne(crc: nat)
    requires 0x800000 <= crc < 0x1000000
    ensures var x := XorBits(2 * crc, POLY);
      x < 0x1000000 && BitsOf(x, 24) == Add(BitsOf(crc, 24)[1..] + [false], ModeS()[1..])
  {
    var x := XorBits(2 * crc, POLY);
    WordSizes();
    ModeSIsGenerator();
    TopBit(crc, 23);
    DoubledBits(crc);
    XorIsAdd(2 * crc, POLY, 25);
    XorBitsBelow(2 * crc, POLY, 25);
    TopBit(x, 24);
    TailOfSum(BitsOf(crc, 24), ModeS());
  }

  lemma TailOfSum(r: Bits, g: Bits)
    requires |r| == 24 && |g| == 25
    ensures Add(r + [false], g)[0] == (r[0] != g[0])
    ensures Add(r + [false], g)[1..] == Add(r[1..] + [false], g[1..])
  {
  }

  /** One turn keeps the register below 2^24 and is the shift of the bit machine. */
  lemma StepWordIsZeroStep(crc: nat)
    requires crc < 0x1000000
    ensures StepWord(crc) < 0x1000000
    ensures BitsOf(StepWord(crc), 24) == ZeroStep(BitsOf(crc, 24), ModeS())
  {
    WordSizes();
    StepWordCases(crc);
    TopBit(crc, 23);
    if crc >= 0x800000 {
      StepWordWithOne(crc);
    } else {
      var r := BitsOf(crc, 24);
      TopBit(2 * crc, 24);
      DoubledBits(crc);
      assert (r + [false])[1..] == r[1..] + [false];
    }
  }

  lemma DoubledBits(v: nat)
    ensures BitsOf(2 * v, 25) == BitsOf(v, 24) + [false]
  {
  }

  lemma {:induction false} StepWordsAreZeroSteps(crc: nat, n: nat)
    requires crc < 0x1000000
    ensures StepWords(crc, n) < 0x1000000
    ensures BitsOf(StepWords(crc, n), 24) == ZeroSteps(BitsOf(crc, 24), ModeS(), n)
  {
    if n > 0 {
      StepWordsAreZeroSteps(crc, n - 1);
      StepWordIsZeroStep(StepWords(crc, n - 1));
    }
  }

  /** A byte added at the top of the register. */
  lemma ByteAtTop(crc: nat, b: Byte)
    requires crc < 0x1000000
    ensures var x := XorBits(crc, b as int * 0x10000);
      x < 0x1000000 && BitsOf(x, 24) == Add(BitsOf(crc, 24), BitsOf(b, 8) + Zeros(16))
  {
    WordSizes();
    BitsOfShifted(b, 8, 16);
    XorIsAdd(crc, b as int * 0x10000, 24);
    XorBitsBelow(crc, b as int * 0x10000, 24);
  }

  /** Byte by byte and bit by bit come to the same. */
  lemma ByteIsEightBits(crc: nat, b: Byte)
    requires crc < 0x1000000
    ensures var w := StepWords(XorBits(crc, b as int * 0x10000), 8);
      w < 0x1000000 && BitsOf(w, 24) == Feed(BitsOf(crc, 24), BitsOf(b, 8), ModeS())
  {
    ByteAtTop(crc, b);
    StepWordsAreZeroSteps(XorBits(crc, b as int * 0x10000), 8);
    FeedTogether(BitsOf(crc, 24), BitsOf(b, 8), ModeS());
  }

  lemma {:induction false} CrcWordIsCrc(msg: seq<Byte>)
    ensures CrcWord(msg) < 0x1000000
    ensures BitsOf(CrcWord(msg), 24) == Crc(MessageBits(msg), ModeS())
  {
    if msg == [] {
      BitsOfZero(24);
    } else {
      var before, b := msg[..|msg| - 1], msg[|msg| - 1];
      CrcWordIsCrc(before);
      ByteIsEightBits(CrcWord(before), b);
      FeedConcat(Zeros(24), MessageBits(before), BitsOf(b, 8), ModeS());
    }
  }

  /** Main result: for messages of any length the word the loops compute is the remainder
      of the message times x^24 divided by 0x1FFF409, and no other word is. */
  lemma CrcWordIsRemainder(msg: seq<Byte>, crc: nat)
    requires crc < 0x1000000
    ensures crc == CrcWord(msg) <==>
      exists q: Bits :: |q| == 8 * |msg| && Recombine(q, BitsOf(crc, 24), ModeS()) == MessageBits(msg) + Zeros(24)
  {
    var bits, g := MessageBits(msg), ModeS();
    CrcWordIsCrc(msg);
    ModeSIsGenerator();
    WordSizes();
    BitsOfCancels(crc, CrcWord(msg), 24);
    CrcIsRemainder(bits, Quotient(bits, g), Crc(bits, g), g);
    if q: Bits :| |q| == 8 * |msg| && Recombine(q, BitsOf(crc, 24), g) == bits + Zeros(24) {
      CrcIsRemainder(bits, q, BitsOf(crc, 24), g);
    }
  }

  /** The checksum of received bytes is zero exactly if the bit machine ends in zeros. */
  lemma ZeroWord(msg: seq<Byte>)
    ensures CrcWord(msg) == 0 <==> Crc(MessageBits(msg), ModeS()) == Zeros(24)
  {
    CrcWordIsCrc(msg);
    BitsOfZero(24);
    WordSizes();
    BitsOfCancels(CrcWord(msg), 0, 24);
  }

  lemma MessageOneMore(msg: seq<Byte>, b: Byte)
    ensures MessageBits(msg + [b]) == MessageBits(msg) + BitsOf(b, 8)
  {
    assert (msg + [b])[..|msg|] == msg;
  }

  lemma {:induction false} MessageBitsConcat(a: seq<Byte>, b: seq<Byte>)
    ensures MessageBits(a + b) == MessageBits(a) + MessageBits(b)
  {
    if b == [] {
      assert a + b == a;
      assert MessageBits(a) + [] == MessageBits(a);
    } else {
      var b', last := b[..|b| - 1], b[|b| - 1];
      MessageBitsConcat(a, b');
      Regroup(a, b', [last]);
      assert b == b' + [last];
      MessageOneMore(a + b', last);
      MessageOneMore(b', last);
      Regroup(MessageBits(a), MessageBits(b'), BitsOf(last, 8));
    }
  }

  /** The checksum as the three bytes a sender appends. */
  function ParityBytes(crc: nat): seq<Byte>
    requires crc < 0x1000000
  {
    [crc / 0x10000, crc / 0x100 % 0x100, crc % 0x100]
  }

  lemma {:induction false} JoinBits(high: nat, low: nat, count: nat, width: nat)
    requires low < Pow2(width)
    ensures BitsOf(high * Pow2(width) + low, count + width) == BitsOf(high, count) + BitsOf(low, width)
    decreases width
  {
    if width == 0 {
      assert BitsOf(high, count) + [] == BitsOf(high, count);
    } else {
      var half := high * Pow2(width - 1) + low / 2;
      assert high * Pow2(width) == 2 * (high * Pow2(width - 1));
      JoinBits(high, low / 2, count, width - 1);
      assert BitsOf(high, count) + (BitsOf(low / 2, width - 1) + [low % 2 == 1])
          == BitsOf(high, count) + BitsOf(low / 2, width - 1) + [low % 2 == 1];
    }
  }

  lemma JoinByte(high: nat, low: Byte, count: nat)
    ensures BitsOf(high * 0x100 + low as int, count + 8) == BitsOf(high, count) + BitsOf(low, 8)
  {
    WordSizes();
    JoinBits(high, low, count, 8);
  }

  lemma ThreeBytes(a: Byte, b: Byte, c: Byte)
    ensures MessageBits([a, b, c]) == BitsOf(a, 8) + BitsOf(b, 8) + BitsOf(c, 8)
  {
    MessageOneMore([], a);
    MessageOneMore([a], b);
    MessageOneMore([a, b], c);
    assert [] + [a] == [a] && [a] + [b] == [a, b] && [a, b] + [c] == [a, b, c];
    assert MessageBits([]) + BitsOf(a, 8) == BitsOf(a, 8);
  }

  lemma JoinThreeBytes(a: Byte, b: Byte, c: Byte)
    ensures MessageBits([a, b, c]) == BitsOf((a as int * 0x100 + b as int) * 0x100 + c as int, 24)
  {
    ThreeBytes(a, b, c);
    JoinByte(a, b, 8);
    JoinByte(a as int * 0x100 + b as int, c, 16);
  }

  lemma BytesOfWord(crc: nat)
    requires crc < 0x1000000
    ensures (crc / 0x10000 * 0x100 + crc / 0x100 % 0x100) * 0x100 + crc % 0x100 == crc
  {
  }

  lemma ParityBits(crc: nat)
    requires crc < 0x1000000
    ensures MessageBits(ParityBytes(crc)) == BitsOf(crc, 24)
  {
    var p := ParityBytes(crc);
    JoinThreeBytes(p[0], p[1], p[2]);
    BytesOfWord(crc);
  }

  /** Three bytes after a message make it check exactly if they are its checksum. */
  lemma ParityBytesCheck(msg: seq<Byte>, parity: nat)
    requires parity < 0x1000000
    ensures CrcWord(msg + ParityBytes(parity)) == 0 <==> parity == CrcWord(msg)
  {
    var bits := MessageBits(msg);
    ParityBits(parity);
    MessageBitsConcat(msg, ParityBytes(parity));
    ZeroWord(msg + ParityBytes(parity));
    ModeSIsGenerator();
    ParityChecks(bits, BitsOf(parity, 24), ModeS());
    CrcWordIsCrc(msg);
    WordSizes();
    BitsOfCancels(parity, CrcWord(msg), 24);
  }

  /** Bytes that check do not check after a burst error of at most 24 bits at any position. */
  lemma BurstIsRejected(sent: seq<Byte>, received: seq<Byte>, from: nat, to: nat)
    requires |sent| == |received| && from <= to <= 8 * |sent| && to - from <= 24
    requires var s, r := MessageBits(sent), MessageBits(received);
      s != r && forall i :: 0 <= i < |s| && !(from <= i < to) ==> s[i] == r[i]
    requires CrcWord(sent) == 0
    ensures CrcWord(received) != 0
  {
    ModeSIsGenerator();
    ZeroWord(sent);
    ZeroWord(received);
    BurstIsDetected(MessageBits(sent), MessageBits(received), from, to, ModeS());
  }
}
