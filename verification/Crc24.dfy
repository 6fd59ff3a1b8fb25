/** The 24-bit register as a machine on bits, for any generator g of degree 24, and what
    it computes. */
module Crc24 {
  import opened Gf2

  /** One turn of the inner loop: shift, and add the generator if a one falls out. */
  function ZeroStep(r: Bits, g: Bits): (r': Bits)
    requires |r| == 24 && |g| == 25
    ensures |r'| == 24
  {
    var s := r[1..] + [false];
    if r[0] then Add(s, g[1..]) else s
  }

  lemma ZeroStepAt(r: Bits, g: Bits, j: nat)
    requires |r| == 24 && |g| == 25 && j < 24
    ensures ZeroStep(r, g)[j] == ((j < 23 && r[j + 1]) != (r[0] && g[j + 1]))
  {
  }

  function ZeroSteps(r: Bits, g: Bits, n: nat): (r': Bits)
    requires |r| == 24 && |g| == 25
    ensures |r'| == 24
    decreases n
  {
    if n == 0 then r else ZeroStep(ZeroSteps(r, g, n - 1), g)
  }

  /** Take in one message bit at the top of the register. */
  function FeedBit(r: Bits, b: bool, g: Bits): (r': Bits)
    requires |r| == 24 && |g| == 25
    ensures |r'| == 24
  {
    ZeroStep(r[0 := r[0] != b], g)
  }

  function Feed(r: Bits, bits: Bits, g: Bits): (r': Bits)
    requires |r| == 24 && |g| == 25
    ensures |r'| == 24
    decreases |bits|
  {
    if bits == [] then r else FeedBit(Feed(r, bits[..|bits| - 1], g), bits[|bits| - 1], g)
  }

  function Crc(bits: Bits, g: Bits): (r: Bits)
    requires |g| == 25
    ensures |r| == 24
  {
    Feed(Zeros(24), bits, g)
  }

  lemma FeedOneMore(r: Bits, bits: Bits, b: bool, g: Bits)
    requires |r| == 24 && |g| == 25
    ensures Feed(r, bits + [b], g) == FeedBit(Feed(r, bits, g), b, g)
  {
    assert (bits + [b])[..|bits|] == bits;
  }

  lemma {:induction false} FeedConcat(r: Bits, a: Bits, b: Bits, g: Bits)
    requires |r| == 24 && |g| == 25
    ensures Feed(r, a + b, g) == Feed(Feed(r, a, g), b, g)
    decreases |b|
  {
    if b == [] {
      assert a + b == a;
    } else {
      var n := |b| - 1;
      FeedConcat(r, a, b[..n], g);
      assert a + b == (a + b[..n]) + [b[n]];
      FeedOneMore(r, a + b[..n], b[n], g);
    }
  }

  // ----- the register is the remainder -----

  function Quotient(bits: Bits, g: Bits): (q: Bits)
    requires |g| == 25
    ensures |q| == |bits|
  {
    if bits == [] then []
    else
      var n := |bits| - 1;
      Quotient(bits[..n], g) + [Crc(bits[..n], g)[0] != bits[n]]
  }

  /** One bit, locally: x·r + b·x^24 = t·g + r', coefficient by coefficient. */
  lemma OneBitDivides(r: Bits, b: bool, g: Bits, j: nat)
    requires |r| == 24 && IsGenerator(g) && j < 25
    ensures (j > 0 && FeedBit(r, b, g)[j - 1]) == (((j < 24 && r[j]) != (j == 0 && b)) != (r[0] != b && g[j]))
  {
    if j > 0 { ZeroStepAt(r[0 := r[0] != b], g, j - 1); }
  }

  /** m·x^24 = q·g + crc, for a message m of any length. */
  lemma {:induction false} CrcDividesAt(bits: Bits, g: Bits, i: nat)
    requires IsGenerator(g) && i < |bits| + 24
    ensures Recombine(Quotient(bits, g), Crc(bits, g), g)[i] == (i < |bits| && bits[i])
    decreases |bits|
  {
    if bits == [] {
      RecombineAt([], Zeros(24), g, i);
    } else {
      var n := |bits| - 1;
      var r, q := Crc(bits[..n], g), Quotient(bits[..n], g);
      if i < n + 24 {
        CrcDividesAt(bits[..n], g, i);
        RecombineAt(q, r, g, i);
      }
      Split(bits);
      QuotientOneMore(bits[..n], bits[n], g);
      FeedOneMore(Zeros(24), bits[..n], bits[n], g);
      DividesStep(bits[..n], bits[n], q, r, g, i);
    }
  }

  lemma QuotientOneMore(bits: Bits, b: bool, g: Bits)
    requires |g| == 25
    ensures Quotient(bits + [b], g) == Quotient(bits, g) + [Crc(bits, g)[0] != b]
  {
    assert (bits + [b])[..|bits|] == bits;
  }

  lemma DividesStep(before: Bits, b: bool, q: Bits, r: Bits, g: Bits, i: nat)
    requires IsGenerator(g) && |r| == 24 && |q| == |before| && i < |before| + 25
    requires i < |before| + 24 ==> (Times(q, g)[i] != (i >= |q| && r[i - |q|])) == (i < |before| && before[i])
    ensures Recombine(q + [r[0] != b], FeedBit(r, b, g), g)[i] == (i < |before| + 1 && (before + [b])[i])
  {
    var n := |before|;
    RecombineAt(q + [r[0] != b], FeedBit(r, b, g), g, i);
    TimesAt(q, r[0] != b, g, i);
    if i >= n { OneBitDivides(r, b, g, i - n); }
  }

  /** Main result: the register is the remainder of the message times x^24 divided by the
      generator, and nothing else is: quotient and remainder are unique. */
  lemma CrcIsRemainder(bits: Bits, q: Bits, r: Bits, g: Bits)
    requires IsGenerator(g) && |q| == |bits| && |r| == 24
    ensures Recombine(q, r, g) == bits + Zeros(24) <==> q == Quotient(bits, g) && r == Crc(bits, g)
  {
    var p := Recombine(Quotient(bits, g), Crc(bits, g), g);
    forall i | 0 <= i < |bits| + 24 ensures p[i] == (bits + Zeros(24))[i] {
      CrcDividesAt(bits, g, i);
    }
    assert p == bits + Zeros(24);
    if Recombine(q, r, g) == p {
      DivisionIsUnique(q, r, Quotient(bits, g), Crc(bits, g), g);
    }
  }

  // ----- the register is linear -----

  lemma ZeroStepAdds(a: Bits, b: Bits, g: Bits)
    requires |a| == |b| == 24 && |g| == 25
    ensures ZeroStep(Add(a, b), g) == Add(ZeroStep(a, g), ZeroStep(b, g))
  {
    forall j | 0 <= j < 24 ensures ZeroStep(Add(a, b), g)[j] == Add(ZeroStep(a, g), ZeroStep(b, g))[j] {
      ZeroStepAt(a, g, j);
      ZeroStepAt(b, g, j);
      ZeroStepAt(Add(a, b), g, j);
    }
  }

  lemma {:induction false} ZeroStepsAdd(a: Bits, b: Bits, g: Bits, n: nat)
    requires |a| == |b| == 24 && |g| == 25
    ensures ZeroSteps(Add(a, b), g, n) == Add(ZeroSteps(a, g, n), ZeroSteps(b, g, n))
    decreases n
  {
    if n > 0 {
      ZeroStepsAdd(a, b, g, n - 1);
      ZeroStepAdds(ZeroSteps(a, g, n - 1), ZeroSteps(b, g, n - 1), g);
    }
  }

  lemma FeedBitAdds(r: Bits, r': Bits, b: bool, b': bool, g: Bits)
    requires |r| == |r'| == 24 && |g| == 25
    ensures FeedBit(Add(r, r'), b != b', g) == Add(FeedBit(r, b, g), FeedBit(r', b', g))
  {
    var s, s' := r[0 := r[0] != b], r'[0 := r'[0] != b'];
    assert Add(s, s') == Add(r, r')[0 := Add(r, r')[0] != (b != b')];
    ZeroStepAdds(s, s', g);
  }

  lemma {:induction false} FeedAdds(r: Bits, r': Bits, a: Bits, b: Bits, g: Bits)
    requires |r| == |r'| == 24 && |a| == |b| && |g| == 25
    ensures Feed(Add(r, r'), Add(a, b), g) == Add(Feed(r, a, g), Feed(r', b, g))
    decreases |a|
  {
    if a != [] {
      var n := |a| - 1;
      FeedAdds(r, r', a[..n], b[..n], g);
      assert Add(a, b)[..n] == Add(a[..n], b[..n]);
      FeedBitAdds(Feed(r, a[..n], g), Feed(r', b[..n], g), a[n], b[n], g);
    }
  }

  /** The checksum of a sum is the sum of the checksums. */
  lemma CrcAdds(a: Bits, b: Bits, g: Bits)
    requires |a| == |b| && |g| == 25
    ensures Crc(Add(a, b), g) == Add(Crc(a, g), Crc(b, g))
  {
    assert Add(Zeros(24), Zeros(24)) == Zeros(24);
    FeedAdds(Zeros(24), Zeros(24), a, b, g);
  }

  // ----- shifting the register loses nothing -----

  lemma ZeroStepOfZeros(g: Bits)
    requires |g| == 25
    ensures ZeroStep(Zeros(24), g) == Zeros(24)
  {
    forall j | 0 <= j < 24 ensures ZeroStep(Zeros(24), g)[j] == Zeros(24)[j] {
      ZeroStepAt(Zeros(24), g, j);
    }
  }

  /** The constant term of the generator keeps the bit that falls out. */
  lemma ZeroStepCancels(r: Bits, g: Bits)
    requires |r| == 24 && IsGenerator(g)
    ensures ZeroStep(r, g) == Zeros(24) <==> r == Zeros(24)
  {
    ZeroStepOfZeros(g);
    if ZeroStep(r, g) == Zeros(24) {
      assert !ZeroStep(r, g)[23];
      ZeroStepAt(r, g, 23);
      forall j | 0 < j < 24 ensures !r[j] {
        assert !ZeroStep(r, g)[j - 1];
        ZeroStepAt(r, g, j - 1);
      }
      assert r == Zeros(24);
    }
  }

  lemma {:induction false} ZeroStepsCancel(r: Bits, g: Bits, n: nat)
    requires |r| == 24 && IsGenerator(g)
    ensures ZeroSteps(r, g, n) == Zeros(24) <==> r == Zeros(24)
    decreases n
  {
    if n > 0 {
      ZeroStepsCancel(r, g, n - 1);
      ZeroStepCancels(ZeroSteps(r, g, n - 1), g);
    }
  }

  lemma {:induction false} FeedZeros(r: Bits, n: nat, g: Bits)
    requires |r| == 24 && |g| == 25
    ensures Feed(r, Zeros(n), g) == ZeroSteps(r, g, n)
    decreases n
  {
    if n > 0 {
      FeedZeros(r, n - 1, g);
      assert Zeros(n)[..n - 1] == Zeros(n - 1);
      var before := Feed(r, Zeros(n - 1), g);
      assert before[0 := before[0] != false] == before;
    }
  }

  /** A register with only bit j set, counted from the top. */
  function Unit(j: nat): (u: Bits)
    requires j < 24
    ensures |u| == 24 && forall i :: 0 <= i < 24 ==> u[i] == (i == j)
  {
    Zeros(24)[j := true]
  }

  lemma {:induction false} UnitRises(j: nat, g: Bits)
    requires j < 24 && |g| == 25
    ensures ZeroSteps(Unit(j), g, j) == Unit(0)
    decreases j
  {
    if j > 0 {
      forall i | 0 <= i < 24 ensures ZeroStep(Unit(j), g)[i] == Unit(j - 1)[i] {
        ZeroStepAt(Unit(j), g, i);
      }
      assert ZeroStep(Unit(j), g) == Unit(j - 1);
      UnitRises(j - 1, g);
      StepFirst(Unit(j), g, j);
    }
  }

  lemma {:induction false} StepFirst(r: Bits, g: Bits, n: nat)
    requires |r| == 24 && |g| == 25 && n > 0
    ensures ZeroSteps(r, g, n) == ZeroSteps(ZeroStep(r, g), g, n - 1)
    decreases n
  {
    if n > 1 { StepFirst(r, g, n - 1); }
  }

  /** Up to 24 bits may as well be added to the register first and shifted in together:
      the inner loop does so with the 8 bits of a byte. */
  lemma {:induction false} FeedTogether(r: Bits, bits: Bits, g: Bits)
    requires |r| == 24 && |g| == 25 && |bits| <= 24
    ensures Feed(r, bits, g) == ZeroSteps(Add(r, bits + Zeros(24 - |bits|)), g, |bits|)
    decreases |bits|
  {
    if bits == [] {
      assert Add(r, [] + Zeros(24)) == r;
    } else {
      var n := |bits| - 1;
      var b := bits[n];
      var x := Add(r, bits[..n] + Zeros(24 - n));
      FeedTogether(r, bits[..n], g);
      var before := ZeroSteps(x, g, n);
      var all := Add(r, bits + Zeros(24 - |bits|));
      if b {
        assert Add(x, Unit(n)) == all;
        LateUnit(x, g, n);
      } else {
        assert x == all;
        assert before == before[0 := before[0] != b];
      }
    }
  }

  /** A bit added in front before n steps is the lowest one behind them. */
  lemma LateUnit(x: Bits, g: Bits, n: nat)
    requires |x| == 24 && |g| == 25 && n < 24
    ensures var before := ZeroSteps(x, g, n);
      |before| == 24 && ZeroSteps(Add(x, Unit(n)), g, n) == before[0 := !before[0]]
  {
    UnitRises(n, g);
    ZeroStepsAdd(x, Unit(n), g, n);
    var before := ZeroSteps(x, g, n);
    assert Add(before, Unit(0)) == before[0 := !before[0]];
  }

  // ----- what the receiver detects -----

  /** A message followed by 24 parity bits checks exactly if they are its checksum. */
  lemma ParityChecks(message: Bits, parity: Bits, g: Bits)
    requires IsGenerator(g) && |parity| == 24
    ensures Crc(message + parity, g) == Zeros(24) <==> parity == Crc(message, g)
  {
    var r := Crc(message, g);
    FeedConcat(Zeros(24), message, parity, g);
    FeedTogether(r, parity, g);
    assert parity + Zeros(0) == parity;
    ZeroStepsCancel(Add(r, parity), g, 24);
    AddIsZero(r, parity);
  }

  ghost predicate IsMultiple(bits: Bits, g: Bits)
    requires |g| == 25
  {
    exists q: Bits :: |q| + 24 == |bits| && Times(q, g) == bits
  }

  /** What checks is exactly what the generator divides. */
  lemma CheckedIsMultiple(bits: Bits, g: Bits)
    requires IsGenerator(g) && |bits| >= 24
    ensures Crc(bits, g) == Zeros(24) <==> IsMultiple(bits, g)
  {
    var n := |bits| - 24;
    var message, parity := bits[..n], bits[n..];
    assert bits == message + parity;
    ParityChecks(message, parity, g);
    if parity == Crc(message, g) {
      var q := Quotient(message, g);
      CrcIsRemainder(message, q, parity, g);
      MultipleAndRemainder(message, parity, q, g);
    }
    if q: Bits :| |q| + 24 == |bits| && Times(q, g) == bits {
      MultipleAndRemainder(message, parity, q, g);
      CrcIsRemainder(message, q, parity, g);
    }
  }

  lemma MultipleAndRemainder(message: Bits, parity: Bits, q: Bits, g: Bits)
    requires |g| == 25 && |parity| == 24 && |q| == |message|
    ensures Times(q, g) == message + parity <==> Recombine(q, parity, g) == message + Zeros(24)
  {
    var p := Recombine(q, parity, g);
    forall i | 0 <= i < |p|
      ensures Times(q, g)[i] == (message + parity)[i] <==> p[i] == (message + Zeros(24))[i]
    {
      RecombineAt(q, parity, g, i);
    }
  }

  /** An error goes undetected exactly if it is itself a multiple of the generator. */
  lemma UndetectedIsMultiple(sent: Bits, received: Bits, g: Bits)
    requires IsGenerator(g) && |sent| == |received| >= 24 && Crc(sent, g) == Zeros(24)
    ensures Crc(received, g) == Zeros(24) <==> IsMultiple(Add(sent, received), g)
  {
    CrcAdds(sent, received, g);
    assert Add(Zeros(24), Crc(received, g)) == Crc(received, g);
    CheckedIsMultiple(Add(sent, received), g);
  }

  /** A non-zero burst of at most 24 bits, anywhere in zeros, never checks. */
  lemma BurstNeverChecks(before: nat, burst: Bits, after: nat, g: Bits)
    requires IsGenerator(g) && |burst| <= 24 && burst != Zeros(|burst|)
    ensures Crc(Zeros(before) + burst + Zeros(after), g) != Zeros(24)
  {
    var z := Zeros(24);
    FeedConcat(z, Zeros(before) + burst, Zeros(after), g);
    FeedConcat(z, Zeros(before), burst, g);
    FeedZeros(z, before, g);
    ZeroStepsCancel(z, g, before);
    FeedTogether(z, burst, g);
    var padded := burst + Zeros(24 - |burst|);
    assert Add(z, padded) == padded;
    var i := DifferAt(burst, Zeros(|burst|));
    assert padded[i];
    ZeroStepsCancel(padded, g, |burst|);
    FeedZeros(Feed(z, burst, g), after, g);
    ZeroStepsCancel(Feed(z, burst, g), g, after);
  }

  /** Main result for the receiver: a message that checks does not check after any single
      burst of at most 24 bits, at any position. */
  lemma BurstIsDetected(sent: Bits, received: Bits, from: nat, to: nat, g: Bits)
    requires IsGenerator(g) && |sent| == |received| && from <= to <= |sent| && to - from <= 24
    requires forall i :: 0 <= i < |sent| && !(from <= i < to) ==> sent[i] == received[i]
    requires sent != received && Crc(sent, g) == Zeros(24)
    ensures Crc(received, g) != Zeros(24)
  {
    var error := Add(sent, received);
    var burst := error[from..to];
    assert error == Zeros(from) + burst + Zeros(|sent| - to);
    var i := DifferAt(sent, received);
    assert burst[i - from];
    BurstNeverChecks(from, burst, |sent| - to, g);
    CrcAdds(sent, received, g);
    assert Add(Zeros(24), Crc(received, g)) == Crc(received, g);
  }
}
