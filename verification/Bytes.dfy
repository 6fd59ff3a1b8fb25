/** Bytes as numbers, and the exclusive or of the C sources on them. */
module Bytes {

  type Byte = x: int | 0 <= x < 256

  /** The exclusive or of two numbers, bit by bit from the lowest. */
  function XorBits(a: nat, b: nat): nat
    decreases a + b
  {
    if a == 0 && b == 0 then 0
    else (if a % 2 == b % 2 then 0 else 1) + 2 * XorBits(a / 2, b / 2)
  }

  /** No bit appears above those of the operands. */
  lemma {:induction false} XorBitsBelow(a: nat, b: nat, n: nat)
    requires a < Pow2(n) && b < Pow2(n)
    ensures XorBits(a, b) < Pow2(n)
    decreases n
  {
    if n > 0 { XorBitsBelow(a / 2, b / 2, n - 1); }
  }

  function Pow2(n: nat): (r: nat)
    ensures r > 0
  {
    if n == 0 then 1 else 2 * Pow2(n - 1)
  }

  function Xor(a: Byte, b: Byte): Byte {
    XorIsByte(a, b);
    XorBits(a, b)
  }

  lemma XorIsByte(a: Byte, b: Byte)
    ensures XorBits(a, b) < 256
  {
    assert Pow2(8) == 256;
    XorBitsBelow(a, b, 8);
  }

  lemma {:induction false} XorBitsCancels(a: nat, b: nat, c: nat)
    ensures XorBits(a, b) == XorBits(a, c) <==> b == c
    ensures XorBits(b, a) == XorBits(c, a) <==> b == c
    decreases a + b + c
  {
    if a != 0 || b != 0 || c != 0 {
      XorBitsCancels(a / 2, b / 2, c / 2);
    }
  }

  /** Bit i, the lowest being bit 0. */
  function Bit(v: nat, i: nat): (b: nat)
    ensures b < 2
    decreases i
  {
    if i == 0 then v % 2 else Bit(v / 2, i - 1)
  }

  lemma {:induction false} XorBitsAt(a: nat, b: nat, i: nat)
    ensures Bit(XorBits(a, b), i) == (Bit(a, i) + Bit(b, i)) % 2
    decreases i
  {
    if i > 0 { XorBitsAt(a / 2, b / 2, i - 1); }
  }

  /** A bit of the exclusive or is one exactly if it is one in one operand only. */
  lemma XorAt(a: Byte, b: Byte, i: nat)
    ensures Bit(Xor(a, b), i) == (Bit(a, i) + Bit(b, i)) % 2
  {
    XorBitsAt(a, b, i);
  }

  /** Changing one operand changes the exclusive or. */
  lemma XorCancels(a: Byte, b: Byte, c: Byte)
    ensures Xor(a, b) == Xor(a, c) <==> b == c
    ensures Xor(b, a) == Xor(c, a) <==> b == c
  {
    XorBitsCancels(a, b, c);
  }
}
