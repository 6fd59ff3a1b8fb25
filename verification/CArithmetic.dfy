/** Integer helpers of the C sources: the truncating remainder, and the two
    static functions src/Fl_Terminal.cxx builds its ring indexes from. */
module CArithmetic {

  /** The remainder of naturals, by repeated subtraction: the proofs about row addresses
      need it unfolded once or twice and are quicker without the division operators. */
  function NatRem(a: nat, b: nat): (r: int)
    requires b > 0
    ensures 0 <= r < b
  {
    if a < b then a else NatRem(a - b, b)
  }

  /** The C `%` operator for a positive divisor: the sign follows the dividend. */
  function CRem(a: int, b: int): int
    requires b > 0
  {
    if a >= 0 then NatRem(a, b) else -NatRem(-a, b)
  }

  function Clamp(val: int, min: int, max: int): int {
    if val < min then min else if val > max then max else val
  }

  /** Map any row number into 0..maxRows-1; negative rows count from the end. */
  function Normalize(row: int, maxRows: int): int
    requires maxRows > 0
  {
    var r := CRem(row, maxRows);
    if r < 0 then maxRows + r else r
  }

  lemma {:induction false} NatRemQuotient(a: nat, b: nat) returns (q: nat)
    requires b > 0
    ensures a == q * b + NatRem(a, b)
  {
    if a < b {
      q := 0;
    } else {
      var p := NatRemQuotient(a - b, b);
      q := p + 1;
      assert q * b == p * b + b;
    }
  }

  lemma NatRemIsMod(a: nat, b: nat)
    requires b > 0
    ensures NatRem(a, b) == a % b
  {
    var q := NatRemQuotient(a, b);
    ModUnique(a, b, q, NatRem(a, b));
  }

  /** q is a / b rounded toward zero. */
  ghost predicate IsTruncatedQuotient(q: int, a: int, b: int)
    requires b > 0
  {
    if a >= 0 then 0 <= a - q * b < b else -b < a - q * b <= 0
  }

  /** CRem is the remainder of a division that rounds toward zero. */
  lemma CRemIsTruncating(a: int, b: int)
    requires b > 0
    ensures exists q: int :: IsTruncatedQuotient(q, a, b) && CRem(a, b) == a - q * b
  {
    if a >= 0 {
      var q := NatRemQuotient(a, b);
      assert IsTruncatedQuotient(q, a, b);
    } else {
      var q := NatRemQuotient(-a, b);
      assert (-q) * b == -(q * b);
      assert IsTruncatedQuotient(-q, a, b);
    }
  }

  /** For every integer row the fix-up gives the Euclidean residue, in range. */
  lemma NormalizeIsResidue(row: int, maxRows: int)
    requires maxRows > 0
    ensures 0 <= Normalize(row, maxRows) < maxRows
    ensures Normalize(row, maxRows) == row % maxRows
  {
    if row >= 0 {
      NatRemIsMod(row, maxRows);
    } else {
      NatRemIsMod(-row, maxRows);
      var k := (-row) % maxRows;
      var q := (-row) / maxRows;
      assert -row == q * maxRows + k;
      if k == 0 {
        assert row == (-q) * maxRows;
        ModUnique(row, maxRows, -q, 0);
      } else {
        assert (-q - 1) * maxRows == -(q * maxRows) - maxRows;
        ModUnique(row, maxRows, -q - 1, maxRows - k);
      }
    }
  }

  /** A residue in range is the residue. */
  lemma ModUnique(a: int, m: int, q: int, r: int)
    requires m > 0 && a == q * m + r && 0 <= r < m
    ensures a % m == r
  {
    var q' := a / m;
    assert a == q' * m + a % m;
    assert (q - q') * m == a % m - r by {
      assert (q - q') * m == q * m - q' * m;
    }
    if q > q' {
      MulMonotone(1, q - q', m);
    } else if q < q' {
      MulMonotone(1, q' - q, m);
    }
  }

  lemma MulMonotone(a: int, b: int, m: int)
    requires a <= b && m >= 0
    ensures a * m <= b * m
  {
    assert (b - a) * m >= 0;
    assert (b - a) * m == b * m - a * m;
  }

  /** One wrap is enough below twice the divisor. */
  lemma CRemWraps(a: int, m: int)
    requires m > 0 && 0 <= a < 2 * m
    ensures CRem(a, m) == (if a < m then a else a - m)
    ensures Normalize(a, m) == CRem(a, m)
  {
    if a >= m { assert NatRem(a, m) == NatRem(a - m, m); }
  }

  /** The same one period down, which the scrollbar's negative rows need. */
  lemma NormalizeWrapsBelow(a: int, m: int)
    requires m > 0 && -m <= a < 0
    ensures Normalize(a, m) == a + m
  {
    if a == -m { assert NatRem(m, m) == NatRem(0, m); }
  }
}
