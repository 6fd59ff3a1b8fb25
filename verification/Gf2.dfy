/** Polynomials over GF(2) as bits, highest coefficient first. */
module Gf2 {

  type Bits = seq<bool>

  /** A polynomial of degree 24 with a constant term. */
  predicate IsGenerator(g: Bits) {
    |g| == 25 && g[0] && g[24]
  }

  function Zeros(n: nat): (z: Bits)
    ensures |z| == n && forall i :: 0 <= i < n ==> !z[i]
  {
    seq(n, _ => false)
  }

  /** Addition, coefficient by coefficient. */
  function Add(a: Bits, b: Bits): (s: Bits)
    requires |a| == |b|
    ensures |s| == |a| && forall i :: 0 <= i < |s| ==> s[i] == (a[i] != b[i])
  {
    seq(|a|, i requires 0 <= i < |a| && i < |b| => a[i] != b[i])
  }

  /** Product of q and g, shift and add: g once for each bit of q. */
  function Times(q: Bits, g: Bits): (p: Bits)
    requires |g| == 25
    ensures |p| == |q| + 24
  {
    if q == [] then Zeros(24)
    else
      var n := |q| - 1;
      Add(Times(q[..n], g) + [false], Zeros(n) + (if q[n] then g else Zeros(25)))
  }

  lemma PadAt(n: nat, r: Bits, i: nat)
    requires i < n + |r|
    ensures (Zeros(n) + r)[i] == (i >= n && r[i - n])
  {
  }

  lemma TimesOneMore(q: Bits, t: bool, g: Bits)
    requires |g| == 25
    ensures Times(q + [t], g) == Add(Times(q, g) + [false], Zeros(|q|) + (if t then g else Zeros(25)))
  {
    var p := q + [t];
    assert p[..|p| - 1] == q && p[|p| - 1] == t;
  }

  /** A coefficient of the product, by the last bit of the first factor. */
  lemma TimesAt(q: Bits, t: bool, g: Bits, i: nat)
    requires |g| == 25 && i < |q| + 25
    ensures Times(q + [t], g)[i] == ((i < |q| + 24 && Times(q, g)[i]) != (i >= |q| && t && g[i - |q|]))
  {
    TimesOneMore(q, t, g);
    ShiftAddAt(Times(q, g), |q|, t, g, i);
  }

  lemma ShiftAddAt(p: Bits, n: nat, t: bool, g: Bits, i: nat)
    requires |g| == 25 && |p| == n + 24 && i < n + 25
    ensures Add(p + [false], Zeros(n) + (if t then g else Zeros(25)))[i]
         == ((i < n + 24 && p[i]) != (i >= n && t && g[i - n]))
  {
    var term := if t then g else Zeros(25);
    PadAt(n, term, i);
    SumAt(p + [false], Zeros(n) + term, i);
  }

  lemma SumAt(a: Bits, b: Bits, i: nat)
    requires |a| == |b| && i < |a|
    ensures Add(a, b)[i] == (a[i] != b[i])
  {
  }

  lemma Split(q: Bits)
    requires q != []
    ensures q == q[..|q| - 1] + [q[|q| - 1]]
  {
  }

  /** One times g is g, and a zero behind the factor shifts the product. */
  lemma TimesOneAndShift(q: Bits, g: Bits)
    requires |g| == 25
    ensures Times([true], g) == g
    ensures Times(q + [false], g) == Times(q, g) + [false]
  {
    TimesOneMore([], true, g);
    assert [] + [true] == [true];
    TimesOneMore(q, false, g);
  }

  /** The product is linear. */
  lemma {:induction false} TimesAddsAt(a: Bits, b: Bits, g: Bits, i: nat)
    requires |a| == |b| && |g| == 25 && i < |a| + 24
    ensures Times(Add(a, b), g)[i] == (Times(a, g)[i] != Times(b, g)[i])
    decreases |a|
  {
    if a != [] {
      var n := |a| - 1;
      var s := Add(a, b);
      assert s[..n] == Add(a[..n], b[..n]);
      Split(a);
      Split(b);
      Split(s);
      TimesAt(a[..n], a[n], g, i);
      TimesAt(b[..n], b[n], g, i);
      TimesAt(s[..n], s[n], g, i);
      if i < n + 24 { TimesAddsAt(a[..n], b[..n], g, i); }
    }
  }

  /** The leading coefficient of the product is that of q. */
  lemma {:induction false} LeadingBit(q: Bits, g: Bits)
    requires q != [] && IsGenerator(g)
    ensures Times(q, g)[0] == q[0]
    decreases |q|
  {
    var n := |q| - 1;
    Split(q);
    TimesAt(q[..n], q[n], g, 0);
    if n > 0 { LeadingBit(q[..n], g); }
  }

  /** A leading zero of q only shifts the product. */
  lemma {:induction false} LeadingZeroAt(q: Bits, g: Bits, i: nat)
    requires |g| == 25 && q != [] && !q[0] && i < |q| + 23
    ensures Times(q, g)[i + 1] == Times(q[1..], g)[i]
    decreases |q|
  {
    var n := |q| - 1;
    Split(q);
    TimesAt(q[..n], q[n], g, i + 1);
    if n > 0 {
      Split(q[1..]);
      assert q[1..][..n - 1] == q[..n][1..];
      TimesAt(q[..n][1..], q[n], g, i);
      if i + 1 < n + 24 { LeadingZeroAt(q[..n], g, i); }
    } else {
      assert q[1..] == [];
    }
  }

  /** A multiple of the generator with nothing above degree 23 is zero. */
  lemma {:induction false} SmallMultipleIsZero(q: Bits, r: Bits, g: Bits)
    requires IsGenerator(g) && |r| == 24 && Times(q, g) == Zeros(|q|) + r
    ensures q == Zeros(|q|) && r == Zeros(24)
    decreases |q|
  {
    if q == [] {
      assert Zeros(0) + r == r;
    } else {
      LeadingBit(q, g);
      assert !(Zeros(|q|) + r)[0];
      var q' := q[1..];
      var product, expected := Times(q', g), Zeros(|q'|) + r;
      forall i | 0 <= i < |q'| + 24 ensures product[i] == expected[i] {
        LeadingZeroAt(q, g, i);
        assert (Zeros(|q|) + r)[i + 1] == expected[i];
      }
      SmallMultipleIsZero(q', r, g);
    }
  }

  lemma AddIsZero(a: Bits, b: Bits)
    requires |a| == |b|
    ensures Add(a, b) == Zeros(|a|) <==> a == b
  {
    if Add(a, b) == Zeros(|a|) {
      forall i | 0 <= i < |a| ensures a[i] == b[i] {
        assert !Add(a, b)[i];
      }
    }
  }

  lemma DifferAt(a: Bits, b: Bits) returns (i: nat)
    requires |a| == |b| && a != b
    ensures i < |a| && a[i] != b[i]
  {
    i :| i < |a| && a[i] != b[i];
  }

  /** q·g + r, for a remainder r below the degree of the generator. */
  function Recombine(q: Bits, r: Bits, g: Bits): (p: Bits)
    requires |r| == 24 && |g| == 25
    ensures |p| == |q| + 24
  {
    Add(Times(q, g), Zeros(|q|) + r)
  }

  lemma RecombineAt(q: Bits, r: Bits, g: Bits, i: nat)
    requires |r| == 24 && |g| == 25 && i < |q| + 24
    ensures Recombine(q, r, g)[i] == (Times(q, g)[i] != (i >= |q| && r[i - |q|]))
  {
    PadAt(|q|, r, i);
    SumAt(Times(q, g), Zeros(|q|) + r, i);
  }

  /** Quotient and remainder of a division by the generator are unique. */
  lemma DivisionIsUnique(q1: Bits, r1: Bits, q2: Bits, r2: Bits, g: Bits)
    requires IsGenerator(g) && |q1| == |q2| && |r1| == |r2| == 24
    requires Recombine(q1, r1, g) == Recombine(q2, r2, g)
    ensures q1 == q2 && r1 == r2
  {
    var q, r := Add(q1, q2), Add(r1, r2);
    var product, expected := Times(q, g), Zeros(|q|) + r;
    forall i | 0 <= i < |q| + 24 ensures product[i] == expected[i] {
      TimesAddsAt(q1, q2, g, i);
      RecombineAt(q1, r1, g, i);
      RecombineAt(q2, r2, g, i);
    }
    SmallMultipleIsZero(q, r, g);
    AddIsZero(q1, q2);
    AddIsZero(r1, r2);
  }
}
