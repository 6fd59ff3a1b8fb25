/** Sequences of rows, whatever a row is. */
module Rows {

  function Repeat<T>(x: T, n: nat): (s: seq<T>)
    ensures |s| == n
    ensures forall i :: 0 <= i < n ==> s[i] == x
  {
    seq(n, _ => x)
  }

  /** The last n elements, or all of them. */
  function LastN<T>(s: seq<T>, n: nat): (r: seq<T>)
    ensures |r| == (if |s| <= n then |s| else n)
  {
    if |s| <= n then s else s[|s| - n..]
  }

  lemma IsLastN<T>(r: seq<T>, s: seq<T>, n: nat)
    requires |r| == (if |s| <= n then |s| else n)
    requires forall i :: 0 <= i < |r| ==> r[i] == s[|s| - |r| + i]
    ensures r == LastN(s, n)
  {
  }

  function Max(a: int, b: int): int { if a >= b then a else b }

  lemma RepeatOnce<T>(a: seq<T>, x: T, n: nat)
    requires n > 0
    ensures a + [x] + Repeat(x, n - 1) == a + Repeat(x, n)
  {
  }
}
