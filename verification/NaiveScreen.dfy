/** The terminal one would write on paper: a growing list of rows of which the last few are
    on display and the newest of the others are remembered. There is no ring here. */
module NaiveScreen {
  import opened CArithmetic
  import opened Rows

  /** `text` is history followed by display; the last `drows` rows are the display and at
      most `cap` rows before them are remembered. `touched` is false until the first write:
      until then a terminal has nothing to scroll (src/Fl_Terminal.cxx:839). */
  datatype Screen<T> = Screen(text: seq<T>, drows: nat, cap: nat, touched: bool)

  ghost predicate Valid<T>(s: Screen<T>) {
    Sized(s) && (!s.touched ==> |s.text| == s.drows)
  }

  predicate Sized<T>(s: Screen<T>) {
    0 < s.drows <= |s.text| <= s.cap + s.drows
  }

  function Hist<T>(s: Screen<T>): seq<T>
    requires s.drows <= |s.text|
  {
    s.text[..|s.text| - s.drows]
  }

  function Disp<T>(s: Screen<T>): seq<T>
    requires s.drows <= |s.text|
  {
    s.text[|s.text| - s.drows..]
  }

  /** A blank row is added below; the oldest row is forgotten at capacity. */
  function ScrollOne<T>(s: Screen<T>, blank: T): (t: Screen<T>)
  {
    s.(text := LastN(s.text + [blank], s.cap + s.drows))
  }

  function ScrollUp<T>(s: Screen<T>, n: nat, blank: T): (t: Screen<T>)
    decreases n
  {
    if n == 0 then s else ScrollUp(ScrollOne(s, blank), n - 1, blank)
  }

  /** Rows move down inside the display; the bottom ones are lost, history stays. */
  function ScrollDown<T>(s: Screen<T>, n: nat, blank: T): Screen<T>
    requires n <= s.drows <= |s.text|
  {
    s.(text := Hist(s) + Repeat(blank, n) + Disp(s)[..s.drows - n])
  }

  /** Every scroll amount: up for positive, down otherwise (0 counts as one row down),
      by at least one and at most a display of rows; nothing before the first write. */
  function Scroll<T>(s: Screen<T>, n: int, blank: T): Screen<T>
    requires Valid(s)
  {
    if !s.touched then s
    else if n > 0 then ScrollUp(s, Clamp(n, 1, s.drows), blank)
    else ScrollDown(s, Clamp(-n, 1, s.drows), blank)
  }

  /** The bottom n rows, each fitted to another width, under unwritten rows if there are
      not enough: a row stays as far from the bottom as it was. */
  function FitBottom<T>(text: seq<T>, n: nat, fit: T -> T, unwritten: T): (t: seq<T>)
    ensures |t| == n
    ensures forall i :: 0 <= i < n && i + |text| >= n ==> t[i] == fit(text[i + |text| - n])
    ensures forall i :: 0 <= i < n && i + |text| < n ==> t[i] == unwritten
  {
    seq(n, i requires 0 <= i < n => if i + |text| >= n then fit(text[i + |text| - n]) else unwritten)
  }

  lemma IsFitBottom<T>(a: seq<T>, text: seq<T>, fit: T -> T, unwritten: T)
    requires |a| <= |text|
    requires forall i :: 0 <= i < |a| ==> a[i] == fit(text[i + |text| - |a|])
    ensures a == FitBottom(text, |a|, fit, unwritten)
  {
  }

  /** Another size: as many rows as the new size remembers, at least a display of them. */
  function Resize<T>(s: Screen<T>, drows: nat, hrows: nat, fit: T -> T, unwritten: T): Screen<T> {
    if !s.touched then Screen(Repeat(unwritten, drows), drows, hrows, false)
    else Screen(FitBottom(s.text, Clamp(|s.text|, drows, hrows + drows), fit, unwritten), drows, hrows, true)
  }

  /** The last k display rows are forgotten. */
  function Trim<T>(s: Screen<T>, k: nat): Screen<T>
    requires k <= s.drows <= |s.text|
  {
    s.(text := s.text[..|s.text| - k], drows := s.drows - k)
  }

  function ClearHistory<T>(s: Screen<T>): Screen<T>
    requires s.drows <= |s.text|
  {
    s.(text := Disp(s), touched := s.touched || s.cap > 0)
  }

  lemma DispAt<T>(s: Screen<T>, d: nat)
    requires d < s.drows <= |s.text|
    ensures Disp(s)[d] == s.text[|s.text| - s.drows + d]
  {
  }

  function PutRow<T>(s: Screen<T>, d: nat, row: T): Screen<T>
    requires d < s.drows <= |s.text|
  {
    s.(text := s.text[|s.text| - s.drows + d := row], touched := true)
  }

  /** In the two regions: the top display row becomes the newest history row, the oldest
      history row is dropped at capacity, a blank row appears at the bottom. */
  lemma ScrollOneMovesTopRow<T>(s: Screen<T>, blank: T)
    requires Sized(s)
    ensures var t := ScrollOne(s, blank);
            && Sized(t)
            && Hist(t) == LastN(Hist(s) + [Disp(s)[0]], s.cap)
            && Disp(t) == Disp(s)[1..] + [blank]
  {
    var t := ScrollOne(s, blank);
    var all := Hist(s) + [Disp(s)[0]];
    forall i | 0 <= i < |Hist(t)| ensures Hist(t)[i] == all[|all| - |Hist(t)| + i] { }
    IsLastN(Hist(t), all, s.cap);
  }

  lemma NewestOfNewest<T>(a: seq<T>, b: seq<T>, m: nat)
    ensures LastN(LastN(a, m) + b, m) == LastN(a + b, m)
  {
    assert LastN(a, m) + b == (a + b)[|a| - |LastN(a, m)|..];
  }

  /** n scrolls append n blank rows and keep the newest rows that fit. */
  lemma {:induction false} ScrollUpText<T>(s: Screen<T>, n: nat, blank: T)
    requires Sized(s)
    ensures ScrollUp(s, n, blank) == s.(text := LastN(s.text + Repeat(blank, n), s.cap + s.drows))
    decreases n
  {
    if n == 0 {
      assert s.text + Repeat(blank, 0) == s.text;
    } else {
      ScrollUpText(ScrollOne(s, blank), n - 1, blank);
      NewestOfNewest(s.text + [blank], Repeat(blank, n - 1), s.cap + s.drows);
      RepeatOnce(s.text, blank, n);
    }
  }
}
