/** What the user sees through the scrollbar, and what a mouse selection denotes while the
    terminal scrolls. A selection holds raw ring row numbers, as drawn: neither reading
    nor scrolling changes them (Selection::scroll() has no caller). */
module Scrollback {
  import opened CArithmetic
  import opened RingModel
  import opened RingRefinement

  /** draw_buff(): the number of the i-th row drawn when the scrollbar is k rows up. */
  function DrawnNumber<T>(r: Ring<T>, k: int, i: int): int
    requires |r.rows| > 0
  {
    DispStartRow(r) - k + i
  }

  function DrawnRow<T>(r: Ring<T>, k: int, i: int): T
    requires Valid(r)
  {
    IndexesInRange(r, DrawnNumber(r, k, i));
    r.rows[RingIndex(r, DrawnNumber(r, k, i))]
  }

  /** Scrollbar value k shows the window of history ++ display that ends k rows before
      its end. */
  lemma ScrollbarWindow<T>(r: Ring<T>, k: nat, i: nat)
    requires Valid(r) && k <= r.histUse && i < r.dispRows
    ensures DrawnRow(r, k, i) == Text(r)[r.histUse - k + i]
  {
    var m := |r.rows|;
    CRemWraps(r.offset + r.histRows, m);
    var g := DrawnNumber(r, k, i);
    if g < 0 { NormalizeWrapsBelow(g, m); } else { CRemWraps(g, m); }
    assert Text(r)[r.histUse - k + i] == At(r, r.histRows - k + i);
  }

  /** The row number is negative when the window reaches across the end of the ring. The test
      by which draw_row() looks for the cursor is right there too: of the rows drawn it accepts
      those of the display and none of the history, and the row it accepts as the (i - k)-th of
      the display is that row. */
  lemma CursorIsLookedForOnDisplay<T>(r: Ring<T>, k: nat, i: nat)
    requires Valid(r) && k <= r.histUse && i < r.dispRows
    ensures IsDispRingRow(r, DrawnNumber(r, k, i)) <==> i >= k
    ensures IsHistRingRow(r, DrawnNumber(r, k, i)) <==> i < k
    ensures i >= k ==> RingIndex(r, DrawnNumber(r, k, i)) == DispIndex(r, i - k)
  {
    CRemWraps(r.offset + r.histRows, |r.rows|);
    if i >= k {
      CRemWraps(i - k, r.dispRows);
      CRemWraps(r.histRows + (i - k) + r.offset, |r.rows|);
    }
    var g := DrawnNumber(r, k, i);
    if g >= 0 {
      CRemWraps(g, |r.rows|);
    } else {
      assert NatRem(-g, |r.rows|) == -g;
    }
    assert TestedPosition(r, g) == r.histRows - k + i;
  }

  // ---- selections

  function Sum(ns: seq<nat>): nat {
    if ns == [] then 0 else ns[0] + Sum(ns[1..])
  }

  function ScrollRun<T>(r: Ring<T>, ns: seq<nat>, blank: T): Ring<T>
    requires Valid(r) && r.live
    decreases ns
  {
    if ns == [] then r
    else
      ScrollRefines(r, ns[0], blank);
      ScrollRun(Scroll(r, ns[0], blank), ns[1..], blank)
  }

  /** The ring rows a scroll by n blanks, by their distance from the old offset: they
      follow the display, through the rows a trimmed display left unused, and wrap into
      the oldest history. */
  predicate Recycled<T>(r: Ring<T>, n: int, p: int) {
    var end := r.histRows + r.dispRows;
    end <= p < end + n || p + |r.rows| < end + n
  }

  /** Scrolling up leaves every ring row where it is, except for the blanked ones. */
  lemma RowUnderScroll<T>(r: Ring<T>, n: int, blank: T, g: nat)
    requires Valid(r) && r.live && 1 <= n <= r.dispRows && g < |r.rows|
    ensures var t := ScrollUp(r, n, blank);
            && Valid(t) && t.live && |t.rows| == |r.rows| && t.dispRows == r.dispRows && t.histRows == r.histRows
            && t.rows[g] == (if Recycled(r, n, Position(r, g)) then blank else r.rows[g])
            && Position(t, g) == (if Position(r, g) >= n then Position(r, g) - n else Position(r, g) - n + |r.rows|)
  {
    var moved := OffsetAdjust(r, n).(histUse := Clamp(r.histUse + n, 0, r.histRows));
    MovedPosition(r, n, g);
    ScrollUpAt(r, n, blank, 0);
    CRemWraps(r.dispRows - n, r.dispRows);
    var p := Position(moved, g);
    ClearedAt(moved, r.dispRows - n, r.dispRows - 1, blank, p);
    PositionIs(moved, g);
    PositionIs(ScrollUp(r, n, blank), g);
  }

  lemma MovedPosition<T>(r: Ring<T>, n: int, g: nat)
    requires Valid(r) && 1 <= n <= r.dispRows && g < |r.rows|
    ensures var t := OffsetAdjust(r, n).(histUse := Clamp(r.histUse + n, 0, r.histRows));
            && Valid(t.(live := true)) && t == r.(offset := t.offset, histUse := t.histUse)
            && Position(t, g) == (if Position(r, g) >= n then Position(r, g) - n else Position(r, g) - n + |r.rows|)
  {
    CRemWraps(r.offset + n, |r.rows|);
    PositionIs(r, g);
    PositionIs(OffsetAdjust(r, n).(histUse := Clamp(r.histUse + n, 0, r.histRows)), g);
  }

  lemma PositionIs<T>(r: Ring<T>, g: nat)
    requires r.offset < |r.rows| && g < |r.rows|
    ensures Position(r, g) == (if g >= r.offset then g - r.offset else g - r.offset + |r.rows|)
    ensures At(r, Position(r, g)) == r.rows[g]
  {
    if g >= r.offset {
      ModUnique(g - r.offset, |r.rows|, 0, g - r.offset);
    } else {
      ModUnique(g - r.offset, |r.rows|, -1, g - r.offset + |r.rows|);
    }
  }

  /** A selected row number keeps denoting the same line of text over any run of upward
      scrolls, as long as fewer rows were scrolled than lie above the line in history and
      spare history capacity; the line has then moved up by the rows scrolled. */
  lemma {:induction false} SelectionKeepsItsText<T>(r: Ring<T>, ns: seq<nat>, blank: T, row: int)
    requires Valid(r) && r.live
    requires forall i :: 0 <= i < |ns| ==> 1 <= ns[i] <= r.dispRows
    requires var p := Position(r, RingIndex(r, row)); Sum(ns) <= p < r.histRows + r.dispRows
    ensures var t := ScrollRun(r, ns, blank); var g := RingIndex(r, row);
            && Valid(t) && RingIndex(t, row) == g < |t.rows| == |r.rows| && g >= 0
            && t.rows[g] == r.rows[g]
            && Position(t, g) == Position(r, g) - Sum(ns)
    decreases ns
  {
    IndexesInRange(r, row);
    if ns != [] {
      ScrollRefines(r, ns[0], blank);
      assert r.(live := true) == r;
      RowUnderScroll(r, ns[0], blank, RingIndex(r, row));
      SelectionKeepsItsText(Scroll(r, ns[0], blank), ns[1..], blank, row);
    }
  }

  /** How many rows can be scrolled before the ring row at this distance from the offset is
      blanked: those above it, and the rows a trimmed display left unused. */
  function Lifetime<T>(r: Ring<T>, p: nat): nat
    requires p < |r.rows| && r.histRows + r.dispRows <= |r.rows|
  {
    var end := r.histRows + r.dispRows;
    if p < end then p + |r.rows| - end else p - end
  }

  lemma LifetimeUnderScroll<T>(r: Ring<T>, n: int, blank: T, g: nat)
    requires Valid(r) && r.live && 1 <= n <= r.dispRows && g < |r.rows|
    ensures var t := ScrollUp(r, n, blank); var life := Lifetime(r, Position(r, g));
            && Valid(t) && |t.rows| == |r.rows| && 0 <= Position(t, g) < |t.rows|
            && (if life < n then t.rows[g] == blank
                else t.rows[g] == r.rows[g] && Lifetime(t, Position(t, g)) == life - n)
  {
    PositionIs(r, g);
    RowUnderScroll(r, n, blank, g);
  }

  /** Over any run of upward scrolls a ring row, selected or not, keeps its text exactly for
      its lifetime and is blank from then on. */
  lemma {:induction false} RowIsBlankedAfter<T>(r: Ring<T>, ns: seq<nat>, blank: T, g: nat)
    requires Valid(r) && r.live && g < |r.rows|
    requires forall i :: 0 <= i < |ns| ==> 1 <= ns[i] <= r.dispRows
    ensures var t := ScrollRun(r, ns, blank);
            && 0 <= Position(r, g) < |r.rows| == |t.rows|
            && t.rows[g] == if Sum(ns) <= Lifetime(r, Position(r, g)) then r.rows[g] else blank
    decreases ns
  {
    PositionIs(r, g);
    if ns != [] {
      ScrollRefines(r, ns[0], blank);
      assert r.(live := true) == r;
      RowUnderScroll(r, ns[0], blank, g);
      LifetimeUnderScroll(r, ns[0], blank, g);
      RowIsBlankedAfter(Scroll(r, ns[0], blank), ns[1..], blank, g);
    }
  }

  // ---- the highlight

  /** Where the i-th row from the display's start is drawn from; negative ones are history. */
  lemma DrawnPosition<T>(r: Ring<T>, i: int)
    requires Valid(r) && 0 <= r.histRows + i && i < r.dispRows
    ensures var g := RingIndex(r, DrawnNumber(r, 0, i)); 0 <= g < |r.rows| && Position(r, g) == r.histRows + i
  {
    var m := |r.rows|;
    var g := DrawnNumber(r, 0, i);
    CRemWraps(r.offset + r.histRows, m);
    if g < 0 { NormalizeWrapsBelow(g, m); } else { CRemWraps(g, m); }
    PositionIs(r, RingIndex(r, g));
  }

  lemma StartUnderScroll<T>(r: Ring<T>, n: int, blank: T)
    requires Valid(r) && r.live && 1 <= n <= r.dispRows
    ensures var t := ScrollUp(r, n, blank); var start := DispStartRow(r) + n;
            && |t.rows| == |r.rows|
            && DispStartRow(t) == (if start < |r.rows| then start else start - |r.rows|)
  {
    ScrollUpAt(r, n, blank, 0);
    CRemWraps(r.offset + n, |r.rows|);
    CRemWraps(r.offset + r.histRows, |r.rows|);
    CRemWraps(ScrollUp(r, n, blank).offset + r.histRows, |r.rows|);
  }

  /** The display's start has moved by the rows scrolled exactly if it has not wrapped. */
  lemma {:induction false} StartOverRun<T>(r: Ring<T>, ns: seq<nat>, blank: T)
    requires Valid(r) && r.live
    requires forall i :: 0 <= i < |ns| ==> 1 <= ns[i] <= r.dispRows
    ensures var t := ScrollRun(r, ns, blank); var start := DispStartRow(r) + Sum(ns);
            && Valid(t) && t.live && |t.rows| == |r.rows| && t.histRows == r.histRows && t.dispRows == r.dispRows
            && DispStartRow(t) <= start && (DispStartRow(t) == start <==> start < |r.rows|)
    decreases ns
  {
    CRemWraps(r.offset + r.histRows, |r.rows|);
    if ns != [] {
      ScrollRefines(r, ns[0], blank);
      assert r.(live := true) == r;
      RowUnderScroll(r, ns[0], blank, 0);
      StartUnderScroll(r, ns[0], blank);
      StartOverRun(Scroll(r, ns[0], blank), ns[1..], blank);
    }
  }

  lemma SamePosition<T>(r: Ring<T>, g: nat, h: nat)
    requires r.offset < |r.rows| && g < |r.rows| && h < |r.rows| && Position(r, g) == Position(r, h)
    ensures g == h
  {
    PositionIs(r, g);
    PositionIs(r, h);
  }

  /** A ring row that kept its text and came n rows nearer to the offset is drawn n rows higher. */
  lemma SameTextDrawn<T>(r: Ring<T>, t: Ring<T>, d: int, n: nat)
    requires Valid(r) && Valid(t) && |t.rows| == |r.rows| && t.histRows == r.histRows && t.dispRows == r.dispRows
    requires d < r.dispRows && n <= r.histRows + d
    requires var g := RingIndex(r, DrawnNumber(r, 0, d));
      0 <= g < |r.rows| && t.rows[g] == r.rows[g] && Position(t, g) == r.histRows + d - n
    ensures DrawnRow(t, 0, d - n) == DrawnRow(r, 0, d)
  {
    DrawnPosition(t, d - n);
    SamePosition(t, RingIndex(r, DrawnNumber(r, 0, d)), RingIndex(t, DrawnNumber(t, 0, d - n)));
  }

  /** Such a ring exists: of two rows, one of history and one of display, the display starts
      at the last one, so that one scrolled row wraps its start. */
  lemma StartWrapsExample()
    ensures var r := Ring(["a", "b"], 1, 1, 1, 0, true); var t := ScrollUp(r, 1, "-");
      && Valid(r) && Valid(t) && DispStartRow(r) + 1 == |r.rows|
      && DrawnRow(t, 0, -1) == DrawnRow(r, 0, 0) == "b" && DrawnNumber(t, 0, -1) != DrawnNumber(r, 0, 0)
  {
    var r := Ring(["a", "b"], 1, 1, 1, 0, true);
    CRemWraps(1, 2);
    StartUnderScroll(r, 1, "-");
    ScrollUpAt(r, 1, "-", 0);
    RowUnderScroll(r, 1, "-", 1);
    PositionIs(r, 1);
    NormalizeWrapsBelow(-1, 2);
  }

  /** What a run leaves of a row that is still remembered, in terms of the state t it ends in. */
  lemma RememberedRow<T>(r: Ring<T>, ns: seq<nat>, blank: T, d: int, t: Ring<T>, n: nat)
    requires Valid(r) && r.live && t == ScrollRun(r, ns, blank) && n == Sum(ns)
    requires forall i :: 0 <= i < |ns| ==> 1 <= ns[i] <= r.dispRows
    requires d < r.dispRows && n <= r.histRows + d
    ensures Valid(t) && |t.rows| == |r.rows| && t.histRows == r.histRows && t.dispRows == r.dispRows
    ensures var g := RingIndex(r, DrawnNumber(r, 0, d));
      0 <= g < |r.rows| && t.rows[g] == r.rows[g] && Position(t, g) == r.histRows + d - n
    ensures DrawnNumber(t, 0, d - n) == DrawnNumber(r, 0, d) <==> DispStartRow(r) + n < |r.rows|
  {
    StartOverRun(r, ns, blank);
    DrawnPosition(r, d);
    SelectionKeepsItsText(r, ns, blank, DrawnNumber(r, 0, d));
  }

  /** The highlight compares row numbers as drawn. Over any run of upward scrolls the text of
      a row that is still remembered is drawn as many rows higher as were scrolled; the
      number it is drawn under is the selected one, so the highlight is on that text,
      exactly if the display's start has not wrapped. */
  lemma HighlightFollowsText<T>(r: Ring<T>, ns: seq<nat>, blank: T, d: int) returns (t: Ring<T>, n: nat)
    requires Valid(r) && r.live
    requires forall i :: 0 <= i < |ns| ==> 1 <= ns[i] <= r.dispRows
    requires d < r.dispRows && Sum(ns) <= r.histRows + d
    ensures t == ScrollRun(r, ns, blank) && n == Sum(ns)
    ensures Valid(t) && |t.rows| == |r.rows|
    ensures DrawnRow(t, 0, d - n) == DrawnRow(r, 0, d)
    ensures DrawnNumber(t, 0, d - n) == DrawnNumber(r, 0, d) <==> DispStartRow(r) + n < |r.rows|
  {
    t, n := ScrollRun(r, ns, blank), Sum(ns);
    RememberedRow(r, ns, blank, d, t, n);
    SameTextDrawn(r, t, d, n);
  }
}
