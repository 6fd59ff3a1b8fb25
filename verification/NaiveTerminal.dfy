/** A naive terminal: a screen of cell rows, a width and a cursor. Its operations are the
    specification of the ones in TerminalModel.dfy, where the screen is a ring. */
module NaiveTerminal {
  import opened CArithmetic
  import opened Rows
  import opened TerminalCells
  import S = NaiveScreen
  import opened NaiveRefit

  datatype Term = Term(s: S.Screen<Row>, cols: nat, row: nat, col: nat)

  ghost predicate Valid(t: Term) {
    && S.Valid(t.s) && t.cols > 0
    && t.row < t.s.drows && t.col < t.cols
    && WidthIs(t.s.text, t.cols)
  }

  ghost predicate WidthIs(text: seq<Row>, cols: nat) {
    forall i :: 0 <= i < |text| ==> |text[i]| == cols
  }

  /** Named, so that equal widths give equal functions. */
  function FitTo(cols: nat): Row -> Row {
    (row: Row) => Fit(row, cols)
  }

  lemma FitSame(row: Row, cols: nat)
    requires |row| == cols
    ensures FitTo(cols)(row) == Fit(row, cols) == row
  {
  }

  lemma FitToFits(cols: nat, style: Style)
    ensures Fits(FitTo(cols), FreshRow(cols), BlankRow(style, cols))
    ensures Fits(FitTo(cols), FreshRow(cols), FreshRow(cols))
  {
    var fit := FitTo(cols);
    forall row ensures fit(fit(row)) == fit(row) { FitSame(Fit(row, cols), cols); }
    FitSame(FreshRow(cols), cols);
    FitSame(BlankRow(style, cols), cols);
  }

  // ---- the operations

  function Plot(t: Term, text: string, style: Style): Term
    requires Valid(t)
  {
    var line := S.Disp(t.s)[t.row];
    CursorLine(t);
    t.(s := S.PutRow(t.s, t.row, line[t.col := PlottedCell(line[t.col], text, style)]))
  }

  lemma CursorLine(t: Term)
    requires Valid(t)
    ensures S.Disp(t.s)[t.row] == t.s.text[|t.s.text| - t.s.drows + t.row]
    ensures |S.Disp(t.s)[t.row]| == t.cols
  {
    S.DispAt(t.s, t.row);
  }

  /** Cursor down one line; on the bottom line the screen scrolls instead. */
  function LineDown(t: Term, style: Style): Term
    requires S.Valid(t.s)
  {
    if t.row + 1 < t.s.drows then t.(row := t.row + 1)
    else t.(row := t.s.drows - 1, s := S.Scroll(t.s, 1, BlankRow(style, t.cols)))
  }

  /** Cursor down by any number of lines: it stays on the bottom line, and for every line
      it could not move the screen scrolls once if it is to scroll. */
  function DownBy(t: Term, count: nat, doScroll: bool, style: Style): Term
    requires S.Valid(t.s) && t.row < t.s.drows
  {
    var over: nat := Max(0, t.row + count + 1 - t.s.drows);
    t.(row := if over > 0 then t.s.drows - 1 else t.row + count,
       s := if doScroll && t.s.touched then S.ScrollUp(t.s, over, BlankRow(style, t.cols)) else t.s)
  }

  /** One line of DownBy. */
  lemma DownByStep(t: Term, count: nat, doScroll: bool, style: Style)
    requires S.Valid(t.s) && t.row < t.s.drows && count > 0
    ensures var u := LineDown(t, style);
      S.Valid(u.s) && u.row < u.s.drows
      && (doScroll || t.row + 1 < t.s.drows ==> DownBy(t, count, doScroll, style) == DownBy(u, count - 1, doScroll, style))
    ensures !doScroll && t.row + 1 == t.s.drows ==> DownBy(t, count, doScroll, style) == t
  {
    if t.s.touched {
      var blank := BlankRow(style, t.cols);
      S.ScrollUpText(t.s, 1, blank);
      assert S.ScrollUp(t.s, 1, blank) == S.ScrollUp(S.ScrollOne(t.s, blank), 0, blank);
    }
  }

  /** The screen scrolled down by one row, n times. */
  function DownTimes(s: S.Screen<Row>, n: nat, blank: Row): S.Screen<Row>
    requires S.Valid(s)
    decreases n
  {
    if n == 0 then s else DownTimes(S.Scroll(s, -1, blank), n - 1, blank)
  }

  /** Cursor up by any number of lines: it stays on the top line. The screen scrolls down
      for every line that ends on the top line, also for the one that just reaches it. */
  function UpBy(t: Term, count: nat, doScroll: bool, style: Style): Term
    requires S.Valid(t.s)
  {
    var over: nat := if t.row == 0 then count else Max(0, count + 1 - t.row);
    t.(row := Max(0, t.row - count), s := if doScroll then DownTimes(t.s, over, BlankRow(style, t.cols)) else t.s)
  }

  /** One line of UpBy. */
  lemma UpByStep(t: Term, count: nat, doScroll: bool, style: Style)
    requires S.Valid(t.s) && count > 0
    ensures t.row > 1 ==> UpBy(t, count, doScroll, style) == UpBy(t.(row := t.row - 1), count - 1, doScroll, style)
    ensures t.row <= 1 && doScroll ==>
      S.Valid(Scroll(t, -1, style).s)
      && UpBy(t, count, doScroll, style) == UpBy(Scroll(t, -1, style).(row := 0), count - 1, doScroll, style)
    ensures t.row <= 1 && !doScroll ==> UpBy(t, count, doScroll, style) == t.(row := 0)
  {
  }

  /** So reaching the top line from below costs the bottom line. */
  lemma UpToTopScrolls(t: Term, style: Style)
    requires S.Valid(t.s) && t.row > 0
    ensures UpBy(t, t.row, true, style) == t.(row := 0, s := S.Scroll(t.s, -1, BlankRow(style, t.cols)))
  {
    assert DownTimes(t.s, 1, BlankRow(style, t.cols))
        == DownTimes(S.Scroll(t.s, -1, BlankRow(style, t.cols)), 0, BlankRow(style, t.cols));
  }

  lemma {:induction false} DownTimesIsValid(t: Term, n: nat, style: Style)
    requires Valid(t)
    ensures Valid(t.(s := DownTimes(t.s, n, BlankRow(style, t.cols))))
    decreases n
  {
    if n > 0 {
      ScrollIsValid(t, -1, style);
      DownTimesIsValid(Scroll(t, -1, style), n - 1, style);
    }
  }

  lemma UpByIsValid(t: Term, count: nat, doScroll: bool, style: Style)
    requires Valid(t)
    ensures Valid(UpBy(t, count, doScroll, style))
  {
    DownTimesIsValid(t, if t.row == 0 then count else Max(0, count + 1 - t.row), style);
    DownTimesKeepsSize(t.s, if t.row == 0 then count else Max(0, count + 1 - t.row), BlankRow(style, t.cols));
  }

  lemma {:induction false} DownTimesKeepsSize(s: S.Screen<Row>, n: nat, blank: Row)
    requires S.Valid(s)
    ensures DownTimes(s, n, blank).drows == s.drows
    decreases n
  {
    if n > 0 { DownTimesKeepsSize(S.Scroll(s, -1, blank), n - 1, blank); }
  }

  function NewLine(t: Term, style: Style): Term
    requires S.Valid(t.s)
  {
    LineDown(t.(col := 0), style)
  }

  function PrintChar(t: Term, text: string, style: Style): Term
    requires Valid(t)
  {
    var p := Plot(t, text, style);
    if t.col + 1 < t.cols then p.(col := t.col + 1) else NewLine(p, style)
  }

  function Scroll(t: Term, n: int, style: Style): Term
    requires S.Valid(t.s)
  {
    t.(s := S.Scroll(t.s, n, BlankRow(style, t.cols)))
  }

  function MoveCursor(t: Term, row: int, col: int): Term
    requires t.s.drows > 0 && t.cols > 0
  {
    t.(row := Clamp(row, 0, t.s.drows - 1), col := Clamp(col, 0, t.cols - 1))
  }

  function ClearHistory(t: Term): Term
    requires S.Valid(t.s)
  {
    t.(s := S.ClearHistory(t.s))
  }

  /** Another number of rows, columns or remembered rows; the cursor is left where it is. */
  function Resize(t: Term, drows: nat, dcols: nat, hrows: nat): Term {
    Term(S.Resize(t.s, drows, hrows, FitTo(dcols), FreshRow(dcols)), dcols, t.row, t.col)
  }

  /** refit_disp_to_screen(): dh rows and dw columns fit into the window; at least 2 rows
      and 10 columns are shown, and the width never shrinks. */
  function Refit(t: Term, dh: int, dw: int, style: Style): Term
    requires S.Valid(t.s)
  {
    var drows, dcols := RefitRows(dh), RefitCols(t.cols, dw);
    if drows == t.s.drows then t
    else if drows > t.s.drows then Larger(t, drows, dcols, style)
    else Smaller(t, drows, dcols)
  }

  function Larger(t: Term, drows: nat, dcols: nat, style: Style): Term
    requires S.Valid(t.s) && drows > t.s.drows
  {
    var u := EnlargeBy(View(t.s, t.row), drows - t.s.drows, FitTo(dcols), FreshRow(dcols), BlankRow(style, t.cols), BlankRow(style, dcols));
    Term(u.s, dcols, u.row, t.col)
  }

  function Smaller(t: Term, drows: nat, dcols: nat): Term
    requires S.Valid(t.s) && 0 < drows < t.s.drows
  {
    var u := ShrinkBy(View(t.s, t.row), t.s.drows - drows, drows, FitTo(dcols), FreshRow(dcols));
    Term(u.s, if Pushed(t.row, drows) > 0 then dcols else t.cols, u.row, t.col)
  }

  function RefitRows(dh: int): nat { Clamp(dh, 2, dh) }

  function RefitCols(cols: nat, dw: int): nat {
    var w := Max(dw, cols);
    Clamp(w, 10, w)
  }

  // ---- what a refit keeps

  /** The text up to and including the cursor's line. */
  function Remembered(t: Term): seq<Row>
    requires t.s.drows <= |t.s.text| && t.row < t.s.drows
  {
    t.s.text[..|t.s.text| - t.s.drows + t.row + 1]
  }

  /** Enlarging a terminal that keeps no history scrolls its top row away (CASE 2). */
  predicate TopRowIsLost(t: Term, dh: int, dw: int)
    requires |t.s.text| > 0
  {
    var dcols := RefitCols(t.cols, dw);
    RefitRows(dh) > t.s.drows && t.s.cap == 0 && Fit(t.s.text[0], dcols) != FreshRow(dcols)
  }

  lemma EnlargeKeeps(t: Term, dh: int, dw: int, style: Style, i: nat)
    requires Valid(t) && t.s.touched && RefitRows(dh) > t.s.drows
    ensures var u := Refit(t, dh, dw, style);
            && S.Valid(u.s) && u.s.touched && u.s.cap == t.s.cap && u.s.drows == RefitRows(dh)
            && u.cols == RefitCols(t.cols, dw) >= t.cols && u.col == t.col && u.row < u.s.drows
            && |u.s.text| - u.s.drows + u.row == |t.s.text| - t.s.drows + t.row
            && |u.s.text| >= |t.s.text|
            && (i < |u.s.text| ==>
                  u.s.text[i] == EnlargedRow(t.s, FitTo(u.cols), FreshRow(u.cols), BlankRow(style, t.cols), BlankRow(style, u.cols), i))
  {
    var drows, dcols := RefitRows(dh), RefitCols(t.cols, dw);
    FitToFits(dcols, style);
    var v, n := View(t.s, t.row), drows - t.s.drows;
    EnlargedShape(v, n, FitTo(dcols), FreshRow(dcols), BlankRow(style, t.cols), BlankRow(style, dcols));
    EnlargedText(v, n, FitTo(dcols), FreshRow(dcols), BlankRow(style, t.cols), BlankRow(style, dcols), i);
  }

  lemma ShrinkKeeps(t: Term, dh: int, dw: int, style: Style, e: nat)
    requires Valid(t) && t.s.touched && RefitRows(dh) < t.s.drows
    ensures var u := Refit(t, dh, dw, style); var k := Pushed(t.row, RefitRows(dh)); var n := t.s.drows - u.s.drows;
            && S.Valid(u.s) && u.s.touched && u.s.cap == t.s.cap && u.s.drows == RefitRows(dh)
            && u.cols >= t.cols && u.col == t.col && u.row == t.row - k && u.row < u.s.drows
            && |u.s.text| == Min(|t.s.text| - n + k, t.s.cap + u.s.drows)
            && (e < |u.s.text| ==>
                  && 0 <= n - k + e < |t.s.text|
                  && FromEnd(u.s.text, e) == Fit(FromEnd(t.s.text, n - k + e), u.cols))
  {
    var drows, dcols := RefitRows(dh), RefitCols(t.cols, dw);
    FitToFits(dcols, style);
    var v, n := View(t.s, t.row), t.s.drows - drows;
    ShrunkShape(v, n, drows, FitTo(dcols), FreshRow(dcols));
    ShrunkText(v, n, drows, FitTo(dcols), FreshRow(dcols), e);
  }

  /** A refit gives the display the requested rows and keeps the cursor inside it. */
  lemma RefitIsValid(t: Term, dh: int, dw: int, style: Style)
    requires Valid(t)
    ensures var u := Refit(t, dh, dw, style);
            && Valid(u) && u.s.touched == t.s.touched && u.s.cap == t.s.cap && u.col == t.col
            && u.s.drows == RefitRows(dh) == (if dh >= 2 then dh else 2) && u.cols >= t.cols
  {
    var u := Refit(t, dh, dw, style);
    if !t.s.touched {
      UntouchedRefit(t, dh, dw, style);
    } else if RefitRows(dh) > t.s.drows {
      EnlargeKeeps(t, dh, dw, style, 0);
      forall i | 0 <= i < |u.s.text| ensures |u.s.text[i]| == u.cols { EnlargeKeeps(t, dh, dw, style, i); }
    } else if RefitRows(dh) < t.s.drows {
      ShrinkKeeps(t, dh, dw, style, 0);
      forall i | 0 <= i < |u.s.text| ensures |u.s.text[i]| == u.cols {
        ShrinkKeeps(t, dh, dw, style, |u.s.text| - 1 - i);
      }
    }
  }

  lemma EnlargeConserves(t: Term, dh: int, dw: int, style: Style)
    requires Valid(t) && t.s.touched && RefitRows(dh) > t.s.drows
    ensures var u := Refit(t, dh, dw, style); var n := |Remembered(t)|;
            && S.Valid(u.s) && u.row < u.s.drows && |Remembered(u)| == n
            && (Remembered(u) == S.FitBottom(Remembered(t), n, FitTo(u.cols), FreshRow(u.cols)) <==> !TopRowIsLost(t, dh, dw))
  {
    var u := Refit(t, dh, dw, style);
    EnlargeKeeps(t, dh, dw, style, 0);
    var kept := S.FitBottom(Remembered(t), |Remembered(t)|, FitTo(u.cols), FreshRow(u.cols));
    forall i | 0 <= i < |Remembered(t)|
      ensures kept[i] == Fit(t.s.text[i], u.cols)
      ensures i > 0 || t.s.cap > 0 ==> Remembered(u)[i] == kept[i]
    {
      EnlargeKeeps(t, dh, dw, style, i);
    }
    if t.s.cap == 0 { assert Remembered(u)[0] == FreshRow(u.cols); }
  }

  lemma ShrinkConserves(t: Term, dh: int, dw: int, style: Style)
    requires Valid(t) && t.s.touched && RefitRows(dh) < t.s.drows
    ensures var u := Refit(t, dh, dw, style); var m := Min(|Remembered(t)|, t.s.cap + u.row + 1);
            && S.Valid(u.s) && u.row < u.s.drows && |Remembered(u)| == m
            && Remembered(u) == S.FitBottom(Remembered(t), m, FitTo(u.cols), FreshRow(u.cols))
  {
    var u := Refit(t, dh, dw, style);
    ShrunkLength(t, dh, dw, style);
    SameLines(Remembered(u), t, dh, dw, style);
  }

  lemma ShrunkLength(t: Term, dh: int, dw: int, style: Style)
    requires Valid(t) && t.s.touched && RefitRows(dh) < t.s.drows
    ensures var u := Refit(t, dh, dw, style);
            && S.Valid(u.s) && u.row < u.s.drows
            && |Remembered(u)| == Min(|Remembered(t)|, t.s.cap + u.row + 1)
  {
    ShrinkKeeps(t, dh, dw, style, 0);
  }

  lemma SameLines(lines: seq<Row>, t: Term, dh: int, dw: int, style: Style)
    requires Valid(t) && t.s.touched && RefitRows(dh) < t.s.drows
    requires var u := Refit(t, dh, dw, style); S.Valid(u.s) && u.row < u.s.drows && lines == Remembered(u)
    requires |lines| <= |Remembered(t)|
    ensures var u := Refit(t, dh, dw, style);
            lines == S.FitBottom(Remembered(t), |lines|, FitTo(u.cols), FreshRow(u.cols))
  {
    var u := Refit(t, dh, dw, style);
    var k := |Remembered(t)| - |lines|;
    forall i | 0 <= i < |lines|
      ensures lines[i] == FitTo(u.cols)(Remembered(t)[i + k])
    {
      ShrunkLine(t, dh, dw, style, i);
    }
    S.IsFitBottom(lines, Remembered(t), FitTo(u.cols), FreshRow(u.cols));
  }

  lemma ShrunkLine(t: Term, dh: int, dw: int, style: Style, i: nat)
    requires Valid(t) && t.s.touched && RefitRows(dh) < t.s.drows
    ensures var u := Refit(t, dh, dw, style);
            && S.Valid(u.s) && u.row < u.s.drows && |Remembered(u)| <= |Remembered(t)|
            && (i < |Remembered(u)| ==>
                  Remembered(u)[i] == Fit(Remembered(t)[i + |Remembered(t)| - |Remembered(u)|], u.cols))
  {
    var u := Refit(t, dh, dw, style);
    ShrinkKeeps(t, dh, dw, style, if i < |u.s.text| then |u.s.text| - 1 - i else 0);
  }

  /** Resize conservation. Whatever mixture of the four cases a refit goes through, the text
      up to and including the cursor's line is the old one in the new width, except for
      the oldest rows beyond history capacity; this holds exactly if the top row is not
      lost for want of any history. */
  lemma RefitConservesText(t: Term, dh: int, dw: int, style: Style)
    requires Valid(t) && t.s.touched
    ensures var u := Refit(t, dh, dw, style);
            && S.Valid(u.s) && u.row < u.s.drows
            && |Remembered(u)| == Min(|Remembered(t)|, t.s.cap + u.row + 1)
            && (Remembered(u) == S.FitBottom(Remembered(t), |Remembered(u)|, FitTo(u.cols), FreshRow(u.cols))
                <==> !TopRowIsLost(t, dh, dw))
  {
    var u := Refit(t, dh, dw, style);
    if RefitRows(dh) > t.s.drows {
      EnlargeKeeps(t, dh, dw, style, 0);
      EnlargeConserves(t, dh, dw, style);
    } else if RefitRows(dh) < t.s.drows {
      ShrinkConserves(t, dh, dw, style);
    } else {
      forall i | 0 <= i < |Remembered(t)| ensures Fit(t.s.text[i], t.cols) == t.s.text[i] { FitSame(t.s.text[i], t.cols); }
      assert Remembered(t) == S.FitBottom(Remembered(t), |Remembered(t)|, FitTo(t.cols), FreshRow(t.cols));
    }
  }

  /** Below the cursor's line the old rows stay as far as there is room; rows gained below
      them show only spaces. So only rows below the cursor are ever trimmed. */
  lemma RefitBelowCursor(t: Term, dh: int, dw: int, style: Style, j: nat)
    requires Valid(t) && t.s.touched
    ensures var u := Refit(t, dh, dw, style);
            && S.Valid(u.s)
            && (u.row + 1 + j < u.s.drows ==>
                  S.Disp(u.s)[u.row + 1 + j]
                  == if t.row + 1 + j < t.s.drows then Fit(S.Disp(t.s)[t.row + 1 + j], u.cols)
                     else if j == t.s.drows - t.row - 1 && |t.s.text| == t.s.drows then Fit(BlankRow(style, t.cols), u.cols)
                     else BlankRow(style, u.cols))
  {
    RefitIsValid(t, dh, dw, style);
    if RefitRows(dh) > t.s.drows {
      EnlargedBelowCursor(t, dh, dw, style, j);
    } else if RefitRows(dh) < t.s.drows {
      ShrunkBelowCursor(t, dh, dw, style, j);
    } else if t.row + 1 + j < t.s.drows {
      FitSame(S.Disp(t.s)[t.row + 1 + j], t.cols);
    }
  }

  lemma EnlargedBelowCursor(t: Term, dh: int, dw: int, style: Style, j: nat)
    requires Valid(t) && t.s.touched && RefitRows(dh) > t.s.drows
    ensures var u := Refit(t, dh, dw, style);
            && S.Valid(u.s)
            && (u.row + 1 + j < u.s.drows ==>
                  S.Disp(u.s)[u.row + 1 + j]
                  == if t.row + 1 + j < t.s.drows then Fit(S.Disp(t.s)[t.row + 1 + j], u.cols)
                     else if j == t.s.drows - t.row - 1 && |t.s.text| == t.s.drows then Fit(BlankRow(style, t.cols), u.cols)
                     else BlankRow(style, u.cols))
  {
    EnlargeKeeps(t, dh, dw, style, |t.s.text| - t.s.drows + t.row + 1 + j);
  }

  lemma ShrunkBelowCursor(t: Term, dh: int, dw: int, style: Style, j: nat)
    requires Valid(t) && t.s.touched && RefitRows(dh) < t.s.drows
    ensures var u := Refit(t, dh, dw, style);
            && S.Valid(u.s)
            && (u.row + 1 + j < u.s.drows ==>
                  t.row + 1 + j < t.s.drows && S.Disp(u.s)[u.row + 1 + j] == Fit(S.Disp(t.s)[t.row + 1 + j], u.cols))
  {
    var u := Refit(t, dh, dw, style);
    ShrinkKeeps(t, dh, dw, style, if u.row + 2 + j <= u.s.drows then u.s.drows - u.row - 2 - j else 0);
  }

  /** Concretely: a terminal of one row without history, showing "A", loses it. */
  lemma TopRowLostExample()
    ensures var a := Cell("A", 0, 0, 0, 0); var style := Style(0, 0, 0, 0);
            var t := Term(S.Screen([[a]], 1, 0, true), 1, 0, 0); var u := Refit(t, 2, 10, style);
            && Valid(t) && S.Valid(u.s) && u.s.text[0] == FreshRow(10)
  {
    var t := Term(S.Screen([[Cell("A", 0, 0, 0, 0)]], 1, 0, true), 1, 0, 0);
    EnlargeKeeps(t, 2, 10, Style(0, 0, 0, 0), 0);
  }

  /** A terminal nothing was written to shows default rows after every refit. */
  lemma UntouchedRefit(t: Term, dh: int, dw: int, style: Style)
    requires Valid(t) && !t.s.touched
    ensures var u := Refit(t, dh, dw, style);
            && Valid(u) && !u.s.touched && u.s.cap == t.s.cap && u.s.drows == RefitRows(dh) && u.col == t.col
            && (WasUnwritten(t) ==> WasUnwritten(u))
  {
    var drows, dcols := RefitRows(dh), RefitCols(t.cols, dw);
    var v := View(t.s, t.row);
    if drows > t.s.drows {
      UntouchedEnlarged(v, drows - t.s.drows, FitTo(dcols), FreshRow(dcols), BlankRow(style, t.cols), BlankRow(style, dcols));
    } else if drows < t.s.drows {
      UntouchedShrunk(v, t.s.drows - drows, drows, FitTo(dcols), FreshRow(dcols));
    }
  }

  ghost predicate WasUnwritten(t: Term) {
    forall i :: 0 <= i < |t.s.text| ==> t.s.text[i] == FreshRow(t.cols)
  }

  // ---- every operation keeps a terminal well formed

  lemma PlotIsValid(t: Term, text: string, style: Style)
    requires Valid(t)
    ensures Valid(Plot(t, text, style))
  {
    var line := S.Disp(t.s)[t.row];
    CursorLine(t);
    PutRowIsValid(t, line[t.col := PlottedCell(line[t.col], text, style)]);
  }

  lemma PutRowIsValid(t: Term, row: Row)
    requires Valid(t) && |row| == t.cols
    ensures Valid(t.(s := S.PutRow(t.s, t.row, row)))
  {
    WidthIsKept(t.s.text, t.cols, |t.s.text| - t.s.drows + t.row, row);
  }

  lemma WidthIsKept(text: seq<Row>, cols: nat, i: nat, row: Row)
    requires WidthIs(text, cols) && i < |text| && |row| == cols
    ensures WidthIs(text[i := row], cols)
  {
  }

  lemma ScrollIsValid(t: Term, n: int, style: Style)
    requires Valid(t)
    ensures Valid(Scroll(t, n, style))
  {
    if t.s.touched && n > 0 {
      S.ScrollUpText(t.s, Clamp(n, 1, t.s.drows), BlankRow(style, t.cols));
    }
  }

  /** A resize is followed by nothing that would bring the cursor back inside. */
  lemma ResizeIsValid(t: Term, drows: nat, dcols: nat, hrows: nat)
    requires Valid(t)
    ensures Valid(Resize(t, drows, dcols, hrows)) <==> t.row < drows && t.col < dcols
  {
    var u := Resize(t, drows, dcols, hrows);
    assert WidthIs(u.s.text, dcols);
  }

  lemma ClearHistoryIsValid(t: Term)
    requires Valid(t)
    ensures Valid(ClearHistory(t))
  {
    var h := |t.s.text| - t.s.drows;
    assert forall i :: 0 <= i < t.s.drows ==> S.Disp(t.s)[i] == t.s.text[h + i];
  }

  lemma DownByIsValid(t: Term, count: nat, doScroll: bool, style: Style)
    requires Valid(t)
    ensures Valid(DownBy(t, count, doScroll, style))
  {
    var over := Max(0, t.row + count + 1 - t.s.drows);
    if t.s.touched { S.ScrollUpText(t.s, over, BlankRow(style, t.cols)); }
  }

  lemma NewLineIsValid(t: Term, style: Style)
    requires Valid(t)
    ensures Valid(NewLine(t, style))
  {
    ScrollIsValid(t, 1, style);
  }
}
