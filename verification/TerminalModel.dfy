/** The terminal on its ring buffer: printing, cursor movement, scrolling and refitting as
    src/Fl_Terminal.cxx does them, and the refinement of the naive terminal over every run. */
module TerminalModel {
  import opened CArithmetic
  import opened TerminalCells
  import R = RingModel
  import RR = RingRefinement
  import NR = NaiveRefit
  import N = NaiveTerminal
  import S = NaiveScreen

  datatype Term = Term(ring: R.Ring<Row>, cols: nat, row: nat, col: nat)

  function Abs(t: Term): N.Term
    requires R.Valid(t.ring)
  {
    N.Term(RR.Abs(t.ring), t.cols, t.row, t.col)
  }

  ghost predicate Valid(t: Term) {
    R.Valid(t.ring) && N.Valid(Abs(t))
  }

  // ---- operations

  function ScrollBy(t: Term, n: int, style: Style): Term
    requires R.Valid(t.ring)
  {
    t.(ring := R.Scroll(t.ring, n, BlankRow(style, t.cols)))
  }

  /** cursor_down(): at most one turn of the ring. */
  function CursorDown(t: Term, count: int, doScroll: bool, style: Style): Term
    requires R.Valid(t.ring)
  {
    CursorDownFrom(t, Clamp(count, 1, |t.ring.rows|), doScroll, style)
  }

  function CursorDownFrom(t: Term, count: nat, doScroll: bool, style: Style): Term
    requires R.Valid(t.ring)
    decreases count
  {
    if count == 0 then t
    else if t.row + 1 < t.ring.dispRows then CursorDownFrom(t.(row := t.row + 1), count - 1, doScroll, style)
    else if !doScroll then t.(row := t.ring.dispRows - 1)
    else
      RR.ScrollRefines(t.ring, 1, BlankRow(style, t.cols));
      CursorDownFrom(ScrollBy(t, 1, style).(row := t.ring.dispRows - 1), count - 1, doScroll, style)
  }

  /** cursor_up(): at most two displays; the test for the top line comes after the move. */
  function CursorUp(t: Term, count: int, doScroll: bool, style: Style): Term
    requires R.Valid(t.ring)
  {
    CursorUpFrom(t, Clamp(count, 1, 2 * t.ring.dispRows), doScroll, style)
  }

  function CursorUpFrom(t: Term, count: nat, doScroll: bool, style: Style): Term
    requires R.Valid(t.ring)
    decreases count
  {
    if count == 0 then t
    else if t.row > 1 then CursorUpFrom(t.(row := t.row - 1), count - 1, doScroll, style)
    else if !doScroll then t.(row := 0)
    else
      RR.ScrollRefines(t.ring, -1, BlankRow(style, t.cols));
      CursorUpFrom(ScrollBy(t, -1, style).(row := 0), count - 1, doScroll, style)
  }

  function CursorCrlf(t: Term, count: int, style: Style): Term
    requires R.Valid(t.ring)
  {
    CursorDown(t.(col := 0), Clamp(count, 1, |t.ring.rows|), true, style)
  }

  /** cursor_right(1, true): one column on, or to the start of the next line. */
  function CursorRightOne(t: Term, style: Style): Term
    requires R.Valid(t.ring)
  {
    if t.col + 1 >= t.cols then CursorCrlf(t.(col := t.col + 1), 1, style) else t.(col := t.col + 1)
  }

  function PlotChar(t: Term, text: string, drow: int, dcol: nat, style: Style): (u: Term)
    requires Valid(t) && dcol < t.cols
    ensures R.Valid(u.ring)
  {
    LineAt(t, drow);
    var line := t.ring.rows[R.DispIndex(t.ring, drow)];
    t.(ring := R.PutDispRow(t.ring, drow, line[dcol := PlottedCell(line[dcol], text, style)]))
  }

  lemma LineAt(t: Term, drow: int)
    requires Valid(t)
    ensures 0 <= R.DispIndex(t.ring, drow) < |t.ring.rows|
    ensures |t.ring.rows[R.DispIndex(t.ring, drow)]| == t.cols
  {
    RR.DispIndexIsTotal(t.ring, drow);
  }

  /** print_char() of a printable character. */
  function PrintChar(t: Term, text: string, style: Style): Term
    requires Valid(t)
  {
    CursorRightOne(PlotChar(t, text, t.row, t.col, style), style)
  }

  function MoveCursor(t: Term, row: int, col: int): Term
    requires t.ring.dispRows > 0 && t.cols > 0
  {
    t.(row := Clamp(row, 0, t.ring.dispRows - 1), col := Clamp(col, 0, t.cols - 1))
  }

  function ClearHistory(t: Term, style: Style): Term
    requires R.Valid(t.ring)
  {
    t.(ring := R.ClearHistory(t.ring, BlankRow(style, t.cols)))
  }

  /** history_rows(), and display_rows() and display_columns() up to the refit they end with:
      what changes nothing is not done. */
  function HistoryRows(t: Term, hrows: nat): Term
    requires R.Valid(t.ring)
  {
    if hrows == t.ring.histRows then t else Resize(t, t.ring.dispRows, t.cols, hrows)
  }

  function DisplayRows(t: Term, drows: nat): Term
    requires R.Valid(t.ring)
  {
    if drows == t.ring.dispRows then t else Resize(t, drows, t.cols, t.ring.histRows)
  }

  function DisplayColumns(t: Term, dcols: nat): Term
    requires R.Valid(t.ring)
  {
    if dcols == t.cols then t else Resize(t, t.ring.dispRows, dcols, t.ring.histRows)
  }

  /** RingBuffer::resize(): a new buffer, or only a moved border if nothing else changes. */
  function Resize(t: Term, drows: nat, dcols: nat, hrows: nat): Term
    requires R.Valid(t.ring)
  {
    if dcols != t.cols || drows + hrows != t.ring.dispRows + t.ring.histRows then
      t.(ring := R.NewCopy(t.ring, drows, hrows, N.FitTo(dcols), FreshRow(dcols)), cols := dcols)
    else
      t.(ring := R.MoveBorder(t.ring, drows, hrows))
  }

  function EnlargeStep(t: Term, dcols: nat, style: Style): Term
    requires R.Valid(t.ring)
  {
    if t.ring.histUse > 0 then Resize(t.(row := t.row + 1), t.ring.dispRows + 1, dcols, t.ring.histRows)
    else
      RR.ScrollRefines(t.ring, 1, BlankRow(style, t.cols));
      Resize(ScrollBy(t, 1, style), t.ring.dispRows + 1, dcols, t.ring.histRows)
  }

  function ShrinkStep(t: Term, drows: nat, dcols: nat): Term
    requires R.Valid(t.ring) && t.ring.dispRows > 1
  {
    if drows > t.row then t.(ring := R.SetDispRows(t.ring, t.ring.dispRows - 1))
    else Resize(t.(row := if t.row > 0 then t.row - 1 else 0), t.ring.dispRows - 1, dcols, t.ring.histRows)
  }

  function EnlargeBy(t: Term, n: nat, dcols: nat, style: Style): Term
    requires R.Valid(t.ring) && dcols > 0
    decreases n
  {
    if n == 0 then t
    else
      EnlargeStepRefines(t, dcols, style);
      EnlargeBy(EnlargeStep(t, dcols, style), n - 1, dcols, style)
  }

  function ShrinkBy(t: Term, n: nat, drows: nat, dcols: nat): Term
    requires R.Valid(t.ring) && n < t.ring.dispRows && dcols > 0
    decreases n
  {
    if n == 0 then t
    else
      ShrinkStepRefines(t, drows, dcols);
      ShrinkBy(ShrinkStep(t, drows, dcols), n - 1, drows, dcols)
  }

  /** refit_disp_to_screen() for a window that holds dh rows and dw columns. */
  function Refit(t: Term, dh: int, dw: int, style: Style): Term
    requires R.Valid(t.ring)
  {
    var drows, dcols := N.RefitRows(dh), N.RefitCols(t.cols, dw);
    if drows == t.ring.dispRows then t
    else if drows >= t.ring.dispRows then EnlargeBy(t, drows - t.ring.dispRows, dcols, style)
    else ShrinkBy(t, t.ring.dispRows - drows, drows, dcols)
  }

  // ---- refitting refines the naive refit, step by step

  function View(t: Term): NR.View<Row>
    requires R.Valid(t.ring)
  {
    NR.View(RR.Abs(t.ring), t.row)
  }

  lemma ResizeRefines(t: Term, drows: nat, dcols: nat, hrows: nat)
    requires R.Valid(t.ring) && drows > 0
    requires dcols != t.cols || drows + hrows != t.ring.dispRows + t.ring.histRows
    ensures var u := Resize(t, drows, dcols, hrows);
            && R.Valid(u.ring) && u == Term(u.ring, dcols, t.row, t.col)
            && RR.Abs(u.ring) == S.Resize(RR.Abs(t.ring), drows, hrows, N.FitTo(dcols), FreshRow(dcols))
  {
    RR.NewCopyRefines(t.ring, drows, hrows, N.FitTo(dcols), FreshRow(dcols));
  }

  lemma ScrollKeepsSizes(r: R.Ring<Row>, n: int, blank: Row)
    requires R.Valid(r)
    ensures var t := R.Scroll(r, n, blank); t.dispRows == r.dispRows && t.histRows == r.histRows && |t.rows| == |r.rows|
  {
    if r.live && n > 0 { RR.ScrollUpAt(r, Clamp(n, 1, r.dispRows), blank, 0); }
  }

  /** CASE 1: a line comes back from the history. */
  lemma EnlargeFromHistory(t: Term, dcols: nat, style: Style)
    requires R.Valid(t.ring) && t.ring.histUse > 0
    ensures var u := EnlargeStep(t, dcols, style);
            && R.Valid(u.ring) && u.cols == dcols && u.col == t.col && u.ring.dispRows == t.ring.dispRows + 1
            && View(u) == NR.EnlargeStep(View(t), N.FitTo(dcols), FreshRow(dcols), BlankRow(style, t.cols))
  {
    ResizeRefines(t.(row := t.row + 1), t.ring.dispRows + 1, dcols, t.ring.histRows);
  }

  /** CASE 2: the display scrolls to make room at the bottom. */
  lemma EnlargeByScroll(t: Term, dcols: nat, style: Style)
    requires R.Valid(t.ring) && t.ring.histUse == 0
    ensures var u := EnlargeStep(t, dcols, style);
            && R.Valid(u.ring) && u.cols == dcols && u.col == t.col && u.ring.dispRows == t.ring.dispRows + 1
            && View(u) == NR.EnlargeStep(View(t), N.FitTo(dcols), FreshRow(dcols), BlankRow(style, t.cols))
  {
    RR.ScrollRefines(t.ring, 1, BlankRow(style, t.cols));
    ScrollKeepsSizes(t.ring, 1, BlankRow(style, t.cols));
    ResizeRefines(ScrollBy(t, 1, style), t.ring.dispRows + 1, dcols, t.ring.histRows);
  }

  lemma EnlargeStepRefines(t: Term, dcols: nat, style: Style)
    requires R.Valid(t.ring)
    ensures var u := EnlargeStep(t, dcols, style);
            && R.Valid(u.ring) && u.cols == dcols && u.col == t.col && u.ring.dispRows == t.ring.dispRows + 1
            && View(u) == NR.EnlargeStep(View(t), N.FitTo(dcols), FreshRow(dcols), BlankRow(style, t.cols))
  {
    if t.ring.histUse > 0 { EnlargeFromHistory(t, dcols, style); } else { EnlargeByScroll(t, dcols, style); }
  }

  /** CASE 3: a line below the cursor is trimmed. */
  lemma ShrinkByTrim(t: Term, drows: nat, dcols: nat)
    requires R.Valid(t.ring) && t.ring.dispRows > 1 && drows > t.row
    ensures var u := ShrinkStep(t, drows, dcols);
            && R.Valid(u.ring) && u.cols == t.cols && u.col == t.col && u.ring.dispRows == t.ring.dispRows - 1
            && View(u) == NR.ShrinkStep(View(t), drows, N.FitTo(dcols), FreshRow(dcols))
  {
    RR.TrimRefines(t.ring, t.ring.dispRows - 1);
  }

  /** CASE 4: the top line goes into the history. */
  lemma ShrinkByPush(t: Term, drows: nat, dcols: nat)
    requires R.Valid(t.ring) && t.ring.dispRows > 1 && drows <= t.row
    ensures var u := ShrinkStep(t, drows, dcols);
            && R.Valid(u.ring) && u.cols == dcols && u.col == t.col && u.ring.dispRows == t.ring.dispRows - 1
            && View(u) == NR.ShrinkStep(View(t), drows, N.FitTo(dcols), FreshRow(dcols))
  {
    var u, row := TopRowPushed(t, drows, dcols);
    assert View(u) == NR.View(RR.Abs(u.ring), row);
  }

  lemma TopRowPushed(t: Term, drows: nat, dcols: nat) returns (u: Term, row: nat)
    requires R.Valid(t.ring) && t.ring.dispRows > 1 && drows <= t.row
    ensures u == ShrinkStep(t, drows, dcols) && row == if t.row > 0 then t.row - 1 else 0
    ensures R.Valid(u.ring) && u == Term(u.ring, dcols, row, t.col) && u.ring.dispRows == t.ring.dispRows - 1
    ensures RR.Abs(u.ring) == S.Resize(RR.Abs(t.ring), t.ring.dispRows - 1, t.ring.histRows, N.FitTo(dcols), FreshRow(dcols))
  {
    row := if t.row > 0 then t.row - 1 else 0;
    u := Resize(t.(row := row), t.ring.dispRows - 1, dcols, t.ring.histRows);
    ResizeRefines(t.(row := row), t.ring.dispRows - 1, dcols, t.ring.histRows);
  }

  lemma ShrinkStepRefines(t: Term, drows: nat, dcols: nat)
    requires R.Valid(t.ring) && t.ring.dispRows > 1
    ensures var u := ShrinkStep(t, drows, dcols);
            && R.Valid(u.ring) && u.cols == (if drows > t.row then t.cols else dcols) && u.col == t.col
            && u.ring.dispRows == t.ring.dispRows - 1
            && View(u) == NR.ShrinkStep(View(t), drows, N.FitTo(dcols), FreshRow(dcols))
  {
    if drows > t.row { ShrinkByTrim(t, drows, dcols); } else { ShrinkByPush(t, drows, dcols); }
  }

  lemma {:induction false} EnlargeRefines(t: Term, n: nat, dcols: nat, style: Style)
    requires R.Valid(t.ring) && dcols > 0 && n > 0
    ensures var u := EnlargeBy(t, n, dcols, style);
            && R.Valid(u.ring) && u.cols == dcols && u.col == t.col
            && View(u) == NR.EnlargeBy(View(t), n, N.FitTo(dcols), FreshRow(dcols), BlankRow(style, t.cols), BlankRow(style, dcols))
    decreases n
  {
    EnlargeStepRefines(t, dcols, style);
    if n > 1 { EnlargeRefines(EnlargeStep(t, dcols, style), n - 1, dcols, style); }
  }

  lemma {:induction false} ShrinkRefines(t: Term, n: nat, drows: nat, dcols: nat)
    requires R.Valid(t.ring) && dcols > 0 && drows > 0 && n == t.ring.dispRows - drows && t.row < t.ring.dispRows
    ensures var u := ShrinkBy(t, n, drows, dcols);
            && R.Valid(u.ring) && u.col == t.col
            && u.cols == (if NR.Pushed(t.row, drows) > 0 then dcols else t.cols)
            && View(u) == NR.ShrinkBy(View(t), n, drows, N.FitTo(dcols), FreshRow(dcols))
    decreases n
  {
    if n > 0 {
      ShrinkStepRefines(t, drows, dcols);
      ShrinkRefines(ShrinkStep(t, drows, dcols), n - 1, drows, dcols);
    }
  }

  lemma RefitRefines(t: Term, dh: int, dw: int, style: Style)
    requires Valid(t)
    ensures var u := Refit(t, dh, dw, style); Valid(u) && Abs(u) == N.Refit(Abs(t), dh, dw, style)
  {
    RefitIsNaive(t, dh, dw, style);
    N.RefitIsValid(Abs(t), dh, dw, style);
  }

  lemma RefitIsNaive(t: Term, dh: int, dw: int, style: Style)
    requires R.Valid(t.ring) && t.row < t.ring.dispRows
    ensures var u := Refit(t, dh, dw, style); R.Valid(u.ring) && Abs(u) == N.Refit(Abs(t), dh, dw, style)
  {
    if N.RefitRows(dh) > t.ring.dispRows {
      var u, n := LargerIsNaive(t, N.RefitRows(dh), N.RefitCols(t.cols, dw), style);
      assert Refit(t, dh, dw, style) == u && N.Refit(Abs(t), dh, dw, style) == n;
    } else if N.RefitRows(dh) < t.ring.dispRows {
      var u, n := SmallerIsNaive(t, N.RefitRows(dh), N.RefitCols(t.cols, dw));
      assert Refit(t, dh, dw, style) == u && N.Refit(Abs(t), dh, dw, style) == n;
    }
  }

  lemma LargerIsNaive(t: Term, drows: nat, dcols: nat, style: Style) returns (u: Term, n: N.Term)
    requires R.Valid(t.ring) && drows > t.ring.dispRows && dcols > 0
    ensures u == EnlargeBy(t, drows - t.ring.dispRows, dcols, style) && n == N.Larger(Abs(t), drows, dcols, style)
    ensures R.Valid(u.ring) && Abs(u) == n
  {
    EnlargeRefines(t, drows - t.ring.dispRows, dcols, style);
    u, n := EnlargeBy(t, drows - t.ring.dispRows, dcols, style), N.Larger(Abs(t), drows, dcols, style);
  }

  lemma SmallerIsNaive(t: Term, drows: nat, dcols: nat) returns (u: Term, n: N.Term)
    requires R.Valid(t.ring) && t.row < t.ring.dispRows && 0 < drows < t.ring.dispRows && dcols > 0
    ensures u == ShrinkBy(t, t.ring.dispRows - drows, drows, dcols) && n == N.Smaller(Abs(t), drows, dcols)
    ensures R.Valid(u.ring) && Abs(u) == n
  {
    ShrinkRefines(t, t.ring.dispRows - drows, drows, dcols);
    u, n := ShrinkBy(t, t.ring.dispRows - drows, drows, dcols), N.Smaller(Abs(t), drows, dcols);
  }

  // ---- printing refines naive printing

  lemma PlotRefines(t: Term, text: string, style: Style)
    requires Valid(t)
    ensures var u := PlotChar(t, text, t.row, t.col, style);
            Valid(u) && u == Term(u.ring, t.cols, t.row, t.col) && Abs(u) == N.Plot(Abs(t), text, style)
  {
    var i := R.DispIndex(t.ring, t.row);
    RR.RegionsAreRead(t.ring);
    N.CursorLine(Abs(t));
    LineAt(t, t.row);
    var line := t.ring.rows[i];
    assert line == S.Disp(Abs(t).s)[t.row];
    RR.PutDispRowRefines(t.ring, t.row, line[t.col := PlottedCell(line[t.col], text, style)]);
    N.PlotIsValid(Abs(t), text, style);
  }

  /** At the bottom line, scrolling. */
  lemma LineDownRefines(t: Term, style: Style)
    requires R.Valid(t.ring) && t.row + 1 == t.ring.dispRows
    ensures var u := ScrollBy(t, 1, style).(row := t.ring.dispRows - 1);
            R.Valid(u.ring) && u.ring.dispRows == t.ring.dispRows && Abs(u) == N.LineDown(Abs(t), style)
  {
    RR.ScrollRefines(t.ring, 1, BlankRow(style, t.cols));
    ScrollKeepsSizes(t.ring, 1, BlankRow(style, t.cols));
  }

  /** Where one line down leads, if the loop goes on. */
  function LineDown(t: Term, style: Style): Term
    requires R.Valid(t.ring)
  {
    if t.row + 1 < t.ring.dispRows then t.(row := t.row + 1)
    else ScrollBy(t, 1, style).(row := t.ring.dispRows - 1)
  }

  lemma DownTurn(t: Term, count: nat, doScroll: bool, style: Style) returns (v: Term)
    requires R.Valid(t.ring) && t.row < t.ring.dispRows && count > 0
    requires doScroll || t.row + 1 < t.ring.dispRows
    ensures v == LineDown(t, style) && R.Valid(v.ring) && v.row < v.ring.dispRows && |v.ring.rows| == |t.ring.rows|
    ensures CursorDownFrom(t, count, doScroll, style) == CursorDownFrom(v, count - 1, doScroll, style)
    ensures N.DownBy(Abs(t), count, doScroll, style) == N.DownBy(Abs(v), count - 1, doScroll, style)
  {
    v := LineDown(t, style);
    N.DownByStep(Abs(t), count, doScroll, style);
    if t.row + 1 == t.ring.dispRows {
      LineDownRefines(t, style);
      ScrollKeepsSizes(t.ring, 1, BlankRow(style, t.cols));
    }
  }

  lemma DownEnds(t: Term, count: nat, doScroll: bool, style: Style)
    requires R.Valid(t.ring) && t.row < t.ring.dispRows
    requires count == 0 || (!doScroll && t.row + 1 == t.ring.dispRows)
    ensures CursorDownFrom(t, count, doScroll, style) == t && N.DownBy(Abs(t), count, doScroll, style) == Abs(t)
  {
  }

  lemma {:induction false} CursorDownFromRefines(t: Term, count: nat, doScroll: bool, style: Style)
      returns (u: Term, d: N.Term)
    requires R.Valid(t.ring) && t.row < t.ring.dispRows
    ensures u == CursorDownFrom(t, count, doScroll, style) && d == N.DownBy(Abs(t), count, doScroll, style)
    ensures R.Valid(u.ring) && |u.ring.rows| == |t.ring.rows| && Abs(u) == d
    decreases count
  {
    if count == 0 || (!doScroll && t.row + 1 == t.ring.dispRows) {
      DownEnds(t, count, doScroll, style);
      u, d := t, Abs(t);
    } else {
      var v := DownTurn(t, count, doScroll, style);
      u, d := CursorDownFromRefines(v, count - 1, doScroll, style);
    }
  }

  /** cursor_down() for every count, scrolling or not: the row is clamped to the bottom line
      and the screen scrolls once for every line that does not fit. */
  lemma CursorDownRefines(t: Term, count: int, doScroll: bool, style: Style)
    requires R.Valid(t.ring) && t.row < t.ring.dispRows
    ensures var u := CursorDown(t, count, doScroll, style);
            && R.Valid(u.ring) && |u.ring.rows| == |t.ring.rows|
            && Abs(u) == N.DownBy(Abs(t), Clamp(count, 1, |t.ring.rows|), doScroll, style)
  {
    var u, d := CursorDownFromRefines(t, Clamp(count, 1, |t.ring.rows|), doScroll, style);
  }

  /** At the top line, scrolling. */
  lemma LineUpRefines(t: Term, style: Style)
    requires R.Valid(t.ring)
    ensures var u := ScrollBy(t, -1, style).(row := 0);
            R.Valid(u.ring) && Abs(u) == N.Scroll(Abs(t), -1, style).(row := 0)
  {
    RR.ScrollRefines(t.ring, -1, BlankRow(style, t.cols));
  }

  /** Where one line up leads, if the loop goes on. */
  function LineUp(t: Term, style: Style): Term
    requires R.Valid(t.ring)
  {
    if t.row > 1 then t.(row := t.row - 1) else ScrollBy(t, -1, style).(row := 0)
  }

  lemma UpTurn(t: Term, count: nat, doScroll: bool, style: Style) returns (v: Term)
    requires R.Valid(t.ring) && count > 0 && (doScroll || t.row > 1)
    ensures v == LineUp(t, style) && R.Valid(v.ring) && |v.ring.rows| == |t.ring.rows|
    ensures CursorUpFrom(t, count, doScroll, style) == CursorUpFrom(v, count - 1, doScroll, style)
    ensures N.UpBy(Abs(t), count, doScroll, style) == N.UpBy(Abs(v), count - 1, doScroll, style)
  {
    v := LineUp(t, style);
    N.UpByStep(Abs(t), count, doScroll, style);
    if t.row <= 1 {
      LineUpRefines(t, style);
      ScrollKeepsSizes(t.ring, -1, BlankRow(style, t.cols));
    }
  }

  lemma UpEnds(t: Term, count: nat, doScroll: bool, style: Style) returns (u: Term)
    requires R.Valid(t.ring) && (count == 0 || (!doScroll && t.row <= 1))
    ensures u == CursorUpFrom(t, count, doScroll, style) && R.Valid(u.ring) && u.ring == t.ring
    ensures Abs(u) == N.UpBy(Abs(t), count, doScroll, style)
  {
    u := CursorUpFrom(t, count, doScroll, style);
  }

  lemma {:induction false} CursorUpFromRefines(t: Term, count: nat, doScroll: bool, style: Style)
      returns (u: Term, d: N.Term)
    requires R.Valid(t.ring)
    ensures u == CursorUpFrom(t, count, doScroll, style) && d == N.UpBy(Abs(t), count, doScroll, style)
    ensures R.Valid(u.ring) && |u.ring.rows| == |t.ring.rows| && Abs(u) == d
    decreases count
  {
    if count == 0 || (!doScroll && t.row <= 1) {
      u := UpEnds(t, count, doScroll, style);
      d := Abs(u);
    } else {
      var v := UpTurn(t, count, doScroll, style);
      u, d := CursorUpFromRefines(v, count - 1, doScroll, style);
    }
  }

  /** cursor_up() for every count: the row is clamped to the top line. */
  lemma CursorUpRefines(t: Term, count: int, doScroll: bool, style: Style)
    requires R.Valid(t.ring)
    ensures var u := CursorUp(t, count, doScroll, style);
            && R.Valid(u.ring) && |u.ring.rows| == |t.ring.rows|
            && Abs(u) == N.UpBy(Abs(t), Clamp(count, 1, 2 * t.ring.dispRows), doScroll, style)
  {
    var u, d := CursorUpFromRefines(t, Clamp(count, 1, 2 * t.ring.dispRows), doScroll, style);
  }

  lemma NewLineRefines(t: Term, style: Style)
    requires R.Valid(t.ring) && t.row < t.ring.dispRows
    ensures var u := CursorCrlf(t, 1, style);
            R.Valid(u.ring) && |u.ring.rows| == |t.ring.rows| && Abs(u) == N.NewLine(Abs(t), style)
  {
    RR.ScrollRefines(t.ring, 1, BlankRow(style, t.cols));
    ScrollKeepsSizes(t.ring, 1, BlankRow(style, t.cols));
    var b := t.(col := 0);
    assert CursorCrlf(t, 1, style) == CursorDownFrom(b, 1, true, style);
    if t.row + 1 < t.ring.dispRows {
      assert CursorDownFrom(b, 1, true, style) == b.(row := t.row + 1);
    } else {
      assert CursorDownFrom(b, 1, true, style) == ScrollBy(b, 1, style).(row := t.ring.dispRows - 1);
    }
  }

  lemma PrintCharRefines(t: Term, text: string, style: Style)
    requires Valid(t)
    ensures var u := PrintChar(t, text, style);
            Valid(u) && |u.ring.rows| == |t.ring.rows| && Abs(u) == N.PrintChar(Abs(t), text, style)
  {
    PlotRefines(t, text, style);
    var p := PlotChar(t, text, t.row, t.col, style);
    if t.col + 1 >= t.cols {
      NewLineRefines(p.(col := t.col + 1), style);
      N.NewLineIsValid(Abs(p), style);
    }
  }

  // ---- the rows of memory

  /** How many rows the ring has after a refit: only rows that were pushed or gained make a
      new ring, and rows trimmed below the cursor stay in it unused. */
  function RefitMemory(t: N.Term, rows: nat, dh: int): nat
    requires t.row < t.s.drows
  {
    var drows := N.RefitRows(dh);
    if drows > t.s.drows then t.s.cap + drows
    else if drows < t.s.drows && NR.Pushed(t.row, drows) > 0 then t.s.cap + t.s.drows - NR.Pushed(t.row, drows)
    else rows
  }

  lemma {:induction false} EnlargedMemory(t: Term, n: nat, dcols: nat, style: Style)
    requires R.Valid(t.ring) && dcols > 0 && n > 0
    ensures |EnlargeBy(t, n, dcols, style).ring.rows| == t.ring.histRows + t.ring.dispRows + n
    decreases n
  {
    EnlargeStepMemory(t, dcols, style);
    EnlargeStepRefines(t, dcols, style);
    if n > 1 { EnlargedMemory(EnlargeStep(t, dcols, style), n - 1, dcols, style); }
  }

  lemma EnlargeStepMemory(t: Term, dcols: nat, style: Style)
    requires R.Valid(t.ring)
    ensures var r := EnlargeStep(t, dcols, style).ring;
      r.histRows == t.ring.histRows && r.dispRows == t.ring.dispRows + 1 && |r.rows| == r.histRows + r.dispRows
  {
    if t.ring.histUse == 0 { ScrollKeepsSizes(t.ring, 1, BlankRow(style, t.cols)); }
  }

  lemma {:induction false} ShrunkMemory(t: Term, n: nat, drows: nat, dcols: nat)
    requires R.Valid(t.ring) && dcols > 0 && drows > 0 && n == t.ring.dispRows - drows && t.row < t.ring.dispRows
    ensures var k := NR.Pushed(t.row, drows);
      |ShrinkBy(t, n, drows, dcols).ring.rows| == if k > 0 then t.ring.histRows + t.ring.dispRows - k else |t.ring.rows|
    decreases n
  {
    if n > 0 {
      ShrinkStepRefines(t, drows, dcols);
      ShrunkMemory(ShrinkStep(t, drows, dcols), n - 1, drows, dcols);
    }
  }

  lemma RefitMemoryIs(t: Term, dh: int, dw: int, style: Style)
    requires Valid(t)
    ensures |Refit(t, dh, dw, style).ring.rows| == RefitMemory(Abs(t), |t.ring.rows|, dh)
  {
    var drows, dcols := N.RefitRows(dh), N.RefitCols(t.cols, dw);
    if drows > t.ring.dispRows {
      EnlargedMemory(t, drows - t.ring.dispRows, dcols, style);
    } else if drows < t.ring.dispRows {
      ShrunkMemory(t, t.ring.dispRows - drows, drows, dcols);
    }
  }

  // ---- every run

  datatype Op =
    | Print(text: string, style: Style)
    | NewLine(style: Style)
    | Scroll(n: int, style: Style)
    | Down(count: int, doScroll: bool, style: Style)
    | Up(count: int, doScroll: bool, style: Style)
    | Move(row: int, col: int)
    | ClearHist(style: Style)
    | RefitTo(dh: int, dw: int, style: Style)
    | SetHistoryRows(hrows: nat)
    | SetDisplayRows(drows: nat)
    | SetDisplayColumns(dcols: nat)

  function Step(t: Term, op: Op): Term
    requires Valid(t)
  {
    match op
    case Print(text, style) => PrintChar(t, text, style)
    case NewLine(style) => CursorCrlf(t, 1, style)
    case Scroll(n, style) => ScrollBy(t, n, style)
    case Down(count, doScroll, style) => CursorDown(t, count, doScroll, style)
    case Up(count, doScroll, style) => CursorUp(t, count, doScroll, style)
    case Move(row, col) => MoveCursor(t, row, col)
    case ClearHist(style) => ClearHistory(t, style)
    case RefitTo(dh, dw, style) => Refit(t, dh, dw, style)
    case SetHistoryRows(hrows) => HistoryRows(t, hrows)
    case SetDisplayRows(drows) => DisplayRows(t, drows)
    case SetDisplayColumns(dcols) => DisplayColumns(t, dcols)
  }

  /** The naive terminal, and for how many rows there is memory: a downward move is cut off
      at that many lines. */
  datatype Naive = Naive(t: N.Term, rows: nat)

  function Paper(t: Term): Naive
    requires R.Valid(t.ring)
  {
    Naive(Abs(t), |t.ring.rows|)
  }

  /** Other numbers of rows or columns do not move the cursor, and may leave it outside. */
  predicate KeepsCursor(t: N.Term, op: Op) {
    && (op.SetDisplayRows? ==> t.row < op.drows)
    && (op.SetDisplayColumns? ==> t.col < op.dcols)
  }

  function NaiveResize(m: Naive, drows: nat, dcols: nat, hrows: nat): Naive {
    if drows == m.t.s.drows && dcols == m.t.cols && hrows == m.t.s.cap then m
    else Naive(N.Resize(m.t, drows, dcols, hrows), drows + hrows)
  }

  function NaiveStep(m: Naive, op: Op): Naive
    requires N.Valid(m.t)
  {
    var t := m.t;
    match op
    case Print(text, style) => m.(t := N.PrintChar(t, text, style))
    case NewLine(style) => m.(t := N.NewLine(t, style))
    case Scroll(n, style) => m.(t := N.Scroll(t, n, style))
    case Down(count, doScroll, style) => m.(t := N.DownBy(t, Clamp(count, 1, m.rows), doScroll, style))
    case Up(count, doScroll, style) => m.(t := N.UpBy(t, Clamp(count, 1, 2 * t.s.drows), doScroll, style))
    case Move(row, col) => m.(t := N.MoveCursor(t, row, col))
    case ClearHist(style) => m.(t := N.ClearHistory(t))
    case RefitTo(dh, dw, style) => Naive(N.Refit(t, dh, dw, style), RefitMemory(t, m.rows, dh))
    case SetHistoryRows(hrows) => NaiveResize(m, t.s.drows, t.cols, hrows)
    case SetDisplayRows(drows) => NaiveResize(m, drows, t.cols, t.s.cap)
    case SetDisplayColumns(dcols) => NaiveResize(m, t.s.drows, dcols, t.s.cap)
  }

  predicate IsResize(op: Op) {
    op.RefitTo? || op.SetHistoryRows? || op.SetDisplayRows? || op.SetDisplayColumns?
  }

  lemma NaiveWriteIsValid(m: Naive, op: Op)
    requires N.Valid(m.t) && !IsResize(op)
    ensures N.Valid(NaiveStep(m, op).t)
  {
    match op
    case Print(text, style) =>
      N.PlotIsValid(m.t, text, style);
      N.NewLineIsValid(N.Plot(m.t, text, style), style);
    case NewLine(style) => N.NewLineIsValid(m.t, style);
    case Scroll(n, style) => N.ScrollIsValid(m.t, n, style);
    case Down(count, doScroll, style) => N.DownByIsValid(m.t, Clamp(count, 1, m.rows), doScroll, style);
    case Up(count, doScroll, style) => N.UpByIsValid(m.t, Clamp(count, 1, 2 * m.t.s.drows), doScroll, style);
    case Move(row, col) =>
    case ClearHist(style) => N.ClearHistoryIsValid(m.t);
  }

  lemma NaiveResizeIsValid(m: Naive, op: Op)
    requires N.Valid(m.t) && IsResize(op)
    ensures N.Valid(NaiveStep(m, op).t) <==> KeepsCursor(m.t, op)
  {
    match op
    case RefitTo(dh, dw, style) => N.RefitIsValid(m.t, dh, dw, style);
    case SetHistoryRows(hrows) => N.ResizeIsValid(m.t, m.t.s.drows, m.t.cols, hrows);
    case SetDisplayRows(drows) => N.ResizeIsValid(m.t, drows, m.t.cols, m.t.s.cap);
    case SetDisplayColumns(dcols) => N.ResizeIsValid(m.t, m.t.s.drows, dcols, m.t.s.cap);
  }

  lemma NaiveStepIsValid(m: Naive, op: Op)
    requires N.Valid(m.t)
    ensures N.Valid(NaiveStep(m, op).t) <==> KeepsCursor(m.t, op)
  {
    if IsResize(op) { NaiveResizeIsValid(m, op); } else { NaiveWriteIsValid(m, op); }
  }

  lemma RefitAbstracts(t: Term, op: Op)
    requires Valid(t) && op.RefitTo?
    ensures R.Valid(Step(t, op).ring) && Paper(Step(t, op)) == NaiveStep(Paper(t), op)
  {
    RefitRefines(t, op.dh, op.dw, op.style);
    RefitMemoryIs(t, op.dh, op.dw, op.style);
  }

  lemma HistoryAbstracts(t: Term, op: Op)
    requires Valid(t) && op.SetHistoryRows?
    ensures R.Valid(Step(t, op).ring) && Paper(Step(t, op)) == NaiveStep(Paper(t), op)
  {
    ResizeStep(t, t.ring.dispRows, t.cols, op.hrows);
  }

  lemma RowsAbstract(t: Term, op: Op)
    requires Valid(t) && op.SetDisplayRows? && op.drows > 0
    ensures R.Valid(Step(t, op).ring) && Paper(Step(t, op)) == NaiveStep(Paper(t), op)
  {
    ResizeStep(t, op.drows, t.cols, t.ring.histRows);
  }

  lemma ColumnsAbstract(t: Term, op: Op)
    requires Valid(t) && op.SetDisplayColumns?
    ensures R.Valid(Step(t, op).ring) && Paper(Step(t, op)) == NaiveStep(Paper(t), op)
  {
    ResizeStep(t, t.ring.dispRows, op.dcols, t.ring.histRows);
  }

  lemma PrintAbstracts(t: Term, op: Op)
    requires Valid(t) && (op.Print? || op.NewLine?)
    ensures R.Valid(Step(t, op).ring) && Paper(Step(t, op)) == NaiveStep(Paper(t), op)
  {
    if op.Print? { PrintCharRefines(t, op.text, op.style); } else { NewLineRefines(t, op.style); }
  }

  lemma DownAbstracts(t: Term, op: Op)
    requires Valid(t) && op.Down?
    ensures R.Valid(Step(t, op).ring) && Paper(Step(t, op)) == NaiveStep(Paper(t), op)
  {
    CursorDownRefines(t, op.count, op.doScroll, op.style);
  }

  lemma UpAbstracts(t: Term, op: Op)
    requires Valid(t) && op.Up?
    ensures R.Valid(Step(t, op).ring) && Paper(Step(t, op)) == NaiveStep(Paper(t), op)
  {
    CursorUpRefines(t, op.count, op.doScroll, op.style);
  }

  lemma MoveAbstracts(t: Term, op: Op)
    requires Valid(t) && (op.Scroll? || op.Move?)
    ensures R.Valid(Step(t, op).ring) && Paper(Step(t, op)) == NaiveStep(Paper(t), op)
  {
    if op.Scroll? { ScrollStep(t, op.n, op.style); }
  }

  lemma ClearAbstracts(t: Term, op: Op)
    requires Valid(t) && op.ClearHist?
    ensures R.Valid(Step(t, op).ring) && Paper(Step(t, op)) == NaiveStep(Paper(t), op)
  {
    var u := ClearStep(t, op.style);
  }

  lemma ClearStep(t: Term, style: Style) returns (u: Term)
    requires R.Valid(t.ring)
    ensures u == ClearHistory(t, style) && R.Valid(u.ring)
    ensures Paper(u) == Naive(N.ClearHistory(Abs(t)), |t.ring.rows|)
  {
    u := ClearHistory(t, style);
    RR.ClearHistoryRefines(t.ring, BlankRow(style, t.cols));
  }

  lemma ScrollStep(t: Term, n: int, style: Style)
    requires R.Valid(t.ring)
    ensures var u := ScrollBy(t, n, style);
      R.Valid(u.ring) && Paper(u) == Naive(N.Scroll(Abs(t), n, style), |t.ring.rows|)
  {
    RR.ScrollRefines(t.ring, n, BlankRow(style, t.cols));
    ScrollKeepsSizes(t.ring, n, BlankRow(style, t.cols));
  }

  lemma ResizeStep(t: Term, drows: nat, dcols: nat, hrows: nat)
    requires R.Valid(t.ring) && drows > 0
    requires dcols != t.cols || drows + hrows != t.ring.dispRows + t.ring.histRows
             || (drows == t.ring.dispRows && hrows == t.ring.histRows)
    ensures var u := if drows == t.ring.dispRows && dcols == t.cols && hrows == t.ring.histRows then t
                     else Resize(t, drows, dcols, hrows);
      R.Valid(u.ring) && Paper(u) == NaiveResize(Paper(t), drows, dcols, hrows)
  {
    RR.NewCopyRefines(t.ring, drows, hrows, N.FitTo(dcols), FreshRow(dcols));
  }

  /** Every operation does what it does to the naive terminal; the cursor is left outside the
      display exactly by a display made too small for it. */
  lemma StepRefines(t: Term, op: Op)
    requires Valid(t)
    ensures Valid(Step(t, op)) <==> KeepsCursor(Abs(t), op)
    ensures KeepsCursor(Abs(t), op) ==> Paper(Step(t, op)) == NaiveStep(Paper(t), op)
  {
    NaiveStepIsValid(Paper(t), op);
    match op
    case Print(_, _) => PrintAbstracts(t, op);
    case NewLine(_) => PrintAbstracts(t, op);
    case Down(_, _, _) => DownAbstracts(t, op);
    case Up(_, _, _) => UpAbstracts(t, op);
    case RefitTo(_, _, _) => RefitAbstracts(t, op);
    case SetHistoryRows(_) => HistoryAbstracts(t, op);
    case SetDisplayRows(drows) => if drows > 0 { RowsAbstract(t, op); }
    case SetDisplayColumns(_) => ColumnsAbstract(t, op);
    case ClearHist(_) => ClearAbstracts(t, op);
    case _ => MoveAbstracts(t, op);
  }

  /** No display is made too small for the cursor. */
  ghost predicate Stays(m: Naive, ops: seq<Op>)
    requires N.Valid(m.t)
    decreases ops
  {
    ops == [] || (KeepsCursor(m.t, ops[0]) && (NaiveStepIsValid(m, ops[0]); Stays(NaiveStep(m, ops[0]), ops[1..])))
  }

  function Run(t: Term, ops: seq<Op>): Term
    requires Valid(t) && Stays(Paper(t), ops)
    decreases ops
  {
    if ops == [] then t
    else
      StepRefines(t, ops[0]);
      Run(Step(t, ops[0]), ops[1..])
  }

  function NaiveRun(m: Naive, ops: seq<Op>): Naive
    requires N.Valid(m.t) && Stays(m, ops)
    decreases ops
  {
    if ops == [] then m
    else
      NaiveStepIsValid(m, ops[0]);
      NaiveRun(NaiveStep(m, ops[0]), ops[1..])
  }

  /** After any run of prints, line feeds, scrolls, cursor moves, history clears, refits and
      resizes the ring shows, row by row through its addresses, what the naive terminal shows. */
  lemma {:induction false} RunRefines(t: Term, ops: seq<Op>)
    requires Valid(t) && Stays(Paper(t), ops)
    ensures var u := Run(t, ops); var n := NaiveRun(Paper(t), ops).t;
            && Valid(u) && Paper(u) == NaiveRun(Paper(t), ops)
            && (forall i :: 0 <= i < u.ring.histUse ==>
                  0 <= R.HistUseIndex(u.ring, i) < |u.ring.rows| && u.ring.rows[R.HistUseIndex(u.ring, i)] == S.Hist(n.s)[i])
            && (forall i :: 0 <= i < u.ring.dispRows ==>
                  0 <= R.DispIndex(u.ring, i) < |u.ring.rows| && u.ring.rows[R.DispIndex(u.ring, i)] == S.Disp(n.s)[i])
    decreases ops
  {
    if ops == [] {
      RR.RegionsAreRead(t.ring);
    } else {
      StepRefines(t, ops[0]);
      RunRefines(Step(t, ops[0]), ops[1..]);
    }
  }
}
