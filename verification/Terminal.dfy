/** Fl_Terminal's text engine: a ring buffer and a cursor, updated in place. Each method is
    tied to the function of TerminalModel.dfy with the same name. */
module TerminalClass {
  import opened CArithmetic
  import opened TerminalCells
  import opened RingBufferClass
  import N = NaiveTerminal
  import R = RingModel
  import RR = RingRefinement
  import M = TerminalModel
  import D = DisplayedText

  class Terminal {
    const ring: RingBuffer
    var row: nat
    var col: nat

    ghost function State(): M.Term
      requires ring.Shaped()
      reads this, ring, ring.ringChars
    {
      M.Term(ring.State(), ring.ringCols, row, col)
    }

    ghost predicate Valid()
      reads this, ring, ring.ringChars
    {
      ring.Valid() && M.Valid(State())
    }

    /** create_ring(): empty buffers and the cursor at home. */
    constructor (drows: nat, dcols: nat, hrows: nat)
      requires drows > 0 && dcols > 0
      ensures Valid() && fresh(ring) && ring.ringChars == null
      ensures State() == M.Term(R.Create(drows, hrows, FreshRow(dcols)), dcols, 0, 0)
    {
      ring := new RingBuffer(drows, dcols, hrows);
      row, col := 0, 0;
      new;
      RR.CreateIsUnwritten(drows, hrows, FreshRow(dcols));
    }

    method Scroll(rows: int, style: Style)
      requires ring.Valid()
      modifies ring, ring.ringChars
      ensures ring.Valid() && State() == M.ScrollBy(old(State()), rows, style)
      ensures old(ring.ringChars) != null ==> ring.ringChars == old(ring.ringChars)
      ensures ring.ringChars != null && old(ring.ringChars) == null ==> fresh(ring.ringChars)
    {
      ring.Scroll(rows, style);
    }

    /** One turn of the loop of cursor_down(); true if it stops at the bottom line. */
    method DownOne(doScroll: bool, style: Style) returns (stop: bool)
      requires ring.Valid()
      modifies this, ring, ring.ringChars
      ensures ring.Valid() && stop == (old(row) + 1 >= old(ring.dispRows) && !doScroll)
      ensures var t := old(State());
        State() == if t.row + 1 < t.ring.dispRows then t.(row := t.row + 1)
                   else (if doScroll then M.ScrollBy(t, 1, style) else t).(row := t.ring.dispRows - 1)
      ensures old(ring.ringChars) != null ==> ring.ringChars == old(ring.ringChars)
      ensures ring.ringChars != null && old(ring.ringChars) == null ==> fresh(ring.ringChars)
    {
      row := row + 1;
      if row >= ring.dispRows {
        row := ring.dispRows - 1;
        if !doScroll { return true; }
        Scroll(1, style);
      }
      return false;
    }

    method CursorDown(count: int, doScroll: bool, style: Style)
      requires ring.Valid()
      modifies this, ring, ring.ringChars
      ensures ring.Valid() && State() == M.CursorDown(old(State()), count, doScroll, style)
      ensures old(ring.ringChars) != null ==> ring.ringChars == old(ring.ringChars)
      ensures ring.ringChars != null && old(ring.ringChars) == null ==> fresh(ring.ringChars)
    {
      ghost var target := M.CursorDown(State(), count, doScroll, style);
      var n := Clamp(count, 1, ring.ringRows);
      while n > 0
        invariant n >= 0 && ring.Valid()
        invariant old(ring.ringChars) != null ==> ring.ringChars == old(ring.ringChars)
        invariant ring.ringChars != null && old(ring.ringChars) == null ==> fresh(ring.ringChars)
        invariant M.CursorDownFrom(State(), n, doScroll, style) == target
      {
        n := n - 1;
        var stop := DownOne(doScroll, style);
        if stop { break; }
      }
    }

    /** cursor_up() */
    method CursorUp(count: int, doScroll: bool, style: Style)
      requires ring.Valid()
      modifies this, ring, ring.ringChars
      ensures ring.Valid() && State() == M.CursorUp(old(State()), count, doScroll, style)
      ensures old(ring.ringChars) != null ==> ring.ringChars == old(ring.ringChars)
      ensures ring.ringChars != null && old(ring.ringChars) == null ==> fresh(ring.ringChars)
    {
      ghost var target := M.CursorUp(State(), count, doScroll, style);
      var n := Clamp(count, 1, ring.dispRows * 2);
      while n > 0
        invariant n >= 0 && ring.Valid()
        invariant old(ring.ringChars) != null ==> ring.ringChars == old(ring.ringChars)
        invariant ring.ringChars != null && old(ring.ringChars) == null ==> fresh(ring.ringChars)
        invariant M.CursorUpFrom(State(), n, doScroll, style) == target
      {
        n := n - 1;
        var stop := UpOne(doScroll, style);
        if stop { break; }
      }
    }

    /** One turn of the loop of cursor_up(); true if it stops at the top line. */
    method UpOne(doScroll: bool, style: Style) returns (stop: bool)
      requires ring.Valid()
      modifies this, ring, ring.ringChars
      ensures ring.Valid() && stop == (old(row) <= 1 && !doScroll)
      ensures var t := old(State());
        State() == if t.row > 1 then t.(row := t.row - 1)
                   else (if doScroll then M.ScrollBy(t, -1, style) else t).(row := 0)
      ensures old(ring.ringChars) != null ==> ring.ringChars == old(ring.ringChars)
      ensures ring.ringChars != null && old(ring.ringChars) == null ==> fresh(ring.ringChars)
    {
      row := if row > 0 then row - 1 else 0;
      if row <= 0 {
        row := 0;
        if !doScroll { return true; }
        Scroll(-1, style);
      }
      return false;
    }

    method CursorCrlf(count: int, style: Style)
      requires ring.Valid()
      modifies this, ring, ring.ringChars
      ensures ring.Valid() && State() == M.CursorCrlf(old(State()), count, style)
      ensures old(ring.ringChars) != null ==> ring.ringChars == old(ring.ringChars)
      ensures ring.ringChars != null && old(ring.ringChars) == null ==> fresh(ring.ringChars)
    {
      var n := Clamp(count, 1, ring.ringRows);
      col := 0;
      CursorDown(n, true, style);
    }

    /** cursor_right(1, true) */
    method CursorRightOne(style: Style)
      requires ring.Valid()
      modifies this, ring, ring.ringChars
      ensures ring.Valid() && State() == M.CursorRightOne(old(State()), style)
      ensures old(ring.ringChars) != null ==> ring.ringChars == old(ring.ringChars)
      ensures ring.ringChars != null && old(ring.ringChars) == null ==> fresh(ring.ringChars)
    {
      col := col + 1;
      if col >= ring.ringCols { CursorCrlf(1, style); }
    }

    /** print_char() of a printable character: what the naive terminal prints. */
    method PrintChar(text: string, style: Style)
      requires Valid()
      modifies this, ring, ring.ringChars
      ensures Valid() && State() == M.PrintChar(old(State()), text, style)
      ensures M.Abs(State()) == N.PrintChar(M.Abs(old(State())), text, style)
      ensures D.IsPrinted(old(State()), State(), text, style)
      ensures old(ring.ringChars) != null ==> ring.ringChars == old(ring.ringChars)
      ensures ring.ringChars != null && old(ring.ringChars) == null ==> fresh(ring.ringChars)
    {
      M.PrintCharRefines(State(), text, style);
      ghost var u := D.PrintIsRead(State(), text, style);
      ring.PlotChar(text, row, col, style);
      assert State() == M.PlotChar(old(State()), text, old(row), old(col), style);
      CursorRightOne(style);
    }

    /** cursor_row() and cursor_col(), clamped into the display. */
    method MoveCursor(toRow: int, toCol: int)
      requires Valid()
      modifies this
      ensures Valid() && State() == M.MoveCursor(old(State()), toRow, toCol)
    {
      row := Clamp(toRow, 0, ring.dispRows - 1);
      col := Clamp(toCol, 0, ring.ringCols - 1);
    }

    method ClearHistory(style: Style)
      requires ring.Valid()
      modifies this, ring, ring.ringChars
      ensures ring.Valid() && State() == M.ClearHistory(old(State()), style)
    {
      ring.histUse := 0;
      var hrow := 0;
      while hrow < ring.histRows
        invariant hrow <= ring.histRows && ring.Valid()
        invariant old(ring.ringChars) != null ==> ring.ringChars == old(ring.ringChars)
        invariant ring.ringChars != null && old(ring.ringChars) == null ==> fresh(ring.ringChars)
        invariant State() == M.Term(ring.State(), old(ring.ringCols), old(row), old(col))
        invariant R.ClearHistRowsFrom(ring.State(), hrow, BlankRow(style, ring.ringCols))
                  == R.ClearHistory(old(ring.State()), BlankRow(style, ring.ringCols))
      {
        BlankHistRow(hrow, style);
        hrow := hrow + 1;
      }
    }

    method BlankHistRow(hrow: nat, style: Style)
      requires ring.Valid() && hrow < ring.histRows
      modifies ring`ringChars, ring.ringChars
      ensures ring.Valid()
      ensures 0 <= R.HistIndex(old(ring.State()), hrow) < |old(ring.State()).rows|
      ensures ring.State() == old(ring.State()).(live := true,
                rows := old(ring.State()).rows[R.HistIndex(old(ring.State()), hrow) := BlankRow(style, ring.ringCols)])
      ensures old(ring.ringChars) != null ==> ring.ringChars == old(ring.ringChars)
      ensures ring.ringChars != null && old(ring.ringChars) == null ==> fresh(ring.ringChars)
    {
      R.IndexesInRange(ring.State(), hrow);
      var start := ring.HistRow(hrow);
      ring.ClearRow(R.HistIndex(ring.State(), hrow), start, style);
    }

    method EnlargeStep(dcols: nat, style: Style)
      requires ring.Valid() && dcols > 0
      modifies this, ring, ring.ringChars
      ensures ring.Valid() && State() == M.EnlargeStep(old(State()), dcols, style)
      ensures ring.ringChars != null && ring.ringChars != old(ring.ringChars) ==> fresh(ring.ringChars)
    {
      MakeRoom(style);
      ChangeRows(ring.dispRows + 1, dcols);
    }

    /** The cursor follows a line that comes back from the history (CASE 1), or the screen
        scrolls (CASE 2). */
    method MakeRoom(style: Style)
      requires ring.Valid()
      modifies this`row, ring, ring.ringChars
      ensures ring.Valid()
      ensures var t := old(State()); State() == if t.ring.histUse > 0 then t.(row := t.row + 1) else M.ScrollBy(t, 1, style)
      ensures ring.dispRows == old(ring.dispRows) && ring.histRows == old(ring.histRows)
      ensures ring.ringChars != null && ring.ringChars != old(ring.ringChars) ==> fresh(ring.ringChars)
    {
      if ring.histUse > 0 {
        row := row + 1;
      } else {
        ScrollForRoom(style);
      }
    }

    /** CASE 2 scrolls before it enlarges the display. */
    method ScrollForRoom(style: Style)
      requires ring.Valid()
      modifies ring, ring.ringChars
      ensures ring.Valid() && State() == M.ScrollBy(old(State()), 1, style)
      ensures ring.dispRows == old(ring.dispRows) && ring.histRows == old(ring.histRows)
      ensures ring.ringChars != null && ring.ringChars != old(ring.ringChars) ==> fresh(ring.ringChars)
    {
      M.ScrollKeepsSizes(ring.State(), 1, BlankRow(style, ring.ringCols));
      Scroll(1, style);
    }

    /** Ring resize to another number of display rows. */
    method ChangeRows(drows: nat, dcols: nat)
      requires ring.Valid() && drows > 0 && dcols > 0 && drows != ring.dispRows
      modifies ring
      ensures ring.Valid() && State() == M.Resize(old(State()), drows, dcols, old(ring.histRows))
      ensures ring.ringChars != null && ring.ringChars != old(ring.ringChars) ==> fresh(ring.ringChars)
    {
      ring.Resize(drows, dcols, ring.histRows);
    }

    /** history_rows() */
    method HistoryRows(hrows: nat)
      requires ring.Valid()
      modifies ring
      ensures ring.Valid() && State() == M.HistoryRows(old(State()), hrows)
    {
      if hrows == ring.histRows { return; }
      ring.Resize(ring.dispRows, ring.ringCols, hrows);
    }

    /** display_rows(), up to the refit it ends with. */
    method DisplayRows(drows: nat)
      requires ring.Valid() && drows > 0
      modifies ring
      ensures ring.Valid() && State() == M.DisplayRows(old(State()), drows)
    {
      if drows == ring.dispRows { return; }
      ring.Resize(drows, ring.ringCols, ring.histRows);
    }

    /** display_columns(), up to the refit it ends with. */
    method DisplayColumns(dcols: nat)
      requires ring.Valid() && dcols > 0
      modifies ring
      ensures ring.Valid() && State() == M.DisplayColumns(old(State()), dcols)
    {
      if dcols == ring.ringCols { return; }
      ring.Resize(ring.dispRows, dcols, ring.histRows);
    }

    method ShrinkStep(drows: nat, dcols: nat)
      requires ring.Valid() && dcols > 0 && ring.dispRows > 1
      modifies this, ring, ring.ringChars
      ensures ring.Valid() && State() == M.ShrinkStep(old(State()), drows, dcols)
      ensures ring.ringChars != null && ring.ringChars != old(ring.ringChars) ==> fresh(ring.ringChars)
    {
      if drows > row {
        TrimDisplay();
      } else {
        PushTopRow(dcols);
      }
    }

    /** CASE 4: the top line goes into the history and the cursor follows. */
    method PushTopRow(dcols: nat)
      requires ring.Valid() && dcols > 0 && ring.dispRows > 1
      modifies this`row, ring
      ensures var t := old(State());
        ring.Valid() && State() == M.Resize(t.(row := if t.row > 0 then t.row - 1 else 0), t.ring.dispRows - 1, dcols, t.ring.histRows)
      ensures ring.ringChars != null && ring.ringChars != old(ring.ringChars) ==> fresh(ring.ringChars)
    {
      ghost var t := State();
      ghost var target := M.Resize(t.(row := if t.row > 0 then t.row - 1 else 0), t.ring.dispRows - 1, dcols, t.ring.histRows);
      row := if row > 0 then row - 1 else 0;
      assert target == M.Resize(State(), ring.dispRows - 1, dcols, ring.histRows);
      ChangeRows(ring.dispRows - 1, dcols);
    }

    method TrimDisplay()
      requires ring.Valid() && ring.dispRows > 1
      modifies ring`dispRows
      ensures ring.Valid() && State() == old(State()).(ring := R.SetDispRows(old(State()).ring, old(ring.dispRows) - 1))
    {
      ring.dispRows := ring.dispRows - 1;
    }

    /** refit_disp_to_screen() for a window holding dh rows and dw columns: it does what
        the naive refit does, so RefitConservesText says what the user keeps. */
    method RefitDispToScreen(dh: int, dw: int, style: Style)
      requires Valid()
      modifies this, ring, ring.ringChars
      ensures Valid() && State() == M.Refit(old(State()), dh, dw, style)
      ensures M.Abs(State()) == N.Refit(M.Abs(old(State())), dh, dw, style)
      ensures ring.dispRows == if dh >= 2 then dh else 2
    {
      M.RefitRefines(State(), dh, dw, style);
      D.RefitShows(M.Abs(State()), dh, dw, style);
      RefitRing(dh, dw, style);
    }

    method RefitRing(dh: int, dw: int, style: Style)
      requires ring.Valid()
      modifies this, ring, ring.ringChars
      ensures ring.Valid() && State() == M.Refit(old(State()), dh, dw, style)
    {
      var drows := Clamp(dh, 2, dh);
      var w := if dw >= ring.ringCols then dw else ring.ringCols;
      var dcols := Clamp(w, 10, w);
      var diff := drows - ring.dispRows;
      ghost var target := M.Refit(State(), dh, dw, style);
      if diff > 0 {
        assert target == M.EnlargeBy(State(), diff, dcols, style);
        Enlarge(diff, dcols, style);
      } else if diff < 0 {
        assert target == M.ShrinkBy(State(), -diff, drows, dcols);
        Shrink(-diff, drows, dcols);
      }
    }

    method Enlarge(n: nat, dcols: nat, style: Style)
      requires ring.Valid() && dcols > 0
      modifies this, ring, ring.ringChars
      ensures ring.Valid() && State() == M.EnlargeBy(old(State()), n, dcols, style)
    {
      ghost var target := M.EnlargeBy(State(), n, dcols, style);
      var i := 0;
      while i < n
        invariant i <= n && ring.Valid()
        invariant ring.ringChars != null && ring.ringChars != old(ring.ringChars) ==> fresh(ring.ringChars)
        invariant M.EnlargeBy(State(), n - i, dcols, style) == target
      {
        M.EnlargeStepRefines(State(), dcols, style);
        EnlargeStep(dcols, style);
        i := i + 1;
      }
    }

    method Shrink(n: nat, drows: nat, dcols: nat)
      requires ring.Valid() && dcols > 0 && n < ring.dispRows
      modifies this, ring, ring.ringChars
      ensures ring.Valid() && State() == M.ShrinkBy(old(State()), n, drows, dcols)
    {
      ghost var target := M.ShrinkBy(State(), n, drows, dcols);
      var i := 0;
      while i < n
        invariant i <= n && ring.Valid() && n - i < ring.dispRows
        invariant ring.ringChars != null && ring.ringChars != old(ring.ringChars) ==> fresh(ring.ringChars)
        invariant M.ShrinkBy(State(), n - i, drows, dcols) == target
      {
        M.ShrinkStepRefines(State(), drows, dcols);
        ShrinkStep(drows, dcols);
        i := i + 1;
      }
    }
  }
}
