/** What every operation of the terminal does to the text, line by line and cell by cell:
    the operations of NaiveTerminal.dfy and TerminalModel.dfy described from outside. */
module DisplayedText {
  import opened CArithmetic
  import opened Rows
  import opened TerminalCells
  import S = NaiveScreen
  import NR = NaiveRefit
  import N = NaiveTerminal
  import R = RingModel
  import RR = RingRefinement
  import M = TerminalModel

  /** The cell holds the character in the style; of the old flags only the two that say
      where the colours come from are replaced. */
  predicate Holds(c: Cell, was: Cell, text: string, style: Style) {
    && c.text == text && c.fg == style.fg && c.bg == style.bg && c.attrib == style.attrib
    && c.flags & 0x03 == style.flags & 0x03
    && c.flags & 0xFC == was.flags & 0xFC
  }

  /** Only spaces, in the colours of the style. */
  ghost predicate IsBlank(line: Row, style: Style, cols: nat) {
    |line| == cols && forall c :: 0 <= c < cols ==> line[c] == Cell(" ", style.fg, style.bg, 0, 0)
  }

  lemma BlankRowIsBlank(style: Style, cols: nat)
    ensures IsBlank(BlankRow(style, cols), style, cols)
  {
  }

  /** A line in another width is cut on the right, or extended there with default cells. */
  ghost predicate IsFitted(line: Row, was: Row, cols: nat) {
    && |line| == cols
    && forall c :: 0 <= c < cols ==> line[c] == if c < |was| then was[c] else Cell(" ", 0xffff_ff00, 0xffff_ffff, 0, 0)
  }

  lemma FitKeepsLeft(row: Row, cols: nat)
    ensures IsFitted(Fit(row, cols), row, cols)
    ensures IsFitted(FreshRow(cols), [], cols)
  {
  }

  /** k blank lines come in at the bottom, and of all lines the newest `most` are kept. */
  ghost predicate MovedUp(a: seq<Row>, b: seq<Row>, k: nat, most: nat, style: Style, cols: nat) {
    && |b| == (if |a| + k <= most then |a| + k else most)
    && (forall i :: 0 <= i < |b| - k ==> b[i] == a[|a| + k - |b| + i])
    && (forall i :: 0 <= i < |b| && |b| - k <= i ==> IsBlank(b[i], style, cols))
  }

  /** Below the first h lines, k blank lines come in and as many leave at the bottom. */
  ghost predicate MovedDown(a: seq<Row>, b: seq<Row>, h: nat, k: nat, style: Style, cols: nat) {
    && |b| == |a| && h + k <= |a|
    && (forall i :: 0 <= i < h ==> b[i] == a[i])
    && (forall i :: h <= i < h + k ==> IsBlank(b[i], style, cols))
    && (forall i :: h + k <= i < |b| ==> b[i] == a[i - k])
  }

  // ----- printing -----

  /** A plotted character is in the cell under the cursor, and no other cell changes. */
  lemma PlotShows(t: N.Term, text: string, style: Style)
    requires N.Valid(t)
    ensures var u := N.Plot(t, text, style); var line := |t.s.text| - t.s.drows + t.row;
      && N.Valid(u) && u == t.(s := u.s) && u.s == t.s.(text := u.s.text, touched := true)
      && |u.s.text| == |t.s.text|
      && Holds(u.s.text[line][t.col], t.s.text[line][t.col], text, style)
      && (forall i, c :: 0 <= i < |t.s.text| && 0 <= c < t.cols && (i != line || c != t.col) ==>
            u.s.text[i][c] == t.s.text[i][c])
  {
    N.CursorLine(t);
    N.PlotIsValid(t, text, style);
    var line := |t.s.text| - t.s.drows + t.row;
    PlottedHolds(t.s.text[line][t.col], text, style);
  }

  lemma PlottedHolds(was: Cell, text: string, style: Style)
    ensures Holds(PlottedCell(was, text, style), was, text, style)
  {
    var c := PlottedCell(was, text, style);
    assert c.flags & 0x03 == style.flags & 0x03;
    assert c.flags & 0xFC == was.flags & 0xFC;
  }

  lemma LastNMoved(a: seq<Row>, k: nat, most: nat, style: Style, cols: nat)
    ensures MovedUp(a, LastN(a + Repeat(BlankRow(style, cols), k), most), k, most, style, cols)
  {
    var blank := BlankRow(style, cols);
    var b := LastN(a + Repeat(blank, k), most);
    BlankRowIsBlank(style, cols);
    forall i | 0 <= i < |b| ensures b[i] == (a + Repeat(blank, k))[|a| + k - |b| + i] { }
  }

  /** Where a printed character and the cursor are then: at the end of the bottom line the
      screen scrolls once. */
  lemma PrintShows(t: N.Term, text: string, style: Style)
    requires N.Valid(t)
    ensures var u, p := N.PrintChar(t, text, style), N.Plot(t, text, style);
      && u.cols == t.cols && u.s == p.s.(text := u.s.text)
      && u.col == (if t.col + 1 == t.cols then 0 else t.col + 1)
      && u.row == (if t.col + 1 == t.cols && t.row + 1 < t.s.drows then t.row + 1 else t.row)
      && if t.col + 1 == t.cols && t.row + 1 == t.s.drows
         then MovedUp(p.s.text, u.s.text, 1, t.s.cap + t.s.drows, style, t.cols)
         else u.s.text == p.s.text
  {
    N.PlotIsValid(t, text, style);
    var p := N.Plot(t, text, style);
    ScrollShows(p, 1, style);
  }

  /** Scrolling by n lines, by at most a display; by no line scrolls down by one. Nothing
      scrolls before the first write. */
  lemma ScrollShows(t: N.Term, n: int, style: Style)
    requires S.Valid(t.s)
    ensures var u := N.Scroll(t, n, style); var drows := t.s.drows;
      && u == t.(s := u.s) && u.s == t.s.(text := u.s.text)
      && (!t.s.touched ==> u == t)
      && (t.s.touched && n > 0 ==>
            MovedUp(t.s.text, u.s.text, if n > drows then drows else n, t.s.cap + drows, style, t.cols))
      && (t.s.touched && n <= 0 ==>
            MovedDown(t.s.text, u.s.text, |t.s.text| - drows, if n == 0 then 1 else if -n > drows then drows else -n, style, t.cols))
  {
    if n > 0 {
      UpMoved(t.s, Clamp(n, 1, t.s.drows), style, t.cols);
    } else {
      DownMoved(t, Clamp(-n, 1, t.s.drows), style);
    }
  }

  lemma UpMoved(s: S.Screen<Row>, k: nat, style: Style, cols: nat)
    requires S.Valid(s)
    ensures var u := S.ScrollUp(s, k, BlankRow(style, cols));
      u == s.(text := u.text) && MovedUp(s.text, u.text, k, s.cap + s.drows, style, cols)
  {
    S.ScrollUpText(s, k, BlankRow(style, cols));
    LastNMoved(s.text, k, s.cap + s.drows, style, cols);
  }

  lemma DownMoved(t: N.Term, k: nat, style: Style)
    requires S.Valid(t.s) && k <= t.s.drows
    ensures MovedDown(t.s.text, S.ScrollDown(t.s, k, BlankRow(style, t.cols)).text, |t.s.text| - t.s.drows, k, style, t.cols)
  {
    BlankRowIsBlank(style, t.cols);
    var a, h := t.s.text, |t.s.text| - t.s.drows;
    var b := S.ScrollDown(t.s, k, BlankRow(style, t.cols)).text;
    forall i | h + k <= i < |b| ensures b[i] == a[i - k] {
      assert S.Disp(t.s)[i - h - k] == a[i - k];
    }
  }

  /** The character is read through the address of a display row. */
  ghost predicate ReadsAs(t: M.Term, u: M.Term, line: nat, text: string, style: Style)
    requires M.Valid(t)
  {
    && R.Valid(u.ring) && line < u.ring.dispRows
    && var was, i := R.DispIndex(t.ring, t.row), R.DispIndex(u.ring, line);
       && 0 <= was < |t.ring.rows| && |t.ring.rows[was]| == t.cols
       && 0 <= i < |u.ring.rows| && |u.ring.rows[i]| == t.cols
       && Holds(u.ring.rows[i][t.col], t.ring.rows[was][t.col], text, style)
  }

  /** The character is read from the line of the cursor, one line higher after a scroll. */
  ghost predicate IsPrinted(t: M.Term, u: M.Term, text: string, style: Style)
    requires M.Valid(t)
  {
    var scrolls := t.col + 1 == t.cols && t.row + 1 == t.ring.dispRows;
    && (!scrolls ==> ReadsAs(t, u, t.row, text, style))
    && (scrolls && t.row > 0 ==> ReadsAs(t, u, t.row - 1, text, style))
  }

  /** In the text, the cell of the line holds the character. */
  ghost predicate StandsIn(t: N.Term, u: N.Term, line: nat, text: string, style: Style)
    requires N.Valid(t)
  {
    var i, j := |t.s.text| - t.s.drows + t.row, |u.s.text| - u.s.drows + line;
    && u.cols == t.cols && u.s.drows == t.s.drows && line < u.s.drows <= |u.s.text|
    && |u.s.text[j]| == t.cols && Holds(u.s.text[j][t.col], t.s.text[i][t.col], text, style)
  }

  /** Printing on the ring. */
  lemma PrintIsRead(t: M.Term, text: string, style: Style) returns (u: M.Term)
    requires M.Valid(t)
    ensures u == M.PrintChar(t, text, style) && IsPrinted(t, u, text, style)
  {
    u := M.PrintChar(t, text, style);
    M.PrintCharRefines(t, text, style);
    var line := t.row - (if t.col + 1 == t.cols && t.row + 1 == t.ring.dispRows then 1 else 0);
    PrintedLine(M.Abs(t), M.Abs(u), text, style, line);
    PrintReads(t, u, line, text, style);
  }

  lemma PrintReads(t: M.Term, u: M.Term, line: int, text: string, style: Style)
    requires M.Valid(t) && M.Valid(u)
    requires line == t.row - (if t.col + 1 == t.cols && t.row + 1 == t.ring.dispRows then 1 else 0)
    requires line >= 0 ==> StandsIn(M.Abs(t), M.Abs(u), line, text, style)
    ensures IsPrinted(t, u, text, style)
  {
    if line >= 0 {
      var i := LineIsRead(t, t.row);
      var j := LineIsRead(u, line);
    }
  }

  lemma LineIsRead(t: M.Term, d: nat) returns (i: nat)
    requires M.Valid(t) && d < t.ring.dispRows
    ensures i == R.DispIndex(t.ring, d) && i < |t.ring.rows| && |t.ring.rows[i]| == t.cols
    ensures var text := M.Abs(t).s.text; |text| >= t.ring.dispRows && t.ring.rows[i] == text[|text| - t.ring.dispRows + d]
  {
    RR.RegionsAreRead(t.ring);
    S.DispAt(RR.Abs(t.ring), d);
    i := R.DispIndex(t.ring, d);
  }

  lemma PrintedLine(t: N.Term, u: N.Term, text: string, style: Style, line: int)
    requires N.Valid(t) && u == N.PrintChar(t, text, style)
    requires line == t.row - (if t.col + 1 == t.cols && t.row + 1 == t.s.drows then 1 else 0)
    ensures line >= 0 ==> StandsIn(t, u, line, text, style)
  {
    PlotShows(t, text, style);
    PrintShows(t, text, style);
  }

  // ----- moving the cursor -----

  /** The cursor goes to the place asked for, or to the edge it lies beyond. */
  lemma MoveShows(t: M.Term, row: int, col: int)
    requires M.Valid(t)
    ensures var u := M.MoveCursor(t, row, col);
      && u.ring == t.ring && u.cols == t.cols
      && u.row == (if row < 0 then 0 else if row < t.ring.dispRows then row else t.ring.dispRows - 1)
      && u.col == (if col < 0 then 0 else if col < t.cols then col else t.cols - 1)
  {
  }

  /** k lines down: lines that do not fit scroll the screen instead, or are not moved. */
  ghost predicate WentDown(t: N.Term, u: N.Term, k: nat, doScroll: bool, style: Style)
    requires t.row < t.s.drows
  {
    var room := t.s.drows - 1 - t.row;
    && u == t.(row := if k > room then t.s.drows - 1 else t.row + k, s := u.s) && u.s == t.s.(text := u.s.text)
    && if doScroll && t.s.touched && k > room
       then MovedUp(t.s.text, u.s.text, k - room, t.s.cap + t.s.drows, style, t.cols)
       else u.s.text == t.s.text
  }

  /** cursor_down() moves by at least one line and at most the rows of the ring. */
  lemma CursorDownShows(t: M.Term, count: int, doScroll: bool, style: Style) returns (u: M.Term)
    requires M.Valid(t)
    ensures u == M.CursorDown(t, count, doScroll, style) && R.Valid(u.ring)
    ensures var m := |t.ring.rows|;
      WentDown(M.Abs(t), M.Abs(u), if count < 1 then 1 else if count > m then m else count, doScroll, style)
  {
    u := M.CursorDown(t, count, doScroll, style);
    M.CursorDownRefines(t, count, doScroll, style);
    DownShows(M.Abs(t), Clamp(count, 1, |t.ring.rows|), doScroll, style);
  }

  /** A line feed goes to the first column and down by one line, and scrolls at the bottom. */
  lemma NewLineShows(t: M.Term, style: Style) returns (u: M.Term)
    requires M.Valid(t)
    ensures u == M.CursorCrlf(t, 1, style) && R.Valid(u.ring)
    ensures WentDown(M.Abs(t).(col := 0), M.Abs(u), 1, true, style)
  {
    var v := t.(col := 0);
    u := CursorDownShows(v, 1, true, style);
    assert M.Abs(v) == M.Abs(t).(col := 0);
  }

  lemma DownShows(t: N.Term, k: nat, doScroll: bool, style: Style)
    requires S.Valid(t.s) && t.row < t.s.drows
    ensures WentDown(t, N.DownBy(t, k, doScroll, style), k, doScroll, style)
  {
    UpMoved(t.s, Max(0, t.row + k + 1 - t.s.drows), style, t.cols);
  }

  lemma {:induction false} DownTimesMoved(s: S.Screen<Row>, n: nat, style: Style, cols: nat) returns (u: S.Screen<Row>)
    requires S.Valid(s) && s.touched
    ensures u == N.DownTimes(s, n, BlankRow(style, cols)) && u == s.(text := u.text)
    ensures MovedDown(s.text, u.text, |s.text| - s.drows, if n > s.drows then s.drows else n, style, cols)
    decreases n
  {
    if n == 0 {
      u := s;
    } else {
      var v := DownOnceMoved(s, n, style, cols);
      u := DownTimesMoved(v, n - 1, style, cols);
      MovedDownTwice(s.text, v.text, u.text, |s.text| - s.drows, n - 1, s.drows, style, cols);
    }
  }

  lemma DownOnceMoved(s: S.Screen<Row>, n: nat, style: Style, cols: nat) returns (v: S.Screen<Row>)
    requires S.Valid(s) && s.touched && n > 0
    ensures v == s.(text := v.text) && S.Valid(v) && MovedDown(s.text, v.text, |s.text| - s.drows, 1, style, cols)
    ensures N.DownTimes(s, n, BlankRow(style, cols)) == N.DownTimes(v, n - 1, BlankRow(style, cols))
  {
    v := S.Scroll(s, -1, BlankRow(style, cols));
    ScrollShows(N.Term(s, cols, 0, 0), -1, style);
  }

  lemma MovedDownTwice(a: seq<Row>, b: seq<Row>, c: seq<Row>, h: nat, n: nat, drows: nat, style: Style, cols: nat)
    requires |a| == h + drows && drows > 0
    requires MovedDown(a, b, h, 1, style, cols)
    requires MovedDown(b, c, h, if n > drows then drows else n, style, cols)
    ensures MovedDown(a, c, h, if n + 1 > drows then drows else n + 1, style, cols)
  {
  }

  /** k lines up: the screen scrolls down for every line that ends on the top line. */
  ghost predicate WentUp(t: N.Term, u: N.Term, k: nat, doScroll: bool, style: Style)
    requires t.s.drows <= |t.s.text|
  {
    var over: nat := if t.row == 0 then k else if k >= t.row then k - t.row + 1 else 0;
    && u == t.(row := if k < t.row then t.row - k else 0, s := u.s) && u.s == t.s.(text := u.s.text)
    && if doScroll && t.s.touched
       then MovedDown(t.s.text, u.s.text, |t.s.text| - t.s.drows, if over > t.s.drows then t.s.drows else over, style, t.cols)
       else u.s.text == t.s.text
  }

  /** cursor_up() moves by at least one line and at most two displays. */
  lemma CursorUpShows(t: M.Term, count: int, doScroll: bool, style: Style) returns (u: M.Term)
    requires M.Valid(t)
    ensures u == M.CursorUp(t, count, doScroll, style) && R.Valid(u.ring)
    ensures var m := 2 * t.ring.dispRows;
      WentUp(M.Abs(t), M.Abs(u), if count < 1 then 1 else if count > m then m else count, doScroll, style)
  {
    u := M.CursorUp(t, count, doScroll, style);
    M.CursorUpRefines(t, count, doScroll, style);
    UpShows(M.Abs(t), Clamp(count, 1, 2 * t.ring.dispRows), doScroll, style);
  }

  lemma UpShows(t: N.Term, k: nat, doScroll: bool, style: Style)
    requires S.Valid(t.s) && k > 0
    ensures WentUp(t, N.UpBy(t, k, doScroll, style), k, doScroll, style)
  {
    var over: nat := if t.row == 0 then k else Max(0, k + 1 - t.row);
    if t.s.touched {
      var u := DownTimesMoved(t.s, over, style, t.cols);
    } else {
      DownTimesUntouched(t.s, over, BlankRow(style, t.cols));
    }
  }

  lemma {:induction false} DownTimesUntouched(s: S.Screen<Row>, n: nat, blank: Row)
    requires S.Valid(s) && !s.touched
    ensures N.DownTimes(s, n, blank) == s
    decreases n
  {
    if n > 0 { DownTimesUntouched(s, n - 1, blank); }
  }

  // ----- history and sizes -----

  /** Clearing the history leaves the display and the cursor alone. */
  lemma ClearHistoryShows(t: M.Term, style: Style)
    requires M.Valid(t)
    ensures var u := M.ClearHistory(t, style);
      && R.Valid(u.ring) && u == t.(ring := u.ring) && u.ring.histUse == 0 && u.ring.dispRows == t.ring.dispRows
      && u.ring.histRows == t.ring.histRows && (u.ring.live <==> t.ring.live || t.ring.histRows > 0)
      && R.Text(u.ring) == R.Text(t.ring)[t.ring.histUse..]
  {
    RR.ClearHistoryRefines(t.ring, BlankRow(style, t.cols));
  }

  /** A refit: at least two rows; where the window needs another number of rows the display
      has them, and the columns are those of the window unless they would shrink or rows
      were only trimmed. The cursor follows its line. */
  lemma RefitShows(t: N.Term, dh: int, dw: int, style: Style)
    requires N.Valid(t)
    ensures var u := N.Refit(t, dh, dw, style);
      var drows := if dh >= 2 then dh else 2; var wider := if dw > t.cols then dw else t.cols;
      && u.s.drows == drows && u.s.cap == t.s.cap && u.col == t.col
      && u.cols == (if drows <= t.s.drows && (drows == t.s.drows || t.row < drows) then t.cols else if wider >= 10 then wider else 10)
      && u.row == (if drows >= |t.s.text| then t.row + |t.s.text| - t.s.drows
                   else if drows > t.s.drows then t.row + drows - t.s.drows
                   else if t.row < drows then t.row else drows - 1)
  {
    N.RefitIsValid(t, dh, dw, style);
    RefitCursor(t, dh, dw, style);
  }

  lemma RefitCursor(t: N.Term, dh: int, dw: int, style: Style)
    requires N.Valid(t)
    ensures var u := N.Refit(t, dh, dw, style); var drows := if dh >= 2 then dh else 2;
      u.row == if drows >= |t.s.text| then t.row + |t.s.text| - t.s.drows
               else if drows > t.s.drows then t.row + drows - t.s.drows
               else if t.row < drows then t.row else drows - 1
  {
    var drows, dcols := N.RefitRows(dh), N.RefitCols(t.cols, dw);
    var v, fit, unwritten, first, blank := NR.View(t.s, t.row), N.FitTo(dcols), FreshRow(dcols), BlankRow(style, t.cols), BlankRow(style, dcols);
    if drows > t.s.drows {
      if t.s.touched {
        NR.EnlargedShape(v, drows - t.s.drows, fit, unwritten, first, blank);
      } else {
        NR.UntouchedEnlarged(v, drows - t.s.drows, fit, unwritten, first, blank);
      }
    } else if drows < t.s.drows {
      if t.s.touched {
        NR.ShrunkShape(v, t.s.drows - drows, drows, fit, unwritten);
      } else {
        NR.UntouchedShrunk(v, t.s.drows - drows, drows, fit, unwritten);
      }
    }
  }

  /** The newest of n lines, each in the new width, below default lines if there were fewer. */
  ghost predicate KeptFromBelow(a: seq<Row>, b: seq<Row>, n: nat, cols: nat) {
    && |b| == n
    && (forall i :: 0 <= i < n && i + |a| >= n ==> IsFitted(b[i], a[i + |a| - n], cols))
    && (forall i :: 0 <= i < n && i + |a| < n ==> IsFitted(b[i], [], cols))
  }

  /** Another size: the cursor stays, a display and as much history as there is room for is
      kept from below. What was never written to starts anew. */
  ghost predicate Resized(t: N.Term, u: N.Term, drows: nat, dcols: nat, hrows: nat) {
    var size := |t.s.text|;
    && u == N.Term(u.s, dcols, t.row, t.col) && u.s == S.Screen(u.s.text, drows, hrows, t.s.touched)
    && KeptFromBelow(if t.s.touched then t.s.text else [], u.s.text,
         if !t.s.touched || size < drows then drows else if size > drows + hrows then drows + hrows else size, dcols)
  }

  lemma HistoryRowsShows(t: M.Term, hrows: nat) returns (u: M.Term)
    requires M.Valid(t)
    ensures u == M.HistoryRows(t, hrows) && R.Valid(u.ring)
    ensures if hrows == t.ring.histRows then u == t else Resized(M.Abs(t), M.Abs(u), t.ring.dispRows, t.cols, hrows)
  {
    u := M.HistoryRows(t, hrows);
    if hrows != t.ring.histRows {
      M.ResizeRefines(t, t.ring.dispRows, t.cols, hrows);
      ResizeShows(M.Abs(t), t.ring.dispRows, t.cols, hrows);
    }
  }

  lemma DisplayRowsShows(t: M.Term, drows: nat) returns (u: M.Term)
    requires M.Valid(t) && drows > 0
    ensures u == M.DisplayRows(t, drows) && R.Valid(u.ring)
    ensures if drows == t.ring.dispRows then u == t else Resized(M.Abs(t), M.Abs(u), drows, t.cols, t.ring.histRows)
  {
    u := M.DisplayRows(t, drows);
    if drows != t.ring.dispRows {
      M.ResizeRefines(t, drows, t.cols, t.ring.histRows);
      ResizeShows(M.Abs(t), drows, t.cols, t.ring.histRows);
    }
  }

  lemma DisplayColumnsShows(t: M.Term, dcols: nat) returns (u: M.Term)
    requires M.Valid(t)
    ensures u == M.DisplayColumns(t, dcols) && R.Valid(u.ring)
    ensures if dcols == t.cols then u == t else Resized(M.Abs(t), M.Abs(u), t.ring.dispRows, dcols, t.ring.histRows)
  {
    u := M.DisplayColumns(t, dcols);
    if dcols != t.cols {
      M.ResizeRefines(t, t.ring.dispRows, dcols, t.ring.histRows);
      ResizeShows(M.Abs(t), t.ring.dispRows, dcols, t.ring.histRows);
    }
  }

  lemma ResizeShows(t: N.Term, drows: nat, dcols: nat, hrows: nat)
    ensures Resized(t, N.Resize(t, drows, dcols, hrows), drows, dcols, hrows)
  {
    var a, b := t.s.text, N.Resize(t, drows, dcols, hrows).s.text;
    FitKeepsLeft([], dcols);
    forall i | 0 <= i < |b| && t.s.touched && i + |a| >= |b| ensures IsFitted(b[i], a[i + |a| - |b|], dcols) {
      FitKeepsLeft(a[i + |a| - |b|], dcols);
    }
  }
}
