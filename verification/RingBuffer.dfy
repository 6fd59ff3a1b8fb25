/** A flat sequence of cells seen as rows of `cols` cells: cell (row, col) is at row*cols + col. */
module FlatGrid {
  import opened CArithmetic

  lemma RowFits(r: int, rows: int, cols: int)
    requires 0 <= r < rows && cols >= 0
    ensures 0 <= r * cols && r * cols + cols <= rows * cols
  {
    MulMonotone(r + 1, rows, cols);
    assert (r + 1) * cols == r * cols + cols;
  }

  /** Different rows occupy different cells. */
  lemma RowsAreApart(r: int, q: int, cols: int)
    requires r < q && cols >= 0
    ensures r * cols + cols <= q * cols
  {
    MulMonotone(r + 1, q, cols);
    assert (r + 1) * cols == r * cols + cols;
  }

  function RowAt<T>(flat: seq<T>, rows: nat, cols: nat, r: nat): (row: seq<T>)
    requires |flat| == rows * cols && r < rows
    ensures |row| == cols
  {
    RowFits(r, rows, cols);
    flat[r * cols..r * cols + cols]
  }

  function RowsOf<T>(flat: seq<T>, rows: nat, cols: nat): (s: seq<seq<T>>)
    requires |flat| == rows * cols
    ensures |s| == rows
    ensures forall r :: 0 <= r < rows ==> s[r] == RowAt(flat, rows, cols, r)
  {
    seq(rows, r requires 0 <= r < rows => RowAt(flat, rows, cols, r))
  }

  /** A change inside one row changes that row only. */
  lemma RowWritten<T>(a: seq<T>, b: seq<T>, rows: nat, cols: nat, r: nat, row: seq<T>)
    requires |a| == |b| == rows * cols && r < rows && |row| == cols
    requires forall i :: 0 <= i < |a| && !(r * cols <= i < r * cols + cols) ==> b[i] == a[i]
    requires forall i :: 0 <= i < |a| && r * cols <= i < r * cols + cols ==> b[i] == row[i - r * cols]
    ensures RowsOf(b, rows, cols) == RowsOf(a, rows, cols)[r := row]
  {
    forall q | 0 <= q < rows && q != r
      ensures RowAt(b, rows, cols, q) == RowAt(a, rows, cols, q)
    {
      RowFits(q, rows, cols);
      if q < r { RowsAreApart(q, r, cols); } else { RowsAreApart(r, q, cols); }
    }
    RowFits(r, rows, cols);
    assert RowAt(b, rows, cols, r) == row;
  }

  lemma CellWritten<T>(a: seq<T>, rows: nat, cols: nat, r: nat, c: nat, x: T)
    requires |a| == rows * cols && r < rows && c < cols
    ensures 0 <= r * cols + c < |a|
    ensures RowsOf(a[r * cols + c := x], rows, cols) == RowsOf(a, rows, cols)[r := RowAt(a, rows, cols, r)[c := x]]
  {
    RowFits(r, rows, cols);
    RowWritten(a, a[r * cols + c := x], rows, cols, r, RowAt(a, rows, cols, r)[c := x]);
  }
}

/** class RingBuffer of FL/Fl_Terminal.H on its own data: one flat cell array, written in
    place, and index fields. Every method is shown to do what the function of the same
    name in RingModel.dfy does. */
module RingBufferClass {
  import opened CArithmetic
  import opened Rows
  import opened TerminalCells
  import opened FlatGrid
  import R = RingModel
  import N = NaiveTerminal

  class RingBuffer {
    var ringChars: array?<Cell>
    var ringRows: nat
    var ringCols: nat
    var nchars: nat
    var histRows: nat
    var histUse: nat
    var dispRows: nat
    var offset: nat

    ghost predicate Shaped()
      reads this
    {
      nchars == ringRows * ringCols && (ringChars != null ==> ringChars.Length == nchars)
    }

    /** The value the buffer stands for; unallocated cells read as default cells. */
    ghost function State(): R.Ring<Row>
      requires Shaped()
      reads this, ringChars
    {
      R.Ring(if ringChars == null then Repeat(FreshRow(ringCols), ringRows) else RowsOf(ringChars[..], ringRows, ringCols),
             histRows, histUse, dispRows, offset, ringChars != null)
    }

    ghost predicate Valid()
      reads this, ringChars
    {
      Shaped() && ringCols > 0 && R.Valid(State())
    }

    constructor (drows: nat, dcols: nat, hrows: nat)
      requires drows > 0 && dcols > 0
      ensures Valid() && State() == R.Create(drows, hrows, FreshRow(dcols)) && ringCols == dcols
    {
      ringChars := null;
      ringRows, ringCols, nchars := drows + hrows, dcols, (drows + hrows) * dcols;
      histRows, histUse, dispRows, offset := hrows, 0, drows, 0;
    }

    /** The buffer is allocated at the first access. */
    method EnsureRing()
      requires Valid()
      modifies this`ringChars
      ensures Valid() && State() == old(State()).(live := true)
      ensures old(ringChars) != null ==> ringChars == old(ringChars)
      ensures old(ringChars) == null ==> fresh(ringChars)
      ensures ringChars != null
    {
      if ringChars == null {
        RowFits(0, ringRows, ringCols);
        ringChars := new Cell[nchars](_ => FRESH_CELL);
        forall r | 0 <= r < ringRows
          ensures RowAt(ringChars[..], ringRows, ringCols, r) == FreshRow(ringCols)
        {
          RowFits(r, ringRows, ringCols);
        }
      }
    }

    /** u8c_ring_row(): the array index of a raw row's first cell. */
    method RingRow(row: int) returns (start: nat)
      requires Valid()
      modifies this`ringChars
      ensures Valid() && State() == old(State()).(live := true)
      ensures ringChars != null && (old(ringChars) == null || ringChars == old(ringChars))
      ensures old(ringChars) == null ==> fresh(ringChars)
      ensures R.RingIndex(State(), row) >= 0 && start == R.RingIndex(State(), row) * ringCols
    {
      EnsureRing();
      var r := Normalize(row, ringRows);
      R.IndexesInRange(State(), row);
      RowFits(r, ringRows, ringCols);
      start := r * ringCols;
    }

    /** u8c_disp_row(): the array index of a display row's first cell. */
    method DispRow(drow: int) returns (start: nat)
      requires Valid()
      modifies this`ringChars
      ensures Valid() && State() == old(State()).(live := true)
      ensures ringChars != null && (old(ringChars) == null || ringChars == old(ringChars))
      ensures old(ringChars) == null ==> fresh(ringChars)
      ensures R.DispIndex(State(), drow) >= 0 && start == R.DispIndex(State(), drow) * ringCols
    {
      EnsureRing();
      var r := CRem(histRows + Normalize(drow, dispRows) + offset, ringRows);
      R.IndexesInRange(State(), drow);
      RowFits(r, ringRows, ringCols);
      start := r * ringCols;
    }

    /** u8c_hist_row(): the array index of a history row's first cell. */
    method HistRow(hrow: int) returns (start: nat)
      requires Valid() && histRows > 0
      modifies this`ringChars
      ensures Valid() && State() == old(State()).(live := true)
      ensures ringChars != null && (old(ringChars) == null || ringChars == old(ringChars))
      ensures old(ringChars) == null ==> fresh(ringChars)
      ensures R.HistIndex(State(), hrow) >= 0 && start == R.HistIndex(State(), hrow) * ringCols
    {
      EnsureRing();
      var r := CRem(Normalize(hrow, histRows) + offset, ringRows);
      R.IndexesInRange(State(), hrow);
      RowFits(r, ringRows, ringCols);
      start := r * ringCols;
    }

    /** The column loop that blanks one row. */
    method ClearRow(ghost r: nat, start: nat, style: Style)
      requires Valid() && ringChars != null && r < ringRows && start == r * ringCols
      modifies ringChars
      ensures Valid()
      ensures State() == old(State()).(rows := old(State().rows)[r := BlankRow(style, ringCols)])
    {
      RowFits(r, ringRows, ringCols);
      ghost var was := ringChars[..];
      for col := 0 to ringCols
        invariant Shaped()
        invariant forall i :: 0 <= i < nchars && !(start <= i < start + col) ==> ringChars[i] == was[i]
        invariant forall i :: start <= i < start + col ==> ringChars[i] == BlankCell(style)
      {
        ringChars[start + col] := BlankCell(style);
      }
      RowWritten(was, ringChars[..], ringRows, ringCols, r, BlankRow(style, ringCols));
    }

    method OffsetAdjust(rows: int)
      requires Valid()
      modifies this`offset
      ensures Valid() && State() == R.OffsetAdjust(old(State()), rows)
    {
      if rows == 0 { return; }
      if rows > 0 {
        offset := CRem(offset + rows, ringRows);
      } else {
        var o := offset - Clamp(-rows, 1, ringRows);
        offset := if o < 0 then o + ringRows else o;
      }
    }

    method ClearDispRows(sdrow: int, edrow: int, style: Style)
      requires Valid()
      modifies this`ringChars, ringChars
      ensures Valid() && ringChars == old(ringChars)
      ensures State() == R.ClearDispRows(old(State()), sdrow, edrow, BlankRow(style, ringCols))
    {
      if ringChars == null { return; }
      ghost var r, blank := State(), BlankRow(style, ringCols);
      ghost var target := R.ClearDispRows(r, sdrow, edrow, blank);
      var drow := sdrow;
      while drow <= edrow
        invariant Valid() && ringChars == old(ringChars) && ringChars != null && State() == r
        invariant R.ClearDispRows(r, drow, edrow, blank) == target
        decreases edrow - drow
      {
        r := ClearDispRow(drow, style, r, blank);
        drow := drow + 1;
      }
    }

    /** One turn of the loop. */
    method ClearDispRow(drow: int, style: Style, ghost r: R.Ring<Row>, ghost blank: Row) returns (ghost next: R.Ring<Row>)
      requires Valid() && ringChars != null && r == State() && blank == BlankRow(style, ringCols)
      modifies this`ringChars, ringChars
      ensures Valid() && ringChars == old(ringChars)
      ensures 0 <= R.RingIndex(r, r.histRows + drow + r.offset) < |r.rows| && State() == next
      ensures next == r.(rows := r.rows[R.RingIndex(r, r.histRows + drow + r.offset) := blank])
    {
      ghost var i := R.RingIndex(r, r.histRows + drow + r.offset);
      R.IndexesInRange(r, r.histRows + drow + r.offset);
      next := r.(rows := r.rows[i := blank]);
      var start := RingRow(histRows + drow + offset);
      ClearRow(i, start, style);
    }

    /** The cells of one ring row are copied over another. */
    method CopyRow(s: nat, d: nat)
      requires Valid() && ringChars != null && s < ringRows && d < ringRows
      modifies ringChars
      ensures Valid() && State() == old(State()).(rows := old(State().rows)[d := old(State().rows)[s]])
    {
      RowFits(s, ringRows, ringCols);
      RowFits(d, ringRows, ringCols);
      ghost var was := ringChars[..];
      var src, dst := s * ringCols, d * ringCols;
      forall c | 0 <= c < ringCols { ringChars[dst + c] := ringChars[src + c]; }
      RowWritten(was, ringChars[..], ringRows, ringCols, d, RowAt(was, ringRows, ringCols, s));
    }

    method MoveDispRow(srcRow: int, dstRow: int)
      requires Valid()
      modifies this`ringChars, ringChars
      ensures Valid() && ringChars == old(ringChars)
      ensures State() == R.MoveDispRow(old(State()), srcRow, dstRow)
    {
      if ringChars == null { return; }
      R.IndexesInRange(State(), srcRow);
      R.IndexesInRange(State(), dstRow);
      var s := CRem(histRows + Normalize(srcRow, dispRows) + offset, ringRows);
      var d := CRem(histRows + Normalize(dstRow, dispRows) + offset, ringRows);
      assert s == R.DispIndex(State(), srcRow) && d == R.DispIndex(State(), dstRow);
      CopyRow(s, d);
    }

    /** The upward scroll without its blanking. */
    method Advance(n: int)
      requires Valid() && 1 <= n <= dispRows
      requires ringChars != null
      modifies this`offset, this`histUse
      ensures Valid() && State() == R.OffsetAdjust(old(State()), n).(histUse := Clamp(old(histUse) + n, 0, histRows))
    {
      OffsetAdjust(n);
      histUse := Clamp(histUse + n, 0, histRows);
    }

    method ScrollUp(n: int, style: Style)
      requires Valid() && ringChars != null && 1 <= n <= dispRows
      modifies this`ringChars, this`offset, this`histUse, ringChars
      ensures Valid() && ringChars == old(ringChars)
      ensures State() == R.ScrollUp(old(State()), n, BlankRow(style, ringCols))
    {
      ghost var target := R.ScrollUp(State(), n, BlankRow(style, ringCols));
      Advance(n);
      var sdrow, edrow := CRem(dispRows - n, dispRows), dispRows - 1;
      assert target == R.ClearDispRows(State(), sdrow, edrow, BlankRow(style, ringCols));
      ClearDispRows(sdrow, edrow, style);
    }

    /** One turn of the downward loop. */
    method ScrollDownStep(row: int, n: int, style: Style)
      requires Valid() && ringChars != null && 0 <= row < dispRows && 1 <= n
      modifies this`ringChars, ringChars
      ensures Valid() && ringChars == old(ringChars)
      ensures State() == R.ScrollDownStep(old(State()), row, n, BlankRow(style, ringCols))
    {
      if row - n >= 0 {
        MoveDispRow(row - n, row);
      } else {
        ClearDispRows(row, row, style);
      }
    }

    method ScrollDown(n: int, style: Style)
      requires Valid() && ringChars != null && 1 <= n
      modifies this`ringChars, ringChars
      ensures Valid() && ringChars == old(ringChars)
      ensures State() == R.ScrollDownFrom(old(State()), dispRows - 1, n, BlankRow(style, ringCols))
    {
      ghost var target := R.ScrollDownFrom(State(), dispRows - 1, n, BlankRow(style, ringCols));
      var row := dispRows - 1;
      while row >= 0
        invariant -1 <= row < dispRows
        invariant Valid() && ringChars == old(ringChars)
        invariant R.ScrollDownFrom(State(), row, n, BlankRow(style, ringCols)) == target
      {
        ScrollDownStep(row, n, style);
        row := row - 1;
      }
    }

    method Scroll(rows: int, style: Style)
      requires Valid()
      modifies this`ringChars, this`offset, this`histUse, ringChars
      ensures Valid() && State() == R.Scroll(old(State()), rows, BlankRow(style, ringCols))
      ensures old(ringChars) != null ==> ringChars == old(ringChars)
      ensures ringChars != null && old(ringChars) == null ==> fresh(ringChars)
    {
      if ringChars == null && histUse == 0 { return; }
      EnsureRing();
      if rows > 0 {
        ScrollUp(Clamp(rows, 1, dispRows), style);
      } else {
        ScrollDown(Clamp(-rows, 1, dispRows), style);
      }
    }

    /** create(): new sizes, no cells yet. */
    method Create(drows: nat, dcols: nat, hrows: nat)
      requires drows > 0 && dcols > 0
      modifies this
      ensures Valid() && ringCols == dcols && ringChars == null
      ensures State() == R.Create(drows, hrows, FreshRow(dcols))
    {
      ringChars := null;
      ringRows, ringCols, nchars := drows + hrows, dcols, (drows + hrows) * dcols;
      histRows, histUse, dispRows, offset := hrows, 0, drows, 0;
    }

    static method CopyCells(src: array<Cell>, from: nat, dst: array<Cell>, to: nat, n: nat)
      requires src != dst && from + n <= src.Length && to + n <= dst.Length
      modifies dst
      ensures forall i :: to <= i < to + n ==> dst[i] == src[from + (i - to)]
      ensures forall i :: 0 <= i < dst.Length && !(to <= i < to + n) ==> dst[i] == old(dst[i])
    {
      forall i | to <= i < to + n { dst[i] := src[from + (i - to)]; }
    }

    /** memcpy() of the common columns of ring row `s` into row `d` of a fresh buffer. */
    method CopyInto(s: nat, dst: array<Cell>, rows: nat, dcols: nat, d: nat)
      requires Valid() && ringChars != null && ringChars != dst && s < ringRows
      requires dst.Length == rows * dcols && d < rows
      requires RowsOf(dst[..], rows, dcols)[d] == FreshRow(dcols)
      modifies dst
      ensures RowsOf(dst[..], rows, dcols)
              == RowsOf(old(dst[..]), rows, dcols)[d := N.FitTo(dcols)(State().rows[s])]
    {
      RowFits(s, ringRows, ringCols);
      RowFits(d, rows, dcols);
      ghost var was, src := dst[..], RowAt(ringChars[..], ringRows, ringCols, s);
      assert State().rows[s] == src && |src| == ringCols;
      var tcols := if ringCols <= dcols then ringCols else dcols;
      CopyCells(ringChars, s * ringCols, dst, d * dcols, tcols);
      RowFitted(was, dst[..], rows, dcols, d, d * dcols, src);
    }

    /** The row `d` of default cells with as much of `src` written over it as fits. */
    static lemma RowFitted(was: seq<Cell>, b: seq<Cell>, rows: nat, dcols: nat, d: nat, to: nat, src: Row)
      requires |was| == |b| == rows * dcols && d < rows && RowsOf(was, rows, dcols)[d] == FreshRow(dcols)
      requires to == d * dcols && to + dcols <= |was|
      requires forall i :: to <= i < to + dcols ==> b[i] == if i - to < |src| then src[i - to] else was[i]
      requires forall i :: 0 <= i < |was| && !(to <= i < to + dcols) ==> b[i] == was[i]
      ensures RowsOf(b, rows, dcols) == RowsOf(was, rows, dcols)[d := N.FitTo(dcols)(src)]
    {
      forall i | to <= i < to + dcols ensures b[i] == Fit(src, dcols)[i - to] {
        if i - to >= |src| { assert was[i] == RowAt(was, rows, dcols, d)[i - to]; }
      }
      RowWritten(was, b, rows, dcols, d, Fit(src, dcols));
    }

    /** The rows of `w` are those of the buffer in another width. */
    ghost predicate Widened(w: R.Ring<Row>, dcols: nat)
      requires Shaped()
      reads this, ringChars
    {
      && |w.rows| == ringRows
      && forall i :: 0 <= i < ringRows ==> w.rows[i] == Fit(State().rows[i], dcols)
    }

    /** One turn of the copy loop; `out` is what the new buffer holds before it. */
    method CopyRingRow(srcRow: int, dst: array<Cell>, rows: nat, dcols: nat, d: nat, ghost w: R.Ring<Row>, ghost out: seq<Row>)
        returns (ghost next: seq<Row>)
      requires Valid() && ringChars != null && ringChars != dst && Widened(w, dcols)
      requires dst.Length == rows * dcols && d < rows && RowsOf(dst[..], rows, dcols) == out && out[d] == FreshRow(dcols)
      modifies dst
      ensures 0 <= R.RingIndex(w, srcRow) < |w.rows|
      ensures next == out[d := w.rows[R.RingIndex(w, srcRow)]] && RowsOf(dst[..], rows, dcols) == next
    {
      R.IndexesInRange(State(), srcRow);
      next := out[d := w.rows[R.RingIndex(w, srcRow)]];
      CopyInto(Normalize(srcRow, ringRows), dst, rows, dcols, d);
    }

    /** The copy loop of new_copy(), from the bottom row of both buffers upward. */
    method CopyRowsUp(dst: array<Cell>, rows: nat, dcols: nat, srcStart: int, stopRow: int, ghost w: R.Ring<Row>)
        returns (ghost out: seq<Row>)
      requires Valid() && ringChars != null && ringChars != dst && rows > 0 && Widened(w, dcols) && R.Valid(w)
      requires dst.Length == rows * dcols && RowsOf(dst[..], rows, dcols) == Repeat(FreshRow(dcols), rows)
      modifies dst
      ensures RowsOf(dst[..], rows, dcols) == out
      ensures out == R.CopyRowsUp(w, Repeat(FreshRow(dcols), rows), srcStart, stopRow, rows - 1)
    {
      out := Repeat(FreshRow(dcols), rows);
      ghost var target := R.CopyRowsUp(w, out, srcStart, stopRow, rows - 1);
      var srcRow, dstRow := srcStart, rows - 1;
      while srcRow >= stopRow && dstRow >= 0
        invariant -1 <= dstRow < rows == |out|
        invariant Valid() && Widened(w, dcols) && RowsOf(dst[..], rows, dcols) == out
        invariant forall i :: 0 <= i <= dstRow ==> out[i] == FreshRow(dcols)
        invariant R.CopyRowsUp(w, out, srcRow, stopRow, dstRow) == target
        decreases dstRow + 1
      {
        out := CopyRingRow(srcRow, dst, rows, dcols, dstRow, w, out);
        srcRow := srcRow - 1;
        dstRow := dstRow - 1;
      }
    }

    static method FreshRows(rows: nat, dcols: nat) returns (dst: array<Cell>)
      requires rows > 0
      ensures fresh(dst) && dst.Length == rows * dcols
      ensures RowsOf(dst[..], rows, dcols) == Repeat(FreshRow(dcols), rows)
    {
      RowFits(0, rows, dcols);
      dst := new Cell[rows * dcols](_ => FRESH_CELL);
      forall r | 0 <= r < rows
        ensures RowAt(dst[..], rows, dcols, r) == FreshRow(dcols)
      {
        RowFits(r, rows, dcols);
      }
    }

    method NewCopy(drows: nat, dcols: nat, hrows: nat)
      requires Valid() && drows > 0 && dcols > 0
      modifies this
      ensures Valid() && ringCols == dcols
      ensures State() == R.NewCopy(old(State()), drows, hrows, N.FitTo(dcols), FreshRow(dcols))
      ensures ringChars != null ==> fresh(ringChars)
    {
      if ringChars == null {
        Create(drows, dcols, hrows);
      } else {
        CopyRing(drows, dcols, hrows, State());
      }
    }

    method CopyRing(drows: nat, dcols: nat, hrows: nat, ghost r: R.Ring<Row>)
      requires Valid() && ringChars != null && drows > 0 && dcols > 0 && r == State()
      modifies this
      ensures Valid() && ringCols == dcols
      ensures State() == R.NewCopy(r, drows, hrows, N.FitTo(dcols), FreshRow(dcols))
      ensures ringChars != null ==> fresh(ringChars)
    {
      var rows := drows + hrows;
      var stopRow := CRem(offset + histRows - histUse, ringRows);
      var srcStart := stopRow + histUse + dispRows - 1;
      assert stopRow == R.HistUseStartRow(r) && srcStart == stopRow + r.histUse + r.dispRows - 1;
      ghost var w := WidenedRing(r, dcols);
      var dst := FreshRows(rows, dcols);
      ghost var out := CopyRowsUp(dst, rows, dcols, srcStart, stopRow, w);
      ghost var copy := CopiedRing(r, drows, dcols, hrows, w, srcStart, stopRow, out);
      InstallCopy(dst, drows, dcols, hrows, copy);
    }

    static lemma WidenedRing(r: R.Ring<Row>, dcols: nat) returns (w: R.Ring<Row>)
      requires R.Valid(r)
      ensures w == R.FitRows(r, N.FitTo(dcols)) && R.Valid(w) && |w.rows| == |r.rows|
      ensures forall i :: 0 <= i < |r.rows| ==> w.rows[i] == Fit(r.rows[i], dcols)
    {
      w := R.FitRows(r, N.FitTo(dcols));
    }

    static lemma CopiedRing(r: R.Ring<Row>, drows: nat, dcols: nat, hrows: nat, w: R.Ring<Row>, start: int, stop: int, out: seq<Row>)
        returns (copy: R.Ring<Row>)
      requires R.Valid(r) && r.live && drows > 0 && w == R.FitRows(r, N.FitTo(dcols)) && R.Valid(w)
      requires stop == R.HistUseStartRow(r) && start == stop + r.histUse + r.dispRows - 1
      requires out == R.CopyRowsUp(w, Repeat(FreshRow(dcols), drows + hrows), start, stop, drows + hrows - 1)
      ensures copy == R.NewCopy(r, drows, hrows, N.FitTo(dcols), FreshRow(dcols))
      ensures copy == R.Ring(out, hrows, Clamp(r.histUse + r.dispRows - drows, 0, hrows), drows, 0, true)
    {
      copy := R.NewCopy(r, drows, hrows, N.FitTo(dcols), FreshRow(dcols));
    }

    /** The new buffer replaces the old one, with a zero offset. */
    method InstallCopy(dst: array<Cell>, drows: nat, dcols: nat, hrows: nat, ghost copy: R.Ring<Row>)
      requires drows > 0 && dcols > 0 && dst.Length == (drows + hrows) * dcols
      requires copy == R.Ring(RowsOf(dst[..], drows + hrows, dcols), hrows, Clamp(histUse + dispRows - drows, 0, hrows), drows, 0, true)
      modifies this
      ensures Valid() && ringCols == dcols && ringChars == dst && State() == copy
    {
      var newUse := Clamp(histUse + dispRows - drows, 0, hrows);
      ringChars := dst;
      ringRows, ringCols, nchars := drows + hrows, dcols, (drows + hrows) * dcols;
      histRows, histUse, dispRows, offset := hrows, newUse, drows, 0;
    }

    /** resize(): with another width or another total of rows a new buffer is made;
        otherwise only the border between history and display moves. Moving it up in a
        buffer without cells leaves a history in use that has none. */
    method Resize(drows: nat, dcols: nat, hrows: nat)
      requires Valid() && drows > 0 && dcols > 0
      modifies this
      ensures Shaped() && ringCols == dcols
      ensures Valid() <==> old(ringChars) != null || old(ringCols) != dcols
                           || drows + hrows != old(dispRows + histRows) || drows >= old(dispRows)
      ensures old(ringCols) != dcols || drows + hrows != old(dispRows + histRows)
              ==> State() == R.NewCopy(old(State()), drows, hrows, N.FitTo(dcols), FreshRow(dcols))
      ensures old(ringCols) == dcols && drows + hrows == old(dispRows + histRows)
              ==> State() == R.MoveBorder(old(State()), drows, hrows)
      ensures ringChars != null && ringChars != old(ringChars) ==> fresh(ringChars)
    {
      if dcols != ringCols || drows + hrows != dispRows + histRows {
        NewCopy(drows, dcols, hrows);
      } else {
        var newUse := Clamp(histUse + dispRows - drows, 0, hrows);
        histRows, dispRows, histUse := hrows, drows, newUse;
      }
    }

    /** Utf8Char::text_utf8() on one cell. */
    method PutCell(ghost d: nat, start: nat, dcol: nat, text: string, style: Style)
      requires Valid() && ringChars != null && d < ringRows && start == d * ringCols && dcol < ringCols
      modifies ringChars
      ensures Valid() && |old(State().rows)[d]| == ringCols
      ensures var line := old(State().rows)[d];
              State() == old(State()).(rows := old(State().rows)[d := line[dcol := PlottedCell(line[dcol], text, style)]])
    {
      RowFits(d, ringRows, ringCols);
      ghost var was := ringChars[..];
      assert State().rows[d] == RowAt(was, ringRows, ringCols, d);
      var cell := PlottedCell(ringChars[start + dcol], text, style);
      CellWritten(was, ringRows, ringCols, d, dcol, cell);
      ringChars[start + dcol] := cell;
      assert ringChars[..] == was[start + dcol := cell];
    }

    /** plot_char() of a printable character. */
    method PlotChar(text: string, drow: int, dcol: nat, style: Style)
      requires Valid() && dcol < ringCols
      modifies this`ringChars, ringChars
      ensures Valid()
      ensures 0 <= R.DispIndex(old(State()), drow) < |old(State()).rows|
      ensures var line := old(State()).rows[R.DispIndex(old(State()), drow)];
              && |line| == ringCols
              && State() == R.PutDispRow(old(State()), drow, line[dcol := PlottedCell(line[dcol], text, style)])
      ensures old(ringChars) != null ==> ringChars == old(ringChars)
      ensures old(ringChars) == null ==> fresh(ringChars)
    {
      ghost var i := R.DispIndex(State(), drow);
      R.IndexesInRange(State(), drow);
      var start := DispRow(drow);
      PutCell(i, start, dcol, text, style);
    }
  }
}
