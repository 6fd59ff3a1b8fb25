/** The ring buffer of src/Fl_Terminal.cxx on values: which ring row each region's
    row lives in, and what each RingBuffer method does to rows and indexes.
    RingBuffer.dfy ties the methods on the flat cell array to these functions. */
module RingModel {
  import opened CArithmetic
  import opened Rows

  /** `rows[i]` is the i-th row of ring_chars_. `live` is ring_chars_ != NULL:
      before that, reading a row allocates default cells. */
  datatype Ring<T> = Ring(rows: seq<T>, histRows: nat, histUse: nat, dispRows: nat, offset: nat, live: bool)

  ghost predicate Valid<T>(r: Ring<T>) {
    && r.dispRows > 0
    && r.histRows + r.dispRows <= |r.rows|
    && r.histUse <= r.histRows
    && r.offset < |r.rows|
    && (!r.live ==> r.histUse == 0)
  }

  // ---- row addresses (u8c_ring_row, u8c_hist_row, u8c_hist_use_row, u8c_disp_row)

  function RingIndex<T>(r: Ring<T>, row: int): int
    requires |r.rows| > 0
  {
    Normalize(row, |r.rows|)
  }

  function HistIndex<T>(r: Ring<T>, hrow: int): int
    requires |r.rows| > 0 && r.histRows > 0
  {
    CRem(Normalize(hrow, r.histRows) + r.offset, |r.rows|)
  }

  function HistUseIndex<T>(r: Ring<T>, hurow: int): int
    requires |r.rows| > 0 && r.histUse > 0
  {
    CRem(r.histRows - r.histUse + CRem(hurow, r.histUse) + r.offset, |r.rows|)
  }

  function DispIndex<T>(r: Ring<T>, drow: int): int
    requires |r.rows| > 0 && r.dispRows > 0
  {
    CRem(r.histRows + Normalize(drow, r.dispRows) + r.offset, |r.rows|)
  }

  function DispStartRow<T>(r: Ring<T>): int
    requires |r.rows| > 0
  {
    CRem(r.offset + r.histRows, |r.rows|)
  }

  function HistUseStartRow<T>(r: Ring<T>): int
    requires |r.rows| > 0
  {
    CRem(r.offset + r.histRows - r.histUse, |r.rows|)
  }

  /** The position both region tests compute from a ring row number. */
  function TestedPosition<T>(r: Ring<T>, grow: int): int
    requires |r.rows| > 0
  {
    var g := CRem(grow, |r.rows|) - r.offset;
    if g < 0 then |r.rows| + g else g
  }

  predicate IsHistRingRow<T>(r: Ring<T>, grow: int)
    requires |r.rows| > 0
  {
    0 <= TestedPosition(r, grow) <= r.histRows - 1
  }

  predicate IsDispRingRow<T>(r: Ring<T>, grow: int)
    requires |r.rows| > 0
  {
    r.histRows <= TestedPosition(r, grow) <= r.histRows + r.dispRows - 1
  }

  // ---- what the ring remembers

  function Wrap(i: nat, n: nat): (w: nat)
    requires i < 2 * n
    ensures w < n
  {
    if i < n then i else i - n
  }

  /** The row at distance p from the ring's offset. */
  function At<T>(r: Ring<T>, p: nat): T
    requires r.offset < |r.rows| && p < |r.rows|
  {
    r.rows[Wrap(p + r.offset, |r.rows|)]
  }

  /** Used history and display, oldest row first: history ends and the display starts
      histRows behind the offset. */
  function Text<T>(r: Ring<T>): (s: seq<T>)
    requires Valid(r)
    ensures |s| == r.histUse + r.dispRows
    ensures forall i :: 0 <= i < |s| ==> s[i] == At(r, r.histRows - r.histUse + i)
  {
    seq(r.histUse + r.dispRows, i requires 0 <= i < r.histUse + r.dispRows => At(r, r.histRows - r.histUse + i))
  }

  /** Every integer row is mapped into the ring. */
  lemma IndexesInRange<T>(r: Ring<T>, i: int)
    requires Valid(r)
    ensures 0 <= RingIndex(r, i) < |r.rows|
    ensures 0 <= DispIndex(r, i) < |r.rows|
    ensures r.histRows > 0 ==> 0 <= HistIndex(r, i) < |r.rows|
    ensures r.histUse > 0 && i >= 0 ==> 0 <= HistUseIndex(r, i) < |r.rows|
  {
  }

  // ---- RingBuffer methods

  function OffsetAdjust<T>(r: Ring<T>, n: int): Ring<T>
    requires |r.rows| > 0 && r.offset < |r.rows|
  {
    if n == 0 then r
    else if n > 0 then r.(offset := CRem(r.offset + n, |r.rows|))
    else
      var o := r.offset - Clamp(-n, 1, |r.rows|);
      r.(offset := if o < 0 then o + |r.rows| else o)
  }

  /** Rows sdrow..edrow of the display are blanked, top down. */
  function ClearDispRows<T>(r: Ring<T>, sdrow: int, edrow: int, blank: T): (t: Ring<T>)
    requires |r.rows| > 0
    ensures |t.rows| == |r.rows| && t == r.(rows := t.rows)
    ensures Valid(r) ==> Valid(t)
    decreases edrow - sdrow
  {
    if !r.live || sdrow > edrow then r
    else
      var i := RingIndex(r, r.histRows + sdrow + r.offset);
      ClearDispRows(r.(rows := r.rows[i := blank]), sdrow + 1, edrow, blank)
  }

  function MoveDispRow<T>(r: Ring<T>, srcRow: int, dstRow: int): (t: Ring<T>)
    requires Valid(r)
    ensures Valid(t) && |t.rows| == |r.rows| && t == r.(rows := t.rows)
  {
    IndexesInRange(r, srcRow);
    IndexesInRange(r, dstRow);
    if !r.live then r
    else r.(rows := r.rows[DispIndex(r, dstRow) := r.rows[DispIndex(r, srcRow)]])
  }

  function Scroll<T>(r: Ring<T>, n: int, blank: T): Ring<T>
    requires Valid(r)
  {
    if !r.live && r.histUse == 0 then r
    else if n > 0 then ScrollUp(r.(live := true), Clamp(n, 1, r.dispRows), blank)
    else ScrollDownFrom(r.(live := true), r.dispRows - 1, Clamp(-n, 1, r.dispRows), blank)
  }

  function ScrollUp<T>(r: Ring<T>, n: int, blank: T): Ring<T>
    requires Valid(r) && 1 <= n <= r.dispRows
  {
    var moved := OffsetAdjust(r, n).(histUse := Clamp(r.histUse + n, 0, r.histRows));
    ClearDispRows(moved, CRem(r.dispRows - n, r.dispRows), r.dispRows - 1, blank)
  }

  /** The downward loop, from display row `row` to the top. */
  function ScrollDownFrom<T>(r: Ring<T>, row: int, n: int, blank: T): (t: Ring<T>)
    requires Valid(r) && r.live && -1 <= row < r.dispRows && 1 <= n
    ensures Valid(t) && t == r.(rows := t.rows) && |t.rows| == |r.rows|
    decreases row + 1
  {
    if row < 0 then r else ScrollDownFrom(ScrollDownStep(r, row, n, blank), row - 1, n, blank)
  }

  function ScrollDownStep<T>(r: Ring<T>, row: int, n: int, blank: T): (t: Ring<T>)
    requires Valid(r) && r.live && 0 <= row < r.dispRows && 1 <= n
    ensures Valid(t) && t == r.(rows := t.rows) && |t.rows| == |r.rows|
  {
    if row - n >= 0 then MoveDispRow(r, row - n, row) else ClearDispRows(r, row, row, blank)
  }

  function Create<T>(drows: nat, hrows: nat, unwritten: T): Ring<T> {
    Ring(Repeat(unwritten, drows + hrows), hrows, 0, drows, 0, false)
  }

  /** Every row in the new width; `fit` is the copy of one row into it. */
  function FitRows<T>(r: Ring<T>, fit: T -> T): (w: Ring<T>)
    ensures |w.rows| == |r.rows| && w == r.(rows := w.rows)
    ensures forall i :: 0 <= i < |r.rows| ==> w.rows[i] == fit(r.rows[i])
  {
    r.(rows := seq(|r.rows|, i requires 0 <= i < |r.rows| => fit(r.rows[i])))
  }

  /** Rows are copied bottom up until the oldest used history row or the top of the
      new buffer is reached. */
  function CopyRowsUp<T>(r: Ring<T>, dst: seq<T>, srcRow: int, stopRow: int, dstRow: int): (t: seq<T>)
    requires Valid(r) && -1 <= dstRow < |dst|
    ensures |t| == |dst|
    decreases dstRow + 1
  {
    if srcRow >= stopRow && dstRow >= 0 then
      IndexesInRange(r, srcRow);
      CopyRowsUp(r, dst[dstRow := r.rows[RingIndex(r, srcRow)]], srcRow - 1, stopRow, dstRow - 1)
    else dst
  }

  function NewCopy<T>(r: Ring<T>, drows: nat, hrows: nat, fit: T -> T, unwritten: T): Ring<T>
    requires Valid(r)
  {
    if !r.live then Create(drows, hrows, unwritten)
    else
      var newRows := drows + hrows;
      var stop := HistUseStartRow(r);
      Ring(CopyRowsUp(FitRows(r, fit), Repeat(unwritten, newRows), stop + r.histUse + r.dispRows - 1, stop, newRows - 1),
           hrows, Clamp(r.histUse + r.dispRows - drows, 0, hrows), drows, 0, true)
  }

  /** The branch of resize() that keeps the buffer: total and width are unchanged. */
  function MoveBorder<T>(r: Ring<T>, drows: nat, hrows: nat): Ring<T> {
    r.(histRows := hrows, dispRows := drows, histUse := Clamp(r.histUse + r.dispRows - drows, 0, hrows))
  }

  /** Only the display count changes; the rows given up stay in the ring unused. */
  function SetDispRows<T>(r: Ring<T>, drows: nat): Ring<T> {
    r.(dispRows := drows)
  }

  /** clear_hist() followed by the blanking of every history row. */
  function ClearHistory<T>(r: Ring<T>, blank: T): Ring<T>
    requires Valid(r)
  {
    ClearHistRowsFrom(r.(histUse := 0), 0, blank)
  }

  function ClearHistRowsFrom<T>(r: Ring<T>, hrow: nat, blank: T): (t: Ring<T>)
    requires Valid(r) && hrow <= r.histRows
    ensures Valid(t) && |t.rows| == |r.rows| && t == r.(rows := t.rows, live := t.live)
    decreases r.histRows - hrow
  {
    if hrow == r.histRows then r
    else
      IndexesInRange(r, hrow);
      ClearHistRowsFrom(r.(live := true, rows := r.rows[HistIndex(r, hrow) := blank]), hrow + 1, blank)
  }

  /** One display row is replaced, as plot_char() does with a changed cell. */
  function PutDispRow<T>(r: Ring<T>, drow: int, row: T): (t: Ring<T>)
    requires Valid(r)
    ensures Valid(t)
  {
    IndexesInRange(r, drow);
    r.(live := true, rows := r.rows[DispIndex(r, drow) := row])
  }
}
