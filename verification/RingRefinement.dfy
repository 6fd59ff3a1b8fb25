/** The ring buffer stands for history ++ display. Rotating the rows so that they start
    at `offset` puts history and display side by side; every ring operation is then
    shown to be the naive operation on the two lists of rows. */
module RingRefinement {
  import opened CArithmetic
  import opened Rows
  import opened RingModel
  import N = NaiveScreen

  function Abs<T>(r: Ring<T>): N.Screen<T>
    requires Valid(r)
  {
    N.Screen(Text(r), r.dispRows, r.histRows, r.live)
  }

  /** Reading rows 0..hist_use-1 through the history address and rows 0..disp_rows-1
      through the display address gives the two regions. */
  lemma RegionsAreRead<T>(r: Ring<T>)
    requires Valid(r)
    ensures |N.Hist(Abs(r))| == r.histUse && |N.Disp(Abs(r))| == r.dispRows
    ensures forall i :: 0 <= i < r.histUse ==>
              0 <= HistUseIndex(r, i) < |r.rows| && r.rows[HistUseIndex(r, i)] == N.Hist(Abs(r))[i]
    ensures forall i :: 0 <= i < r.dispRows ==>
              0 <= DispIndex(r, i) < |r.rows| && r.rows[DispIndex(r, i)] == N.Disp(Abs(r))[i]
  {
    forall i | 0 <= i < r.histUse
      ensures 0 <= HistUseIndex(r, i) < |r.rows| && r.rows[HistUseIndex(r, i)] == Text(r)[i]
    {
      CRemWraps(i, r.histUse);
      CRemWraps(r.histRows - r.histUse + i + r.offset, |r.rows|);
    }
    forall i | 0 <= i < r.dispRows
      ensures 0 <= DispIndex(r, i) < |r.rows| && r.rows[DispIndex(r, i)] == Text(r)[r.histUse + i]
    {
      CRemWraps(i, r.dispRows);
      CRemWraps(r.histRows + i + r.offset, |r.rows|);
    }
  }

  // ---- ring index totality

  /** Distance of a ring row from the ring's offset. */
  function Position<T>(r: Ring<T>, i: int): int
    requires |r.rows| > 0
  {
    (i - r.offset) % |r.rows|
  }

  lemma PositionOfRotated<T>(r: Ring<T>, p: int)
    requires r.offset < |r.rows| && 0 <= p < |r.rows|
    ensures Position(r, CRem(p + r.offset, |r.rows|)) == p
  {
    var m := |r.rows|;
    CRemWraps(p + r.offset, m);
    if p + r.offset < m { ModUnique(p, m, 0, p); } else { ModUnique(p - m, m, -1, p); }
  }

  /** Any display row number, negative or beyond the display, addresses the ring row
      its residue addresses, at its place behind the history. */
  lemma DispIndexIsTotal<T>(r: Ring<T>, drow: int)
    requires Valid(r)
    ensures 0 <= DispIndex(r, drow) < |r.rows|
    ensures Position(r, DispIndex(r, drow)) == r.histRows + drow % r.dispRows
    ensures r.rows[DispIndex(r, drow)] == Text(r)[r.histUse + drow % r.dispRows]
  {
    NormalizeIsResidue(drow, r.dispRows);
    var d := drow % r.dispRows;
    PositionOfRotated(r, r.histRows + d);
    CRemWraps(r.histRows + d + r.offset, |r.rows|);
  }

  lemma HistIndexIsTotal<T>(r: Ring<T>, hrow: int)
    requires Valid(r) && r.histRows > 0
    ensures 0 <= HistIndex(r, hrow) < |r.rows|
    ensures Position(r, HistIndex(r, hrow)) == hrow % r.histRows
  {
    NormalizeIsResidue(hrow, r.histRows);
    PositionOfRotated(r, hrow % r.histRows);
    IndexesInRange(r, hrow);
  }

  /** u8c_ring_row: raw rows, of any sign, denote their Euclidean residue. */
  lemma RingIndexIsTotal<T>(r: Ring<T>, row: int)
    requires Valid(r)
    ensures RingIndex(r, row) == row % |r.rows|
  {
    NormalizeIsResidue(row, |r.rows|);
  }

  /** The tested position is the right one for every number that is not negative, and for a negative one
      exactly if its C remainder does not fall more than a ring below the offset. */
  lemma RegionTestPosition<T>(r: Ring<T>, grow: int)
    requires r.offset < |r.rows|
    ensures TestedPosition(r, grow) == Position(r, grow) <==> CRem(grow, |r.rows|) >= r.offset - |r.rows|
  {
    if grow >= 0 {
      TestedForward(r, grow);
    } else {
      TestedBackward(r, grow);
    }
  }

  lemma TestedForward<T>(r: Ring<T>, grow: nat)
    requires r.offset < |r.rows|
    ensures TestedPosition(r, grow) == Position(r, grow)
  {
    var m := |r.rows|;
    var q, k := grow / m, grow % m;
    assert grow == q * m + k;
    NatRemIsMod(grow, m);
    if k >= r.offset {
      ModUnique(grow - r.offset, m, q, k - r.offset);
    } else {
      assert (q - 1) * m == q * m - m;
      ModUnique(grow - r.offset, m, q - 1, k - r.offset + m);
    }
  }

  lemma TestedBackward<T>(r: Ring<T>, grow: int)
    requires r.offset < |r.rows| && grow < 0
    ensures TestedPosition(r, grow) == Position(r, grow) <==> CRem(grow, |r.rows|) >= r.offset - |r.rows|
  {
    var m := |r.rows|;
    var q := NatRemQuotient(-grow, m);
    var k := CRem(grow, m);
    assert (-q) * m == -(q * m) && (-q - 1) * m == -(q * m) - m;
    assert grow == (-q) * m + k;
    if k - r.offset >= 0 {
      ModUnique(grow - r.offset, m, -q, k - r.offset);
    } else if k - r.offset >= -m {
      ModUnique(grow - r.offset, m, -q - 1, k - r.offset + m);
    } else {
      assert TestedPosition(r, grow) < 0 <= Position(r, grow);
    }
  }

  /** For a fixed offset the history rows and the display rows occupy different ring
      rows, each region has as many ring rows as it has rows, and no ring row is left
      over unless the display was trimmed. */
  lemma RegionsPartitionRing<T>(r: Ring<T>, grow: int)
    requires Valid(r) && 0 <= grow < |r.rows|
    ensures IsHistRingRow(r, grow) <==> exists h :: 0 <= h < r.histRows && HistIndex(r, h) == grow
    ensures IsDispRingRow(r, grow) <==> exists d :: 0 <= d < r.dispRows && DispIndex(r, d) == grow
    ensures !(IsHistRingRow(r, grow) && IsDispRingRow(r, grow))
    ensures IsHistRingRow(r, grow) || IsDispRingRow(r, grow)
            || r.histRows + r.dispRows <= Position(r, grow) < |r.rows|
  {
    var p := Position(r, grow);
    TestedForward(r, grow);
    assert CRem(p + r.offset, |r.rows|) == grow by {
      CRemWraps(grow, |r.rows|);
      CRemWraps(p + r.offset, |r.rows|);
    }
    if p < r.histRows {
      CRemWraps(p, r.histRows);
      assert HistIndex(r, p) == grow;
    } else if p < r.histRows + r.dispRows {
      CRemWraps(p - r.histRows, r.dispRows);
      assert DispIndex(r, p - r.histRows) == grow;
    }
    forall h | 0 <= h < r.histRows && HistIndex(r, h) == grow
      ensures p == h
    {
      HistIndexIsTotal(r, h);
      ModUnique(h, r.histRows, 0, h);
    }
    forall d | 0 <= d < r.dispRows && DispIndex(r, d) == grow
      ensures p == r.histRows + d
    {
      DispIndexIsTotal(r, d);
      ModUnique(d, r.dispRows, 0, d);
    }
  }

  // ---- scrolling

  /** Advancing the offset brings every row n places nearer; nothing is copied. */
  lemma OffsetAdjustAt<T>(r: Ring<T>, n: int, p: nat)
    requires r.offset < |r.rows| && 0 < n <= |r.rows| && p < |r.rows|
    ensures var t := OffsetAdjust(r, n);
            && t == r.(offset := t.offset) && t.offset < |r.rows|
            && At(t, p) == At(r, Wrap(p + n, |r.rows|))
  {
    CRemWraps(r.offset + n, |r.rows|);
  }

  /** A negative adjustment moves every row away, by at most one full turn; the one caller,
      the upward scroll, never makes one. */
  lemma OffsetAdjustBackAt<T>(r: Ring<T>, n: int, p: nat)
    requires r.offset < |r.rows| && n < 0 && p < |r.rows|
    ensures var t := OffsetAdjust(r, n); var k := Clamp(-n, 1, |r.rows|);
            && t == r.(offset := t.offset) && t.offset < |r.rows|
            && At(t, p) == At(r, Wrap(p + |r.rows| - k, |r.rows|))
  {
  }

  lemma OneClearedAt<T>(r: Ring<T>, drow: int, blank: T, p: nat)
    requires Valid(r) && 0 <= drow < r.dispRows && p < |r.rows|
    ensures 0 <= RingIndex(r, r.histRows + drow + r.offset) < |r.rows|
    ensures At(r.(rows := r.rows[RingIndex(r, r.histRows + drow + r.offset) := blank]), p)
            == if p == r.histRows + drow then blank else At(r, p)
  {
    CRemWraps(r.histRows + drow + r.offset, |r.rows|);
  }

  lemma {:induction false} ClearedAt<T>(r: Ring<T>, sdrow: int, edrow: int, blank: T, p: nat)
    requires Valid(r) && r.live && 0 <= sdrow <= edrow + 1 <= r.dispRows && p < |r.rows|
    ensures At(ClearDispRows(r, sdrow, edrow, blank), p)
            == if r.histRows + sdrow <= p <= r.histRows + edrow then blank else At(r, p)
    decreases edrow - sdrow
  {
    if sdrow <= edrow {
      OneClearedAt(r, sdrow, blank, p);
      ClearedAt(r.(rows := r.rows[RingIndex(r, r.histRows + sdrow + r.offset) := blank]), sdrow + 1, edrow, blank, p);
    }
  }

  lemma ScrollUpAt<T>(r: Ring<T>, n: int, blank: T, p: nat)
    requires Valid(r) && r.live && 1 <= n <= r.dispRows && p < r.histRows + r.dispRows
    ensures var t := ScrollUp(r, n, blank);
            && Valid(t)
            && t == r.(rows := t.rows, offset := t.offset, histUse := Clamp(r.histUse + n, 0, r.histRows))
            && At(t, p) == if r.histRows + r.dispRows - n <= p then blank else At(r, p + n)
  {
    var moved := OffsetAdjust(r, n).(histUse := Clamp(r.histUse + n, 0, r.histRows));
    OffsetAdjustAt(r, n, p);
    CRemWraps(r.dispRows - n, r.dispRows);
    ClearedAt(moved, r.dispRows - n, r.dispRows - 1, blank, p);
  }

  lemma ScrollUpTextAt<T>(r: Ring<T>, n: int, blank: T, i: nat)
    requires Valid(r) && r.live && 1 <= n <= r.dispRows
    ensures var t := ScrollUp(r, n, blank); var all := Text(r) + Repeat(blank, n);
            && Valid(t) && |Text(t)| <= |all|
            && (i < |Text(t)| ==> Text(t)[i] == all[|all| - |Text(t)| + i])
  {
    var t := ScrollUp(r, n, blank);
    ScrollUpAt(r, n, blank, 0);
    if i < |Text(t)| { ScrollUpAt(r, n, blank, r.histRows - t.histUse + i); }
  }

  lemma ScrollUpText<T>(r: Ring<T>, n: int, blank: T)
    requires Valid(r) && r.live && 1 <= n <= r.dispRows
    ensures var t := ScrollUp(r, n, blank);
            && Valid(t)
            && t == r.(rows := t.rows, offset := t.offset, histUse := Clamp(r.histUse + n, 0, r.histRows))
            && Text(t) == LastN(Text(r) + Repeat(blank, n), r.histRows + r.dispRows)
  {
    ScrollUpAt(r, n, blank, 0);
    forall i: nat { ScrollUpTextAt(r, n, blank, i); }
    IsLastN(Text(ScrollUp(r, n, blank)), Text(r) + Repeat(blank, n), r.histRows + r.dispRows);
  }

  /** scroll(n): moving the offset and blanking the recycled rows is the naive scroll. */
  lemma ScrollUpRefines<T>(r: Ring<T>, n: int, blank: T)
    requires Valid(r) && r.live && 1 <= n <= r.dispRows
    ensures Valid(ScrollUp(r, n, blank))
    ensures Abs(ScrollUp(r, n, blank)) == N.ScrollUp(Abs(r), n, blank)
  {
    ScrollUpText(r, n, blank);
    N.ScrollUpText(Abs(r), n, blank);
  }

  /** The loop of the downward scroll: it works from `row` up, so what it still has to
      read is untouched. */
  lemma {:induction false} ScrolledDownAt<T>(r: Ring<T>, row: int, n: int, blank: T, p: nat)
    requires Valid(r) && r.live && -1 <= row < r.dispRows && 1 <= n <= r.dispRows && p < |r.rows|
    ensures At(ScrollDownFrom(r, row, n, blank), p)
            == if !(r.histRows <= p <= r.histRows + row) then At(r, p)
               else if p < r.histRows + n then blank
               else At(r, p - n)
    decreases row + 1
  {
    if row >= 0 {
      var step := ScrollDownStep(r, row, n, blank);
      ScrolledDownAt(step, row - 1, n, blank, p);
      DownTurn(r, row, n, blank, p, step, At(ScrollDownFrom(r, row, n, blank), p));
    }
  }

  /** The loop's claim about the row x at p, from its claim after one turn. */
  lemma DownTurn<T>(r: Ring<T>, row: int, n: int, blank: T, p: nat, step: Ring<T>, x: T)
    requires Valid(r) && r.live && 0 <= row < r.dispRows && 1 <= n <= r.dispRows && p < |r.rows|
    requires step == ScrollDownStep(r, row, n, blank)
    requires x == if !(r.histRows <= p <= r.histRows + row - 1) then At(step, p)
                  else if p < r.histRows + n then blank
                  else At(step, p - n)
    ensures x == if !(r.histRows <= p <= r.histRows + row) then At(r, p)
                 else if p < r.histRows + n then blank
                 else At(r, p - n)
  {
    SteppedDownAt(r, row, n, blank, p);
    if p >= n { SteppedDownAt(r, row, n, blank, p - n); }
  }

  lemma SteppedDownAt<T>(r: Ring<T>, row: int, n: int, blank: T, p: nat)
    requires Valid(r) && r.live && 0 <= row < r.dispRows && 1 <= n <= r.dispRows && p < |r.rows|
    ensures At(ScrollDownStep(r, row, n, blank), p)
            == if p != r.histRows + row then At(r, p)
               else if row < n then blank
               else At(r, p - n)
  {
    if row - n >= 0 {
      CRemWraps(row, r.dispRows);
      CRemWraps(row - n, r.dispRows);
      CRemWraps(r.histRows + row + r.offset, |r.rows|);
      CRemWraps(r.histRows + row - n + r.offset, |r.rows|);
    } else {
      ClearedAt(r, row, row, blank, p);
    }
  }

  lemma ScrolledDownTextAt<T>(r: Ring<T>, n: int, blank: T, i: nat, t: Ring<T>)
    requires Valid(r) && r.live && 1 <= n <= r.dispRows && i < |Text(r)|
    requires t == ScrollDownFrom(r, r.dispRows - 1, n, blank)
    ensures Text(t)[i] == if i < r.histUse then Text(r)[i] else if i < r.histUse + n then blank else Text(r)[i - n]
  {
    ScrolledDownAt(r, r.dispRows - 1, n, blank, r.histRows - r.histUse + i);
  }

  /** scroll(-n): the display moves down inside the ring, the history is left alone. */
  lemma ScrollDownRefines<T>(r: Ring<T>, n: int, blank: T)
    requires Valid(r) && r.live && 1 <= n <= r.dispRows
    ensures var t := ScrollDownFrom(r, r.dispRows - 1, n, blank);
            Abs(t) == N.ScrollDown(Abs(r), n, blank)
  {
    ScrolledDownText(r, n, blank, ScrollDownFrom(r, r.dispRows - 1, n, blank));
  }

  lemma ScrolledDownText<T>(r: Ring<T>, n: int, blank: T, t: Ring<T>)
    requires Valid(r) && r.live && 1 <= n <= r.dispRows
    requires t == ScrollDownFrom(r, r.dispRows - 1, n, blank)
    ensures Text(t) == N.ScrollDown(Abs(r), n, blank).text
  {
    forall i | 0 <= i < |Text(r)|
      ensures i < r.histUse ==> Text(t)[i] == Text(r)[i]
      ensures r.histUse <= i < r.histUse + n ==> Text(t)[i] == blank
      ensures r.histUse + n <= i ==> Text(t)[i] == Text(r)[i - n]
    {
      ScrolledDownTextAt(r, n, blank, i, t);
    }
    MovedDown(Text(r), Text(t), r.histUse, n, blank);
  }

  lemma MovedDown<T>(a: seq<T>, b: seq<T>, u: nat, n: nat, blank: T)
    requires |a| == |b| && u + n <= |a|
    requires forall i :: 0 <= i < u ==> b[i] == a[i]
    requires forall i :: u <= i < u + n ==> b[i] == blank
    requires forall i :: u + n <= i < |b| ==> b[i] == a[i - n]
    ensures b == a[..u] + Repeat(blank, n) + a[u..][..|a| - u - n]
  {
  }

  lemma ScrollRefines<T>(r: Ring<T>, n: int, blank: T)
    requires Valid(r)
    ensures Valid(Scroll(r, n, blank))
    ensures Abs(Scroll(r, n, blank)) == N.Scroll(Abs(r), n, blank)
  {
    if r.live {
      assert r.(live := true) == r;
      if n > 0 {
        ScrollUpRefines(r, Clamp(n, 1, r.dispRows), blank);
      } else {
        ScrollDownRefines(r, Clamp(-n, 1, r.dispRows), blank);
      }
    }
  }

  // ---- resizing

  /** Walking the ring from the oldest used history row visits history, then display. */
  lemma CopySource<T>(r: Ring<T>, k: nat)
    requires Valid(r) && k < r.histUse + r.dispRows
    ensures 0 <= RingIndex(r, HistUseStartRow(r) + k) < |r.rows|
    ensures r.rows[RingIndex(r, HistUseStartRow(r) + k)] == Text(r)[k]
  {
    CRemWraps(r.offset + r.histRows - r.histUse, |r.rows|);
    CRemWraps(HistUseStartRow(r) + k, |r.rows|);
  }

  /** Row j of the new buffer holds the source row as far from the bottom as j is. */
  lemma {:induction false} CopiedRow<T>(r: Ring<T>, dst: seq<T>, k: int, m: int, j: nat)
    requires Valid(r) && -1 <= m < |dst| && -1 <= k < r.histUse + r.dispRows && j < |dst|
    ensures var s := HistUseStartRow(r); var t := CopyRowsUp(r, dst, s + k, s, m); var src := k - m + j;
            t[j] == if j > m || src < 0 then dst[j] else Text(r)[src]
    decreases m + 1
  {
    if k >= 0 && m >= 0 {
      CopySource(r, k);
      CopiedRow(r, dst[m := Text(r)[k]], k - 1, m - 1, j);
    }
  }

  lemma FittedText<T>(r: Ring<T>, fit: T -> T, k: nat)
    requires Valid(r) && k < |Text(r)|
    ensures Valid(FitRows(r, fit)) && |Text(FitRows(r, fit))| == |Text(r)| && Text(FitRows(r, fit))[k] == fit(Text(r)[k])
  {
    assert Text(FitRows(r, fit))[k] == At(FitRows(r, fit), r.histRows - r.histUse + k);
  }

  lemma NewCopyRowAt<T>(r: Ring<T>, drows: nat, hrows: nat, fit: T -> T, unwritten: T, j: nat, rows: seq<T>)
    requires Valid(r) && r.live && drows > 0 && j < drows + hrows && rows == NewCopy(r, drows, hrows, fit, unwritten).rows
    ensures |rows| == drows + hrows
    ensures var src := |Text(r)| - drows - hrows + j; rows[j] == if src < 0 then unwritten else fit(Text(r)[src])
  {
    var src := |Text(r)| - drows - hrows + j;
    var w := FitRows(r, fit);
    CopiedAt(w, drows + hrows, unwritten, j, rows);
    if src >= 0 { FittedText(r, fit, src); }
  }

  lemma CopiedAt<T>(w: Ring<T>, n: nat, unwritten: T, j: nat, rows: seq<T>)
    requires Valid(w) && j < n
    requires rows == CopyRowsUp(w, Repeat(unwritten, n), HistUseStartRow(w) + w.histUse + w.dispRows - 1, HistUseStartRow(w), n - 1)
    ensures |rows| == n
    ensures var src := |Text(w)| - n + j; rows[j] == if src < 0 then unwritten else Text(w)[src]
  {
    CopiedRow(w, Repeat(unwritten, n), |Text(w)| - 1, n - 1, j);
  }

  lemma NewCopyTextAt<T>(r: Ring<T>, drows: nat, hrows: nat, fit: T -> T, unwritten: T, i: nat)
    requires Valid(r) && r.live && drows > 0
    ensures var t := NewCopy(r, drows, hrows, fit, unwritten); var n, k := |Text(t)|, |Text(r)|;
            && Valid(t) && n == Clamp(k, drows, hrows + drows)
            && (i < n ==> Text(t)[i] == if i + k >= n then fit(Text(r)[i + k - n]) else unwritten)
  {
    var t := NewCopy(r, drows, hrows, fit, unwritten);
    if i < |Text(t)| { NewCopyRowAt(r, drows, hrows, fit, unwritten, hrows - t.histUse + i, t.rows); }
  }

  lemma LiveCopyRefines<T>(r: Ring<T>, drows: nat, hrows: nat, fit: T -> T, unwritten: T)
    requires Valid(r) && r.live && drows > 0
    ensures var t := NewCopy(r, drows, hrows, fit, unwritten);
            Valid(t) && Text(t) == N.FitBottom(Text(r), Clamp(|Text(r)|, drows, hrows + drows), fit, unwritten)
  {
    NewCopyTextAt(r, drows, hrows, fit, unwritten, 0);
    forall i: nat { NewCopyTextAt(r, drows, hrows, fit, unwritten, i); }
  }

  lemma CreateIsUnwritten<T>(drows: nat, hrows: nat, unwritten: T)
    requires drows > 0
    ensures var t := Create(drows, hrows, unwritten);
            Valid(t) && Abs(t) == N.Screen(Repeat(unwritten, drows), drows, hrows, false)
  {
  }

  /** RingBuffer::resize() with a new total or width. */
  lemma NewCopyRefines<T>(r: Ring<T>, drows: nat, hrows: nat, fit: T -> T, unwritten: T)
    requires Valid(r) && drows > 0
    ensures Valid(NewCopy(r, drows, hrows, fit, unwritten))
    ensures Abs(NewCopy(r, drows, hrows, fit, unwritten)) == N.Resize(Abs(r), drows, hrows, fit, unwritten)
  {
    if r.live { LiveCopyRefines(r, drows, hrows, fit, unwritten); } else { CreateIsUnwritten(drows, hrows, unwritten); }
  }

  /** RingBuffer::resize() that only moves the border between history and display: no
      row moves, the same text is dealt out with unused history rows as padding. Only a
      ring without cells whose display shrinks comes out with a history it has no cells for. */
  lemma BorderMoves<T>(r: Ring<T>, drows: nat, hrows: nat)
    requires Valid(r) && drows > 0 && drows + hrows == r.dispRows + r.histRows
    ensures var t := MoveBorder(r, drows, hrows);
            && t.rows == r.rows
            && (Valid(t) <==> r.live || drows >= r.dispRows)
            && (Valid(t) ==> Text(t) == LastN(UnusedRowsAbove(r, Max(0, drows - |Text(r)|)) + Text(r), hrows + drows))
  {
    var t := MoveBorder(r, drows, hrows);
    if Valid(t) {
      forall i: nat { BorderTextAt(r, drows, hrows, i); }
      IsLastN(Text(t), UnusedRowsAbove(r, Max(0, drows - |Text(r)|)) + Text(r), hrows + drows);
    }
  }

  lemma BorderTextAt<T>(r: Ring<T>, drows: nat, hrows: nat, i: nat)
    requires Valid(r) && drows > 0 && drows + hrows == r.dispRows + r.histRows && (r.live || drows >= r.dispRows)
    ensures var t := MoveBorder(r, drows, hrows); var all := UnusedRowsAbove(r, Max(0, drows - |Text(r)|)) + Text(r);
            && Valid(t) && |Text(t)| <= |all|
            && (i < |Text(t)| ==> Text(t)[i] == all[|all| - |Text(t)| + i])
  {
    var t := MoveBorder(r, drows, hrows);
    if i < |Text(t)| { assert Text(t)[i] == At(r, hrows - t.histUse + i); }
  }

  /** The n ring rows just above the used history. */
  function UnusedRowsAbove<T>(r: Ring<T>, n: nat): (s: seq<T>)
    requires Valid(r) && n <= r.histRows - r.histUse
    ensures |s| == n
    ensures forall i :: 0 <= i < n ==> s[i] == At(r, r.histRows - r.histUse - n + i)
  {
    seq(n, i requires 0 <= i < n => At(r, r.histRows - r.histUse - n + i))
  }

  /** Shrinking below the cursor forgets the last display row and nothing else. */
  lemma TrimRefines<T>(r: Ring<T>, drows: nat)
    requires Valid(r) && 0 < drows <= r.dispRows
    ensures var t := SetDispRows(r, drows); Valid(t) && Abs(t) == N.Trim(Abs(r), r.dispRows - drows)
  {
  }

  // ---- writing

  lemma PutDispRowAt<T>(r: Ring<T>, d: nat, row: T, p: nat)
    requires Valid(r) && d < r.dispRows && p < |r.rows|
    ensures var t := PutDispRow(r, d, row);
            && t == r.(live := true, rows := t.rows) && |t.rows| == |r.rows|
            && At(t, p) == if p == r.histRows + d then row else At(r, p)
  {
    CRemWraps(d, r.dispRows);
    CRemWraps(r.histRows + d + r.offset, |r.rows|);
  }

  /** plot_char() changes one display row; no other display row shares its ring row. */
  lemma PutDispRowRefines<T>(r: Ring<T>, d: nat, row: T)
    requires Valid(r) && d < r.dispRows
    ensures var t := PutDispRow(r, d, row);
            Valid(t) && Abs(t) == N.PutRow(Abs(r), d, row)
  {
    PutDispRowAt(r, d, row, 0);
    PutDispRowText(r, d, row, PutDispRow(r, d, row));
  }

  lemma PutDispRowTextAt<T>(r: Ring<T>, d: nat, row: T, t: Ring<T>, i: nat)
    requires Valid(r) && d < r.dispRows && t == PutDispRow(r, d, row) && i < |Text(r)|
    ensures |Text(t)| == |Text(r)| && Text(t)[i] == if i == r.histUse + d then row else Text(r)[i]
  {
    PutDispRowAt(r, d, row, r.histRows - r.histUse + i);
  }

  lemma PutDispRowText<T>(r: Ring<T>, d: nat, row: T, t: Ring<T>)
    requires Valid(r) && d < r.dispRows && t == PutDispRow(r, d, row)
    ensures |Text(t)| == |Text(r)| && Text(t) == Text(r)[r.histUse + d := row]
  {
    PutDispRowAt(r, d, row, 0);
    forall i: nat | i < |Text(r)| { PutDispRowTextAt(r, d, row, t, i); }
  }

  lemma {:induction false} ClearedHistAt<T>(r: Ring<T>, hrow: nat, blank: T, p: nat)
    requires Valid(r) && hrow <= r.histRows && r.histRows <= p < |r.rows|
    ensures At(ClearHistRowsFrom(r, hrow, blank), p) == At(r, p)
    decreases r.histRows - hrow
  {
    if hrow < r.histRows {
      CRemWraps(hrow, r.histRows);
      CRemWraps(hrow + r.offset, |r.rows|);
      ClearedHistAt(r.(live := true, rows := r.rows[HistIndex(r, hrow) := blank]), hrow + 1, blank, p);
    }
  }

  lemma {:induction false} ClearedHistLive<T>(r: Ring<T>, hrow: nat, blank: T)
    requires Valid(r) && hrow <= r.histRows
    ensures ClearHistRowsFrom(r, hrow, blank).live == (r.live || hrow < r.histRows)
    decreases r.histRows - hrow
  {
    if hrow < r.histRows {
      ClearedHistLive(r.(live := true, rows := r.rows[HistIndex(r, hrow) := blank]), hrow + 1, blank);
    }
  }

  /** clear_history() forgets the history and leaves the display alone. */
  lemma ClearHistoryRefines<T>(r: Ring<T>, blank: T)
    requires Valid(r)
    ensures var t := ClearHistory(r, blank);
            Valid(t) && Abs(t) == N.ClearHistory(Abs(r))
  {
    var t := ClearHistory(r, blank);
    ClearedHistLive(r.(histUse := 0), 0, blank);
    forall i | 0 <= i < r.dispRows
      ensures Text(t)[i] == Text(r)[r.histUse + i]
    {
      ClearedHistAt(r.(histUse := 0), 0, blank, r.histRows + i);
    }
  }
}
