/** Refitting a screen and its cursor row to another number of display rows, one row at
    a time as refit_disp_to_screen() does (src/Fl_Terminal.cxx:1334-1374), on rows of any
    kind: `fit` copies a row into the new width, `unwritten` is a row of default cells. */
module NaiveRefit {
  import opened Rows
  import opened NaiveScreen

  datatype View<T> = View(s: Screen<T>, row: nat)

  function Min(a: nat, b: nat): nat { if a <= b then a else b }

  /** One more row: the newest history row comes back and the cursor follows (CASE 1),
      or else the screen scrolls one row up first (CASE 2). */
  function EnlargeStep<T>(v: View<T>, fit: T -> T, unwritten: T, blank: T): View<T>
    requires Valid(v.s)
  {
    if |v.s.text| > v.s.drows then View(Resize(v.s, v.s.drows + 1, v.s.cap, fit, unwritten), v.row + 1)
    else View(Resize(Scroll(v.s, 1, blank), v.s.drows + 1, v.s.cap, fit, unwritten), v.row)
  }

  /** One row less: a row below the cursor is forgotten (CASE 3), or else the top row
      goes into the history and the cursor follows (CASE 4). */
  function ShrinkStep<T>(v: View<T>, drows: nat, fit: T -> T, unwritten: T): View<T>
    requires Valid(v.s)
  {
    if drows > v.row then v.(s := Trim(v.s, 1))
    else View(Resize(v.s, v.s.drows - 1, v.s.cap, fit, unwritten), if v.row > 0 then v.row - 1 else 0)
  }

  /** n steps; only the first of them blanks a row of the old width. */
  function EnlargeBy<T>(v: View<T>, n: nat, fit: T -> T, unwritten: T, first: T, blank: T): (u: View<T>)
    requires Valid(v.s)
    decreases n
  {
    if n == 0 then v
    else
      EnlargeStepIsScreen(v, fit, unwritten, first);
      EnlargeBy(EnlargeStep(v, fit, unwritten, first), n - 1, fit, unwritten, blank, blank)
  }

  function ShrinkBy<T>(v: View<T>, n: nat, drows: nat, fit: T -> T, unwritten: T): View<T>
    requires Valid(v.s) && n < v.s.drows
    decreases n
  {
    if n == 0 then v
    else ShrinkBy(ShrinkStep(v, drows, fit, unwritten), n - 1, drows, fit, unwritten)
  }

  lemma ScrolledOnce<T>(s: Screen<T>, blank: T)
    requires Valid(s) && s.touched
    ensures Scroll(s, 1, blank) == s.(text := LastN(s.text + [blank], s.cap + s.drows))
    ensures Valid(Scroll(s, 1, blank))
  {
    assert ScrollUp(s, 1, blank) == ScrollOne(s, blank);
  }

  lemma EnlargeStepIsScreen<T>(v: View<T>, fit: T -> T, unwritten: T, blank: T)
    requires Valid(v.s)
    ensures var u := EnlargeStep(v, fit, unwritten, blank); Valid(u.s) && u.s.drows == v.s.drows + 1
  {
    if v.s.touched { ScrolledOnce(v.s, blank); }
  }

  // ---- enlarging

  /** Row i of the text after enlarging. */
  function EnlargedRow<T>(s: Screen<T>, fit: T -> T, unwritten: T, first: T, blank: T, i: nat): T {
    if i == 0 && s.cap == 0 then unwritten
    else if i < |s.text| then fit(s.text[i])
    else if i == |s.text| == s.drows then fit(first)
    else blank
  }

  lemma EnlargeStepShape<T>(v: View<T>, fit: T -> T, unwritten: T, first: T)
    requires Valid(v.s) && v.s.touched
    ensures var u := EnlargeStep(v, fit, unwritten, first); var h := |v.s.text| - v.s.drows;
            && Valid(u.s) && u.s.touched && u.s.cap == v.s.cap && u.s.drows == v.s.drows + 1
            && |u.s.text| == (if h > 0 then |v.s.text| else |v.s.text| + 1)
            && u.row == (if h > 0 then v.row + 1 else v.row)
  {
    if |v.s.text| == v.s.drows { ScrolledOnce(v.s, first); }
  }

  lemma EnlargeStepText<T>(v: View<T>, fit: T -> T, unwritten: T, first: T, blank: T, i: nat)
    requires Valid(v.s) && v.s.touched
    ensures var u := EnlargeStep(v, fit, unwritten, first).s;
            i < |u.text| ==> u.text[i] == EnlargedRow(v.s, fit, unwritten, first, blank, i)
  {
    if |v.s.text| == v.s.drows {
      BlankStepText(v.s, fit, unwritten, first, i);
      EnlargeStepShape(v, fit, unwritten, first);
    }
  }

  lemma BlankStepText<T>(s: Screen<T>, fit: T -> T, unwritten: T, first: T, i: nat)
    requires Valid(s) && s.touched && |s.text| == s.drows
    ensures var u := Resize(Scroll(s, 1, first), s.drows + 1, s.cap, fit, unwritten);
            && |u.text| == s.drows + 1
            && (i == s.drows ==> u.text[i] == fit(first))
            && (i < s.drows && (i > 0 || s.cap > 0) ==> u.text[i] == fit(s.text[i]))
            && (i == 0 && s.cap == 0 ==> u.text[i] == unwritten)
  {
    ScrolledOnce(s, first);
    var all := s.text + [first];
    if s.cap == 0 { assert LastN(all, s.drows) == all[1..]; } else { assert LastN(all, s.cap + s.drows) == all; }
  }

  lemma {:induction false} EnlargedShape<T>(v: View<T>, n: nat, fit: T -> T, unwritten: T, first: T, blank: T)
    requires Valid(v.s) && v.s.touched
    ensures var u := EnlargeBy(v, n, fit, unwritten, first, blank);
            && Valid(u.s) && u.s.touched && u.s.cap == v.s.cap && u.s.drows == v.s.drows + n
            && |u.s.text| == Max(|v.s.text|, v.s.drows + n) && u.row == v.row + Min(n, |v.s.text| - v.s.drows)
    decreases n
  {
    if n > 0 {
      EnlargeStepShape(v, fit, unwritten, first);
      EnlargedShape(EnlargeStep(v, fit, unwritten, first), n - 1, fit, unwritten, blank, blank);
    }
  }

  /** Fitting a row twice is fitting it once, and rows made in the new width fit. */
  ghost predicate Fits<T(!new)>(fit: T -> T, unwritten: T, blank: T) {
    (forall x {:trigger fit(fit(x))} :: fit(fit(x)) == fit(x)) && fit(unwritten) == unwritten && fit(blank) == blank
  }

  /** Enlarging keeps every row of the text in place and adds blank rows below, except
      that without history capacity the top row is lost. */
  lemma {:induction false} EnlargedText<T(!new)>(v: View<T>, n: nat, fit: T -> T, unwritten: T, first: T, blank: T, i: nat)
    requires Valid(v.s) && v.s.touched && n > 0 && Fits(fit, unwritten, blank)
    ensures var u := EnlargeBy(v, n, fit, unwritten, first, blank).s;
            i < |u.text| ==> u.text[i] == EnlargedRow(v.s, fit, unwritten, first, blank, i)
    decreases n
  {
    EnlargeStepText(v, fit, unwritten, first, blank, i);
    EnlargeStepShape(v, fit, unwritten, first);
    if n > 1 { EnlargedText(EnlargeStep(v, fit, unwritten, first), n - 1, fit, unwritten, blank, blank, i); }
  }

  // ---- shrinking

  /** How many display rows a shrink to drows rows pushes into the history. */
  function Pushed(row: nat, drows: nat): nat { Max(0, row + 1 - drows) }

  function FromEnd<T>(s: seq<T>, e: nat): T
    requires e < |s|
  {
    s[|s| - 1 - e]
  }

  lemma ShrinkStepText<T>(v: View<T>, drows: nat, fit: T -> T, unwritten: T, e: nat)
    requires Valid(v.s) && v.s.touched && 0 < drows < v.s.drows && v.row < v.s.drows
    ensures var u := ShrinkStep(v, drows, fit, unwritten).s;
            && |u.text| <= |v.s.text|
            && (e < |u.text| && v.row < drows ==> e + 1 < |v.s.text| && FromEnd(u.text, e) == FromEnd(v.s.text, e + 1))
            && (e < |u.text| && v.row >= drows ==> FromEnd(u.text, e) == fit(FromEnd(v.s.text, e)))
  {
  }

  lemma ShrinkStepShape<T>(v: View<T>, drows: nat, fit: T -> T, unwritten: T)
    requires Valid(v.s) && v.s.touched && 0 < drows < v.s.drows && v.row < v.s.drows
    ensures var u := ShrinkStep(v, drows, fit, unwritten); var k := if v.row < drows then 0 else 1;
            && Valid(u.s) && u.s.touched && u.s.cap == v.s.cap && u.s.drows == v.s.drows - 1 && u.row == v.row - k
            && |u.s.text| == Min(|v.s.text| + k, v.s.cap + v.s.drows) - 1
  {
  }

  lemma {:induction false} ShrunkShape<T>(v: View<T>, n: nat, drows: nat, fit: T -> T, unwritten: T)
    requires Valid(v.s) && v.s.touched && v.row < v.s.drows
    requires drows > 0 && n == v.s.drows - drows
    ensures var u := ShrinkBy(v, n, drows, fit, unwritten); var k := Pushed(v.row, drows);
            && Valid(u.s) && u.s.touched && u.s.cap == v.s.cap && u.s.drows == drows && u.row == v.row - k
            && |u.s.text| == Min(|v.s.text| - n + k, v.s.cap + drows)
    decreases n
  {
    if n > 0 {
      ShrinkStepShape(v, drows, fit, unwritten);
      ShrunkShape(ShrinkStep(v, drows, fit, unwritten), n - 1, drows, fit, unwritten);
    }
  }

  /** Shrinking to drows rows: rows are pushed into the history until the cursor fits,
      the rest is forgotten from the bottom. Counted from the end of the text. */
  lemma {:induction false} ShrunkText<T(!new)>(v: View<T>, n: nat, drows: nat, fit: T -> T, unwritten: T, e: nat)
    requires Valid(v.s) && v.s.touched && v.row < v.s.drows && Fits(fit, unwritten, unwritten)
    requires drows > 0 && n == v.s.drows - drows
    ensures var u := ShrinkBy(v, n, drows, fit, unwritten).s; var k := Pushed(v.row, drows);
            e < |u.text| ==>
              && 0 <= n - k + e < |v.s.text|
              && FromEnd(u.text, e) == if k > 0 then fit(FromEnd(v.s.text, n - k + e)) else FromEnd(v.s.text, n - k + e)
    decreases n
  {
    if n > 0 {
      ShrinkStepShape(v, drows, fit, unwritten);
      ShrunkText(ShrinkStep(v, drows, fit, unwritten), n - 1, drows, fit, unwritten, e);
      var k := Pushed(v.row, drows);
      ShrinkStepText(v, drows, fit, unwritten, if k > 0 then n - k + e else n - 1 + e);
    }
  }

  // ---- before the first write

  /** Refitting a terminal that was never written to makes it anew, without history. */
  lemma {:induction false} UntouchedEnlarged<T>(v: View<T>, n: nat, fit: T -> T, unwritten: T, first: T, blank: T)
    requires Valid(v.s) && !v.s.touched
    ensures var u := EnlargeBy(v, n, fit, unwritten, first, blank);
            && u.row == v.row
            && u.s == if n == 0 then v.s else Screen(Repeat(unwritten, v.s.drows + n), v.s.drows + n, v.s.cap, false)
    decreases n
  {
    if n > 0 { UntouchedEnlarged(EnlargeStep(v, fit, unwritten, first), n - 1, fit, unwritten, blank, blank); }
  }

  lemma {:induction false} UntouchedShrunk<T>(v: View<T>, n: nat, drows: nat, fit: T -> T, unwritten: T)
    requires Valid(v.s) && !v.s.touched && v.row < v.s.drows
    requires drows > 0 && n == v.s.drows - drows
    ensures var u := ShrinkBy(v, n, drows, fit, unwritten); var k := Pushed(v.row, drows);
            && u.row == v.row - k
            && u.s == if k == 0 then Trim(v.s, n) else Screen(Repeat(unwritten, drows), drows, v.s.cap, false)
    decreases n
  {
    if n > 0 {
      var step := ShrinkStep(v, drows, fit, unwritten);
      UntouchedShrunk(step, n - 1, drows, fit, unwritten);
      if v.row >= drows { assert Repeat(unwritten, v.s.drows - 1)[..drows] == Repeat(unwritten, drows); }
    }
  }
}
