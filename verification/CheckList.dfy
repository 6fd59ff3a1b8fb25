/** Fl_Check_Browser as a value: the lines, the count of checked lines, the cached line. */
module CheckList {

  datatype Line = Line(text: string, checked: int)

  /** `cached` is the number of the cached line, or -1. */
  datatype Browser = Browser(lines: seq<Line>, nchecked: int, cached: int)

  const EMPTY := Browser([], 0, -1)

  /** The item stores its mark in a signed char. */
  function Char(b: int): (c: int)
    ensures -128 <= c < 128
    ensures -128 <= b < 128 ==> c == b
  {
    (b + 128) % 256 - 128
  }

  function CountOn(lines: seq<Line>): nat {
    if lines == [] then 0 else CountOn(lines[..|lines| - 1]) + (if lines[|lines| - 1].checked != 0 then 1 else 0)
  }

  predicate HasLine(s: Browser, n: int) {
    1 <= n <= |s.lines|
  }

  function Mark(lines: seq<Line>, n: int, c: int): (r: seq<Line>)
    requires 1 <= n <= |lines|
    ensures |r| == |lines|
  {
    lines[n - 1 := lines[n - 1].(checked := c)]
  }

  function MarkAll(lines: seq<Line>, c: int): (r: seq<Line>)
    ensures |r| == |lines| && forall i :: 0 <= i < |r| ==> r[i] == lines[i].(checked := c)
  {
    seq(|lines|, i requires 0 <= i < |lines| => lines[i].(checked := c))
  }

  function Swapped<T>(s: seq<T>, i: nat, j: nat): (r: seq<T>)
    requires i < |s| && j < |s|
    ensures |r| == |s| && r[i] == s[j] && r[j] == s[i]
    ensures forall k :: 0 <= k < |s| && k != i && k != j ==> r[k] == s[k]
  {
    s[i := s[j]][j := s[i]]
  }

  function Without<T>(s: seq<T>, i: nat): (r: seq<T>)
    requires i < |s|
    ensures |r| == |s| - 1
    ensures forall k :: 0 <= k < i ==> r[k] == s[k]
    ensures forall k :: i <= k < |r| ==> r[k] == s[k + 1]
  {
    s[..i] + s[i + 1..]
  }

  // ----- operations -----

  /** Looking a line up moves the cache to it. */
  function Find(s: Browser, n: int): Browser {
    if HasLine(s, n) then s.(cached := n) else s
  }

  function Add(s: Browser, text: string, b: int): Browser {
    s.(lines := s.lines + [Line(text, Char(b))], nchecked := if b != 0 then s.nchecked + 1 else s.nchecked)
  }

  function Remove(s: Browser, n: int): Browser {
    if !HasLine(s, n) then s
    else
      Browser(Without(s.lines, n - 1),
        if s.lines[n - 1].checked != 0 then s.nchecked - 1 else s.nchecked, -1)
  }

  function Clear(s: Browser): Browser {
    if s.lines == [] then s else EMPTY
  }

  /** checked(i, b): nothing happens if the item holds b already. */
  function Check(s: Browser, n: int, b: int): Browser {
    var f := Find(s, n);
    if !HasLine(s, n) || s.lines[n - 1].checked == b then f
    else f.(lines := Mark(s.lines, n, Char(b)), nchecked := if b != 0 then s.nchecked + 1 else s.nchecked - 1)
  }

  /** item_select: a click turns the mark around. */
  function Toggle(s: Browser, n: int): Browser
    requires HasLine(s, n)
  {
    if s.lines[n - 1].checked != 0 then s.(lines := Mark(s.lines, n, 0), nchecked := s.nchecked - 1)
    else s.(lines := Mark(s.lines, n, 1), nchecked := s.nchecked + 1)
  }

  function CheckAll(s: Browser): Browser {
    s.(lines := MarkAll(s.lines, 1), nchecked := |s.lines|)
  }

  function CheckNone(s: Browser): Browser {
    s.(lines := MarkAll(s.lines, 0), nchecked := 0)
  }

  function Swap(s: Browser, i: int, j: int): Browser
    requires HasLine(s, i) && HasLine(s, j)
  {
    s.(lines := Swapped(s.lines, i - 1, j - 1), cached := -1)
  }

  // ----- the count -----

  predicate CountsRight(s: Browser) {
    s.nchecked == CountOn(s.lines)
  }

  lemma CountOneMore(lines: seq<Line>, line: Line)
    ensures CountOn(lines + [line]) == CountOn(lines) + (if line.checked != 0 then 1 else 0)
  {
    assert (lines + [line])[..|lines|] == lines;
  }

  lemma {:induction false} CountConcat(a: seq<Line>, b: seq<Line>)
    ensures CountOn(a + b) == CountOn(a) + CountOn(b)
  {
    if b == [] {
      assert a + b == a;
    } else {
      var n := |b| - 1;
      CountConcat(a, b[..n]);
      assert b == b[..n] + [b[n]];
      assert a + b == (a + b[..n]) + [b[n]];
      CountOneMore(a + b[..n], b[n]);
    }
  }

  /** A line inside counts for itself. */
  lemma CountSplit(lines: seq<Line>, i: nat)
    requires i < |lines|
    ensures CountOn(lines) == CountOn(lines[..i]) + (if lines[i].checked != 0 then 1 else 0) + CountOn(lines[i + 1..])
  {
    assert lines == lines[..i] + [lines[i]] + lines[i + 1..];
    CountConcat(lines[..i] + [lines[i]], lines[i + 1..]);
    CountOneMore(lines[..i], lines[i]);
  }

  lemma CountUpdated(lines: seq<Line>, i: nat, line: Line)
    requires i < |lines|
    ensures CountOn(lines[i := line])
         == CountOn(lines) - (if lines[i].checked != 0 then 1 else 0) + (if line.checked != 0 then 1 else 0)
  {
    var lines' := lines[i := line];
    CountSplit(lines, i);
    CountSplit(lines', i);
    assert lines'[..i] == lines[..i] && lines'[i + 1..] == lines[i + 1..];
  }

  lemma {:induction false} CountMarked(lines: seq<Line>, c: int)
    ensures CountOn(MarkAll(lines, c)) == if c != 0 then |lines| else 0
  {
    if lines != [] {
      var n := |lines| - 1;
      CountMarked(lines[..n], c);
      assert MarkAll(lines, c)[..n] == MarkAll(lines[..n], c);
    }
  }

  /** CountOn counts. */
  lemma {:induction false} CountIsCardinality(lines: seq<Line>)
    ensures CountOn(lines) == |set i | 0 <= i < |lines| && lines[i].checked != 0|
  {
    if lines != [] {
      var n := |lines| - 1;
      CountIsCardinality(lines[..n]);
      var before := set i | 0 <= i < n && lines[i].checked != 0;
      assert before == set i | 0 <= i < |lines[..n]| && lines[..n][i].checked != 0;
      assert (set i | 0 <= i < |lines| && lines[i].checked != 0) == if lines[n].checked != 0 then before + {n} else before;
    }
  }

  lemma CountSwapped(lines: seq<Line>, i: nat, j: nat)
    requires i < |lines| && j < |lines|
    ensures CountOn(Swapped(lines, i, j)) == CountOn(lines)
  {
    CountUpdated(lines, i, lines[j]);
    CountUpdated(lines[i := lines[j]], j, lines[i]);
  }

  /** checked(i, b) keeps the count right exactly if b is what the item holds, or 0, or a
      value that marks an unmarked item. */
  lemma CheckCountsRight(s: Browser, n: int, b: int)
    requires CountsRight(s) && HasLine(s, n)
    ensures var c := s.lines[n - 1].checked;
      CountsRight(Check(s, n, b)) <==> b == c || b == 0 || (c == 0 && Char(b) != 0)
  {
    CountUpdated(s.lines, n - 1, s.lines[n - 1].(checked := Char(b)));
  }

  /** add(s, b) keeps it right exactly if the char keeps the truth of b. */
  lemma AddCountsRight(s: Browser, text: string, b: int)
    requires CountsRight(s)
    ensures CountsRight(Add(s, text, b)) <==> (b != 0 <==> Char(b) != 0)
  {
    CountOneMore(s.lines, Line(text, Char(b)));
  }

  // ----- every run -----

  datatype Op =
    | OpFind(n: int)
    | OpAdd(text: string, b: int)
    | OpRemove(n: int)
    | OpClear
    | OpCheck(n: int, b: int)
    | OpToggle(n: int)
    | OpCheckAll
    | OpCheckNone
    | OpSwap(i: int, j: int)

  /** Whether item_swap finds the ends of the list again (CheckBrowser.ItemSwap). */
  predicate KeepsEnds(s: Browser, i: int, j: int) {
    i == j || 1 < j < |s.lines|
  }

  /** Toggling and swapping take items that are in the list, and no run goes on after a swap
      that loses an end. */
  function Step(s: Browser, op: Op): Browser {
    match op
    case OpFind(n) => Find(s, n)
    case OpAdd(text, b) => Add(s, text, b)
    case OpRemove(n) => Remove(Find(s, n), n)
    case OpClear => Clear(s)
    case OpCheck(n, b) => Check(s, n, b)
    case OpToggle(n) => if HasLine(s, n) then Toggle(s, n) else s
    case OpCheckAll => CheckAll(s)
    case OpCheckNone => CheckNone(s)
    case OpSwap(i, j) => if HasLine(s, i) && HasLine(s, j) && KeepsEnds(s, i, j) then Swap(s, i, j) else s
  }

  function Run(s: Browser, ops: seq<Op>): Browser
    decreases |ops|
  {
    if ops == [] then s else Run(Step(s, ops[0]), ops[1..])
  }

  /** Callers pass 0 or 1. */
  predicate IsPlain(op: Op) {
    && (op.OpAdd? ==> op.b == 0 || op.b == 1)
    && (op.OpCheck? ==> op.b == 0 || op.b == 1)
  }

  predicate AllPlain(lines: seq<Line>) {
    forall i :: 0 <= i < |lines| ==> lines[i].checked == 0 || lines[i].checked == 1
  }

  predicate Sound(s: Browser) {
    && CountsRight(s)
    && AllPlain(s.lines)
    && (s.cached == -1 || HasLine(s, s.cached))
  }

  lemma AddIsSound(s: Browser, text: string, b: int)
    requires Sound(s) && (b == 0 || b == 1)
    ensures Sound(Add(s, text, b))
  {
    AddCountsRight(s, text, b);
  }

  lemma RemoveIsSound(s: Browser, n: int)
    requires Sound(s)
    ensures Sound(Remove(Find(s, n), n))
  {
    if HasLine(s, n) {
      CountSplit(s.lines, n - 1);
      CountConcat(s.lines[..n - 1], s.lines[n..]);
    }
  }

  lemma CheckIsSound(s: Browser, n: int, b: int)
    requires Sound(s) && (b == 0 || b == 1)
    ensures Sound(Check(s, n, b))
  {
    if HasLine(s, n) { CheckCountsRight(s, n, b); }
  }

  lemma ToggleIsSound(s: Browser, n: int)
    requires Sound(s) && HasLine(s, n)
    ensures Sound(Toggle(s, n))
  {
    var line := s.lines[n - 1];
    CountUpdated(s.lines, n - 1, line.(checked := if line.checked != 0 then 0 else 1));
  }

  lemma MarkAllIsSound(s: Browser)
    requires Sound(s)
    ensures Sound(CheckAll(s)) && Sound(CheckNone(s))
  {
    CountMarked(s.lines, 1);
    CountMarked(s.lines, 0);
  }

  lemma SwapIsSound(s: Browser, i: int, j: int)
    requires Sound(s) && HasLine(s, i) && HasLine(s, j)
    ensures Sound(Swap(s, i, j))
  {
    CountSwapped(s.lines, i - 1, j - 1);
    var lines := Swap(s, i, j).lines;
    assert forall k :: 0 <= k < |lines| ==>
      lines[k] == s.lines[k] || lines[k] == s.lines[i - 1] || lines[k] == s.lines[j - 1];
  }

  lemma StepIsSound(s: Browser, op: Op)
    requires Sound(s) && IsPlain(op)
    ensures Sound(Step(s, op))
  {
    match op
    case OpFind(n) =>
    case OpAdd(text, b) => AddIsSound(s, text, b);
    case OpRemove(n) => RemoveIsSound(s, n);
    case OpClear =>
    case OpCheck(n, b) => CheckIsSound(s, n, b);
    case OpToggle(n) => if HasLine(s, n) { ToggleIsSound(s, n); }
    case OpCheckAll => MarkAllIsSound(s);
    case OpCheckNone => MarkAllIsSound(s);
    case OpSwap(i, j) => if HasLine(s, i) && HasLine(s, j) && KeepsEnds(s, i, j) { SwapIsSound(s, i, j); }
  }

  /** After every run of plain operations nchecked is the number of checked lines and the
      cached number is that of a line. */
  lemma {:induction false} RunIsSound(s: Browser, ops: seq<Op>)
    requires Sound(s) && forall i :: 0 <= i < |ops| ==> IsPlain(ops[i])
    ensures Sound(Run(s, ops))
    decreases |ops|
  {
    if ops != [] {
      StepIsSound(s, ops[0]);
      RunIsSound(Step(s, ops[0]), ops[1..]);
    }
  }
}
