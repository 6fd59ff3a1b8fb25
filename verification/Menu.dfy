/** Menus as trees, and the flat arrays of FL/Fl_Menu_Item.H that encode them. */
module MenuTree {
  import opened Sequences

  datatype Title = Null | Text(text: string)

  /** The title and the flag bits the traversal and the radio groups look at. */
  datatype Item = Item(title: Title, value: bool, radio: bool, invisible: bool, submenu: bool, divider: bool)

  datatype Entry = Entry(item: Item, children: seq<Entry>)

  /** A menu of the tree: labelled items, children only below submenu titles. */
  predicate ValidMenu(entries: seq<Entry>) {
    forall i :: 0 <= i < |entries| ==> ValidEntry(entries[i])
  }

  predicate ValidEntry(e: Entry) {
    e.item.title.Text? && (!e.item.submenu ==> e.children == []) && ValidMenu(e.children)
  }

  /** The item that ends a menu. */
  predicate IsEnd(item: Item) {
    item.title.Null?
  }

  function Flat(entries: seq<Entry>, end: Item): seq<Item>
    decreases entries
  {
    if entries == [] then [] else FlatEntry(entries[0], end) + Flat(entries[1..], end)
  }

  /** A submenu follows its title and ends with an item of its own. */
  function FlatEntry(e: Entry, end: Item): (s: seq<Item>)
    ensures |s| > 0 && s[0] == e.item
    decreases e
  {
    if e.item.submenu then [e.item] + (Flat(e.children, end) + [end]) else [e.item]
  }

  /** Where the i-th entry of a menu starts, or the end of the menu. */
  function Position(entries: seq<Entry>, i: nat, end: Item): nat
    requires i <= |entries|
  {
    |Flat(entries[..i], end)|
  }

  /** The items from `start` on are a menu and its end. */
  ghost predicate MenuAt(a: seq<Item>, start: nat, entries: seq<Entry>, end: Item) {
    && ValidMenu(entries) && IsEnd(end)
    && start <= |a|
    && Flat(entries, end) + [end] <= a[start..]
  }

  /** Visible entries among lo..hi-1. */
  function CountVisible(entries: seq<Entry>, lo: nat, hi: nat): nat
    requires lo <= hi <= |entries|
    decreases hi - lo
  {
    if lo == hi then 0 else CountVisible(entries, lo, hi - 1) + (if entries[hi - 1].item.invisible then 0 else 1)
  }

  lemma {:induction false} FlatConcat(a: seq<Entry>, b: seq<Entry>, end: Item)
    ensures Flat(a + b, end) == Flat(a, end) + Flat(b, end)
    decreases |a|
  {
    if a == [] {
      assert a + b == b;
    } else {
      FlatConcat(a[1..], b, end);
      assert (a + b)[1..] == a[1..] + b;
      Regroup(FlatEntry(a[0], end), Flat(a[1..], end), Flat(b, end));
    }
  }

  lemma NextPosition(entries: seq<Entry>, i: nat, end: Item)
    requires i < |entries|
    ensures Position(entries, i + 1, end) == Position(entries, i, end) + |FlatEntry(entries[i], end)|
    ensures Flat(entries[i..], end) == FlatEntry(entries[i], end) + Flat(entries[i + 1..], end)
  {
    assert entries[..i + 1] == entries[..i] + [entries[i]];
    FlatConcat(entries[..i], [entries[i]], end);
    assert [entries[i]][1..] == [];
    assert Flat([entries[i]], end) == FlatEntry(entries[i], end) + [];
    assert entries[i..][1..] == entries[i + 1..];
  }

  /** From the i-th entry on, the array holds the rest of the menu. */
  lemma RestAt(a: seq<Item>, start: nat, entries: seq<Entry>, i: nat, end: Item)
    requires MenuAt(a, start, entries, end) && i <= |entries|
    ensures MenuAt(a, start + Position(entries, i, end), entries[i..], end)
  {
    assert entries == entries[..i] + entries[i..];
    FlatConcat(entries[..i], entries[i..], end);
    var before, rest := Flat(entries[..i], end), Flat(entries[i..], end) + [end];
    Regroup(before, Flat(entries[i..], end), [end]);
    PrefixRest(before, rest, a[start..]);
    assert a[start..][|before|..] == a[start + |before|..];
  }

  lemma PrefixRest<T>(x: seq<T>, y: seq<T>, s: seq<T>)
    requires x + y <= s
    ensures |x| <= |s| && y <= s[|x|..]
  {
    assert s[..|x + y|] == x + y;
    assert s[|x|..][..|y|] == s[..|x + y|][|x|..];
  }

  /** A submenu is itself a menu in the array, right after its title. */
  lemma SubmenuAt(a: seq<Item>, start: nat, entries: seq<Entry>, i: nat, end: Item)
    requires MenuAt(a, start, entries, end) && i < |entries| && entries[i].item.submenu
    ensures MenuAt(a, start + Position(entries, i, end) + 1, entries[i].children, end)
  {
    var e, p := entries[i], start + Position(entries, i, end);
    assert ValidEntry(e);
    RestAt(a, start, entries, i, end);
    NextPosition(entries, i, end);
    var inner, after := Flat(e.children, end) + [end], Flat(entries[i + 1..], end) + [end];
    Regroup([e.item], inner, Flat(entries[i + 1..], end));
    Regroup([e.item], inner + Flat(entries[i + 1..], end), [end]);
    Regroup(inner, Flat(entries[i + 1..], end), [end]);
    PrefixRest([e.item], inner + after, a[p..]);
    assert a[p..][1..] == a[p + 1..];
    PrefixFirst(inner, after, a[p + 1..]);
  }

  lemma PrefixFirst<T>(x: seq<T>, y: seq<T>, s: seq<T>)
    requires x + y <= s
    ensures x <= s
  {
    assert s[..|x|] == s[..|x + y|][..|x|];
  }
}

/** Stepping over the array: the nesting counter of next_visible_or_not and size. */
module MenuScan {
  import opened MenuTree
  import opened Sequences

  function Deeper(item: Item, nest: nat): nat
    requires item.title.Text? || nest > 0
  {
    if item.title.Null? then nest - 1 else if item.submenu then nest + 1 else nest
  }

  /** How many items the loop passes until it is out of `nest` submenus. */
  function ScanLength(s: seq<Item>, nest: nat): nat
    decreases |s|
  {
    if nest == 0 || s == [] then 0 else 1 + ScanLength(s[1..], Deeper(s[0], nest))
  }

  /** Whether it gets out before the array ends. */
  predicate Closes(s: seq<Item>, nest: nat)
    decreases |s|
  {
    nest == 0 || (s != [] && Closes(s[1..], Deeper(s[0], nest)))
  }

  /** Passing a well-formed menu leaves the nesting as it was. */
  lemma {:induction false} ScanMenu(entries: seq<Entry>, end: Item, tail: seq<Item>, nest: nat)
    requires ValidMenu(entries) && IsEnd(end) && nest > 0
    ensures ScanLength(Flat(entries, end) + tail, nest) == |Flat(entries, end)| + ScanLength(tail, nest)
    ensures Closes(Flat(entries, end) + tail, nest) == Closes(tail, nest)
    decreases entries
  {
    if entries == [] {
      assert Flat(entries, end) + tail == tail;
    } else {
      var more := Flat(entries[1..], end) + tail;
      Regroup(FlatEntry(entries[0], end), Flat(entries[1..], end), tail);
      ScanEntry(entries[0], end, more, nest);
      ScanMenu(entries[1..], end, tail, nest);
    }
  }

  lemma {:induction false} ScanEntry(e: Entry, end: Item, tail: seq<Item>, nest: nat)
    requires ValidEntry(e) && IsEnd(end) && nest > 0
    ensures ScanLength(FlatEntry(e, end) + tail, nest) == |FlatEntry(e, end)| + ScanLength(tail, nest)
    ensures Closes(FlatEntry(e, end) + tail, nest) == Closes(tail, nest)
    decreases e
  {
    var s := FlatEntry(e, end) + tail;
    if e.item.submenu {
      ScanChildren(e, end, tail, nest);
      Regroup([e.item], Flat(e.children, end) + [end], tail);
      assert s[1..] == Flat(e.children, end) + [end] + tail;
    } else {
      assert s[1..] == tail;
    }
  }

  /** From a submenu's first item, one level deeper, the loop gets out after its end. */
  lemma {:induction false} ScanChildren(e: Entry, end: Item, tail: seq<Item>, nest: nat)
    requires ValidEntry(e) && IsEnd(end)
    ensures var inner := Flat(e.children, end) + [end];
      ScanLength(inner + tail, nest + 1) == |inner| + ScanLength(tail, nest)
      && Closes(inner + tail, nest + 1) == Closes(tail, nest)
    decreases e, 0
  {
    Regroup(Flat(e.children, end), [end], tail);
    ScanMenu(e.children, end, [end] + tail, nest + 1);
    assert ([end] + tail)[1..] == tail;
  }

  /** One call of next_visible_or_not: the length of the item it steps over. */
  function StepLength(s: seq<Item>): nat
    requires s != []
  {
    if s[0].title.Null? then 0 else 1 + ScanLength(s[1..], Deeper(s[0], 0))
  }

  lemma StepOverEntry(a: seq<Item>, start: nat, entries: seq<Entry>, i: nat, end: Item)
    requires MenuAt(a, start, entries, end) && i < |entries|
    ensures var p := start + Position(entries, i, end);
      && p < |a| && a[p] == entries[i].item && a[p].title.Text?
      && p + StepLength(a[p..]) == start + Position(entries, i + 1, end)
      && Closes(a[p + 1..], Deeper(a[p], 0))
  {
    var e, p := entries[i], start + Position(entries, i, end);
    RestAt(a, start, entries, i, end);
    NextPosition(entries, i, end);
    var after := Flat(entries[i + 1..], end) + [end];
    Regroup(FlatEntry(e, end), Flat(entries[i + 1..], end), [end]);
    var tail := a[p..][|FlatEntry(e, end) + after|..];
    assert a[p..] == FlatEntry(e, end) + after + tail;
    Regroup(FlatEntry(e, end), after, tail);
    StepLengthOfEntry(e, end, after + tail);
    assert a[p..][1..] == a[p + 1..];
  }

  lemma StepLengthOfEntry(e: Entry, end: Item, tail: seq<Item>)
    requires ValidEntry(e) && IsEnd(end)
    ensures var s := FlatEntry(e, end) + tail;
      s[0] == e.item && StepLength(s) == |FlatEntry(e, end)| && Closes(s[1..], Deeper(e.item, 0))
  {
    var s := FlatEntry(e, end) + tail;
    if e.item.submenu {
      ScanChildren(e, end, tail, 0);
      Regroup([e.item], Flat(e.children, end) + [end], tail);
      assert s[1..] == Flat(e.children, end) + [end] + tail;
    }
  }

  lemma EndOfMenu(a: seq<Item>, start: nat, entries: seq<Entry>, end: Item)
    requires MenuAt(a, start, entries, end)
    ensures var p := start + Position(entries, |entries|, end); p < |a| && a[p] == end && StepLength(a[p..]) == 0
  {
    RestAt(a, start, entries, |entries|, end);
    var p := start + Position(entries, |entries|, end);
    assert entries[|entries|..] == [];
    assert Flat([], end) + [end] == [end];
    assert a[p..][0] == end;
  }
}

/** Fl_Menu_Item::size and next, as loops over the array. */
module MenuTraversal {
  import opened MenuTree
  import opened MenuScan

  /** A scan at index m, `nest` submenus deep, that will stop at index `stop`. */
  predicate Scanning(a: seq<Item>, m: nat, nest: nat, stop: nat)
    decreases |a| - m
  {
    if nest == 0 then m == stop else m < |a| && Scanning(a, m + 1, Deeper(a[m], nest), stop)
  }

  lemma {:induction false} ScanStops(a: seq<Item>, m: nat, nest: nat)
    requires m <= |a| && Closes(a[m..], nest)
    ensures Scanning(a, m, nest, m + ScanLength(a[m..], nest))
    decreases |a| - m
  {
    if nest > 0 {
      assert a[m..][1..] == a[m + 1..];
      ScanStops(a, m + 1, Deeper(a[m], nest));
    }
  }

  lemma ScanOfMenu(a: seq<Item>, start: nat, entries: seq<Entry>, end: Item)
    requires MenuAt(a, start, entries, end)
    ensures Scanning(a, start, 1, start + |Flat(entries, end)| + 1)
  {
    MenuThenTail(a, start, entries, end);
    ScanMenu(entries, end, a[start + |Flat(entries, end)|..], 1);
    ScanStops(a, start, 1);
  }

  /** The number of items up to and including the end of the menu. */
  method Size(a: seq<Item>, start: nat, ghost entries: seq<Entry>, ghost end: Item) returns (size: nat)
    requires MenuAt(a, start, entries, end)
    ensures size == |Flat(entries, end)| + 1
  {
    ghost var stop := start + |Flat(entries, end)| + 1;
    ScanOfMenu(a, start, entries, end);
    var m, nest := start, 0;
    while true
      invariant start <= m <= |a| && Scanning(a, m, nest + 1, stop)
      decreases |a| - m
    {
      if a[m].title.Null? {
        if nest == 0 { return m - start + 1; }
        nest := nest - 1;
      } else if a[m].submenu {
        nest := nest + 1;
      }
      m := m + 1;
    }
  }

  lemma MenuThenTail(a: seq<Item>, start: nat, entries: seq<Entry>, end: Item)
    requires MenuAt(a, start, entries, end)
    ensures start + |Flat(entries, end)| < |a|
    ensures var tail := a[start + |Flat(entries, end)|..];
      a[start..] == Flat(entries, end) + tail && tail[0] == end
      && ScanLength(tail, 1) == 1 && Closes(tail, 1)
  {
    BehindPrefix(a, start, Flat(entries, end), end);
    TailCloses(a[start + |Flat(entries, end)|..]);
  }

  lemma BehindPrefix(a: seq<Item>, start: nat, p: seq<Item>, end: Item)
    requires start <= |a| && p + [end] <= a[start..]
    ensures start + |p| < |a| && a[start + |p|] == end && a[start..] == p + a[start + |p|..]
  {
    var s := a[start..];
    assert s[|p|] == (p + [end])[|p|];
    assert s[..|p|] == (p + [end])[..|p|];
  }

  lemma TailCloses(tail: seq<Item>)
    requires tail != [] && tail[0].title.Null?
    ensures ScanLength(tail, 1) == 1 && Closes(tail, 1)
  {
    assert ScanLength(tail[1..], 0) == 0;
  }

  /** From an entry to the next one, past its submenu; from the end of a menu nowhere. */
  method NextVisibleOrNot(a: seq<Item>, from: nat, ghost start: nat, ghost entries: seq<Entry>, ghost t: nat, ghost end: Item)
    returns (m: nat)
    requires MenuAt(a, start, entries, end) && t <= |entries|
    requires from == start + Position(entries, t, end)
    ensures Stands(a, m, start, entries, if t < |entries| then t + 1 else t, end)
  {
    EntryAt(a, start, entries, t, end);
    m := from;
    if a[m].title.Null? { return; }
    ghost var stop := start + Position(entries, t + 1, end);
    EntryStands(a, start, entries, t + 1, end);
    assert Scanning(a, m + 1, Deeper(a[m], 0), stop);
    var nest := if a[m].submenu then 1 else 0;
    m := m + 1;
    while nest != 0
      invariant m <= |a| && Scanning(a, m, nest, stop)
      decreases |a| - m
    {
      if a[m].title.Null? {
        nest := nest - 1;
      } else if a[m].submenu {
        nest := nest + 1;
      }
      m := m + 1;
    }
  }

  /** Index m of the array is entry t of the menu, or the menu's end. */
  ghost predicate Stands(a: seq<Item>, m: nat, start: nat, entries: seq<Entry>, t: nat, end: Item) {
    && t <= |entries|
    && m == start + Position(entries, t, end)
    && m < |a|
    && a[m] == (if t < |entries| then entries[t].item else end)
    && (a[m].title.Null? <==> t == |entries|)
  }

  /** Entry t of a menu is n visible entries after entry i, or the menu ends before that. */
  predicate IsNth(entries: seq<Entry>, i: nat, n: nat, t: nat)
    requires i <= t <= |entries|
  {
    if n == 0 then t == i
    else if t == |entries| then i == t || CountVisible(entries, i + 1, t) < n
    else i < t && !entries[t].item.invisible && CountVisible(entries, i + 1, t + 1) == n
  }

  lemma {:induction false} CountGrows(entries: seq<Entry>, lo: nat, mid: nat, hi: nat)
    requires lo <= mid <= hi <= |entries|
    ensures CountVisible(entries, lo, mid) <= CountVisible(entries, lo, hi)
    decreases hi
  {
    if mid < hi { CountGrows(entries, lo, mid, hi - 1); }
  }

  /** There is only one such entry. */
  lemma NthIsUnique(entries: seq<Entry>, i: nat, n: nat, t: nat, t': nat)
    requires i <= t <= |entries| && i <= t' <= |entries|
    requires IsNth(entries, i, n, t) && IsNth(entries, i, n, t')
    ensures t == t'
  {
    if n > 0 && t < t' {
      CountGrows(entries, i + 1, t + 1, t');
    } else if n > 0 && t' < t {
      CountGrows(entries, i + 1, t' + 1, t);
    }
  }

  /** How far next(n) goes from an entry: one more if the entry itself is hidden. */
  function Steps(entries: seq<Entry>, i: nat, end: Item, n: nat): nat
    requires i <= |entries|
  {
    if (if i < |entries| then entries[i].item.invisible else end.invisible) then n + 1 else n
  }

  /** Main result: in any array that encodes a menu, from its i-th entry or its end, next(n)
      lands on the entry of the same menu that is n visible entries further, or on the end
      of the menu if there are fewer; it never enters or leaves a submenu. */
  method Next(a: seq<Item>, start: nat, n: int, ghost entries: seq<Entry>, ghost i: nat, ghost end: Item, from: nat)
    returns (found: bool, m: nat, ghost t: nat)
    requires MenuAt(a, start, entries, end) && i <= |entries|
    requires from == start + Position(entries, i, end)
    ensures found <==> n >= 0
    ensures found ==> i <= t <= |entries| && m == start + Position(entries, t, end)
    ensures found ==> IsNth(entries, i, Steps(entries, i, end, n), t)
    ensures found && t < |entries| ==> !entries[t].item.invisible && CountVisible(entries, i, t + 1) == n + 1
    ensures found && t == |entries| ==> CountVisible(entries, i, t) <= n
  {
    t := i;
    if n < 0 { return false, from, t; }
    found, m := true, from;
    var left := n;
    EntryStands(a, start, entries, i, end);
    if a[m].invisible { left := left + 1; }
    ghost var all := left;
    while left != 0
      invariant 0 <= left <= all
      invariant Stands(a, m, start, entries, t, end)
      invariant Progress(entries, i, t, all, left)
      decreases left, |entries| - t
    {
      StepKeepsProgress(entries, i, t, all, left);
      m := NextVisibleOrNot(a, m, start, entries, t, end);
      if t < |entries| { t := t + 1; }
      if !a[m].invisible || a[m].title.Null? { left := left - 1; }
    }
    NthFromStart(entries, i, end, n, t);
  }

  lemma {:induction false} CountFromFirst(entries: seq<Entry>, lo: nat, hi: nat)
    requires lo < hi <= |entries|
    ensures CountVisible(entries, lo, hi) == CountVisible(entries, lo + 1, hi) + (if entries[lo].item.invisible then 0 else 1)
    decreases hi
  {
    if lo + 1 < hi { CountFromFirst(entries, lo, hi - 1); }
  }

  /** The entry next(n) lands on, with the one it starts from counted too. */
  lemma NthFromStart(entries: seq<Entry>, i: nat, end: Item, n: nat, t: nat)
    requires i <= t <= |entries| && IsNth(entries, i, Steps(entries, i, end, n), t)
    ensures t < |entries| ==> !entries[t].item.invisible && CountVisible(entries, i, t + 1) == n + 1
    ensures t == |entries| ==> CountVisible(entries, i, t) <= n
  {
    if t < |entries| {
      CountFromFirst(entries, i, t + 1);
    } else if i < t {
      CountFromFirst(entries, i, t);
    }
  }

  /** CountVisible counts. */
  lemma {:induction false} CountIsCardinality(entries: seq<Entry>, lo: nat, hi: nat)
    requires lo <= hi <= |entries|
    ensures CountVisible(entries, lo, hi) == |set k | lo <= k < hi && !entries[k].item.invisible|
    decreases hi
  {
    if lo < hi {
      CountIsCardinality(entries, lo, hi - 1);
      var before := set k | lo <= k < hi - 1 && !entries[k].item.invisible;
      var all := set k | lo <= k < hi && !entries[k].item.invisible;
      assert all == if entries[hi - 1].item.invisible then before else before + {hi - 1};
    }
  }

  /** A submenu title, its two entries and their end, an entry, the end: six items. */
  lemma EncodingExample(title: Item, x: Item, y: Item, z: Item, end: Item)
    requires title.submenu && !x.submenu && !y.submenu && !z.submenu
    ensures Flat([Entry(title, [Entry(x, []), Entry(y, [])]), Entry(z, [])], end) + [end] == [title, x, y, end, z, end]
  {
    TwoEntries(Entry(x, []), Entry(y, []), end);
    TwoEntries(Entry(title, [Entry(x, []), Entry(y, [])]), Entry(z, []), end);
  }

  lemma TwoEntries(e: Entry, f: Entry, end: Item)
    ensures Flat([e, f], end) == FlatEntry(e, end) + FlatEntry(f, end)
  {
    assert [e, f][1..] == [f] && [f][1..] == [];
    assert Flat([f], end) == FlatEntry(f, end) + [];
  }

  /** The loop of next: `all - left` visible entries have been passed on the way to t. */
  predicate Progress(entries: seq<Entry>, i: nat, t: nat, all: nat, left: nat) {
    && i <= t <= |entries| && left <= all
    && (all == 0 ==> t == i)
    && (t == i && i < |entries| ==> left == all)
    && (i < t < |entries| ==> all - left == CountVisible(entries, i + 1, t + 1))
    && (i < t < |entries| && left == 0 ==> !entries[t].item.invisible)
    && (i < t == |entries| ==> CountVisible(entries, i + 1, t) < all)
  }

  lemma StepKeepsProgress(entries: seq<Entry>, i: nat, t: nat, all: nat, left: nat)
    requires left > 0 && Progress(entries, i, t, all, left)
    ensures var t' := if t < |entries| then t + 1 else t;
      Progress(entries, i, t', all, if t' == |entries| || !entries[t'].item.invisible then left - 1 else left)
  {
  }

  lemma EntryAt(a: seq<Item>, start: nat, entries: seq<Entry>, t: nat, end: Item)
    requires MenuAt(a, start, entries, end) && t <= |entries|
    ensures var p := start + Position(entries, t, end);
      Stands(a, p, start, entries, t, end)
      && (t < |entries| ==> Scanning(a, p + 1, Deeper(a[p], 0), start + Position(entries, t + 1, end)))
  {
    var p := start + Position(entries, t, end);
    EntryStands(a, start, entries, t, end);
    if t < |entries| {
      StepOverEntry(a, start, entries, t, end);
      assert a[p..][1..] == a[p + 1..];
      ScanStops(a, p + 1, Deeper(a[p], 0));
    }
  }

  lemma EntryStands(a: seq<Item>, start: nat, entries: seq<Entry>, t: nat, end: Item)
    requires MenuAt(a, start, entries, end) && t <= |entries|
    ensures Stands(a, start + Position(entries, t, end), start, entries, t, end)
  {
    if t < |entries| { StepOverEntry(a, start, entries, t, end); } else { EndOfMenu(a, start, entries, end); }
  }
}
