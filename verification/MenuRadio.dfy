/** Radio groups in a menu array (src/Fl_Menu_.cxx, first_submenu_item and setonly). */
module MenuRadio {
  import opened MenuTree

  predicate IsRadio(item: Item) {
    item.title.Text? && item.radio
  }

  /** Items lo..hi are adjacent radio items and no divider comes before the last of them. */
  predicate SameGroup(a: seq<Item>, lo: nat, hi: nat)
    requires lo <= hi < |a|
  {
    && (forall k :: lo <= k <= hi ==> IsRadio(a[k]))
    && (forall k :: lo <= k < hi ==> !a[k].divider)
  }

  predicate Together(a: seq<Item>, i: nat, j: nat)
    requires i < |a| && j < |a|
  {
    if i <= j then SameGroup(a, i, j) else SameGroup(a, j, i)
  }

  /** At most one item of each group is on. */
  predicate Exclusive(a: seq<Item>) {
    forall i, j :: 0 <= i < j < |a| && a[i].value && a[j].value ==> !SameGroup(a, i, j)
  }

  /** The item as setonly marks it. */
  function Marked(a: seq<Item>, item: nat): (m: seq<Item>)
    requires item < |a|
    ensures |m| == |a|
  {
    a[item := a[item].(radio := true, value := true)]
  }

  /** What setonly leaves behind: the item on, the rest of its group off. */
  function SetOnly(a: seq<Item>, item: nat): (s: seq<Item>)
    requires item < |a|
    ensures |s| == |a|
  {
    var m := Marked(a, item);
    seq(|a|, k requires 0 <= k < |a| && |m| == |a| => if k != item && Together(m, k, item) then m[k].(value := false) else m[k])
  }

  lemma SetOnlyAt(a: seq<Item>, item: nat, k: nat)
    requires item < |a| && k < |a|
    ensures var m := Marked(a, item);
      SetOnly(a, item)[k] == if k != item && Together(m, k, item) then m[k].(value := false) else m[k]
  {
  }

  /** Only values change between the marked array and the result, so groups are the same. */
  lemma SameGroups(a: seq<Item>, item: nat, lo: nat, hi: nat)
    requires item < |a| && lo <= hi < |a|
    ensures SameGroup(SetOnly(a, item), lo, hi) <==> SameGroup(Marked(a, item), lo, hi)
  {
    var s, m := SetOnly(a, item), Marked(a, item);
    forall k | lo <= k <= hi ensures IsRadio(s[k]) == IsRadio(m[k]) && s[k].divider == m[k].divider {
      SetOnlyAt(a, item, k);
    }
  }

  /** After setonly the item is on, and it is the only one in its group. */
  lemma OnlyOneIsOn(a: seq<Item>, item: nat, k: nat)
    requires item < |a| && a[item].title.Text? && k < |a| && k != item
    ensures SetOnly(a, item)[item].value && IsRadio(SetOnly(a, item)[item])
    ensures Together(SetOnly(a, item), k, item) ==> !SetOnly(a, item)[k].value
    ensures !Together(SetOnly(a, item), k, item) ==> SetOnly(a, item)[k] == a[k]
  {
    SetOnlyAt(a, item, item);
    SetOnlyAt(a, item, k);
    if k < item { SameGroups(a, item, k, item); } else { SameGroups(a, item, item, k); }
  }

  /** In terms of the array as it was: the item becomes a radio item and is on, and the others
      of the group it then belongs to are off. Nothing else changes: no title, no divider, no
      other mark. */
  lemma SetOnlyClearsOldGroup(a: seq<Item>, item: nat, k: nat)
    requires item < |a| && k < |a| && k != item
    ensures var asRadio := a[item := a[item].(radio := true)];
      SetOnly(a, item)[k] == if Together(asRadio, k, item) then a[k].(value := false) else a[k]
    ensures SetOnly(a, item)[item] == a[item].(radio := true, value := true)
  {
    var m, asRadio := Marked(a, item), a[item := a[item].(radio := true)];
    forall i | 0 <= i < |a| ensures IsRadio(m[i]) == IsRadio(asRadio[i]) && m[i].divider == asRadio[i].divider { }
    SetOnlyAt(a, item, k);
    SetOnlyAt(a, item, item);
  }

  /** For a radio item that group is its own group in the array. */
  lemma SetOnlyOfRadioItem(a: seq<Item>, item: nat, k: nat)
    requires item < |a| && k < |a| && k != item && IsRadio(a[item])
    ensures SetOnly(a, item)[item] == a[item].(value := true)
    ensures SetOnly(a, item)[k] == if Together(a, k, item) then a[k].(value := false) else a[k]
  {
    assert a[item := a[item].(radio := true)] == a;
    SetOnlyClearsOldGroup(a, item, k);
  }

  /** Two groups side by side, separated by the divider of the second item, and a plain item:
      setonly of the second item turns off the first, not the third. */
  lemma SetOnlyExample()
    ensures var on, off := Item(Text(""), true, true, false, false, false), Item(Text(""), false, true, false, false, false);
      var plain, end := Item(Text(""), true, false, false, false, false), Item(Null, false, false, false, false, false);
      SetOnly([plain, on, off.(divider := true), on, end], 2) == [plain, off, on.(divider := true), on, end]
  {
    var on, off := Item(Text(""), true, true, false, false, false), Item(Text(""), false, true, false, false, false);
    var plain, end := Item(Text(""), true, false, false, false, false), Item(Null, false, false, false, false, false);
    var a := [plain, on, off.(divider := true), on, end];
    assert !IsRadio(a[0]) && a[2].divider;
    forall k | 0 <= k < 5 && k != 2 ensures Together(a, k, 2) <==> k == 1 { }
    SetOnlyOfRadioItem(a, 2, 0);
    SetOnlyOfRadioItem(a, 2, 1);
    SetOnlyOfRadioItem(a, 2, 3);
    SetOnlyOfRadioItem(a, 2, 4);
  }

  /** Marking an item can only join groups at that item. */
  lemma MarkedGroup(a: seq<Item>, item: nat, lo: nat, hi: nat)
    requires item < |a| && lo <= hi < |a|
    ensures SameGroup(Marked(a, item), lo, hi) && !(lo <= item <= hi) ==> SameGroup(a, lo, hi)
    ensures SameGroup(Marked(a, item), lo, hi) && lo <= item <= hi ==>
      SameGroup(Marked(a, item), lo, item) && SameGroup(Marked(a, item), item, hi)
  {
    var m := Marked(a, item);
    if SameGroup(m, lo, hi) && !(lo <= item <= hi) {
      assert forall k :: lo <= k <= hi ==> m[k] == a[k];
    }
  }

  /** setonly keeps every group exclusive, whether or not the item was a radio item. */
  lemma SetOnlyKeepsExclusive(a: seq<Item>, item: nat)
    requires item < |a| && a[item].title.Text? && Exclusive(a)
    ensures Exclusive(SetOnly(a, item))
  {
    var s := SetOnly(a, item);
    forall i, j | 0 <= i < j < |s| && s[i].value && s[j].value ensures !SameGroup(s, i, j) {
      PairStaysApart(a, item, i, j);
    }
  }

  lemma PairStaysApart(a: seq<Item>, item: nat, i: nat, j: nat)
    requires item < |a| && a[item].title.Text? && Exclusive(a) && i < j < |a|
    requires SetOnly(a, item)[i].value && SetOnly(a, item)[j].value
    ensures !SameGroup(SetOnly(a, item), i, j)
  {
    var s, m := SetOnly(a, item), Marked(a, item);
    SameGroups(a, item, i, j);
    MarkedGroup(a, item, i, j);
    SetOnlyAt(a, item, i);
    SetOnlyAt(a, item, j);
  }

  /** Whether a search from the start of the array meets the item before the array's end. */
  predicate Contains(a: seq<Item>, item: nat, m: nat, nest: nat)
    decreases |a| - m
  {
    m < |a|
    && if a[m].title.Null? then nest > 0 && Contains(a, item, m + 1, nest - 1)
       else m == item || Contains(a, item, m + 1, if a[m].submenu then nest + 1 else nest)
  }

  /** One call on the whole menu: an item that is not part of it is left alone. */
  function Call(a: seq<Item>, item: nat): (s: seq<Item>)
    requires item < |a|
    ensures |s| == |a|
  {
    if Contains(a, item, 0, 0) then SetOnly(a, item) else a
  }

  lemma {:induction false} ContainedIsItem(a: seq<Item>, item: nat, m: nat, nest: nat)
    requires Contains(a, item, m, nest)
    ensures m <= item < |a| && a[item].title.Text?
    decreases |a| - m
  {
    if a[m].title.Null? {
      ContainedIsItem(a, item, m + 1, nest - 1);
    } else if m != item {
      ContainedIsItem(a, item, m + 1, if a[m].submenu then nest + 1 else nest);
    }
  }

  function Calls(a: seq<Item>, items: seq<nat>): (s: seq<Item>)
    requires forall i :: 0 <= i < |items| ==> items[i] < |a|
    ensures |s| == |a|
    decreases |items|
  {
    if items == [] then a else Calls(Call(a, items[0]), items[1..])
  }

  /** Over every run of calls, groups that start exclusive stay exclusive. */
  lemma {:induction false} RunKeepsExclusive(a: seq<Item>, items: seq<nat>)
    requires Exclusive(a) && forall i :: 0 <= i < |items| ==> items[i] < |a|
    ensures Exclusive(Calls(a, items))
    decreases |items|
  {
    if items != [] {
      if Contains(a, items[0], 0, 0) {
        ContainedIsItem(a, items[0], 0, 0);
        SetOnlyKeepsExclusive(a, items[0]);
      }
      RunKeepsExclusive(Call(a, items[0]), items[1..]);
    }
  }
}

/** The loops of Fl_Menu_::setonly over the array. */
module MenuSetOnly {
  import opened MenuTree
  import opened MenuScan
  import opened MenuTraversal
  import opened MenuRadio

  /** The array has an end of its own after its submenus. */
  predicate Ends(a: seq<Item>, m: nat, nest: nat)
    decreases |a| - m
  {
    m < |a|
    && if a[m].title.Null? then nest == 0 || Ends(a, m + 1, nest - 1)
       else Ends(a, m + 1, if a[m].submenu then nest + 1 else nest)
  }

  /** first_submenu_item, for an array without detached submenus: its answer is the start of
      the array or nothing. */
  method FindItem(a: array<Item>, item: nat) returns (found: bool)
    requires Ends(a[..], 0, 0)
    ensures found == Contains(a[..], item, 0, 0)
  {
    var m, nest := 0, 0;
    while true
      invariant m <= a.Length && Ends(a[..], m, nest)
      invariant Contains(a[..], item, 0, 0) == Contains(a[..], item, m, nest)
      decreases a.Length - m
    {
      if a[m].title.Null? {
        if nest == 0 { return false; }
        nest := nest - 1;
      } else {
        if m == item { return true; }
        if a[m].submenu { nest := nest + 1; }
      }
      m := m + 1;
    }
  }

  lemma {:induction false} ContainedInScan(a: seq<Item>, item: nat, m: nat, nest: nat, stop: nat)
    requires Scanning(a, m, nest + 1, stop)
    ensures m < stop
    ensures Contains(a, item, m, nest) <==> m <= item < stop && item < |a| && a[item].title.Text?
    decreases |a| - m
  {
    if a[m].title.Text? || nest > 0 {
      ContainedInScan(a, item, m + 1, Deeper(a[m], nest + 1) - 1, stop);
    }
  }

  /** In an array that encodes a menu the search meets every labelled item of the menu and of
      its submenus, and nothing behind the menu. */
  lemma MenuIsSearched(a: seq<Item>, entries: seq<Entry>, end: Item, item: nat)
    requires MenuAt(a, 0, entries, end)
    ensures Contains(a, item, 0, 0) <==> item < |Flat(entries, end)| && item < |a| && a[item].title.Text?
    ensures item < |a| ==> Call(a, item) == if item < |Flat(entries, end)| && a[item].title.Text? then SetOnly(a, item) else a
  {
    ScanOfMenu(a, 0, entries, end);
    ContainedInScan(a, item, 0, 0, |Flat(entries, end)| + 1);
    MenuThenTail(a, 0, entries, end);
    assert a[|Flat(entries, end)|..][0] == end;
  }

  lemma {:induction false} EndFrom(a: seq<Item>, m: nat, nest: nat) returns (end: nat)
    requires Ends(a, m, nest)
    ensures m <= end < |a| && a[end].title.Null?
    decreases |a| - m
  {
    if a[m].title.Null? {
      end := m;
    } else {
      end := EndFrom(a, m + 1, if a[m].submenu then nest + 1 else nest);
    }
  }

  /** Below an item of the menu there is an item that ends the run down. */
  lemma {:induction false} EndBelow(a: seq<Item>, item: nat, m: nat, nest: nat) returns (end: nat)
    requires Ends(a, m, nest) && Contains(a, item, m, nest)
    ensures item < end < |a| && a[end].title.Null?
    decreases |a| - m
  {
    if a[m].title.Null? {
      end := EndBelow(a, item, m + 1, nest - 1);
    } else {
      var nest' := if a[m].submenu then nest + 1 else nest;
      if m == item { end := EndFrom(a, m + 1, nest'); } else { end := EndBelow(a, item, m + 1, nest'); }
    }
  }

  /** Items lo..hi are the group of the item, and no more are. */
  predicate IsWholeGroup(m: seq<Item>, item: nat, lo: nat, hi: nat)
  {
    && lo <= item <= hi < |m|
    && SameGroup(m, lo, item) && SameGroup(m, item, hi)
    && (lo == 0 || !IsRadio(m[lo - 1]) || m[lo - 1].divider)
    && (m[hi].divider || (hi + 1 < |m| && !IsRadio(m[hi + 1])))
  }

  lemma GroupMember(m: seq<Item>, item: nat, lo: nat, hi: nat, k: nat)
    requires IsWholeGroup(m, item, lo, hi) && k < |m|
    ensures Together(m, k, item) <==> lo <= k <= hi
  {
    if k < lo {
      assert k <= lo - 1 < item;
    } else if k > hi {
      assert item <= hi < k;
    }
  }

  lemma ClearedIsSetOnly(a: seq<Item>, s: seq<Item>, item: nat, lo: nat, hi: nat)
    requires item < |a| && |s| == |a| && IsWholeGroup(Marked(a, item), item, lo, hi)
    requires forall k :: 0 <= k < |a| ==>
      s[k] == if k != item && lo <= k <= hi then Marked(a, item)[k].(value := false) else Marked(a, item)[k]
    ensures s == SetOnly(a, item)
  {
    forall k | 0 <= k < |a| ensures s[k] == SetOnly(a, item)[k] {
      GroupMember(Marked(a, item), item, lo, hi, k);
      SetOnlyAt(a, item, k);
    }
  }

  /** Down to the end of the item's group. */
  method ClearBelow(a: array<Item>, item: nat, ghost m: seq<Item>, ghost end: nat) returns (ghost hi: nat)
    requires item < end < a.Length && a[..] == m && IsRadio(m[item])
    requires m[end].title.Null?
    modifies a
    ensures item <= hi < a.Length && SameGroup(m, item, hi)
    ensures m[hi].divider || (hi + 1 < |m| && !IsRadio(m[hi + 1]))
    ensures forall k :: 0 <= k < a.Length ==> a[k] == if item < k <= hi then m[k].(value := false) else m[k]
  {
    var j := item;
    hi := item;
    while true
      invariant item <= hi == j < end
      invariant SameGroup(m, item, hi)
      invariant forall k :: 0 <= k < a.Length ==> a[k] == if item < k <= hi then m[k].(value := false) else m[k]
      decreases end - j
    {
      if a[j].divider { break; }
      j := j + 1;
      if a[j].title.Null? || !a[j].radio { break; }
      a[j] := a[j].(value := false);
      hi := j;
    }
  }

  /** Up to the start of the item's group. */
  method ClearAbove(a: array<Item>, item: nat, ghost m: seq<Item>) returns (ghost lo: nat)
    requires item < a.Length && |m| == a.Length && IsRadio(m[item])
    requires forall k :: 0 <= k <= item ==> a[k] == m[k]
    modifies a
    ensures 0 <= lo <= item && SameGroup(m, lo, item)
    ensures lo == 0 || !IsRadio(m[lo - 1]) || m[lo - 1].divider
    ensures forall k :: 0 <= k < item ==> a[k] == if lo <= k then m[k].(value := false) else m[k]
    ensures forall k :: item <= k < a.Length ==> a[k] == old(a[k])
  {
    var j: int := item - 1;
    while j >= 0
      invariant -1 <= j < item
      invariant SameGroup(m, j + 1, item)
      invariant forall k :: 0 <= k < item ==> a[k] == if j < k then m[k].(value := false) else m[k]
      invariant forall k :: item <= k < a.Length ==> a[k] == old(a[k])
    {
      if a[j].title.Null? || a[j].divider || !a[j].radio { break; }
      a[j] := a[j].(value := false);
      j := j - 1;
    }
    lo := j + 1;
  }

  /** The item on, then down to the end of its group, then up to its start. */
  method SetOnlyItem(a: array<Item>, item: nat)
    requires item < a.Length && Ends(a[..], 0, 0)
    modifies a
    ensures a[..] == Call(old(a[..]), item)
  {
    var found := FindItem(a, item);
    if !found { return; }
    ContainedIsItem(a[..], item, 0, 0);
    ghost var end := EndBelow(a[..], item, 0, 0);
    a[item] := a[item].(radio := true, value := true);
    ghost var m := a[..];
    assert m == Marked(old(a[..]), item);
    ghost var hi := ClearBelow(a, item, m, end);
    ghost var lo := ClearAbove(a, item, m);
    ClearedIsSetOnly(old(a[..]), a[..], item, lo, hi);
  }
}
