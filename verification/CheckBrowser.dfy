/** Fl_Check_Browser with its linked items (src/Fl_Check_Browser.cxx). */
module CheckBrowserClass {
  import opened CheckList

  class Item {
    var next: Item?
    var prev: Item?
    var checked: int
    const text: string

    constructor (text: string, checked: int)
      ensures this.text == text && this.checked == checked && next == null && prev == null
    {
      this.text := text;
      this.checked := checked;
      next, prev := null, null;
    }
  }

  /** The items in order, and what their fields hold. */
  datatype Chain = Chain(nodes: seq<Item>, nexts: seq<Item?>, prevs: seq<Item?>, lines: seq<Line>)

  const NO_ITEMS := Chain([], [], [], [])

  ghost function Nth(nodes: seq<Item>, i: int): Item? {
    if 0 <= i < |nodes| then nodes[i] else null
  }

  // ----- pointers that lead to the neighbours -----

  /** From item i on. Methods state this form, which puts no quantifier into their proofs;
      lemmas take it apart and put it together item by item. */
  ghost predicate LinkedFrom(c: Chain, i: nat)
    decreases |c.nodes| - i
  {
    && |c.nodes| == |c.nexts| == |c.prevs|
    && (i < |c.nodes| ==>
          c.nexts[i] == Nth(c.nodes, i + 1) && c.prevs[i] == Nth(c.nodes, i - 1) && LinkedFrom(c, i + 1))
  }

  /** The same, item by item. */
  ghost predicate Links(c: Chain) {
    && |c.nodes| == |c.nexts| == |c.prevs|
    && (forall k :: 0 <= k < |c.nodes| ==> c.nexts[k] == Nth(c.nodes, k + 1))
    && (forall k :: 0 <= k < |c.nodes| ==> c.prevs[k] == Nth(c.nodes, k - 1))
  }

  lemma {:induction false} LinkedAt(c: Chain, i: nat, k: nat)
    requires LinkedFrom(c, i) && i <= k < |c.nodes|
    ensures c.nexts[k] == Nth(c.nodes, k + 1) && c.prevs[k] == Nth(c.nodes, k - 1)
    decreases k - i
  {
    if i < k { LinkedAt(c, i + 1, k); }
  }

  lemma LinkedIsLinks(c: Chain)
    requires LinkedFrom(c, 0)
    ensures Links(c)
  {
    forall k | 0 <= k < |c.nodes| ensures c.nexts[k] == Nth(c.nodes, k + 1) && c.prevs[k] == Nth(c.nodes, k - 1) {
      LinkedAt(c, 0, k);
    }
  }

  lemma {:induction false} LinksAreLinked(c: Chain, i: nat)
    requires Links(c)
    ensures LinkedFrom(c, i)
    decreases |c.nodes| - i
  {
    if i < |c.nodes| { LinksAreLinked(c, i + 1); }
  }

  // ----- fields that hold what the chain says -----

  /** From item i on. */
  ghost predicate MatchFrom(c: Chain, i: nat)
    reads c.nodes`next, c.nodes`prev, c.nodes`checked
    decreases |c.nodes| - i
  {
    && |c.nodes| == |c.nexts| == |c.prevs| == |c.lines|
    && (i < |c.nodes| ==>
          && c.nodes[i].next == c.nexts[i] && c.nodes[i].prev == c.prevs[i]
          && Line(c.nodes[i].text, c.nodes[i].checked) == c.lines[i]
          && MatchFrom(c, i + 1))
  }

  /** The same, item by item. */
  ghost predicate Matches(c: Chain)
    reads c.nodes`next, c.nodes`prev, c.nodes`checked
  {
    && |c.nodes| == |c.nexts| == |c.prevs| == |c.lines|
    && (forall k :: 0 <= k < |c.nodes| ==> c.nodes[k].next == c.nexts[k])
    && (forall k :: 0 <= k < |c.nodes| ==> c.nodes[k].prev == c.prevs[k])
    && (forall k :: 0 <= k < |c.nodes| ==> Line(c.nodes[k].text, c.nodes[k].checked) == c.lines[k])
  }

  lemma {:induction false} MatchAt(c: Chain, i: nat, k: nat)
    requires MatchFrom(c, i) && i <= k < |c.nodes|
    ensures c.nodes[k].next == c.nexts[k] && c.nodes[k].prev == c.prevs[k]
    ensures Line(c.nodes[k].text, c.nodes[k].checked) == c.lines[k]
    decreases k - i
  {
    if i < k { MatchAt(c, i + 1, k); }
  }

  lemma MatchIsMatches(c: Chain)
    requires MatchFrom(c, 0)
    ensures Matches(c)
  {
    forall k | 0 <= k < |c.nodes|
      ensures c.nodes[k].next == c.nexts[k] && c.nodes[k].prev == c.prevs[k]
      ensures Line(c.nodes[k].text, c.nodes[k].checked) == c.lines[k]
    {
      MatchAt(c, 0, k);
    }
  }

  lemma {:induction false} MatchesIsMatch(c: Chain, i: nat)
    requires Matches(c)
    ensures MatchFrom(c, i)
    decreases |c.nodes| - i
  {
    if i < |c.nodes| { MatchesIsMatch(c, i + 1); }
  }

  /** A chain whose items are in memory as it says and lead to their neighbours. */
  ghost predicate Kept(c: Chain)
    reads c.nodes`next, c.nodes`prev, c.nodes`checked
  {
    MatchFrom(c, 0) && LinkedFrom(c, 0)
  }

  lemma KeptAt(c: Chain, k: nat)
    requires Kept(c) && k < |c.nodes|
    ensures c.nodes[k].next == Nth(c.nodes, k + 1) && c.nodes[k].prev == Nth(c.nodes, k - 1)
    ensures |c.lines| == |c.nodes| && Line(c.nodes[k].text, c.nodes[k].checked) == c.lines[k]
  {
    MatchAt(c, 0, k);
    LinkedAt(c, 0, k);
  }

  lemma KeptMarks(c: Chain)
    requires Kept(c)
    ensures |c.lines| == |c.nodes|
    ensures forall k :: 0 <= k < |c.nodes| ==> c.nodes[k].checked == c.lines[k].checked
  {
    forall k | 0 <= k < |c.nodes| ensures c.nodes[k].checked == c.lines[k].checked { KeptAt(c, k); }
  }

  ghost predicate NoneTwice(nodes: seq<Item>) {
    forall i, j :: 0 <= i < j < |nodes| ==> nodes[i] != nodes[j]
  }

  /** A chain that ends cannot meet an item twice. */
  lemma {:induction false} PairDiffers(c: Chain, i: nat, j: nat)
    requires Kept(c) && i < j < |c.nodes|
    ensures c.nodes[i] != c.nodes[j]
    decreases |c.nodes| - j
  {
    KeptAt(c, i);
    KeptAt(c, j);
    if j + 1 < |c.nodes| { PairDiffers(c, i + 1, j + 1); }
  }

  lemma KeptHasNoneTwice(c: Chain)
    requires Kept(c)
    ensures NoneTwice(c.nodes)
  {
    forall i, j | 0 <= i < j < |c.nodes| ensures c.nodes[i] != c.nodes[j] {
      PairDiffers(c, i, j);
    }
  }

  // ----- writing one field -----

  ghost function Put<T>(s: seq<T>, i: int, x: T): (r: seq<T>)
    ensures |r| == |s|
    ensures forall k :: 0 <= k < |s| && k != i ==> r[k] == s[k]
    ensures 0 <= i < |s| ==> r[i] == x
  {
    if 0 <= i < |s| then s[i := x] else s
  }

  ghost function WithNext(c: Chain, i: int, q: Item?): Chain {
    c.(nexts := Put(c.nexts, i, q))
  }

  ghost function WithPrev(c: Chain, i: int, q: Item?): Chain {
    c.(prevs := Put(c.prevs, i, q))
  }

  ghost function WithMark(c: Chain, i: nat, b: int): Chain
    requires i < |c.lines|
  {
    c.(lines := Mark(c.lines, i + 1, b))
  }

  /** `if (p) p->next = q`, for the item with index i. */
  method WriteNext(p: Item?, q: Item?, ghost c: Chain, ghost i: int)
    requires MatchFrom(c, 0) && NoneTwice(c.nodes) && p == Nth(c.nodes, i)
    modifies (if p == null then {} else {p})`next
    ensures MatchFrom(WithNext(c, i, q), 0)
  {
    if p != null {
      MatchIsMatches(c);
      p.next := q;
      MatchesIsMatch(WithNext(c, i, q), 0);
    }
  }

  /** `if (p) p->prev = q`, for the item with index i. */
  method WritePrev(p: Item?, q: Item?, ghost c: Chain, ghost i: int)
    requires MatchFrom(c, 0) && NoneTwice(c.nodes) && p == Nth(c.nodes, i)
    modifies (if p == null then {} else {p})`prev
    ensures MatchFrom(WithPrev(c, i, q), 0)
  {
    if p != null {
      MatchIsMatches(c);
      p.prev := q;
      MatchesIsMatch(WithPrev(c, i, q), 0);
    }
  }

  /** p->checked = b, for the item with index i. */
  method WriteChecked(p: Item, b: int, ghost c: Chain, ghost i: nat)
    requires Kept(c) && i < |c.nodes| && c.nodes[i] == p
    modifies p`checked
    ensures i < |c.lines| && Kept(WithMark(c, i, b)) && p.checked == b
  {
    KeptHasNoneTwice(c);
    MatchIsMatches(c);
    LinkedIsLinks(c);
    p.checked := b;
    MatchesIsMatch(WithMark(c, i, b), 0);
    LinksAreLinked(WithMark(c, i, b), 0);
  }

  // ----- a new item at the end -----

  ghost function Appended(c: Chain, p: Item, line: Line): Chain {
    Chain(c.nodes + [p], Put(c.nexts, |c.nodes| - 1, p) + [null], c.prevs + [Nth(c.nodes, |c.nodes| - 1)], c.lines + [line])
  }

  lemma AppendedIsLinked(c: Chain, p: Item, line: Line)
    requires LinkedFrom(c, 0)
    ensures LinkedFrom(Appended(c, p, line), 0)
  {
    LinkedIsLinks(c);
    LinksAreLinked(Appended(c, p, line), 0);
  }

  lemma AppendedIsMatched(c: Chain, p: Item)
    requires MatchFrom(WithNext(c, |c.nodes| - 1, p), 0)
    requires p.next == null && p.prev == Nth(c.nodes, |c.nodes| - 1)
    ensures MatchFrom(Appended(c, p, Line(p.text, p.checked)), 0)
  {
    MatchIsMatches(WithNext(c, |c.nodes| - 1, p));
    MatchesIsMatch(Appended(c, p, Line(p.text, p.checked)), 0);
  }

  /** Link a new item behind the last. */
  method LinkBehind(last: Item?, p: Item, ghost c: Chain) returns (ghost d: Chain)
    requires Kept(c) && last == Nth(c.nodes, |c.nodes| - 1) && p !in c.nodes && p.next == null && p.prev == null
    modifies (if last == null then {} else {last})`next, p`prev
    ensures Kept(d) && d.nodes == c.nodes + [p] && d.lines == c.lines + [Line(p.text, p.checked)]
  {
    KeptHasNoneTwice(c);
    AppendedIsLinked(c, p, Line(p.text, p.checked));
    WriteNext(last, p, c, |c.nodes| - 1);
    p.prev := last;
    AppendedIsMatched(c, p);
    d := Appended(c, p, Line(p.text, p.checked));
  }

  // ----- taking an item out -----

  /** The neighbours of item i linked to each other. */
  ghost function Bypassed(c: Chain, i: nat): Chain {
    WithPrev(WithNext(c, i - 1, Nth(c.nodes, i + 1)), i + 1, Nth(c.nodes, i - 1))
  }

  ghost function Unlinked(c: Chain, i: nat): Chain
    requires i < |c.nodes| == |c.nexts| == |c.prevs| == |c.lines|
  {
    var b := Bypassed(c, i);
    Chain(Without(b.nodes, i), Without(b.nexts, i), Without(b.prevs, i), Without(b.lines, i))
  }

  lemma UnlinkedIsLinked(c: Chain, i: nat)
    requires LinkedFrom(c, 0) && i < |c.nodes| == |c.lines|
    ensures LinkedFrom(Unlinked(c, i), 0)
  {
    LinkedIsLinks(c);
    LinksAreLinked(Unlinked(c, i), 0);
  }

  lemma UnlinkedIsMatched(c: Chain, i: nat)
    requires MatchFrom(Bypassed(c, i), 0) && i < |c.nodes|
    ensures MatchFrom(Unlinked(c, i), 0)
  {
    MatchIsMatches(Bypassed(c, i));
    MatchesIsMatch(Unlinked(c, i), 0);
  }

  lemma EndsAfterUnlink(nodes: seq<Item>, i: nat)
    requires i < |nodes|
    ensures var w := Without(nodes, i);
      && Nth(w, 0) == (if i == 0 then Nth(nodes, 1) else Nth(nodes, 0))
      && Nth(w, |w| - 1) == (if i == |nodes| - 1 then Nth(nodes, i - 1) else Nth(nodes, |nodes| - 1))
  {
  }

  /** Link the neighbours of item i to each other. */
  method Bypass(p: Item, ghost c: Chain, ghost i: nat) returns (ghost d: Chain)
    requires Kept(c) && i < |c.nodes| && c.nodes[i] == p
    modifies c.nodes`next, c.nodes`prev
    ensures Kept(d) && |c.lines| == |c.nodes|
    ensures d.nodes == Without(c.nodes, i) && d.lines == Without(c.lines, i)
  {
    KeptHasNoneTwice(c);
    KeptAt(c, i);
    UnlinkedIsLinked(c, i);
    var prev, next := p.prev, p.next;
    WriteNext(prev, next, c, i - 1);
    WritePrev(next, prev, WithNext(c, i - 1, next), i + 1);
    UnlinkedIsMatched(c, i);
    d := Unlinked(c, i);
  }

  // ----- swapping two items -----

  /** Where the item at index k is after a swap. */
  ghost function Moved(i: int, j: int, k: int): int {
    if k == i then j else if k == j then i else k
  }

  /** The next pointers, in the old order of the items, that link the swapped order. */
  ghost function SwappedNexts(nodes: seq<Item>, i: nat, j: nat): (s: seq<Item?>)
    requires i < |nodes| && j < |nodes|
    ensures |s| == |nodes|
    ensures forall k :: 0 <= k < |s| ==> s[k] == Nth(Swapped(nodes, i, j), Moved(i, j, k) + 1)
  {
    seq(|nodes|, k requires 0 <= k < |nodes| => Nth(Swapped(nodes, i, j), Moved(i, j, k) + 1))
  }

  ghost function SwappedPrevs(nodes: seq<Item>, i: nat, j: nat): (s: seq<Item?>)
    requires i < |nodes| && j < |nodes|
    ensures |s| == |nodes|
    ensures forall k :: 0 <= k < |s| ==> s[k] == Nth(Swapped(nodes, i, j), Moved(i, j, k) - 1)
  {
    seq(|nodes|, k requires 0 <= k < |nodes| => Nth(Swapped(nodes, i, j), Moved(i, j, k) - 1))
  }

  /** The pointers written, the items still in the old order. */
  ghost function Relinked(c: Chain, i: nat, j: nat): Chain
    requires i < |c.nodes| && j < |c.nodes|
  {
    c.(nexts := SwappedNexts(c.nodes, i, j), prevs := SwappedPrevs(c.nodes, i, j))
  }

  ghost function Exchanged(c: Chain, i: nat, j: nat): Chain
    requires i < |c.nodes| == |c.lines| && j < |c.nodes|
  {
    Chain(Swapped(c.nodes, i, j), Swapped(SwappedNexts(c.nodes, i, j), i, j),
      Swapped(SwappedPrevs(c.nodes, i, j), i, j), Swapped(c.lines, i, j))
  }

  lemma ExchangedAt(c: Chain, i: nat, j: nat, k: nat)
    requires i < |c.nodes| == |c.lines| && j < |c.nodes| && k < |c.nodes|
    ensures Exchanged(c, i, j).nexts[k] == Nth(Swapped(c.nodes, i, j), k + 1)
    ensures Exchanged(c, i, j).prevs[k] == Nth(Swapped(c.nodes, i, j), k - 1)
  {
    assert Exchanged(c, i, j).nexts[k] == SwappedNexts(c.nodes, i, j)[Moved(i, j, k)];
    assert Exchanged(c, i, j).prevs[k] == SwappedPrevs(c.nodes, i, j)[Moved(i, j, k)];
  }

  lemma ExchangedIsLinked(c: Chain, i: nat, j: nat)
    requires i < |c.nodes| == |c.lines| && j < |c.nodes|
    ensures LinkedFrom(Exchanged(c, i, j), 0)
  {
    var s := Exchanged(c, i, j);
    forall k | 0 <= k < |s.nodes| ensures s.nexts[k] == Nth(s.nodes, k + 1) && s.prevs[k] == Nth(s.nodes, k - 1) {
      ExchangedAt(c, i, j, k);
    }
    LinksAreLinked(s, 0);
  }

  lemma ExchangedIsMatched(c: Chain, i: nat, j: nat)
    requires i < |c.nodes| == |c.lines| && j < |c.nodes| && MatchFrom(Relinked(c, i, j), 0)
    ensures MatchFrom(Exchanged(c, i, j), 0)
  {
    MatchIsMatches(Relinked(c, i, j));
    MatchesIsMatch(Exchanged(c, i, j), 0);
  }

  lemma AdjacentNexts(c: Chain, i: nat)
    requires Links(c) && i + 1 < |c.nodes|
    ensures Put(Put(Put(c.nexts, i - 1, c.nodes[i + 1]), i + 1, c.nodes[i]), i, Nth(c.nodes, i + 2))
         == SwappedNexts(c.nodes, i, i + 1)
  {
    var s := Put(Put(Put(c.nexts, i - 1, c.nodes[i + 1]), i + 1, c.nodes[i]), i, Nth(c.nodes, i + 2));
    forall k | 0 <= k < |s| ensures s[k] == SwappedNexts(c.nodes, i, i + 1)[k] {
      if k == i {
      } else if k == i + 1 {
      } else if k == i - 1 {
      } else {
        assert s[k] == c.nexts[k];
      }
    }
  }

  lemma AdjacentPrevs(c: Chain, i: nat)
    requires Links(c) && i + 1 < |c.nodes|
    ensures Put(Put(Put(c.prevs, i + 2, c.nodes[i]), i + 1, Nth(c.nodes, i - 1)), i, c.nodes[i + 1])
         == SwappedPrevs(c.nodes, i, i + 1)
  {
    var s := Put(Put(Put(c.prevs, i + 2, c.nodes[i]), i + 1, Nth(c.nodes, i - 1)), i, c.nodes[i + 1]);
    forall k | 0 <= k < |s| ensures s[k] == SwappedPrevs(c.nodes, i, i + 1)[k] {
      if k == i {
      } else if k == i + 1 {
      } else if k == i + 2 {
      } else {
        assert s[k] == c.prevs[k];
      }
    }
  }

  lemma DistantNexts(c: Chain, i: nat, j: nat)
    requires Links(c) && i < |c.nodes| && j < |c.nodes| && i + 1 != j && j + 1 != i
    ensures Put(Put(Put(Put(c.nexts, i - 1, c.nodes[j]), i, Nth(c.nodes, j + 1)), j - 1, c.nodes[i]), j, Nth(c.nodes, i + 1))
         == SwappedNexts(c.nodes, i, j)
  {
    var s := Put(Put(Put(Put(c.nexts, i - 1, c.nodes[j]), i, Nth(c.nodes, j + 1)), j - 1, c.nodes[i]), j, Nth(c.nodes, i + 1));
    forall k | 0 <= k < |s| ensures s[k] == SwappedNexts(c.nodes, i, j)[k] {
      if k == j {
      } else if k == j - 1 {
      } else if k == i {
      } else if k == i - 1 {
      } else {
        assert s[k] == c.nexts[k];
      }
    }
  }

  lemma DistantPrevs(c: Chain, i: nat, j: nat)
    requires Links(c) && i < |c.nodes| && j < |c.nodes| && i + 1 != j && j + 1 != i
    ensures Put(Put(Put(Put(c.prevs, i + 1, c.nodes[j]), i, Nth(c.nodes, j - 1)), j + 1, c.nodes[i]), j, Nth(c.nodes, i - 1))
         == SwappedPrevs(c.nodes, i, j)
  {
    var s := Put(Put(Put(Put(c.prevs, i + 1, c.nodes[j]), i, Nth(c.nodes, j - 1)), j + 1, c.nodes[i]), j, Nth(c.nodes, i - 1));
    forall k | 0 <= k < |s| ensures s[k] == SwappedPrevs(c.nodes, i, j)[k] {
      if k == j {
      } else if k == j + 1 {
      } else if k == i {
      } else if k == i + 1 {
      } else {
        assert s[k] == c.prevs[k];
      }
    }
  }

  /** The six writes for neighbours, one after the other. */
  ghost function AdjacentWrites(c: Chain, i: nat): Chain
    requires i + 1 < |c.nodes|
  {
    var d := WithPrev(WithNext(c, i - 1, c.nodes[i + 1]), i + 2, c.nodes[i]);
    var e := WithNext(WithPrev(d, i + 1, Nth(c.nodes, i - 1)), i + 1, c.nodes[i]);
    WithNext(WithPrev(e, i, c.nodes[i + 1]), i, Nth(c.nodes, i + 2))
  }

  /** p - a - b - n  =>  p - b - a - n. */
  lemma AdjacentSwap(c: Chain, i: nat)
    requires LinkedFrom(c, 0) && i + 1 < |c.nodes|
    ensures AdjacentWrites(c, i) == Relinked(c, i, i + 1)
  {
    LinkedIsLinks(c);
    AdjacentNexts(c, i);
    AdjacentPrevs(c, i);
  }

  /** Four of the writes of item_swap: the neighbours of item i now lead to `q`, and the item
      itself to the neighbours it is given. */
  ghost function HandedOver(c: Chain, q: Item, prev: Item?, next: Item?, i: nat): Chain {
    WithPrev(WithNext(WithPrev(WithNext(c, i - 1, q), i + 1, q), i, next), i, prev)
  }

  /** x - a - y - b - z  =>  x - b - y - a - z, and a swap of an item with itself. */
  lemma DistantSwap(c: Chain, i: nat, j: nat)
    requires LinkedFrom(c, 0) && i < |c.nodes| && j < |c.nodes| && i + 1 != j && j + 1 != i
    ensures HandedOver(HandedOver(c, c.nodes[j], Nth(c.nodes, j - 1), Nth(c.nodes, j + 1), i),
              c.nodes[i], Nth(c.nodes, i - 1), Nth(c.nodes, i + 1), j) == Relinked(c, i, j)
  {
    LinkedIsLinks(c);
    DistantNexts(c, i, j);
    DistantPrevs(c, i, j);
  }

  lemma RelinkIsSymmetric(c: Chain, i: nat, j: nat)
    requires i < |c.nodes| && j < |c.nodes|
    ensures Relinked(c, i, j) == Relinked(c, j, i)
  {
    assert Swapped(c.nodes, i, j) == Swapped(c.nodes, j, i);
    assert SwappedNexts(c.nodes, i, j) == SwappedNexts(c.nodes, j, i);
    assert SwappedPrevs(c.nodes, i, j) == SwappedPrevs(c.nodes, j, i);
  }

  lemma NextIsFollower(c: Chain, i: nat, j: nat)
    requires Kept(c) && i < |c.nodes| && j < |c.nodes|
    ensures c.nodes[i].next == c.nodes[j] <==> j == i + 1
    ensures c.nodes[i].prev == c.nodes[j] <==> i == j + 1
  {
    KeptAt(c, i);
    KeptHasNoneTwice(c);
  }

  /** The two comparisons at the end of item_swap find the ends of the swapped list exactly
      if the second item was not an end of the list. */
  lemma EndsAfterSwap(nodes: seq<Item>, i: nat, j: nat, first: Item?, last: Item?)
    requires i < |nodes| && j < |nodes| && NoneTwice(nodes)
    requires first == if nodes[0] == nodes[i] then nodes[j] else nodes[0]
    requires last == if nodes[|nodes| - 1] == nodes[i] then nodes[j] else nodes[|nodes| - 1]
    ensures var s := Swapped(nodes, i, j);
      first == Nth(s, 0) && last == Nth(s, |s| - 1) <==> i == j || 0 < j < |nodes| - 1
  {
  }

  /** The six writes of item_swap for neighbours, `lo` in front of `hi`. */
  method SwapAdjacent(lo: Item, hi: Item, ghost c: Chain, ghost i: nat)
    requires Kept(c) && i + 1 < |c.nodes| && c.nodes[i] == lo && c.nodes[i + 1] == hi
    modifies c.nodes`next, c.nodes`prev
    ensures MatchFrom(Relinked(c, i, i + 1), 0)
  {
    KeptHasNoneTwice(c);
    KeptAt(c, i);
    KeptAt(c, i + 1);
    AdjacentSwap(c, i);
    var loPrev, hiNext := lo.prev, hi.next;
    ghost var c1 := WithNext(c, i - 1, hi);
    ghost var c2 := WithPrev(c1, i + 2, lo);
    ghost var c3 := WithPrev(c2, i + 1, loPrev);
    ghost var c4 := WithNext(c3, i + 1, lo);
    WriteNext(loPrev, hi, c, i - 1);
    WritePrev(hiNext, lo, c1, i + 2);
    WritePrev(hi, loPrev, c2, i + 1);
    WriteNext(hi, lo, c3, i + 1);
    WritePrev(lo, hi, c4, i);
    WriteNext(lo, hiNext, WithPrev(c4, i, hi), i);
  }

  method HandOver(p: Item, q: Item, prev: Item?, next: Item?, newPrev: Item?, newNext: Item?, ghost c: Chain, ghost i: nat)
    requires MatchFrom(c, 0) && NoneTwice(c.nodes)
    requires i < |c.nodes| && c.nodes[i] == p && prev == Nth(c.nodes, i - 1) && next == Nth(c.nodes, i + 1)
    modifies c.nodes`next, c.nodes`prev
    ensures MatchFrom(HandedOver(c, q, newPrev, newNext, i), 0)
  {
    ghost var c1 := WithNext(c, i - 1, q);
    ghost var c2 := WithPrev(c1, i + 1, q);
    WriteNext(prev, q, c, i - 1);
    WritePrev(next, q, c1, i + 1);
    WriteNext(p, newNext, c2, i);
    WritePrev(p, newPrev, WithNext(c2, i, newNext), i);
  }

  /** The eight writes of item_swap for items that are not neighbours. */
  method SwapDistant(ia: Item, ib: Item, ghost c: Chain, ghost i: nat, ghost j: nat)
    requires Kept(c) && i < |c.nodes| && j < |c.nodes| && c.nodes[i] == ia && c.nodes[j] == ib
    requires i + 1 != j && j + 1 != i
    modifies c.nodes`next, c.nodes`prev
    ensures MatchFrom(Relinked(c, i, j), 0)
  {
    KeptHasNoneTwice(c);
    KeptAt(c, i);
    KeptAt(c, j);
    DistantSwap(c, i, j);
    var aNext, aPrev, bNext, bPrev := ia.next, ia.prev, ib.next, ib.prev;
    HandOver(ia, ib, aPrev, aNext, bPrev, bNext, c, i);
    HandOver(ib, ia, bPrev, bNext, aPrev, aNext, HandedOver(c, ib, bPrev, bNext, i), j);
  }

  /** The pointers of item_swap, case by case. */
  method SwapPointers(ia: Item, ib: Item, ghost c: Chain, ghost i: nat, ghost j: nat)
    requires Kept(c) && i < |c.nodes| && j < |c.nodes| && c.nodes[i] == ia && c.nodes[j] == ib
    modifies c.nodes`next, c.nodes`prev
    ensures MatchFrom(Relinked(c, i, j), 0)
  {
    NextIsFollower(c, i, j);
    if ia.next == ib {
      SwapAdjacent(ia, ib, c, i);
    } else if ia.prev == ib {
      RelinkIsSymmetric(c, i, j);
      SwapAdjacent(ib, ia, c, j);
    } else {
      SwapDistant(ia, ib, c, i, j);
    }
  }

  /** The chain with the two items exchanged. */
  method Exchange(ia: Item, ib: Item, ghost c: Chain, ghost i: nat, ghost j: nat) returns (ghost d: Chain)
    requires Kept(c) && i < |c.nodes| && j < |c.nodes| && c.nodes[i] == ia && c.nodes[j] == ib
    modifies c.nodes`next, c.nodes`prev
    ensures Kept(d) && |c.lines| == |c.nodes|
    ensures d.nodes == Swapped(c.nodes, i, j) && d.lines == Swapped(c.lines, i, j)
  {
    SwapPointers(ia, ib, c, i, j);
    d := Exchanged(c, i, j);
    ExchangedIsLinked(c, i, j);
    ExchangedIsMatched(c, i, j);
  }

  /** What a walk that marks every item has made of the lines after n of them. */
  ghost function MarkedTo(lines: seq<Line>, n: nat, b: int): seq<Line> {
    seq(|lines|, k requires 0 <= k < |lines| => if k < n then lines[k].(checked := b) else lines[k])
  }

  lemma MarkOneMore(lines: seq<Line>, n: nat, b: int)
    requires n < |lines|
    ensures Mark(MarkedTo(lines, n, b), n + 1, b) == MarkedTo(lines, n + 1, b)
  {
  }

  lemma MarkedEnds(lines: seq<Line>, b: int)
    ensures MarkedTo(lines, 0, b) == lines && MarkedTo(lines, |lines|, b) == MarkAll(lines, b)
  {
  }

  class CheckBrowser {
    var first: Item?
    var last: Item?
    var cache: Item?
    var cachedItem: int
    var nitems: int
    var nchecked: int
    ghost var chain: Chain

    ghost predicate EndsRight()
      reads this`first, this`last, this`chain
    {
      first == Nth(chain.nodes, 0) && last == Nth(chain.nodes, |chain.nodes| - 1)
    }

    ghost predicate CacheRight()
      reads this`cache, this`cachedItem, this`chain
    {
      cachedItem == -1 || (1 <= cachedItem <= |chain.nodes| && cache == chain.nodes[cachedItem - 1])
    }

    /** Everything but the two ends. */
    ghost predicate Chained()
      reads this`cache, this`cachedItem, this`nitems, this`chain, chain.nodes
    {
      Kept(chain) && nitems == |chain.nodes| && CacheRight()
    }

    ghost predicate Valid()
      reads this, chain.nodes
    {
      Chained() && EndsRight()
    }

    ghost function Model(): Browser
      reads this`chain, this`nchecked, this`cachedItem
    {
      Browser(chain.lines, nchecked, cachedItem)
    }

    constructor ()
      ensures Valid() && Model() == EMPTY && chain == NO_ITEMS
    {
      first, last, cache := null, null, null;
      cachedItem := -1;
      nitems, nchecked := 0, 0;
      chain := NO_ITEMS;
    }

    /** The item on line n, counted from 1, from the cache or its neighbours if it can be. */
    method FindItem(n: int) returns (p: Item?)
      requires Valid()
      modifies this`cache, this`cachedItem
      ensures Valid() && Model() == Find(old(Model()), n)
      ensures p == Nth(chain.nodes, n - 1)
    {
      if n <= 0 || n > nitems || first == null { return null; }
      var steps := n - 1;
      p := first;
      if n == cachedItem {
        p, steps := cache, 0;
      } else if n == cachedItem + 1 {
        KeptAt(chain, n - 2);
        p, steps := cache.next, 0;
      } else if n == cachedItem - 1 {
        KeptAt(chain, n);
        p, steps := cache.prev, 0;
      }
      while steps > 0
        invariant 0 <= steps < n && p == chain.nodes[n - 1 - steps]
      {
        KeptAt(chain, n - 1 - steps);
        p := p.next;
        steps := steps - 1;
      }
      Remember(p, n);
    }

    /** The cache moves to the item found. */
    method Remember(p: Item?, n: int)
      requires Kept(chain) && nitems == |chain.nodes| && EndsRight()
      requires 1 <= n <= |chain.nodes| && p == chain.nodes[n - 1]
      modifies this`cache, this`cachedItem
      ensures Valid() && cachedItem == n
    {
      cache, cachedItem := p, n;
    }

    /** The line an item is on, or 0. */
    method LineNo(p0: Item?) returns (i: int)
      requires Valid()
      ensures 0 <= i <= |chain.nodes|
      ensures i > 0 ==> chain.nodes[i - 1] == p0
      ensures i == 0 <==> p0 == null || p0 !in chain.nodes
      ensures forall k :: 0 <= k < |chain.nodes| && chain.nodes[k] == p0 ==> i == k + 1
    {
      KeptHasNoneTwice(chain);
      var p := first;
      i := 1;
      while p != null
        invariant 1 <= i <= |chain.nodes| + 1 && p == Nth(chain.nodes, i - 1)
        invariant forall k :: 0 <= k < i - 1 ==> chain.nodes[k] != p0
        decreases |chain.nodes| - i
      {
        if p == p0 { return; }
        KeptAt(chain, i - 1);
        i := i + 1;
        p := p.next;
      }
      i := 0;
    }

    method AddLine(text: string, b: int) returns (count: int)
      requires Valid()
      modifies this, chain.nodes
      ensures Valid() && Model() == Add(old(Model()), text, b)
      ensures last != null && fresh(last) && chain.nodes == old(chain.nodes) + [last]
      ensures last.text == text && (-128 <= b < 128 ==> last.checked == b)
      ensures nchecked == old(nchecked) + (if b != 0 then 1 else 0)
      ensures forall x :: x in old(chain.nodes) ==> x.checked == old(x.checked)
      ensures count == |chain.nodes|
    {
      var p := new Item(text, Char(b));
      ghost var c := LinkBehind(last, p, chain);
      AddEnd(p, b, c);
      count := nitems;
    }

    /** The fields of the browser after a new item has been linked. */
    method AddEnd(p: Item, b: int, ghost c: Chain)
      requires EndsRight() && CacheRight() && nitems == |chain.nodes|
      requires Kept(c) && c.nodes == chain.nodes + [p]
      modifies this`first, this`last, this`nitems, this`nchecked, this`chain
      ensures Valid() && chain == c && last == p
      ensures nchecked == if b != 0 then old(nchecked) + 1 else old(nchecked)
    {
      if last == null { first := p; }
      last := p;
      nitems := nitems + 1;
      if b != 0 { nchecked := nchecked + 1; }
      chain := c;
    }

    /** The ends of the list without an item between the two given ones. */
    method CloseEnds(prev: Item?, next: Item?, ghost i: nat)
      requires EndsRight() && i < |chain.nodes|
      requires prev == Nth(chain.nodes, i - 1) && next == Nth(chain.nodes, i + 1)
      modifies this`first, this`last
      ensures first == Nth(Without(chain.nodes, i), 0) && last == Nth(Without(chain.nodes, i), |chain.nodes| - 2)
    {
      EndsAfterUnlink(chain.nodes, i);
      if prev == null { first := next; }
      if next == null { last := prev; }
    }

    /** The counts and the cache after an item has gone. */
    method Forget(checked: int, ghost c: Chain)
      requires Kept(c) && nitems == |c.nodes| + 1
      requires first == Nth(c.nodes, 0) && last == Nth(c.nodes, |c.nodes| - 1)
      modifies this`nitems, this`nchecked, this`cache, this`cachedItem, this`chain
      ensures Valid() && chain == c && cachedItem == -1
      ensures nchecked == if checked != 0 then old(nchecked) - 1 else old(nchecked)
    {
      if checked != 0 { nchecked := nchecked - 1; }
      nitems := nitems - 1;
      cachedItem := -1;
      cache := null;
      chain := c;
    }

    /** Unlink an item and settle the ends, the counts and the cache. */
    method Drop(p: Item, ghost i: nat)
      requires Valid() && i < |chain.nodes| && chain.nodes[i] == p
      modifies this, chain.nodes
      ensures Valid() && i < |old(chain.nodes)| == |old(chain.lines)|
      ensures chain.nodes == Without(old(chain.nodes), i) && chain.lines == Without(old(chain.lines), i)
      ensures nchecked == old(nchecked) - (if old(chain.lines[i].checked) != 0 then 1 else 0) && cachedItem == -1
      ensures forall x :: x in old(chain.nodes) ==> x.checked == old(x.checked)
    {
      KeptAt(chain, i);
      var prev, next, checked := p.prev, p.next, p.checked;
      ghost var c := Bypass(p, chain, i);
      CloseEnds(prev, next, i);
      Forget(checked, c);
    }

    method RemoveLine(n: int) returns (count: int)
      requires Valid()
      modifies this, chain.nodes
      ensures Valid() && Model() == Remove(Find(old(Model()), n), n)
      ensures 1 <= n <= old(|chain.nodes|) ==> chain.nodes == Without(old(chain.nodes), n - 1)
      ensures !(1 <= n <= old(|chain.nodes|)) ==> chain.nodes == old(chain.nodes)
      ensures forall x :: x in old(chain.nodes) ==> x.checked == old(x.checked)
      ensures count == |chain.nodes|
    {
      var p := FindItem(n);
      if p != null { Drop(p, n - 1); }
      count := nitems;
    }

    method Clear()
      requires Valid()
      modifies this
      ensures Valid() && Model() == CheckList.Clear(old(Model()))
      ensures chain.nodes == [] && (old(chain.nodes) != [] ==> nchecked == 0)
    {
      if first == null { return; }
      first, last, cache := null, null, null;
      nitems, nchecked := 0, 0;
      cachedItem := -1;
      chain := NO_ITEMS;
    }

    /** Write the mark of one item. */
    method WriteMark(p: Item, b: int, ghost i: nat)
      requires Valid() && i < |chain.nodes| && chain.nodes[i] == p
      modifies this`chain, p`checked
      ensures Valid() && i < |old(chain.lines)| && chain == WithMark(old(chain), i, b)
      ensures p.checked == b
    {
      WriteChecked(p, b, chain, i);
      chain := WithMark(chain, i, b);
    }

    /** Write a mark that differs from the one the item holds. */
    method Remark(p: Item, b: int, ghost i: nat)
      requires Valid() && i < |chain.nodes| && chain.nodes[i] == p
      modifies this`chain, this`nchecked, p`checked
      ensures Valid() && i < |old(chain.lines)| && chain == WithMark(old(chain), i, Char(b))
      ensures p.checked == Char(b)
      ensures nchecked == if b != 0 then old(nchecked) + 1 else old(nchecked) - 1
    {
      if b != 0 { nchecked := nchecked + 1; } else { nchecked := nchecked - 1; }
      WriteMark(p, Char(b), i);
    }

    method SetChecked(n: int, b: int)
      requires Valid()
      modifies this, chain.nodes
      ensures Valid() && chain.nodes == old(chain.nodes)
      ensures Model() == Check(old(Model()), n, b)
      ensures 1 <= n <= |chain.nodes| && -128 <= b < 128 ==> chain.nodes[n - 1].checked == b
      ensures forall x :: x in chain.nodes && (1 <= n <= |chain.nodes| ==> x != chain.nodes[n - 1]) ==> x.checked == old(x.checked)
    {
      var p := FindItem(n);
      if p == null { return; }
      KeptAt(chain, n - 1);
      if p.checked != b { Remark(p, b, n - 1); }
    }

    /** item_select with a true state: what a click on the item does. */
    method Select(p: Item, ghost n: int)
      requires Valid() && 1 <= n <= |chain.nodes| && chain.nodes[n - 1] == p
      modifies this, p
      ensures Valid() && chain.nodes == old(chain.nodes)
      ensures Model() == Toggle(old(Model()), n)
      ensures p.checked == if old(p.checked) != 0 then 0 else 1
      ensures nchecked == old(nchecked) + (if old(p.checked) != 0 then -1 else 1)
    {
      KeptAt(chain, n - 1);
      Remark(p, if p.checked != 0 then 0 else 1, n - 1);
    }

    /** One turn of the walk over the items. */
    method MarkNext(p: Item, b: int, ghost lines: seq<Line>, ghost i: nat) returns (next: Item?)
      requires Valid() && i < |chain.nodes| && chain.nodes[i] == p && chain.lines == MarkedTo(lines, i, b)
      modifies this`chain, p`checked
      ensures Valid() && chain == old(chain).(lines := MarkedTo(lines, i + 1, b))
      ensures next == Nth(chain.nodes, i + 1)
    {
      KeptAt(chain, i);
      MarkOneMore(lines, i, b);
      next := p.next;
      WriteMark(p, b, i);
    }

    method MarkItems(b: int)
      requires Valid()
      modifies this`chain, chain.nodes`checked
      ensures Valid() && chain == old(chain).(lines := MarkAll(old(chain.lines), b))
    {
      ghost var before := chain;
      MarkedEnds(before.lines, b);
      var p := first;
      ghost var i := 0;
      while p != null
        invariant 0 <= i <= |before.nodes| == |before.lines| && p == Nth(before.nodes, i)
        invariant Valid() && chain == before.(lines := MarkedTo(before.lines, i, b))
        decreases |before.nodes| - i
      {
        p := MarkNext(p, b, before.lines, i);
        i := i + 1;
      }
    }

    /** check_all marks with 1, check_none with 0. */
    method SetAll(b: int)
      requires Valid() && (b == 0 || b == 1)
      modifies this, chain.nodes
      ensures Valid() && chain.nodes == old(chain.nodes)
      ensures Model() == if b == 1 then CheckAll(old(Model())) else CheckNone(old(Model()))
      ensures forall k :: 0 <= k < |chain.nodes| ==> chain.nodes[k].checked == b
      ensures nchecked == if b == 1 then |chain.nodes| else 0
    {
      nchecked := if b == 1 then nitems else 0;
      MarkItems(b);
      KeptMarks(chain);
    }

    /** The comparisons at the end of item_swap. */
    method SwapEnds(ia: Item, ib: Item, ghost i: nat, ghost j: nat)
      requires EndsRight() && NoneTwice(chain.nodes)
      requires i < |chain.nodes| && j < |chain.nodes| && chain.nodes[i] == ia && chain.nodes[j] == ib
      modifies this`first, this`last
      ensures var s := Swapped(chain.nodes, i, j);
        first == Nth(s, 0) && last == Nth(s, |s| - 1) <==> i == j || 0 < j < |chain.nodes| - 1
    {
      if first == ia { first := ib; }
      if last == ia { last := ib; }
      EndsAfterSwap(chain.nodes, i, j, first, last);
    }

    /** Another chain of as many items, and no cached line. */
    method TakeChain(ghost c: Chain)
      requires Kept(c) && nitems == |c.nodes|
      modifies this`cache, this`cachedItem, this`chain
      ensures Chained() && chain == c && cachedItem == -1
    {
      cachedItem := -1;
      cache := null;
      chain := c;
    }

    /** item_swap: lines and pointers are swapped, but the last two comparisons look only for
        the first item, so the ends are right exactly if the second item was not one of them. */
    method ItemSwap(ia: Item, ib: Item, ghost i: nat, ghost j: nat)
      requires Valid() && i < |chain.nodes| && j < |chain.nodes| && chain.nodes[i] == ia && chain.nodes[j] == ib
      modifies this, chain.nodes
      ensures Chained() && chain.nodes == Swapped(old(chain.nodes), i, j)
      ensures Model() == Swap(old(Model()), i + 1, j + 1)
      ensures EndsRight() <==> i == j || 0 < j < |chain.nodes| - 1
      ensures forall x :: x in chain.nodes ==> x.checked == old(x.checked)
    {
      KeptHasNoneTwice(chain);
      ghost var c := Exchange(ia, ib, chain, i, j);
      SwapEnds(ia, ib, i, j);
      TakeChain(c);
    }
  }
}
