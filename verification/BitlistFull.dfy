/** bitlist.h: a page holds as much as there is room for, so the list, the start and the buffer
    size determine its text and the member it resumes at. */
module BitlistFull {
  import opened Decimal
  import opened Bitlist
  import opened BitlistText
  import opened BitlistPrint

  lemma {:induction false} LaterItems(items: seq<Item>, i: nat)
    requires Ascending(items) && 0 < i < |items|
    ensures items[0].hi + 1 < items[i].lo
    decreases i
  {
    if i > 1 { LaterItems(items, i - 1); }
  }

  /** Among ascending entries the first holds the least number, and none holds the number just
      above it. */
  lemma FirstItem(items: seq<Item>, x: int)
    requires Ascending(items) && InItems(items, x)
    ensures items != [] && items[0].lo <= x && x != items[0].hi + 1
    ensures x <= items[0].hi || InItems(items[1..], x)
  {
    var i :| 0 <= i < |items| && items[i].lo <= x <= items[i].hi;
    if i > 0 {
      LaterItems(items, i);
      assert items[1..][i - 1] == items[i];
    }
  }

  lemma TailCovered(items: seq<Item>, S: set<int>, from: int, to: int)
    requires Ascending(items) && Covered(items, S, from, to) && items != []
    ensures Ascending(items[1..]) && Covered(items[1..], S, items[0].hi + 1, to)
    ensures from <= items[0].lo && items[0].hi < to
  {
    assert InItems(items, items[0].lo) && InItems(items, items[0].hi);
    forall x ensures InItems(items[1..], x) <==> x in S && items[0].hi + 1 <= x < to {
      if InItems(items[1..], x) {
        var i :| 0 <= i < |items[1..]| && items[1..][i].lo <= x <= items[1..][i].hi;
        assert items[i + 1].lo <= x <= items[i + 1].hi;
        LaterItems(items, i + 1);
      }
      if InItems(items, x) { FirstItem(items, x); }
    }
  }

  /** Entries that cover the same members up to different ends begin with the same one, unless
      the shorter cover ends within it. */
  lemma SameFirst(S: set<int>, from: int, a: seq<Item>, t: int, b: seq<Item>, u: int)
    requires Ascending(a) && Ascending(b) && Covered(a, S, from, t) && Covered(b, S, from, u)
    requires t <= u && a != []
    ensures b != [] && a[0].lo == b[0].lo && a[0].hi <= b[0].hi
    ensures a[0].hi < b[0].hi ==> |a| == 1 && t == a[0].hi + 1
  {
    TailCovered(a, S, from, t);
    assert InItems(a, a[0].lo);
    FirstItem(b, a[0].lo);
    assert InItems(b, b[0].lo);
    FirstItem(a, b[0].lo);
    assert |a| > 1 ==> InItems(a, a[1].lo);
    if b[0].hi < a[0].hi {
      assert InItems(a, b[0].hi + 1);
      FirstItem(b, b[0].hi + 1);
    } else if a[0].hi < b[0].hi {
      assert InItems(b, a[0].hi + 1);
      if a[0].hi + 1 < t { FirstItem(a, a[0].hi + 1); }
    }
  }

  /** ... and so for all of them: the shorter one differs at most in the end of its last entry. */
  ghost predicate Begins(a: seq<Item>, t: int, b: seq<Item>) {
    var n := |a| - 1;
    && 0 <= n < |b| && a[..n] == b[..n] && a[n].lo == b[n].lo && a[n].hi <= b[n].hi
    && (a[n].hi < b[n].hi ==> t == a[n].hi + 1)
  }

  lemma {:induction false} SameRuns(S: set<int>, from: int, a: seq<Item>, t: int, b: seq<Item>, u: int)
    requires Ascending(a) && Ascending(b) && Covered(a, S, from, t) && Covered(b, S, from, u)
    requires t <= u && a != []
    ensures Begins(a, t, b)
    decreases |a|
  {
    SameFirst(S, from, a, t, b, u);
    if |a| > 1 {
      TailCovered(a, S, from, t);
      TailCovered(b, S, from, u);
      SameRuns(S, a[0].hi + 1, a[1..], t, b[1..], u);
      ConsBegins(a, t, b);
    }
  }

  lemma ConsBegins(a: seq<Item>, t: int, b: seq<Item>)
    requires |a| > 1 && b != [] && a[0] == b[0] && Begins(a[1..], t, b[1..])
    ensures Begins(a, t, b)
  {
    var n := |a| - 1;
    assert a[..n] == [a[0]] + a[1..][..n - 1] && b[..n] == [b[0]] + b[1..][..n - 1];
  }

  lemma {:induction false} RenderGrows(items: seq<Item>, n: nat)
    requires n <= |items|
    ensures |Render(items[..n])| <= |Render(items)|
    decreases |items|
  {
    hide RenderItem;
    if n < |items| {
      var m := |items| - 1;
      RenderGrows(items[..m], n);
      assert items[..m][..n] == items[..n];
    } else {
      assert items[..n] == items;
    }
  }

  /** The text of entries is at least that of the first n and the next number. */
  lemma RenderAt(items: seq<Item>, n: nat)
    requires n < |items| && items[n].lo <= items[n].hi
    ensures |Render(items)| >= |Render(items[..n])| + (if n == 0 then 0 else 1) + |Dec(items[n].lo)|
  {
    hide Dec, Render;
    RenderGrows(items, n + 1);
    RenderSnoc(items[..n], items[n]);
    assert items[..n + 1] == items[..n] + [items[n]];
  }

  /** ... and, if that entry is a range, at least its end as well. */
  lemma RenderRange(items: seq<Item>, n: nat)
    requires n < |items| && items[n].lo < items[n].hi
    ensures |Render(items)| >= |Render(items[..n] + [Item(items[n].lo, items[n].lo)])| + |"-" + Dec(items[n].hi)|
  {
    hide Dec, Render;
    RenderGrows(items, n + 1);
    RenderSnoc(items[..n], items[n]);
    assert items[..n + 1] == items[..n] + [items[n]];
    RenderSnoc(items[..n], Item(items[n].lo, items[n].lo));
  }

  /** Where a page ends, or how far it could have gone on: it holds the members up to here. */
  ghost predicate Reaches(S: set<int>, r: int, t: int) {
    if r == BITLIST_INVALID then IsNext(S, t, BITLIST_INVALID) else t == r
  }

  /** A page ends within a run only behind the first number of it. */
  ghost predicate Stops(b: seq<Item>, r: int) {
    b != [] && (b[|b| - 1].hi + 1 == r ==> b[|b| - 1].lo == b[|b| - 1].hi)
  }

  /** The next entry of a longer page begins where the shorter one ends, unless that is in the
      midst of a run. */
  lemma NextEntry(S: set<int>, from: int, a: seq<Item>, r: nat, b: seq<Item>, t: int)
    requires Ascending(a) && Ascending(b) && Covered(a, S, from, r) && Covered(b, S, from, t)
    requires r < t && a != [] && from < r && r in S && a[|a| - 1].hi + 1 != r
    ensures |a| < |b| && b[..|a|] == a && b[|a|].lo == r
  {
    hide Ascending, Covered;
    SameRuns(S, from, a, r, b, t);
    var n := |a|;
    assert a == a[..n - 1] + [a[n - 1]] && b[..n] == b[..n - 1] + [b[n - 1]];
    assert b[..n] == a;
    Following(S, from, a, r, b, t);
  }

  lemma Following(S: set<int>, from: int, a: seq<Item>, r: nat, b: seq<Item>, t: int)
    requires Ascending(a) && Ascending(b) && Covered(a, S, from, r) && Covered(b, S, from, t)
    requires r < t && from < r && r in S && |a| <= |b| && b[..|a|] == a
    ensures |a| < |b| && b[|a|].lo == r
  {
    assert forall k {:trigger b[k]} | 0 <= k < |a| :: a[k] == b[k];
    assert InItems(b, r) && !InItems(a, r);
    var i :| 0 <= i < |b| && b[i].lo <= r <= b[i].hi;
    assert InItems(b, b[|a|].lo);
    if b[|a|].lo < r {
      assert InItems(a, b[|a|].lo);
      var j :| 0 <= j < |a| && a[j].lo <= b[|a|].lo <= a[j].hi;
      assert b[j] == a[j];
      Ordered(b, j, |a|);
    }
    if |a| < i { Ordered(b, |a|, i); }
  }

  lemma {:induction false} Ordered(items: seq<Item>, i: nat, j: nat)
    requires Ascending(items) && i < j < |items|
    ensures items[i].hi + 1 < items[j].lo
    decreases j
  {
    if i + 1 < j { Ordered(items, i, j - 1); }
  }

  /** A page that is full cannot go on: no other page from the same start holds more. */
  lemma NoLonger(S: set<int>, from: int, size: int, s1: string, a: seq<Item>, r1: int,
                 s2: string, b: seq<Item>, r2: int, t: int)
    requires Page(S, from, size, s1, a, r1) && r1 != BITLIST_INVALID
    requires Page(S, from, size, s2, b, r2) && b != [] && Covered(b, S, from, t) && Reaches(S, r2, t)
    ensures t <= r1
  {
    if r1 < t {
      if a[|a| - 1].hi + 1 != r1 {
        NoRoomForNumber(S, from, a, r1, b, t);
      } else {
        NoRoomForEnd(S, from, size, s1, a, r1, b, r2, t);
      }
    }
  }

  lemma NoRoomForNumber(S: set<int>, from: int, a: seq<Item>, r: nat, b: seq<Item>, t: int)
    requires Ascending(a) && Ascending(b) && Covered(a, S, from, r) && Covered(b, S, from, t)
    requires r < t && a != [] && from < r && r in S && a[|a| - 1].hi + 1 != r
    ensures |Render(b)| >= |Render(a)| + |"," + Dec(r)|
  {
    hide Covered, Dec, Render;
    NextEntry(S, from, a, r, b, t);
    RenderAt(b, |a|);
  }

  /** Where a shorter page stops within a run, a longer one holds more of the run: all of it, if
      the longer one is a page. */
  lemma LongerRun(S: set<int>, from: int, a: seq<Item>, r1: nat, b: seq<Item>, r2: int, t: int, e: int)
    requires Ascending(a) && Covered(a, S, from, r1) && a != [] && 0 < r1 < t && r1 in S && from < r1
    requires a[|a| - 1] == Item(r1 - 1, r1 - 1) && IsRun(S, r1 - 1, e)
    requires Ascending(b) && Stops(b, r2) && Covered(b, S, from, t) && Reaches(S, r2, t)
    ensures var n := |a| - 1;
            n < |b| && a[..n] == b[..n] && b[n].lo == r1 - 1 && b[n].hi == e
  {
    hide Render, Dec;
    var n := |a| - 1;
    SameRuns(S, from, a, r1, b, t);
    var h := b[n].hi;
    ItemWithin(S, from, b, t, n);
    NotAbove(S, from, b, t, n);
    assert InItems(b, r1);
    if h < e {
      assert h + 1 in S && t == h + 1;
      if n + 1 < |b| { ItemWithin(S, from, b, t, n + 1); }
    }
  }

  lemma ItemWithin(S: set<int>, from: int, b: seq<Item>, t: int, n: nat)
    requires Ascending(b) && Covered(b, S, from, t) && n < |b|
    ensures from <= b[n].lo <= b[n].hi < t
    ensures forall x | b[n].lo <= x <= b[n].hi :: x in S
  {
    assert InItems(b, b[n].lo) && InItems(b, b[n].hi);
    forall x | b[n].lo <= x <= b[n].hi ensures x in S { assert InItems(b, x); }
  }

  /** No entry holds the number just above another one. */
  lemma NotAbove(S: set<int>, from: int, b: seq<Item>, t: int, n: nat)
    requires Ascending(b) && Covered(b, S, from, t) && n < |b|
    ensures !InItems(b, b[n].hi + 1)
  {
    if i :| 0 <= i < |b| && b[i].lo <= b[n].hi + 1 <= b[i].hi {
      if i < n { Ordered(b, i, n); }
      if n < i { Ordered(b, n, i); }
    }
  }

  lemma NoRoomForEnd(S: set<int>, from: int, size: int, s1: string, a: seq<Item>, r1: nat,
                     b: seq<Item>, r2: int, t: int)
    requires Page(S, from, size, s1, a, r1) && a != [] && a[|a| - 1].hi + 1 == r1 < t
    requires Ascending(b) && Stops(b, r2) && Covered(b, S, from, t) && Reaches(S, r2, t)
    ensures |Render(b)| >= size
  {
    hide Covered, Ascending, Dec, Render, Reaches, IsRun;
    var n := |a| - 1;
    var e: nat :| IsRun(S, a[n].lo, e) && |s1| + |"-" + Dec(e)| >= size;
    assert e > a[n].lo by { RunGrows(S, a[n].lo, e); }
    LongerRun(S, from, a, r1, b, r2, t, e);
    RenderRange(b, n);
    assert b[..n] + [Item(b[n].lo, b[n].lo)] == a;
  }

  lemma RunGrows(S: set<int>, lo: int, e: int)
    requires IsRun(S, lo, e)
    ensures lo < e
  {
  }

  /** The end up to which a page holds the members. */
  lemma PageReaches(S: set<int>, from: int, size: int, s: string, items: seq<Item>, r: int, least: int)
    returns (t: int)
    requires Page(S, from, size, s, items, r) && items != []
    ensures Covered(items, S, from, t) && Reaches(S, r, t)
    ensures r == BITLIST_INVALID ==> least <= t
  {
    hide Dec, Render, Ascending;
    if r != BITLIST_INVALID {
      t := r;
    } else {
      var to := items[|items| - 1].hi + 1;
      t := if least <= to then to else least;
    }
  }

  /** A page with something on it begins with the first member, whose digits fit. */
  lemma FirstFits(S: set<int>, from: int, size: int, s: string, items: seq<Item>, r: int)
    requires Page(S, from, size, s, items, r) && items != []
    ensures !IsNext(S, from, BITLIST_INVALID)
    ensures forall x | 0 <= x && IsNext(S, from, x) :: |Dec(x)| < size
  {
    hide Dec, Render;
    var t := PageReaches(S, from, size, s, items, r, 0);
    RenderAt(items, 0);
    FirstMember(S, from, items, t);
  }

  lemma FirstMember(S: set<int>, from: int, items: seq<Item>, t: int)
    requires Ascending(items) && Covered(items, S, from, t) && items != []
    ensures items[0].lo in S && from <= items[0].lo
    ensures forall x | 0 <= x && IsNext(S, from, x) :: x == items[0].lo
  {
    ItemWithin(S, from, items, t, 0);
    assert InItems(items, items[0].lo);
    forall x | 0 <= x && IsNext(S, from, x) ensures x == items[0].lo {
      assert x <= items[0].lo;
      assert InItems(items, x);
      FirstItem(items, x);
    }
  }

  /** The members, the start and the size of the buffer determine the page. */
  lemma PageUnique(S: set<int>, from: int, size: int, s1: string, a: seq<Item>, r1: int,
                   s2: string, b: seq<Item>, r2: int)
    requires Page(S, from, size, s1, a, r1) && Page(S, from, size, s2, b, r2)
    ensures s1 == s2 && a == b && r1 == r2
  {
    hide Dec, Render;
    if a != [] { FirstFits(S, from, size, s1, a, r1); }
    if b != [] { FirstFits(S, from, size, s2, b, r2); }
    if a != [] && b != [] {
      SameEnd(S, from, size, s1, a, r1, s2, b, r2);
    }
  }

  lemma SameEnd(S: set<int>, from: int, size: int, s1: string, a: seq<Item>, r1: int,
                s2: string, b: seq<Item>, r2: int)
    requires Page(S, from, size, s1, a, r1) && Page(S, from, size, s2, b, r2) && a != [] && b != []
    ensures a == b && r1 == r2
  {
    var t1 := PageReaches(S, from, size, s1, a, r1, r2 + 1);
    var t2 := PageReaches(S, from, size, s2, b, r2, r1 + 1);
    if r1 != BITLIST_INVALID { NoLonger(S, from, size, s1, a, r1, s2, b, r2, t2); }
    if r2 != BITLIST_INVALID { NoLonger(S, from, size, s2, b, r2, s1, a, r1, t1); }
    hide Dec, Render;
    var t := if t1 <= t2 then t2 else t1;
    Begin(S, from, a, r1, t1, t);
    Begin(S, from, b, r2, t2, t);
    SameItems(S, from, a, b, t);
  }

  lemma Begin(S: set<int>, from: int, a: seq<Item>, r: int, t1: int, t: int)
    requires Covered(a, S, from, t1) && Reaches(S, r, t1) && t1 <= t
    requires r == BITLIST_INVALID || t1 == t
    ensures Covered(a, S, from, t)
  {
  }

  lemma SameItems(S: set<int>, from: int, a: seq<Item>, b: seq<Item>, t: int)
    requires Ascending(a) && Ascending(b) && Covered(a, S, from, t) && Covered(b, S, from, t) && a != [] && b != []
    ensures a == b
  {
    SameRuns(S, from, a, t, b, t);
    SameRuns(S, from, b, t, a, t);
    var n := |a| - 1;
    assert a == a[..n] + [a[n]] && b == b[..n] + [b[n]];
  }

  // ---------------------------------------------------------------- resuming within a run

  /** The end of the run that begins at lo does not fit behind the text. */
  ghost predicate EndTooLong(S: set<int>, size: int, s: string, lo: int) {
    exists e: nat :: IsRun(S, lo, e) && |s| + |"-" + Dec(e)| >= size
  }

  /** The call after a page resumes within a run, printed up to there, if and only if the last
      number of the page begins a run whose end did not fit. */
  lemma ResumesInsideIff(S: set<int>, from: int, size: int, s: string, items: seq<Item>, r: int)
    requires Page(S, from, size, s, items, r) && r != BITLIST_INVALID
    ensures items != []
    ensures var last := items[|items| - 1];
            from <= r - 1 && r - 1 in S <==>
            last.lo == r - 1 && last.hi == r - 1 && EndTooLong(S, size, s, r - 1)
  {
    hide Dec, Render, EndTooLong;
    var last := items[|items| - 1];
    ItemWithin(S, from, items, r, |items| - 1);
    if from <= r - 1 && r - 1 in S {
      assert InItems(items, r - 1);
      LastItem(items, r - 1);
      FullInside(S, size, s, last, r);
    }
  }

  lemma FullInside(S: set<int>, size: int, s: string, last: Item, r: nat)
    requires Full(S, size, s, last, r) && last.hi + 1 == r
    ensures last.lo == last.hi && EndTooLong(S, size, s, r - 1)
  {
    hide Dec;
    var e: nat :| IsRun(S, last.lo, e) && |s| + |"-" + Dec(e)| >= size;
    assert IsRun(S, r - 1, e);
  }

  lemma LastItem(items: seq<Item>, x: int)
    requires Ascending(items) && InItems(items, x)
    ensures items != [] && x <= items[|items| - 1].hi
  {
    var i :| 0 <= i < |items| && items[i].lo <= x <= items[i].hi;
    if i < |items| - 1 { Ordered(items, i, |items| - 1); }
  }

  // ---------------------------------------------------------------- the example of the header

  /** The list 1-3,5,7-15,20. */
  ghost function Example(): set<int> {
    {1, 2, 3, 5, 7, 8, 9, 10, 11, 12, 13, 14, 15, 20}
  }

  lemma Digits()
    ensures Dec(1) == "1" && Dec(3) == "3" && Dec(5) == "5" && Dec(7) == "7" && Dec(8) == "8"
    ensures Dec(15) == "15" && Dec(20) == "20"
  {
    assert Dec(1) == [DigitChar(1)] && Dec(2) == [DigitChar(2)];
  }

  lemma RenderTwo(a: Item, b: Item)
    ensures Render([a]) == RenderItem(a) && Render([a, b]) == RenderItem(a) + "," + RenderItem(b)
  {
    hide RenderItem;
    RenderEmpty();
    RenderSnoc([], a);
    RenderSnoc([a], b);
    assert [] + [a] == [a] && [a] + [b] == [a, b];
    assert "" + "" + RenderItem(a) == RenderItem(a);
  }

  lemma FirstText()
    ensures Render([Item(1, 3), Item(5, 5), Item(7, 7)]) == "1-3,5,7"
  {
    Digits();
    hide Dec, Render;
    RenderTwo(Item(1, 3), Item(5, 5));
    RenderSnoc([Item(1, 3), Item(5, 5)], Item(7, 7));
    assert [Item(1, 3), Item(5, 5)] + [Item(7, 7)] == [Item(1, 3), Item(5, 5), Item(7, 7)];
  }

  lemma SecondText()
    ensures Render([Item(8, 15), Item(20, 20)]) == "8-15,20"
  {
    Digits();
    hide Dec, Render;
    RenderTwo(Item(8, 15), Item(20, 20));
  }

  lemma FirstPage(from: int)
    requires from <= 1
    ensures Page(Example(), from, 8, "1-3,5,7", [Item(1, 3), Item(5, 5), Item(7, 7)], 8)
  {
    hide Dec, Render;
    FirstText();
    Digits();
    var items := [Item(1, 3), Item(5, 5), Item(7, 7)];
    forall x ensures InItems(items, x) <==> x in Example() && from <= x < 8 {
      assert items[0].lo <= x <= items[0].hi || items[1].lo <= x <= items[1].hi || items[2].lo <= x <= items[2].hi
             <==> x in Example() && from <= x < 8;
    }
    assert IsRun(Example(), 7, 15);
  }

  lemma SecondPage()
    ensures Page(Example(), 8, 8, "8-15,20", [Item(8, 15), Item(20, 20)], BITLIST_INVALID)
  {
    hide Dec, Render;
    SecondText();
    var items := [Item(8, 15), Item(20, 20)];
    forall x ensures InItems(items, x) <==> x in Example() && 8 <= x < 21 {
      assert items[0].lo <= x <= items[0].hi || items[1].lo <= x <= items[1].hi
             <==> x in Example() && 8 <= x < 21;
    }
  }

  /** With a buffer of 8 the first call prints "1-3,5,7" and returns 8, where the header says 7;
      the second call prints "8-15,20" and returns -1. */
  lemma HeaderExample(from: int, s1: string, a: seq<Item>, r1: int, s2: string, b: seq<Item>, r2: int)
    requires from <= 1 && Page(Example(), from, 8, s1, a, r1) && Page(Example(), r1, 8, s2, b, r2)
    ensures s1 == "1-3,5,7" && r1 == 8 && s2 == "8-15,20" && r2 == BITLIST_INVALID
  {
    hide Page, Example;
    FirstPage(from);
    PageUnique(Example(), from, 8, s1, a, r1, "1-3,5,7", [Item(1, 3), Item(5, 5), Item(7, 7)], 8);
    SecondPage();
    PageUnique(Example(), r1, 8, s2, b, r2, "8-15,20", [Item(8, 15), Item(20, 20)], BITLIST_INVALID);
  }
}
