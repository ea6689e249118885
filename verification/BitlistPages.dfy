/** bitlist.c: the paging loop of bitlist_nv_write, and the round trip through the parser. */
module BitlistPages {
  import opened Decimal
  import opened Bitlist
  import opened BitlistText
  import opened BitlistPrint

  ghost predicate InPages(pages: seq<seq<Item>>, x: int) {
    exists k :: 0 <= k < |pages| && InItems(pages[k], x)
  }

  lemma InPagesSnoc(pages: seq<seq<Item>>, items: seq<Item>, x: int)
    ensures InPages(pages + [items], x) <==> InPages(pages, x) || InItems(items, x)
  {
    var all := pages + [items];
    if k :| 0 <= k < |pages| && InItems(pages[k], x) { assert all[k] == pages[k]; }
    if InItems(items, x) { assert all[|pages|] == items; }
  }

  /** The digits of x fit in a buffer of that size, with the terminating NUL. */
  ghost predicate Fits(x: int, size: int) {
    x >= 0 && |Dec(x)| < size
  }

  /** Every page begins above the end of the page before it. */
  ghost predicate InOrder(pages: seq<seq<Item>>) {
    && (forall k | 0 <= k < |pages| :: pages[k] != [] && Ascending(pages[k]))
    && (forall k | 0 < k < |pages| :: pages[k - 1][|pages[k - 1]| - 1].hi < pages[k][0].lo)
  }

  /** The chunks are the texts of the pages, and fit in a buffer of that size. */
  ghost predicate Printed(chunks: seq<string>, pages: seq<seq<Item>>, size: int) {
    |chunks| == |pages| && forall k | 0 <= k < |pages| :: chunks[k] == Render(pages[k]) && |chunks[k]| < size
  }

  /** What has been printed when the next page starts at `from`. */
  ghost predicate Progress(S: set<int>, from: int, size: int, chunks: seq<string>, pages: seq<seq<Item>>) {
    && Printed(chunks, pages, size) && InOrder(pages)
    && (forall x :: InPages(pages, x) <==> x in S && x < from)
    && (forall x | x in S && x < from :: Fits(x, size))
  }

  /** What has been printed in the end: exactly the members whose digits fit. */
  ghost predicate Finished(S: set<int>, size: int, chunks: seq<string>, pages: seq<seq<Item>>)
  {
    && Printed(chunks, pages, size) && InOrder(pages)
    && forall x :: InPages(pages, x) <==> x in S && Fits(x, size)
  }

  lemma {:induction false} DigitsWithin(items: seq<Item>, i: nat)
    requires i < |items|
    ensures |Dec(items[i].hi)| <= |Render(items)|
  {
    hide Dec;
    var n := |items| - 1;
    if i < n { DigitsWithin(items[..n], i); }
  }

  lemma PrintedFits(items: seq<Item>, size: int, x: int)
    requires InItems(items, x) && |Render(items)| < size
    ensures Fits(x, size)
  {
    hide Dec, Render;
    var i :| 0 <= i < |items| && items[i].lo <= x <= items[i].hi;
    DigitsWithin(items, i);
    DecLonger(x, items[i].hi);
  }

  lemma NextPage(S: set<int>, from: int, size: int, chunks: seq<string>, pages: seq<seq<Item>>,
                 s: string, items: seq<Item>, r: int)
    requires Progress(S, from, size, chunks, pages) && Page(S, from, size, s, items, r) && items != []
    requires forall x | x in S :: x >= 0
    ensures r != BITLIST_INVALID ==> from < r && r in S && Progress(S, r, size, chunks + [s], pages + [items])
    ensures r == BITLIST_INVALID ==> Finished(S, size, chunks + [s], pages + [items])
  {
    hide Dec, Render, Ascending;
    NextInOrder(S, from, size, chunks, pages, s, items, r);
    forall x ensures InPages(pages + [items], x) <==> InPages(pages, x) || InItems(items, x) {
      InPagesSnoc(pages, items, x);
    }
    forall x | InItems(items, x) ensures Fits(x, size) {
      PrintedFits(items, size, x);
    }
  }

  lemma NextInOrder(S: set<int>, from: int, size: int, chunks: seq<string>, pages: seq<seq<Item>>,
                    s: string, items: seq<Item>, r: int)
    requires Progress(S, from, size, chunks, pages) && Page(S, from, size, s, items, r) && items != []
    ensures Printed(chunks + [s], pages + [items], size) && InOrder(pages + [items])
  {
    hide Dec, Render, Covered, IsNext;
    PageBounds(S, from, size, s, items, r);
    if pages != [] {
      PagesBelow(S, from, size, chunks, pages);
    }
    hide InItems, InPages, Ascending;
  }

  lemma PagesBelow(S: set<int>, from: int, size: int, chunks: seq<string>, pages: seq<seq<Item>>)
    requires Progress(S, from, size, chunks, pages) && pages != []
    ensures pages[|pages| - 1] != [] && pages[|pages| - 1][|pages[|pages| - 1]| - 1].hi < from
  {
    hide Dec, Render, Fits;
    var last := pages[|pages| - 1];
    assert InItems(last, last[|last| - 1].hi);
    assert InPages(pages, last[|last| - 1].hi);
  }

  lemma PageBounds(S: set<int>, from: int, size: int, s: string, items: seq<Item>, r: int)
    requires Page(S, from, size, s, items, r) && items != []
    ensures from <= items[0].lo
  {
    hide Dec, Render;
    assert InItems(items, items[0].lo);
  }

  lemma LastPage(S: set<int>, from: int, size: int, chunks: seq<string>, pages: seq<seq<Item>>, s: string, r: int)
    requires Progress(S, from, size, chunks, pages) && Page(S, from, size, s, [], r)
    requires forall x | x in S :: x >= 0
    ensures r == BITLIST_INVALID && Finished(S, size, chunks, pages)
  {
    hide Dec, Render, Printed, InOrder;
    if u :| 0 <= u && IsNext(S, from, u) && |Dec(u)| >= size {
      forall x | x in S && from <= x ensures |Dec(x)| >= size {
        DecLonger(u, x);
      }
    }
  }

  lemma MembersNonnegative(words: seq<bv32>, base: nat, maxBits: nat)
    requires maxBits <= 32 * |words|
    ensures forall x | x in Members(words, base, maxBits) :: x >= 0
    ensures forall x | x in Members(words, base, maxBits) :: base <= x < base + maxBits
  {
  }

  /** The do-while loop of bitlist_nv_write: page after page until -1. For any list and any
      buffer size it ends, and what it has printed are exactly the members whose digits leave
      room for the terminating NUL. */
  method Pages(bl: List, size: int) returns (chunks: seq<string>, ghost pages: seq<seq<Item>>)
    requires bl.Valid()
    modifies bl`lastElem, bl`lastBit
    ensures bl.Valid() && bl.Set() == old(bl.Set())
    ensures Finished(bl.Set(), size, chunks, pages)
  {
    hide Members, Progress, Finished, Page;
    ghost var S := bl.Set();
    MembersNonnegative(bl.bits[..], bl.baseBit, bl.maxBits);
    chunks, pages := [], [];
    var begin := true;
    ghost var from: int := bl.baseBit;
    StartPages(S, from, size);
    var more := true;
    while more
      invariant bl.Valid() && bl.Set() == S
      invariant more ==> Progress(S, from, size, chunks, pages)
      invariant more ==> from == bl.baseBit + if begin then 0 else bl.Resume()
      invariant !more ==> Finished(S, size, chunks, pages)
      invariant more ==> from <= bl.baseBit + bl.maxBits
      decreases more, bl.baseBit + bl.maxBits - from
    {
      ghost var items: seq<Item>;
      var buf: string, i: int;
      buf, i, items := ToString(bl, size, begin);
      begin := false;
      PageText(S, from, size, buf, items, i);
      if buf != "" {
        NextPage(S, from, size, chunks, pages, buf, items, i);
        chunks, pages := chunks + [buf], pages + [items];
      } else {
        LastPage(S, from, size, chunks, pages, buf, i);
      }
      more := i != BITLIST_INVALID;
      from := i;
    }
  }

  lemma PageText(S: set<int>, from: int, size: int, s: string, items: seq<Item>, r: int)
    requires Page(S, from, size, s, items, r)
    ensures items == [] <==> s == ""
  {
  }

  lemma StartPages(S: set<int>, from: int, size: int)
    requires forall x | x in S :: x >= from
    ensures Progress(S, from, size, [], [])
  {
  }

  /** bitlist_nv_write: one command line per page, none longer than maxlen. */
  method NvWrite(bl: List, prefix: string, suffix: string, maxlen: int)
    returns (lines: seq<string>, ghost chunks: seq<string>, ghost pages: seq<seq<Item>>)
    requires bl.Valid()
    modifies bl`lastElem, bl`lastBit
    ensures bl.Valid() && bl.Set() == old(bl.Set())
    ensures Finished(bl.Set(), maxlen - (|prefix| + 1 + |suffix|), chunks, pages)
    ensures |lines| == |chunks|
    ensures forall k | 0 <= k < |lines| :: lines[k] == prefix + " " + chunks[k] + suffix && |lines[k]| < maxlen
  {
    var len := maxlen - (|prefix| + 1 + |suffix|);
    hide Members, Render, Dec, InPages, InOrder;
    var texts;
    texts, pages := Pages(bl, len);
    chunks := texts;
    lines := seq(|texts|, k requires 0 <= k < |texts| => prefix + " " + texts[k] + suffix);
  }

  /** Printing a list page by page and feeding every page to bitlist_from_string on a cleared
      list of the same shape rebuilds the set, for every buffer with room for the digits of
      each member; with less room, exactly the members whose digits fit come back. */
  method RoundTrip(bl: List, copy: List, size: int)
    requires bl.Valid() && copy.Valid() && bl != copy && bl.bits != copy.bits
    requires copy.Set() == {} && copy.baseBit == bl.baseBit && copy.maxBits == bl.maxBits
    modifies bl`lastElem, bl`lastBit, copy.bits
    ensures bl.Valid() && copy.Valid() && bl.Set() == old(bl.Set())
    ensures forall x :: x in copy.Set() <==> x in bl.Set() && Fits(x, size)
    ensures copy.Set() == bl.Set() <==> forall x | x in bl.Set() :: Fits(x, size)
  {
    hide Members, Render, Dec, Parse, InItems, Finished, Fits;
    ghost var pages: seq<seq<Item>>;
    var chunks: seq<string>;
    chunks, pages := Pages(bl, size);
    FinishedMeans(bl.Set(), size, chunks, pages);
    var k := 0;
    while k < |chunks|
      invariant 0 <= k <= |chunks| && bl.Valid() && copy.Valid() && bl.Set() == old(bl.Set())
      invariant Finished(bl.Set(), size, chunks, pages) && |chunks| == |pages|
      invariant forall x :: x in copy.Set() <==> InPages(pages[..k], x)
    {
      PageParses(bl.bits[..], bl.baseBit, bl.maxBits, size, chunks, pages, k);
      var ok, outcome := FromString(copy, chunks[k]);
      assert pages[..k + 1] == pages[..k] + [pages[k]];
      forall x ensures InPages(pages[..k + 1], x) <==> InPages(pages[..k], x) || InItems(pages[k], x) {
        InPagesSnoc(pages[..k], pages[k], x);
      }
      k := k + 1;
    }
    assert pages[..|pages|] == pages;
    FinishedMeans(bl.Set(), size, chunks, pages);
    AllFit(bl.Set(), copy.Set(), size);
  }

  lemma AllFit(A: set<int>, B: set<int>, size: int)
    requires forall x {:trigger x in A} {:trigger x in B} :: x in B <==> x in A && Fits(x, size)
    ensures B == A <==> forall x | x in A :: Fits(x, size)
  {
    hide Fits;
    if x :| x in A && !Fits(x, size) {
      assert x !in B;
    } else {
      forall x ensures x in A <==> x in B {
        if x in A { assert Fits(x, size); }
      }
      assert A == B;
    }
  }

  lemma FinishedMeans(S: set<int>, size: int, chunks: seq<string>, pages: seq<seq<Item>>)
    requires Finished(S, size, chunks, pages)
    ensures |chunks| == |pages|
    ensures forall x :: InPages(pages, x) <==> x in S && Fits(x, size)
  {
  }

  /** Every page parses without error, into the entries it was printed from. */
  lemma PageParses(words: seq<bv32>, base: nat, maxBits: nat, size: int,
                   chunks: seq<string>, pages: seq<seq<Item>>, k: nat)
    requires maxBits <= 32 * |words|
    requires Finished(Members(words, base, maxBits), size, chunks, pages) && k < |chunks|
    ensures |chunks| == |pages| && Parse(chunks[k], base, base + maxBits - 1) == Parsed(pages[k], Done)
  {
    hide Parse, Render, Dec;
    var items := pages[k];
    forall i | 0 <= i < |items| ensures base <= items[i].lo <= items[i].hi < base + maxBits {
      assert InItems(items, items[i].lo) && InItems(items, items[i].hi);
      assert InPages(pages, items[i].lo) && InPages(pages, items[i].hi);
      MembersNonnegative(words, base, maxBits);
    }
    ParseRender(items, base, base + maxBits - 1);
  }
}
