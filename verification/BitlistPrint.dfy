/** bitlist.c: printing a bit list page by page, and reading the pages back. */
module BitlistPrint {
  import opened Decimal
  import opened Bitlist
  import opened BitlistText

  /** r is the least member at or after `from`, or -1 when there is none. */
  ghost predicate IsNext(S: set<int>, from: int, r: int) {
    if r == BITLIST_INVALID then forall x | x in S :: x < from
    else r in S && from <= r && forall x | x in S && from <= x :: r <= x
  }

  /** The entries hold exactly the members from `from` up to but not including `to`. */
  ghost predicate Covered(items: seq<Item>, S: set<int>, from: int, to: int) {
    forall x :: InItems(items, x) <==> x in S && from <= x < to
  }

  /** Entries in ascending order, adjacent numbers always joined in one entry. */
  ghost predicate Ascending(items: seq<Item>) {
    && (forall i | 0 <= i < |items| :: items[i].lo <= items[i].hi)
    && (forall i | 0 < i < |items| :: items[i - 1].hi + 1 < items[i].lo)
  }

  lemma NextMember(words: seq<bv32>, base: nat, maxBits: nat, from: nat)
    requires maxBits <= 32 * |words|
    ensures var p := NextSet(words, from);
            IsNext(Members(words, base, maxBits), base + from, if p < maxBits then base + p else BITLIST_INVALID)
  {
    var p := NextSet(words, from);
    hide NextSet;
    forall x | x in Members(words, base, maxBits) && base + from <= x
      ensures p < maxBits && base + p <= x
    {
      assert RawSet(words, x - base);
    }
    if p < maxBits {
      assert IsMember(words, base, maxBits, base + p);
    }
  }

  /** bitlist_find_bit, as a search among the members. */
  method Find(bl: List, first: bool) returns (r: int)
    requires bl.Valid()
    modifies bl`lastElem, bl`lastBit
    ensures bl.Valid() && bl.Set() == old(bl.Set())
    ensures IsNext(bl.Set(), bl.baseBit + if first then 0 else old(bl.Resume()), r)
    ensures r == BITLIST_INVALID || (bl.Resume() == r - bl.baseBit + 1 && bl.baseBit <= r < bl.baseBit + bl.maxBits)
  {
    hide NextSet, Members, IsNext;
    NextMember(bl.bits[..], bl.baseBit, bl.maxBits, if first then 0 else bl.Resume());
    r := bl.FindBit(first);
  }

  /** BIT_TO_ELEM and BIT_TO_BIT on an int that may be -1: C divides toward zero and masks. */
  function BitToElem(b: int): int { if b >= 0 then b / 32 else -(-b / 32) }

  function BitToBit(b: int): int { b % 32 }

  /** Sets the cursor back to bit b (counted from baseBit). */
  method ResetPosition(bl: List, b: int)
    requires bl.Valid() && -1 <= b < bl.maxBits
    modifies bl`lastElem, bl`lastBit
    ensures bl.Valid() && bl.Set() == old(bl.Set())
    ensures b >= 0 ==> bl.Resume() == b + 1
  {
    bl.lastBit := BitToBit(b);
    bl.lastElem := BitToElem(b);
  }

  lemma AddSingle(items: seq<Item>, S: set<int>, from: int, to: int, curr: int)
    requires Covered(items, S, from, to) && IsNext(S, to, curr) && curr >= 0 && from <= to
    ensures Covered(items + [Item(curr, curr)], S, from, curr + 1)
  {
    forall x ensures InItems(items + [Item(curr, curr)], x) <==> x in S && from <= x < curr + 1 {
      InItemsJoin(items, [Item(curr, curr)], x);
      InItemsOne(Item(curr, curr), x);
    }
  }

  lemma AddRange(items: seq<Item>, S: set<int>, from: int, to: int, first: int, last: int)
    requires Covered(items, S, from, to) && IsNext(S, to, first) && 0 <= first <= last && from <= to
    requires forall x | first <= x <= last :: x in S
    ensures Covered(items + [Item(first, last)], S, from, last + 1)
  {
    forall x ensures InItems(items + [Item(first, last)], x) <==> x in S && from <= x < last + 1 {
      InItemsJoin(items, [Item(first, last)], x);
      InItemsOne(Item(first, last), x);
    }
  }

  lemma AscendingSnoc(items: seq<Item>, it: Item)
    requires Ascending(items) && it.lo <= it.hi
    requires items != [] ==> items[|items| - 1].hi + 1 < it.lo
    ensures Ascending(items + [it])
  {
  }

  /** lo is followed by members up to e, and no further. */
  ghost predicate IsRun(S: set<int>, lo: int, e: int) {
    lo < e && e + 1 !in S && forall x | lo <= x <= e :: x in S
  }

  /** Why a page ends before the member r: there is no room for r behind a comma, or, in the
      midst of a run of which only the first number is printed, none for the end of the run. */
  ghost predicate Full(S: set<int>, size: int, s: string, last: Item, r: nat) {
    if last.hi + 1 == r then
      last.lo == last.hi && exists e: nat :: IsRun(S, last.lo, e) && |s| + |"-" + Dec(e)| >= size
    else |s| + |"," + Dec(r)| >= size
  }

  /** What one call of bitlist_to_string(bl, buf, size, begin) leaves in buf and returns: the text
      of the members from `from` up to the returned member, which the next call resumes at, as
      many as there is room for; or of all of them, with -1. With nothing printed, -1 also comes
      back when the digits of the first member do not fit. */
  ghost predicate Page(S: set<int>, from: int, size: int, s: string, items: seq<Item>, r: int) {
    && s == Render(items) && Ascending(items) && (|s| < size || s == "")
    && (items == [] <==> s == "")
    && if items == [] then
         r == BITLIST_INVALID
         && (IsNext(S, from, BITLIST_INVALID) || exists x :: 0 <= x && IsNext(S, from, x) && |Dec(x)| >= size)
       else
         && (r == BITLIST_INVALID ==> Covered(items, S, from, items[|items| - 1].hi + 1)
                                      && IsNext(S, items[|items| - 1].hi + 1, BITLIST_INVALID))
         && (r != BITLIST_INVALID ==> from < r && 0 <= r && r in S && Covered(items, S, from, r)
                                      && Full(S, size, s, items[|items| - 1], r))
  }

  /** The state of the printing loop. */
  ghost predicate Printing(S: set<int>, from: int, size: int, s: string, items: seq<Item>, next: int) {
    && s == Render(items) && Ascending(items) && (|s| < size || s == "") && (items == [] <==> s == "")
    && var to := if items == [] then from else items[|items| - 1].hi + 1;
       from <= to && (items != [] ==> from < to) && Covered(items, S, from, to) && IsNext(S, to, next)
  }

  ghost predicate Gap(items: seq<Item>, next: int) {
    items != [] ==> items[|items| - 1].hi + 1 != next
  }

  /** Skips to the end of a run: the do-while loop of bitlist_to_string. */
  method SkipRun(bl: List, first: nat, second: int) returns (curr: nat, next: int)
    requires bl.Valid() && first in bl.Set() && second == first + 1 && IsNext(bl.Set(), first + 1, second)
    requires bl.baseBit <= first && second < bl.baseBit + bl.maxBits && bl.Resume() == second - bl.baseBit + 1
    modifies bl`lastElem, bl`lastBit
    ensures bl.Valid() && bl.Set() == old(bl.Set())
    ensures first < curr < bl.baseBit + bl.maxBits && (forall x | first <= x <= curr :: x in bl.Set())
    ensures next != curr + 1 && IsNext(bl.Set(), curr + 1, next)
    ensures next == BITLIST_INVALID
            || (bl.baseBit <= next < bl.baseBit + bl.maxBits && bl.Resume() == next - bl.baseBit + 1)
  {
    hide IsNext, Members;
    ghost var S := bl.Set();
    curr, next := first, second;
    while curr + 1 == next
      invariant bl.Valid() && bl.Set() == S
      invariant first <= curr && (curr == first ==> next == first + 1)
      invariant IsNext(S, curr + 1, next)
      invariant forall x | first <= x <= curr :: x in S
      invariant bl.baseBit <= curr < bl.baseBit + bl.maxBits
      invariant next == BITLIST_INVALID
                || (bl.baseBit <= next < bl.baseBit + bl.maxBits && bl.Resume() == next - bl.baseBit + 1)
      decreases bl.baseBit + bl.maxBits - curr
    {
      RunGoesOn(S, first, curr, next);
      curr := next;
      next := Find(bl, false);
    }
  }

  method ToString(bl: List, size: int, begin: bool) returns (buf: string, r: int, ghost items: seq<Item>)
    requires bl.Valid()
    modifies bl`lastElem, bl`lastBit
    ensures bl.Valid() && bl.Set() == old(bl.Set())
    ensures Page(bl.Set(), bl.baseBit + if begin then 0 else old(bl.Resume()), size, buf, items, r)
    ensures r != BITLIST_INVALID ==> bl.Resume() == r - bl.baseBit
  {
    hide IsNext, Covered, Ascending, Render, Members, Printing, Page, Gap, Full;
    ghost var S := bl.Set();
    ghost var from := bl.baseBit + if begin then 0 else bl.Resume();
    buf, items := "", [];
    var next := Find(bl, begin);
    StartPage(S, from, size, next);
    var comma := "";
    while next != BITLIST_INVALID
      invariant bl.Valid() && bl.Set() == S
      invariant next == BITLIST_INVALID
                || (bl.baseBit <= next < bl.baseBit + bl.maxBits && bl.Resume() == next - bl.baseBit + 1)
      invariant Printing(S, from, size, buf, items, next) && Gap(items, next)
      invariant comma == if items == [] then "" else ","
      decreases if next == BITLIST_INVALID then -1 else bl.baseBit + bl.maxBits - next
    {
      var curr: nat := next;
      var temp := comma + Dec(curr);
      if |buf| + |temp| >= size {
        ResetPosition(bl, next - bl.baseBit - 1);
        NoSpaceForNumber(S, from, size, buf, items, next);
        break;
      }
      ghost var before, oldItems := buf, items;
      buf := buf + temp;
      comma := ",";
      next := Find(bl, false);
      items := oldItems + [Item(curr, curr)];
      if curr + 1 != next {
        AddNumber(S, from, size, before, oldItems, curr, next);
      } else {
        var first := curr;
        AddNumber(S, from, size, before, oldItems, curr, next);
        curr, next := SkipRun(bl, first, next);
        RunEnds(S, first, curr, next);
        temp := "-" + Dec(curr);
        if |buf| + |temp| < size {
          items := oldItems + [Item(first, curr)];
          AddRun(S, from, size, before, oldItems, first, curr, next);
          buf := buf + temp;
        } else {
          next := first + 1;
          ResetPosition(bl, first - bl.baseBit);
          NoSpaceForRange(S, from, size, before, oldItems, first, next, curr);
          break;
        }
      }
    }
    r := if |buf| != 0 then next else BITLIST_INVALID;
    EndPage(S, from, size, buf, items, next);
  }

  lemma StartPage(S: set<int>, from: int, size: int, next: int)
    requires IsNext(S, from, next)
    ensures Printing(S, from, size, "", [], next) && Gap([], next)
  {
  }

  lemma NoSpaceForNumber(S: set<int>, from: int, size: int, buf: string, items: seq<Item>, next: nat)
    requires Printing(S, from, size, buf, items, next) && Gap(items, next)
    requires |buf| + |(if items == [] then "" else ",") + Dec(next)| >= size
    ensures from <= next && (items == [] <==> buf == "") && (items != [] ==> from < next)
    ensures items != [] ==> Full(S, size, buf, items[|items| - 1], next)
  {
  }

  /** A number printed by itself; `next` was already looked up. */
  lemma AddNumber(S: set<int>, from: int, size: int, before: string, items: seq<Item>, curr: nat, next: int)
    requires Printing(S, from, size, before, items, curr) && Gap(items, curr)
    requires IsNext(S, curr + 1, next)
    requires |before| + |(if items == [] then "" else ",") + Dec(curr)| < size
    ensures Printing(S, from, size, before + ((if items == [] then "" else ",") + Dec(curr)),
                     items + [Item(curr, curr)], next)
    ensures curr in S && (next == BITLIST_INVALID || curr < next)
    ensures curr + 1 != next ==> Gap(items + [Item(curr, curr)], next)
  {
    hide Render, Dec;
    var to := if items == [] then from else items[|items| - 1].hi + 1;
    AddSingle(items, S, from, to, curr);
    AscendingSnoc(items, Item(curr, curr));
    RenderSnoc(items, Item(curr, curr));
    assert before + (if items == [] then "" else ",") + Dec(curr)
           == before + ((if items == [] then "" else ",") + Dec(curr));
  }

  lemma RunGoesOn(S: set<int>, first: nat, curr: nat, next: int)
    requires IsNext(S, curr + 1, next) && next == curr + 1
    requires forall x | first <= x <= curr :: x in S
    ensures forall x | first <= x <= next :: x in S
  {
  }

  lemma RunEnds(S: set<int>, first: nat, last: nat, next: int)
    requires first < last && (forall x | first <= x <= last :: x in S)
    requires next != last + 1 && IsNext(S, last + 1, next)
    ensures IsRun(S, first, last)
  {
  }

  /** A run whose end was printed too. */
  lemma AddRun(S: set<int>, from: int, size: int, before: string, items: seq<Item>,
               first: nat, last: nat, next: int)
    requires Printing(S, from, size, before, items, first) && Gap(items, first)
    requires first < last && last + 1 != next && IsNext(S, last + 1, next) && forall x | first <= x <= last :: x in S
    requires |before + ((if items == [] then "" else ",") + Dec(first))| + |"-" + Dec(last)| < size
    ensures Printing(S, from, size, before + ((if items == [] then "" else ",") + Dec(first)) + ("-" + Dec(last)),
                     items + [Item(first, last)], next)
    ensures Gap(items + [Item(first, last)], next) && (next == BITLIST_INVALID || last < next)
  {
    hide Render, Dec;
    var to := if items == [] then from else items[|items| - 1].hi + 1;
    var comma := if items == [] then "" else ",";
    AddRange(items, S, from, to, first, last);
    AscendingSnoc(items, Item(first, last));
    RenderSnoc(items, Item(first, last));
    Grouping(before, comma, Dec(first), "-", Dec(last));
  }

  lemma Grouping(a: string, b: string, c: string, d: string, e: string)
    ensures a + b + (c + d + e) == a + (b + c) + (d + e)
  {
  }

  /** A run whose end did not fit: the first number stays, and the rest is left for later. */
  lemma NoSpaceForRange(S: set<int>, from: int, size: int, before: string, items: seq<Item>,
                        first: nat, next: nat, end: nat)
    requires Printing(S, from, size, before, items, first) && Gap(items, first)
    requires next == first + 1 && IsRun(S, first, end)
    requires |before| + |(if items == [] then "" else ",") + Dec(first)| < size
    requires |before + ((if items == [] then "" else ",") + Dec(first))| + |"-" + Dec(end)| >= size
    ensures Printing(S, from, size, before + ((if items == [] then "" else ",") + Dec(first)),
                     items + [Item(first, first)], next)
    ensures Full(S, size, before + ((if items == [] then "" else ",") + Dec(first)), Item(first, first), next)
  {
    hide Dec;
    assert IsNext(S, first + 1, next);
    AddNumber(S, from, size, before, items, first, next);
  }

  lemma EndPage(S: set<int>, from: int, size: int, buf: string, items: seq<Item>, next: int)
    requires Printing(S, from, size, buf, items, next)
    requires next == BITLIST_INVALID || next >= 0
    requires next == BITLIST_INVALID || items != [] || |Dec(next)| >= size
    requires next != BITLIST_INVALID && items != [] ==> Full(S, size, buf, items[|items| - 1], next)
    ensures Page(S, from, size, buf, items, if |buf| != 0 then next else BITLIST_INVALID)
  {
    hide Render, Dec;
    if items != [] && next != BITLIST_INVALID {
      var to := items[|items| - 1].hi + 1;
      assert from < next && next in S;
      assert Covered(items, S, from, next);
    }
  }

  // ---------------------------------------------------------------- reading back

  /** bitlist_from_string: adds the entries up to the end of the text or its first error. */
  method FromString(bl: List, list: string) returns (ok: bool, outcome: Outcome)
    requires bl.Valid()
    modifies bl.bits
    ensures bl.Valid()
    ensures var p := Parse(list, bl.baseBit, bl.baseBit + bl.maxBits - 1);
            && outcome == p.outcome && (ok <==> p.outcome == Done)
            && forall x :: x in bl.Set() <==> x in old(bl.Set()) || InItems(p.items, x)
  {
    hide Parse, ParseOne, Members, InItems, SoFar;
    var min, max := bl.baseBit, bl.baseBit + bl.maxBits - 1;
    ghost var done: seq<Item> := [];
    var pos := 0;
    outcome := Done;
    NoItems();
    SoFarStart(list, min, max);
    while pos < |list|
      invariant pos <= |list| && bl.Valid() && outcome == Done
      invariant forall x :: x in bl.Set() <==> x in old(bl.Set()) || InItems(done, x)
      invariant SoFar(list, min, max, pos, done)
      decreases |list| - pos
    {
      SoFarStep(list, min, max, pos, done);
      UsedInRange(list[pos..], min, max);
      var one := ReadItem(list, pos, min, max);
      if one.Bad? {
        outcome := Failed(one.error, pos + one.used + 1);
        break;
      }
      SetRange(bl, one.item.lo, one.item.hi);
      forall x ensures InItems(done + [one.item], x) <==> InItems(done, x) || one.item.lo <= x <= one.item.hi {
        InItemsJoin(done, [one.item], x);
        InItemsOne(one.item, x);
      }
      done := done + [one.item];
      pos := pos + one.used;
      if pos < |list| {
        if list[pos] != ',' {
          outcome := Failed(ExpComma, pos + 1);
          break;
        }
        pos := pos + 1;
        if pos == |list| {
          outcome := Failed(UnexpectedEol, pos + 1);
          break;
        }
      }
    }
    if outcome == Done {
      SoFarEnd(list, min, max, done);
    }
    ok := outcome == Done;
  }

  lemma NoItems()
    ensures forall x :: !InItems([], x)
  {
  }

  lemma UsedInRange(s: string, min: int, max: int)
    ensures var r := ParseOne(s, min, max);
            r.used <= |s| && (r.Got? ==> 0 < r.used && min <= r.item.lo <= r.item.hi <= max)
  {
  }

  method SetRange(bl: List, begin: nat, number: nat)
    requires bl.Valid() && bl.baseBit <= begin <= number < bl.baseBit + bl.maxBits
    modifies bl.bits
    ensures bl.Valid()
    ensures forall x :: x in bl.Set() <==> x in old(bl.Set()) || begin <= x <= number
  {
    hide Members;
    var i := begin;
    while i <= number
      invariant begin <= i <= number + 1 && bl.Valid()
      invariant forall x :: x in bl.Set() <==> x in old(bl.Set()) || begin <= x < i
    {
      bl.SetBit(i);
      i := i + 1;
    }
  }
}
