/** bitlist.c: the text form "1-3,5,7" of a set of numbers, and its parser as a function. */
module BitlistText {
  import opened Decimal

  /** One entry of the text: a number, or a range lo-hi with lo < hi. */
  datatype Item = Item(lo: nat, hi: nat)

  ghost predicate InItems(items: seq<Item>, x: int) {
    exists i :: 0 <= i < |items| && items[i].lo <= x <= items[i].hi
  }

  lemma InItemsJoin(xs: seq<Item>, ys: seq<Item>, x: int)
    ensures InItems(xs + ys, x) <==> InItems(xs, x) || InItems(ys, x)
  {
    var all := xs + ys;
    if i :| 0 <= i < |xs| && xs[i].lo <= x <= xs[i].hi { assert all[i] == xs[i]; }
    if i :| 0 <= i < |ys| && ys[i].lo <= x <= ys[i].hi { assert all[|xs| + i] == ys[i]; }
  }

  lemma InItemsOne(it: Item, x: int)
    ensures InItems([it], x) <==> it.lo <= x <= it.hi
  {
    assert [it][0] == it;
  }

  function RenderItem(it: Item): string {
    if it.lo == it.hi then Dec(it.lo) else Dec(it.lo) + "-" + Dec(it.hi)
  }

  function Render(items: seq<Item>): string {
    if items == [] then ""
    else
      var n := |items| - 1;
      Render(items[..n]) + (if n == 0 then "" else ",") + RenderItem(items[n])
  }

  lemma RenderSnoc(items: seq<Item>, it: Item)
    ensures Render(items + [it]) == Render(items) + (if items == [] then "" else ",") + RenderItem(it)
  {
    assert (items + [it])[..|items|] == items;
  }

  lemma {:induction false} RenderCons(it: Item, items: seq<Item>)
    ensures Render([it] + items) == RenderItem(it) + if items == [] then "" else "," + Render(items)
  {
    hide Render, RenderItem;
    if items == [] {
      RenderOne(it);
      assert [it] + items == [it];
    } else {
      var n := |items| - 1;
      var front, last := items[..n], items[n];
      RenderCons(it, front);
      assert [it] + items == ([it] + front) + [last];
      assert items == front + [last];
      RenderSnoc([it] + front, last);
      RenderSnoc(front, last);
      if n > 0 {
        Regroup(RenderItem(it), ",", Render(front), ",", RenderItem(last));
      } else {
        RenderNothing(RenderItem(it), RenderItem(last));
      }
    }
  }

  lemma RenderOne(it: Item)
    ensures Render([it]) == RenderItem(it) + ""
  {
    hide RenderItem;
    assert [it][..0] == [];
    assert "" + "" + RenderItem(it) == RenderItem(it) + "";
  }

  lemma RenderNothing(a: string, b: string)
    ensures (a + "") + "," + b == a + ("," + (Render([]) + "" + b))
  {
    assert "" + "" + b == b;
  }

  lemma Regroup(a: string, b: string, c: string, d: string, e: string)
    ensures (a + (b + c)) + d + e == a + (b + (c + d + e))
  {
  }

  // ---------------------------------------------------------------- the parser

  datatype Error = NonNumeric | OutOfBounds | InvRange | ExpComma | UnexpectedEol

  /** How a parse ended; charno is the number the error message gives. */
  datatype Outcome = Done | Failed(error: Error, charno: nat)

  /** One entry read, or what is wrong with it; used is the number of characters passed. */
  datatype One = Got(item: Item, used: nat) | Bad(error: Error, used: nat)

  /** The rest of a range: lower was read, with the dash behind it. */
  function ParseUpper(lower: nat, t: string, used: nat, min: int, max: int): (r: One)
    requires min <= lower <= max
    ensures r.Got? ==> used < r.used && min <= r.item.lo <= r.item.hi <= max
    ensures r.used <= used + |t|
  {
    var j := DigitRun(t);
    if t == "" then Bad(UnexpectedEol, used)
    else if j == 0 then Bad(NonNumeric, used)
    else
      var upper := Value(t[..j]);
      if upper < min || upper > max then Bad(OutOfBounds, used + j)
      else if lower >= upper then Bad(InvRange, used + j)
      else Got(Item(lower, upper), used + j)
  }

  function ParseOne(s: string, min: int, max: int): (r: One)
    ensures r.Got? ==> 0 < r.used <= |s| && min <= r.item.lo <= r.item.hi <= max
    ensures r.used <= |s|
  {
    var k := DigitRun(s);
    if k == 0 then Bad(NonNumeric, 0)
    else
      var n := Value(s[..k]);
      if n < min || n > max then Bad(OutOfBounds, k)
      else if k < |s| && s[k] == '-' then ParseUpper(n, s[k + 1..], k + 1, min, max)
      else Got(Item(n, n), k)
  }

  /** What a text means: the entries added before its end or its first error. */
  datatype Parsed = Parsed(items: seq<Item>, outcome: Outcome)

  function Later(o: Outcome, n: nat): Outcome {
    if o.Failed? then o.(charno := o.charno + n) else o
  }

  function Parse(s: string, min: int, max: int): Parsed
    decreases |s|
  {
    if s == "" then Parsed([], Done)
    else
      match ParseOne(s, min, max)
      case Bad(e, u) => Parsed([], Failed(e, u + 1))
      case Got(it, u) =>
        if u == |s| then Parsed([it], Done)
        else if s[u] != ',' then Parsed([it], Failed(ExpComma, u + 1))
        else if u + 1 == |s| then Parsed([it], Failed(UnexpectedEol, u + 2))
        else
          var tail := Parse(s[u + 1..], min, max);
          Parsed([it] + tail.items, Later(tail.outcome, u + 1))
  }

  lemma ParseOneRender(it: Item, t: string, min: int, max: int)
    requires min <= it.lo <= it.hi <= max && (t != "" ==> t[0] == ',')
    ensures ParseOne(RenderItem(it) + t, min, max) == Got(it, |RenderItem(it)|)
  {
    hide Value, Dec, ParseOne;
    DecDigits(it.lo);
    DecDigits(it.hi);
    if it.lo == it.hi {
      ParseNumber(Dec(it.lo), t, min, max);
    } else {
      assert RenderItem(it) + t == Dec(it.lo) + ("-" + (Dec(it.hi) + t));
      ParseRange(Dec(it.lo), Dec(it.hi), t, min, max);
    }
  }

  lemma ParseNumber(a: string, t: string, min: int, max: int)
    requires a != "" && AllDigits(a) && min <= Value(a) <= max && (t != "" ==> t[0] == ',')
    ensures ParseOne(a + t, min, max) == Got(Item(Value(a), Value(a)), |a|)
  {
    hide Value, DigitRun;
    DigitRunIs(a, t);
    assert (a + t)[..|a|] == a;
  }

  lemma ParseRange(a: string, b: string, t: string, min: int, max: int)
    requires a != "" && AllDigits(a) && b != "" && AllDigits(b) && (t != "" ==> t[0] == ',')
    requires min <= Value(a) < Value(b) <= max
    ensures ParseOne(a + ("-" + (b + t)), min, max) == Got(Item(Value(a), Value(b)), |a| + 1 + |b|)
  {
    hide Value, DigitRun, ParseUpper, ParseOne;
    DashIs(a, b + t, min, max);
    UpperIs(Value(a), b, t, |a| + 1, min, max);
  }

  lemma DashIs(a: string, tail: string, min: int, max: int)
    requires a != "" && AllDigits(a) && min <= Value(a) <= max
    ensures ParseOne(a + ("-" + tail), min, max) == ParseUpper(Value(a), tail, |a| + 1, min, max)
  {
    hide Value, DigitRun, ParseUpper;
    DigitRunIs(a, "-" + tail);
    Cut(a, "-" + tail);
    Dash(a, tail);
  }

  lemma Dash(a: string, tail: string)
    ensures var s := a + ("-" + tail); |s| > |a| && s[|a|] == '-' && s[|a| + 1..] == tail
  {
  }

  lemma Cut(a: string, t: string)
    ensures (a + t)[..|a|] == a
  {
  }

  lemma UpperIs(lower: nat, b: string, t: string, used: nat, min: int, max: int)
    requires b != "" && AllDigits(b) && min <= lower < Value(b) <= max && (t != "" ==> t[0] == ',')
    ensures ParseUpper(lower, b + t, used, min, max) == Got(Item(lower, Value(b)), used + |b|)
  {
    hide Value, DigitRun;
    DigitRunIs(b, t);
    Cut(b, t);
  }

  lemma ParseRenderCons(it: Item, rest: seq<Item>, min: int, max: int)
    requires min <= it.lo <= it.hi <= max
    requires Parse(Render(rest), min, max) == Parsed(rest, Done)
    ensures Parse(Render([it] + rest), min, max) == Parsed([it] + rest, Done)
  {
    hide Render, RenderItem, ParseOne, Parse;
    RenderCons(it, rest);
    NonEmpty(it, rest);
    var t := if rest == [] then "" else "," + Render(rest);
    var s, u := RenderItem(it) + t, |RenderItem(it)|;
    ParseOneRender(it, t, min, max);
    ParseMore(s, min, max);
    if rest != [] {
      assert s[u] == ',' && s[u + 1..] == Render(rest);
    }
  }

  /** Parsing undoes rendering, for any list of entries within bounds. */
  lemma {:induction false} ParseRender(items: seq<Item>, min: int, max: int)
    requires forall i | 0 <= i < |items| :: min <= items[i].lo <= items[i].hi <= max
    ensures Parse(Render(items), min, max) == Parsed(items, Done)
  {
    hide Parse, Render;
    if items == [] {
      ParseMore("", min, max);
      RenderEmpty();
    } else {
      ParseRender(items[1..], min, max);
      ParseRenderCons(items[0], items[1..], min, max);
      assert items == [items[0]] + items[1..];
    }
  }

  lemma RenderEmpty()
    ensures Render([]) == ""
  {
  }

  /** One entry and what may follow it. */
  lemma ParseMore(s: string, min: int, max: int)
    ensures s == "" ==> Parse(s, min, max) == Parsed([], Done)
    ensures s != "" ==>
              var one := ParseOne(s, min, max);
              var u := one.used;
              Parse(s, min, max) ==
              if one.Bad? then Parsed([], Failed(one.error, u + 1))
              else if u == |s| then Parsed([one.item], Done)
              else if s[u] != ',' then Parsed([one.item], Failed(ExpComma, u + 1))
              else if u + 1 == |s| then Parsed([one.item], Failed(UnexpectedEol, u + 2))
              else
                var tail := Parse(s[u + 1..], min, max);
                Parsed([one.item] + tail.items, Later(tail.outcome, u + 1))
  {
    hide ParseOne;
  }

  /** Where a parse stands after pos characters: the entries so far, and the rest. */
  ghost predicate SoFar(list: string, min: int, max: int, pos: nat, done: seq<Item>)
    requires pos <= |list|
  {
    var tail := Parse(list[pos..], min, max);
    Parse(list, min, max) == Parsed(done + tail.items, Later(tail.outcome, pos))
  }

  lemma SoFarStart(list: string, min: int, max: int)
    ensures SoFar(list, min, max, 0, [])
  {
    assert list[0..] == list;
    assert [] + Parse(list, min, max).items == Parse(list, min, max).items;
  }

  lemma SoFarEnd(list: string, min: int, max: int, done: seq<Item>)
    requires SoFar(list, min, max, |list|, done)
    ensures Parse(list, min, max) == Parsed(done, Done)
  {
    hide Parse;
    ParseMore("", min, max);
    assert list[|list|..] == "" && done + [] == done;
  }

  /** One turn of the parsing loop. */
  lemma SoFarStep(list: string, min: int, max: int, pos: nat, done: seq<Item>)
    requires pos < |list| && SoFar(list, min, max, pos, done)
    ensures var one := ParseOne(list[pos..], min, max);
            var p := pos + one.used;
            var whole := Parse(list, min, max);
            p <= |list| &&
            if one.Bad? then whole == Parsed(done, Failed(one.error, p + 1))
            else if p == |list| then SoFar(list, min, max, p, done + [one.item])
            else if list[p] != ',' then whole == Parsed(done + [one.item], Failed(ExpComma, p + 1))
            else if p + 1 == |list| then whole == Parsed(done + [one.item], Failed(UnexpectedEol, p + 2))
            else SoFar(list, min, max, p + 1, done + [one.item])
  {
    hide Parse, ParseOne;
    var rest := list[pos..];
    ParseMore(rest, min, max);
    ParseMore("", min, max);
    var one := ParseOne(rest, min, max);
    var u := one.used;
    assert done + [] == done;
    if one.Got? {
      var done' := done + [one.item];
      assert done' + [] == done';
      if u < |rest| {
        assert rest[u] == list[pos + u] && rest[u + 1..] == list[pos + u + 1..];
        var tail := Parse(rest[u + 1..], min, max);
        assert done + ([one.item] + tail.items) == done' + tail.items;
      } else {
        assert list[pos + u..] == "";
      }
    }
  }

  lemma NonEmpty(it: Item, rest: seq<Item>)
    ensures RenderItem(it) != "" && (rest != [] ==> Render(rest) != "")
  {
  }

  /** The first half of the parsing loop: the entry that starts at pos. */
  method ReadItem(list: string, pos: nat, min: int, max: int) returns (one: One)
    requires pos < |list|
    ensures one == ParseOne(list[pos..], min, max)
  {
    hide Value, DigitRun;
    ghost var s := list[pos..];
    FirstDigit(s);
    if !IsDigit(list[pos]) {
      return Bad(NonNumeric, 0);
    }
    var number, end := ReadNumber(list, pos);
    if number < min || number > max {
      return Bad(OutOfBounds, end - pos);
    }
    if end < |list| && list[end] == '-' {
      var begin := number;
      ghost var t := list[end + 1..];
      assert t == s[end - pos + 1..];
      if end + 1 == |list| {
        return Bad(UnexpectedEol, end - pos + 1);
      }
      FirstDigit(t);
      if !IsDigit(list[end + 1]) {
        return Bad(NonNumeric, end - pos + 1);
      }
      number, end := ReadNumber(list, end + 1);
      if number < min || number > max {
        return Bad(OutOfBounds, end - pos);
      } else if begin >= number {
        return Bad(InvRange, end - pos);
      }
      return Got(Item(begin, number), end - pos);
    }
    return Got(Item(number, number), end - pos);
  }

  lemma FirstDigit(s: string)
    requires s != ""
    ensures DigitRun(s) > 0 <==> IsDigit(s[0])
  {
  }
}
