/** bitlist.c: which texts bitlist_from_string accepts, and what they stand for. */
module BitlistGrammar {
  import opened Decimal
  import opened BitlistText

  /** A number within the bounds, leading zeros allowed. */
  ghost predicate IsNumber(e: string, min: int, max: int) {
    e != "" && AllDigits(e) && min <= Value(e) <= max
  }

  /** Two such numbers with a dash between them, the second one greater. */
  ghost predicate IsRangeAt(e: string, k: nat, min: int, max: int) {
    && k < |e| && e[k] == '-' && IsNumber(e[..k], min, max) && IsNumber(e[k + 1..], min, max)
    && Value(e[..k]) < Value(e[k + 1..])
  }

  /** An entry of the list, and the numbers it stands for. */
  ghost predicate Denotes(e: string, it: Item, min: int, max: int) {
    || (IsNumber(e, min, max) && it == Item(Value(e), Value(e)))
    || exists k: nat :: IsRangeAt(e, k, min, max) && it == Item(Value(e[..k]), Value(e[k + 1..]))
  }

  /** The entries with commas between them. */
  function Joined(es: seq<string>): string {
    if es == [] then "" else if |es| == 1 then es[0] else es[0] + "," + Joined(es[1..])
  }

  ghost predicate AllDenote(es: seq<string>, items: seq<Item>, min: int, max: int) {
    |es| == |items| && forall i | 0 <= i < |es| :: Denotes(es[i], items[i], min, max)
  }

  lemma EntryRead(e: string, it: Item, t: string, min: int, max: int)
    requires Denotes(e, it, min, max) && (t != "" ==> t[0] == ',')
    ensures e != "" && ParseOne(e + t, min, max) == Got(it, |e|)
  {
    hide ParseOne, Value;
    if IsNumber(e, min, max) && it == Item(Value(e), Value(e)) {
      ParseNumber(e, t, min, max);
    } else {
      var k: nat :| IsRangeAt(e, k, min, max) && it == Item(Value(e[..k]), Value(e[k + 1..]));
      ParseRange(e[..k], e[k + 1..], t, min, max);
      SplitAtDash(e, k, t);
    }
  }

  lemma SplitAtDash(e: string, k: nat, t: string)
    requires k < |e| && e[k] == '-'
    ensures e + t == e[..k] + ("-" + (e[k + 1..] + t))
  {
    assert e == e[..k] + ("-" + e[k + 1..]);
    assert "-" + e[k + 1..] + t == "-" + (e[k + 1..] + t);
  }

  /** Every list of entries is accepted, with what they stand for. */
  lemma {:induction false} ListAccepted(es: seq<string>, items: seq<Item>, min: int, max: int)
    requires AllDenote(es, items, min, max)
    ensures Parse(Joined(es), min, max) == Parsed(items, Done)
    decreases |es|
  {
    hide Denotes, ParseOne;
    if es == [] {
      assert items == [];
    } else if |es| == 1 {
      EntryRead(es[0], items[0], "", min, max);
      assert es[0] + "" == es[0];
      assert items == [items[0]];
    } else {
      ListAccepted(es[1..], items[1..], min, max);
      EntryRead(es[0], items[0], "," + Joined(es[1..]), min, max);
      JoinedNonempty(es[1..], items[1..], min, max);
      MoreAccepted(es[0], items[0], Joined(es[1..]), items[1..], min, max);
      assert items == [items[0]] + items[1..];
    }
  }

  lemma JoinedNonempty(es: seq<string>, items: seq<Item>, min: int, max: int)
    requires AllDenote(es, items, min, max) && es != []
    ensures Joined(es) != ""
  {
    EntryRead(es[0], items[0], "", min, max);
  }

  lemma MoreAccepted(e: string, it: Item, tail: string, items: seq<Item>, min: int, max: int)
    requires e != "" && tail != "" && ParseOne(e + ("," + tail), min, max) == Got(it, |e|)
    requires Parse(tail, min, max) == Parsed(items, Done)
    ensures Parse(e + "," + tail, min, max) == Parsed([it] + items, Done)
  {
    hide ParseOne;
    var s := e + "," + tail;
    assert s == e + ("," + tail);
    assert s[|e|] == ',' && s[|e| + 1..] == tail && |s| > |e| + 1;
  }

  /** What reading one entry accepts is an entry. */
  lemma EntryIs(s: string, min: int, max: int)
    ensures var one := ParseOne(s, min, max);
            one.Got? ==> one.used <= |s| && Denotes(s[..one.used], one.item, min, max)
  {
    hide Value;
    var one := ParseOne(s, min, max);
    if one.Got? {
      var k := DigitRun(s);
      var e := s[..one.used];
      if one.used > k {
        var t := s[k + 1..];
        var j := DigitRun(t);
        assert e[..k] == s[..k] && e[k + 1..] == t[..j];
        assert IsRangeAt(e, k, min, max);
      }
    }
  }

  /** Every accepted text is such a list. */
  lemma {:induction false} AcceptedIsList(s: string, min: int, max: int) returns (es: seq<string>)
    requires Parse(s, min, max).outcome == Done
    ensures s == Joined(es) && AllDenote(es, Parse(s, min, max).items, min, max)
    decreases |s|
  {
    hide ParseOne, Denotes;
    if s == "" {
      es := [];
    } else {
      EntryIs(s, min, max);
      var u := ParseOne(s, min, max).used;
      if u == |s| {
        es := [s];
        assert s[..u] == s;
      } else {
        var rest := AcceptedIsList(s[u + 1..], min, max);
        es := [s[..u]] + rest;
        assert rest != [];
        assert es[1..] == rest;
        assert s == s[..u] + "," + s[u + 1..];
      }
    }
  }

  /** A text is accepted if and only if it is a list of numbers within the bounds and increasing
      ranges of them, with single commas between; the empty list is. What is then added are the
      numbers and ranges it lists. */
  lemma AcceptsIff(s: string, min: int, max: int)
    ensures Parse(s, min, max).outcome == Done
            <==> exists es, items :: s == Joined(es) && AllDenote(es, items, min, max)
    ensures forall es, items | s == Joined(es) && AllDenote(es, items, min, max) ::
              Parse(s, min, max).items == items
  {
    hide Parse, Joined, AllDenote;
    if Parse(s, min, max).outcome == Done {
      var es := AcceptedIsList(s, min, max);
    }
    forall es, items | s == Joined(es) && AllDenote(es, items, min, max)
      ensures Parse(s, min, max) == Parsed(items, Done)
    {
      ListAccepted(es, items, min, max);
    }
  }
}
