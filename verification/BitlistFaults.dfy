/** bitlist.c: which error bitlist_from_string reports for a text it does not accept, and at which
    character. */
module BitlistFaults {
  import opened Decimal
  import opened BitlistGrammar
  import opened BitlistText

  // ---------------------------------------------------------------- one entry

  /** The digits from one position to another make up a number, no digit follows. */
  ghost predicate NumberAt(t: string, from: nat, to: nat) {
    from < to <= |t| && AllDigits(t[from..to]) && (to < |t| ==> !IsDigit(t[to]))
  }

  ghost predicate Within(t: string, from: nat, to: nat, min: int, max: int) {
    NumberAt(t, from, to) && min <= Value(t[from..to]) <= max
  }

  ghost predicate Outside(t: string, from: nat, to: nat, min: int, max: int) {
    NumberAt(t, from, to) && !(min <= Value(t[from..to]) <= max)
  }

  /** A number within the bounds and the dash that makes it the start of a range. */
  ghost predicate RangeBegins(t: string, k: nat, min: int, max: int) {
    Within(t, 0, k, min, max) && k < |t| && t[k] == '-'
  }

  /** What is wrong with the entry at the start of t, after u characters of it. */
  ghost predicate Fault(t: string, e: Error, u: nat, min: int, max: int) {
    match e
    case NonNumeric =>
      u < |t| && !IsDigit(t[u]) && (u == 0 || RangeBegins(t, u - 1, min, max))
    case OutOfBounds =>
      || Outside(t, 0, u, min, max)
      || exists k: nat :: RangeBegins(t, k, min, max) && Outside(t, k + 1, u, min, max)
    case InvRange =>
      exists k: nat :: RangeBegins(t, k, min, max) && Within(t, k + 1, u, min, max)
                       && Value(t[..k]) >= Value(t[k + 1..u])
    case UnexpectedEol => u > 0 && u == |t| && RangeBegins(t, u - 1, min, max)
    case ExpComma => false
  }

  /** The entry at the start of t is sound and ends after u characters. */
  ghost predicate Sound(t: string, it: Item, u: nat, min: int, max: int) {
    || (Within(t, 0, u, min, max) && !(u < |t| && t[u] == '-') && it == Item(Value(t[..u]), Value(t[..u])))
    || exists k: nat :: RangeBegins(t, k, min, max) && Within(t, k + 1, u, min, max)
                        && Value(t[..k]) < Value(t[k + 1..u]) && it == Item(Value(t[..k]), Value(t[k + 1..u]))
  }

  lemma RunIs(t: string, k: nat)
    ensures NumberAt(t, 0, k) <==> k > 0 && k == DigitRun(t)
    ensures k <= |t| ==> t[0..k] == t[..k]
  {
    var n := DigitRun(t);
    if k <= |t| { assert t[0..k] == t[..k]; }
    if NumberAt(t, 0, k) {
      RunsAgree(t, k, n);
      RunsAgree(t, n, k);
    }
  }

  lemma RunsAgree(t: string, k: nat, n: nat)
    requires k <= |t| && n <= |t| && AllDigits(t[..n]) && (k < |t| ==> !IsDigit(t[k]))
    ensures n <= k
  {
    assert forall i | 0 <= i < n :: t[i] == t[..n][i];
  }

  lemma RunBehind(t: string, k: nat, u: nat)
    requires k < |t|
    ensures NumberAt(t, k + 1, u) <==> u > k + 1 && u == k + 1 + DigitRun(t[k + 1..])
    ensures k + 1 <= u <= |t| ==> t[k + 1..u] == t[k + 1..][..u - k - 1]
  {
    var s := t[k + 1..];
    if k + 1 <= u {
      RunIs(s, u - k - 1);
      assert u <= |t| ==> t[k + 1..u] == s[..u - k - 1] == s[0..u - k - 1];
    }
  }

  // reading the entry, with each fault
  lemma BeginsRange(t: string, k: nat, min: int, max: int)
    requires RangeBegins(t, k, min, max)
    ensures AllDigits(t[..k]) && min <= Value(t[..k]) <= max
    ensures ParseOne(t, min, max) == ParseUpper(Value(t[..k]), t[k + 1..], k + 1, min, max)
  {
    hide ParseUpper;
    RunIs(t, k);
  }

  lemma FirstOutside(t: string, u: nat, min: int, max: int)
    requires Outside(t, 0, u, min, max)
    ensures ParseOne(t, min, max) == Bad(OutOfBounds, u)
  {
    RunIs(t, u);
  }

  lemma SecondOutside(t: string, k: nat, u: nat, min: int, max: int)
    requires RangeBegins(t, k, min, max) && Outside(t, k + 1, u, min, max)
    ensures ParseOne(t, min, max) == Bad(OutOfBounds, u)
  {
    hide ParseOne, RangeBegins;
    RunBehind(t, k, u);
    BeginsRange(t, k, min, max);
  }

  lemma SecondWithin(t: string, k: nat, u: nat, min: int, max: int)
    requires RangeBegins(t, k, min, max) && Within(t, k + 1, u, min, max)
    ensures AllDigits(t[..k]) && AllDigits(t[k + 1..u])
    ensures var (lo, hi) := (Value(t[..k]), Value(t[k + 1..u]));
            ParseOne(t, min, max) == if lo >= hi then Bad(InvRange, u) else Got(Item(lo, hi), u)
  {
    hide ParseOne, RangeBegins;
    RunBehind(t, k, u);
    BeginsRange(t, k, min, max);
  }

  lemma NoSecond(t: string, u: nat, min: int, max: int)
    requires u > 0 && RangeBegins(t, u - 1, min, max) && (u < |t| ==> !IsDigit(t[u]))
    ensures ParseOne(t, min, max) == Bad(if u == |t| then UnexpectedEol else NonNumeric, u)
  {
    hide ParseOne, RangeBegins;
    BeginsRange(t, u - 1, min, max);
    assert u < |t| ==> t[u..][0] == t[u];
  }

  lemma SingleSound(t: string, u: nat, min: int, max: int)
    requires Within(t, 0, u, min, max) && !(u < |t| && t[u] == '-')
    ensures AllDigits(t[..u]) && ParseOne(t, min, max) == Got(Item(Value(t[..u]), Value(t[..u])), u)
  {
    RunIs(t, u);
  }

  /** Reading one entry fails with its fault ... */
  lemma FaultRead(t: string, e: Error, u: nat, min: int, max: int)
    requires t != "" && Fault(t, e, u, min, max)
    ensures ParseOne(t, min, max) == Bad(e, u)
  {
    hide ParseOne, Outside;
    match e
    case NonNumeric =>
      if u == 0 { NoDigit(t, min, max); } else { NoSecond(t, u, min, max); }
    case OutOfBounds =>
      if Outside(t, 0, u, min, max) {
        FirstOutside(t, u, min, max);
      } else {
        var k: nat :| RangeBegins(t, k, min, max) && Outside(t, k + 1, u, min, max);
        SecondOutside(t, k, u, min, max);
      }
    case InvRange =>
      var k: nat :| RangeBegins(t, k, min, max) && Within(t, k + 1, u, min, max)
                    && Value(t[..k]) >= Value(t[k + 1..u]);
      SecondWithin(t, k, u, min, max);
    case UnexpectedEol => NoSecond(t, u, min, max);
    case ExpComma =>
  }

  lemma NoDigit(t: string, min: int, max: int)
    requires t != "" && !IsDigit(t[0])
    ensures ParseOne(t, min, max) == Bad(NonNumeric, 0)
  {
  }

  /** ... or yields the sound entry. */
  lemma SoundRead(t: string, it: Item, u: nat, min: int, max: int)
    requires Sound(t, it, u, min, max)
    ensures ParseOne(t, min, max) == Got(it, u)
  {
    hide ParseOne;
    if Within(t, 0, u, min, max) && !(u < |t| && t[u] == '-') && it == Item(Value(t[..u]), Value(t[..u])) {
      SingleSound(t, u, min, max);
    } else {
      var k: nat :| RangeBegins(t, k, min, max) && Within(t, k + 1, u, min, max)
                    && Value(t[..k]) < Value(t[k + 1..u]) && it == Item(Value(t[..k]), Value(t[k + 1..u]));
      SecondWithin(t, k, u, min, max);
    }
  }

  /** Whatever reading one entry says is so. */
  lemma ReadIs(t: string, min: int, max: int)
    requires t != ""
    ensures var one := ParseOne(t, min, max);
            if one.Bad? then Fault(t, one.error, one.used, min, max) else Sound(t, one.item, one.used, min, max)
  {
    var k := DigitRun(t);
    RunIs(t, k);
    if k > 0 && k < |t| && t[k] == '-' && min <= Value(t[..k]) <= max {
      assert RangeBegins(t, k, min, max);
      RangeReadIs(t, k, min, max);
    }
  }

  lemma RangeReadIs(t: string, k: nat, min: int, max: int)
    requires RangeBegins(t, k, min, max)
    ensures var one := ParseOne(t, min, max);
            if one.Bad? then Fault(t, one.error, one.used, min, max) else Sound(t, one.item, one.used, min, max)
  {
    hide RangeBegins, ParseOne;
    BeginsRange(t, k, min, max);
    var rest := t[k + 1..];
    var u := k + 1 + DigitRun(rest);
    RunBehind(t, k, u);
    assert rest != "" ==> rest[0] == t[k + 1];
  }

  // ---------------------------------------------------------------- the list

  /** Entries, each with the comma behind it. */
  function Lead(es: seq<string>): string {
    if es == [] then "" else es[0] + "," + Lead(es[1..])
  }

  /** The text t, from an entry on, fails at its character number n, counted from 1, the entries
      in extra being added before: the first entry has a fault, or it is sound and something
      other than a comma follows, or a comma and nothing else. */
  ghost predicate FailsHere(t: string, extra: seq<Item>, e: Error, n: nat, min: int, max: int) {
    && t != "" && n > 0
    && ((extra == [] && Fault(t, e, n - 1, min, max))
        || (|extra| == 1 && n <= |t| && Sound(t, extra[0], n - 1, min, max) && t[n - 1] != ',' && e == ExpComma)
        || (|extra| == 1 && n == |t| + 1 && Sound(t, extra[0], |t| - 1, min, max) && t[|t| - 1] == ','
            && e == UnexpectedEol))
  }

  lemma HereFails(t: string, extra: seq<Item>, e: Error, n: nat, min: int, max: int)
    requires FailsHere(t, extra, e, n, min, max)
    ensures Parse(t, min, max) == Parsed(extra, Failed(e, n))
  {
    hide ParseOne, Parse, Fault, Sound;
    ParseMore(t, min, max);
    if extra == [] {
      FaultRead(t, e, n - 1, min, max);
    } else {
      assert extra == [extra[0]];
      SoundRead(t, extra[0], if e == ExpComma then n - 1 else |t| - 1, min, max);
    }
  }

  /** The errors found behind entries that are in order are those of the rest of the text. */
  lemma {:induction false} FailsBehind(
    es: seq<string>, items: seq<Item>, t: string, extra: seq<Item>, e: Error, n: nat, min: int, max: int)
    requires AllDenote(es, items, min, max) && t != ""
    requires Parse(t, min, max) == Parsed(extra, Failed(e, n))
    ensures Parse(Lead(es) + t, min, max) == Parsed(items + extra, Failed(e, |Lead(es)| + n))
    decreases |es|
  {
    hide Parse, ParseOne, Denotes;
    if es == [] {
      assert Lead(es) + t == t && items + extra == extra;
    } else {
      var tail := Lead(es[1..]) + t;
      FailsBehind(es[1..], items[1..], t, extra, e, n, min, max);
      EntryRead(es[0], items[0], "," + tail, min, max);
      var s := es[0] + ("," + tail);
      assert Lead(es) + t == s;
      assert s[|es[0]|] == ',' && s[|es[0]| + 1..] == tail;
      ParseMore(s, min, max);
      assert [items[0]] + (items[1..] + extra) == items + extra;
    }
  }

  lemma {:induction false} FailureSplits(s: string, min: int, max: int)
    returns (es: seq<string>, items: seq<Item>, t: string, extra: seq<Item>)
    requires Parse(s, min, max).outcome.Failed?
    ensures var o := Parse(s, min, max).outcome;
            && AllDenote(es, items, min, max) && s == Lead(es) + t
            && o.charno >= |Lead(es)| && FailsHere(t, extra, o.error, o.charno - |Lead(es)|, min, max)
    decreases |s|
  {
    hide Parse, ParseOne, Denotes, Fault, Sound;
    ParseMore(s, min, max);
    ReadIs(s, min, max);
    EntryIs(s, min, max);
    var one := ParseOne(s, min, max);
    var u := one.used;
    es, items, t, extra := [], [], s, if one.Bad? then [] else [one.item];
    if one.Got? && u + 1 < |s| && s[u] == ',' {
      es, items, t, extra := FailureSplits(s[u + 1..], min, max);
      var front := es;
      es, items := [s[..u]] + es, [one.item] + items;
      assert es[1..] == front;
      assert s == s[..u] + "," + s[u + 1..];
      assert Lead(es) + t == s[..u] + "," + (Lead(front) + t);
    } else {
      assert Lead(es) + t == t;
    }
  }

  /** A text fails with an error at a character if and only if it is entries in order, each with
      a comma behind it, and then a text that fails so at its first entry. What has been added
      by then are those entries, and the sound one that something else follows. */
  lemma FailsIff(s: string, min: int, max: int, added: seq<Item>, e: Error, charno: nat)
    ensures Parse(s, min, max) == Parsed(added, Failed(e, charno))
            <==> exists es, items, t, extra, n: nat ::
                   && AllDenote(es, items, min, max) && s == Lead(es) + t && added == items + extra
                   && charno == |Lead(es)| + n && FailsHere(t, extra, e, n, min, max)
  {
    hide Parse, Lead, AllDenote, FailsHere;
    if Parse(s, min, max) == Parsed(added, Failed(e, charno)) {
      var es, items, t, extra := FailureSplits(s, min, max);
      var n := charno - |Lead(es)|;
      FailureIs(es, items, t, extra, e, n, min, max);
      assert added == items + extra;
    }
    forall es, items, t, extra, n: nat |
      && AllDenote(es, items, min, max) && s == Lead(es) + t && added == items + extra
      && charno == |Lead(es)| + n && FailsHere(t, extra, e, n, min, max)
      ensures Parse(s, min, max) == Parsed(added, Failed(e, charno))
    {
      FailureIs(es, items, t, extra, e, n, min, max);
    }
  }

  lemma FailureIs(
    es: seq<string>, items: seq<Item>, t: string, extra: seq<Item>, e: Error, n: nat, min: int, max: int)
    requires AllDenote(es, items, min, max) && FailsHere(t, extra, e, n, min, max)
    ensures Parse(Lead(es) + t, min, max) == Parsed(items + extra, Failed(e, |Lead(es)| + n))
  {
    hide Parse, Lead, AllDenote, Fault, Sound;
    HereFails(t, extra, e, n, min, max);
    FailsBehind(es, items, t, extra, e, n, min, max);
  }
}
