/** sorted_array.c: searching, extending and comparing sorted arrays. */
module SortedArray {

  type Number = nat
  type Pair = (Number, Number)

  const MIN_BINARY_SEARCH := 4
  const INT_MAX := 0x7FFF_FFFF

  ghost predicate Sorted(s: seq<Number>) {
    forall i, j | 0 <= i < j < |s| :: s[i] <= s[j]
  }

  ghost predicate Increasing(s: seq<Number>) {
    forall i, j | 0 <= i < j < |s| :: s[i] < s[j]
  }

  /** The place of a number: everything before is smaller, nothing from there on is. */
  ghost predicate Place(s: seq<Number>, x: Number, p: int) {
    0 <= p <= |s| && (forall k | 0 <= k < p :: s[k] < x) && forall k | p <= k < |s| :: x <= s[k]
  }

  /** There is only one. */
  lemma PlaceUnique(s: seq<Number>, x: Number, p: int, q: int)
    requires Place(s, x, p) && Place(s, x, q)
    ensures p == q
  {
    assert p < |s| ==> (s[p] < x <==> p < q);
    assert q < |s| ==> (s[q] < x <==> q < p);
  }

  /** sorted_array_get_index: a binary search that goes over to a linear one on short ranges.
      The index is that of the first occurrence if there is one, else the insertion point. */
  method GetIndex(a: array<Number>, count: nat, number: Number) returns (found: bool, index: int)
    requires count <= a.Length && count <= 0x4000_0000 && Sorted(a[..count])
    ensures Place(a[..count], number, index)
    ensures found <==> number in a[..count]
    ensures found ==> index < count && a[index] == number
  {
    var i, j := 0, count - 1;
    while true
      invariant 0 <= i <= count && i - 1 <= j < count
      invariant forall k | 0 <= k < i :: a[k] < number
      invariant forall k | j < k < count :: number < a[k]
      decreases j - i + 1
    {
      if j - i < MIN_BINARY_SEARCH {
        while i <= j
          invariant 0 <= i <= j + 1
          invariant forall k | 0 <= k < i :: a[k] < number
        {
          if a[i] < number { i := i + 1; continue; }
          return a[i] == number, i;
        }
        return false, i;
      }
      assert i + j <= INT_MAX;
      var k := (i + j) / 2;
      if number > a[k] {
        i := k + 1;
      } else if number < a[k] {
        j := k - 1;
      } else {
        while k > 0 && a[k - 1] == number
          invariant 0 <= k <= j && a[k] == number
        {
          k := k - 1;
        }
        return true, k;
      }
    }
  }

  // ---------------------------------------------------------------- pairs of arrays

  predicate Less(p: Pair, q: Pair) {
    p.0 < q.0 || (p.0 == q.0 && p.1 < q.1)
  }

  /** Strictly lexicographically sorted. */
  ghost predicate LexSorted(ps: seq<Pair>) {
    forall i, j | 0 <= i < j < |ps| :: Less(ps[i], ps[j])
  }

  ghost predicate LexPlace(ps: seq<Pair>, x: Pair, p: int) {
    0 <= p <= |ps| && (forall k | 0 <= k < p :: Less(ps[k], x)) && forall k | p <= k < |ps| :: !Less(ps[k], x)
  }

  ghost function Pairs(a: seq<Number>, b: seq<Number>): (ps: seq<Pair>)
    requires |a| == |b|
    ensures |ps| == |a| && forall i | 0 <= i < |a| :: ps[i] == (a[i], b[i])
  {
    seq(|a|, i requires 0 <= i < |a| => (a[i], b[i]))
  }

  lemma FirstsSorted(a: seq<Number>, b: seq<Number>)
    requires |a| == |b| && LexSorted(Pairs(a, b))
    ensures Sorted(a)
  {
    var ps := Pairs(a, b);
    forall i, j | 0 <= i < j < |a| ensures a[i] <= a[j] {
      assert Less(ps[i], ps[j]);
    }
  }

  /** The last pair has the first number looked for, and a smaller second one. */
  predicate EndsBelow(a: seq<Number>, b: seq<Number>, x: Number, y: Number)
    requires |a| == |b|
  {
    a != [] && a[|a| - 1] == x && b[|b| - 1] < y
  }

  /** sorted_array_get_index_2. The loop reads array_1 at the index before it compares the index
      with count. `beyond` says whether it does so at count itself, which happens exactly when the
      last pair is below the one looked for and has its first number. Then a full array, of count
      elements, is read past its end. What is read there does not matter for the result. */
  method GetIndex2(a: array<Number>, b: array<Number>, count: nat, x: Number, y: Number)
    returns (found: bool, index: int, beyond: bool)
    requires count <= a.Length && count <= b.Length && count <= 0x4000_0000
    requires LexSorted(Pairs(a[..count], b[..count]))
    ensures LexPlace(Pairs(a[..count], b[..count]), (x, y), index)
    ensures found <==> (x, y) in Pairs(a[..count], b[..count])
    ensures found ==> index < count && a[index] == x && b[index] == y
    ensures beyond <==> EndsBelow(a[..count], b[..count], x, y)
  {
    ghost var ps := Pairs(a[..count], b[..count]);
    FirstsSorted(a[..count], b[..count]);
    beyond := false;
    found, index := GetIndex(a, count, x);
    if !found {
      return;
    }
    while true
      invariant 0 <= index <= count && !beyond
      invariant forall k | 0 <= k < index :: Less(ps[k], (x, y))
      invariant forall k | index <= k < count :: x <= a[k]
      invariant index == count ==> EndsBelow(a[..count], b[..count], x, y)
      decreases count - index
    {
      beyond := index == count;
      if beyond || a[index] != x { break; }
      if b[index] < y { index := index + 1; continue; }
      return b[index] == y, index, false;
    }
    return false, index, beyond;
  }

  /** In the full array of the one pair (1, 0), looking for (1, 1) reads past the end. */
  lemma ReadsPastTheEnd()
    ensures LexSorted(Pairs([1], [0])) && EndsBelow([1], [0], 1, 1)
  {
  }

  function Inserted<T>(s: seq<T>, i: int, x: T): seq<T>
    requires 0 <= i <= |s|
  {
    s[..i] + [x] + s[i..]
  }

  lemma InsertedPairs(a: seq<Number>, b: seq<Number>, i: int, x: Number, y: Number)
    requires |a| == |b| && 0 <= i <= |a|
    ensures Pairs(Inserted(a, i, x), Inserted(b, i, y)) == Inserted(Pairs(a, b), i, (x, y))
  {
  }

  lemma InsertedSorted(ps: seq<Pair>, i: int, x: Pair)
    requires LexSorted(ps) && LexPlace(ps, x, i) && x !in ps
    ensures LexSorted(Inserted(ps, i, x))
  {
    var r := Inserted(ps, i, x);
    forall m, n | 0 <= m < n < |r| ensures Less(r[m], r[n]) {
      if n > i { assert r[n] in ps && r[n] == ps[n - 1]; }
    }
  }

  ghost predicate Shifted(before: seq<Number>, after: seq<Number>, count: nat, index: nat, x: Number) {
    && index <= count < |before| == |after| && after[index] == x
    && (forall k {:trigger after[k]} | 0 <= k < index || count < k < |after| :: after[k] == before[k])
    && forall k {:trigger after[k]} | index < k <= count :: after[k] == before[k - 1]
  }

  lemma ShiftInserts(before: seq<Number>, after: seq<Number>, count: nat, index: nat, x: Number)
    requires Shifted(before, after, count, index, x)
    ensures after[..count + 1] == Inserted(before[..count], index, x)
    ensures after[count + 1..] == before[count + 1..]
  {
  }

  /** Moves the elements of both arrays from index on up by one and stores a pair in the gap. */
  method Shift(a: array<Number>, b: array<Number>, count: nat, index: nat, x: Number, y: Number)
    requires a != b && index <= count < a.Length && count < b.Length
    modifies a, b
    ensures Shifted(old(a[..]), a[..], count, index, x)
    ensures Shifted(old(b[..]), b[..], count, index, y)
  {
    var j := count;
    while j > index
      invariant index <= j <= count
      invariant forall k | 0 <= k < j || count < k < a.Length :: a[k] == old(a[k])
      invariant forall k | 0 <= k < j || count < k < b.Length :: b[k] == old(b[k])
      invariant forall k | j < k <= count :: a[k] == old(a[k - 1])
      invariant forall k | j < k <= count :: b[k] == old(b[k - 1])
    {
      a[j] := a[j - 1];
      b[j] := b[j - 1];
      j := j - 1;
    }
    a[index] := x;
    b[index] := y;
  }

  /** sorted_array_add_2, which leaves the room to its caller. */
  method Add2(a: array<Number>, b: array<Number>, count: nat, x: Number, y: Number) returns (total: nat)
    requires a != b && count < a.Length && count < b.Length && count <= 0x4000_0000
    requires LexSorted(Pairs(a[..count], b[..count]))
    modifies a, b
    ensures total <= a.Length && total <= b.Length
    ensures a[total..] == old(a[..])[total..] && b[total..] == old(b[..])[total..]
    ensures var before, after := old(Pairs(a[..count], b[..count])), Pairs(a[..total], b[..total]);
      && LexSorted(after)
      && ((x, y) in before ==> after == before)
      && ((x, y) !in before ==>
            exists i | 0 <= i <= count :: after == Inserted(before, i, (x, y)))
  {
    ghost var a0, b0 := a[..count], b[..count];
    ghost var wasA, wasB := a[..], b[..];
    var found, index, beyond := GetIndex2(a, b, count, x, y);
    if found { return count; }
    Shift(a, b, count, index, x, y);
    ShiftInserts(wasA, a[..], count, index, x);
    ShiftInserts(wasB, b[..], count, index, y);
    InsertedPairs(a0, b0, index, x, y);
    InsertedSorted(Pairs(a0, b0), index, (x, y));
    return count + 1;
  }

  // ---------------------------------------------------------------- comparing

  ghost predicate Subset(a: seq<Number>, b: seq<Number>) {
    forall x | x in a :: x in b
  }

  /** sorted_array_partial_compare */
  method PartialCompare(a: array<Number>, count1: nat, b: array<Number>, count2: nat) returns (r: bool)
    requires count1 <= a.Length && count2 <= b.Length
    ensures r == Compared(a[..count1], b[..count2])
  {
    if count1 > count2 { return false; }
    if count1 == count2 { return a[..count1] == b[..count2]; }
    for i := 0 to count1
      invariant forall k | 0 <= k < i :: a[k] in b[..count2]
    {
      var j := 0;
      while j < count2
        invariant 0 <= j <= count2 && a[i] !in b[..j]
      {
        if a[i] == b[j] { break; }
        j := j + 1;
      }
      if j >= count2 {
        assert a[i] in a[..count1];
        return false;
      }
      assert b[..count2][j] == a[i];
    }
    return true;
  }

  /** What it answers, whatever the arrays hold. */
  ghost predicate Compared(a: seq<Number>, b: seq<Number>) {
    if |a| > |b| then false
    else if |a| == |b| then a == b
    else Subset(a, b)
  }

  lemma Position(a: seq<Number>, b: seq<Number>, i: nat) returns (p: nat)
    requires Subset(a, b) && i < |a|
    ensures p < |b| && b[p] == a[i]
  {
    assert a[i] in b;
    p :| 0 <= p < |b| && b[p] == a[i];
  }

  /** An element of the smaller array stands at least as far on in the larger one. */
  lemma {:induction false} NotEarlier(a: seq<Number>, b: seq<Number>, i: nat, p: nat)
    requires Increasing(a) && Sorted(b) && Subset(a, b)
    requires i < |a| && p < |b| && a[i] == b[p]
    ensures i <= p
    decreases i
  {
    if i > 0 {
      var q := Position(a, b, i - 1);
      NotEarlier(a, b, i - 1, q);
    }
  }

  /** ... and no further from the end. */
  lemma {:induction false} NotLater(a: seq<Number>, b: seq<Number>, i: nat, p: nat)
    requires Increasing(a) && Sorted(b) && Subset(a, b)
    requires i < |a| && p < |b| && a[i] == b[p]
    ensures |a| - i <= |b| - p
    decreases |a| - i
  {
    if i + 1 < |a| {
      var q := Position(a, b, i + 1);
      NotLater(a, b, i + 1, q);
    }
  }

  lemma SubsetFits(a: seq<Number>, b: seq<Number>)
    requires Increasing(a) && Sorted(b) && Subset(a, b)
    ensures |a| <= |b| && (|a| == |b| ==> a == b)
  {
    if a != [] {
      var last := Position(a, b, |a| - 1);
      NotEarlier(a, b, |a| - 1, last);
    }
    if |a| == |b| {
      forall i: nat | i < |a| ensures a[i] == b[i] {
        var p := Position(a, b, i);
        NotEarlier(a, b, i, p);
        NotLater(a, b, i, p);
      }
    }
  }

  /** With a repeated number in the first array there is a second for which the shortcut misleads:
      the first without the repetition. */
  lemma RepeatMisleads(a: seq<Number>, i: nat, j: nat) returns (b: seq<Number>)
    requires Sorted(a) && i < j < |a| && a[i] == a[j]
    ensures Sorted(b) && Subset(a, b) && !Compared(a, b)
  {
    b := a[..i] + a[i + 1..];
    assert b[j - 1] == a[j];
    forall x | x in a ensures x in b {
      var k :| 0 <= k < |a| && a[k] == x;
      if k < i { assert b[k] == x; } else if k > i { assert b[k - 1] == x; }
    }
  }

  /** On sorted arrays the comparison, with its shortcuts on the lengths, decides whether the
      first is a subset of the second, for every second, exactly when the first is strictly
      increasing. */
  lemma DecidesSubset(a: seq<Number>)
    requires Sorted(a)
    ensures Increasing(a) <==> forall b | Sorted(b) :: Compared(a, b) <==> Subset(a, b)
  {
    hide Compared, Subset;
    if Increasing(a) {
      forall b | Sorted(b) ensures Compared(a, b) <==> Subset(a, b) {
        Decides(a, b);
      }
    } else {
      var i, j :| 0 <= i < j < |a| && a[i] >= a[j];
      assert a[i] <= a[j];
      var b := RepeatMisleads(a, i, j);
    }
  }

  lemma Decides(a: seq<Number>, b: seq<Number>)
    requires Increasing(a) && Sorted(b)
    ensures Compared(a, b) <==> Subset(a, b)
  {
    if Subset(a, b) { SubsetFits(a, b); }
  }
}
