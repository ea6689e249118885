/** MyDList.hpp: an intrusive doubly linked ring around a list header. */
module DList {

  /** DListNode; the object it is part of is identified with it. */
  class Node {
    var next: Node?
    var prev: Node?

    constructor ()
      ensures next == null
    {
      next, prev := null, null;
    }

    predicate IsOnList()
      reads this
    {
      next != null
    }
  }

  /** Consecutive nodes of s point at each other. */
  ghost predicate Linked(s: seq<Node>)
    reads s
  {
    && (forall k {:trigger s[k].next} | 0 <= k < |s| - 1 :: s[k].next == s[k + 1])
    && (forall k {:trigger s[k].prev} | 0 < k < |s| :: s[k].prev == s[k - 1])
  }

  ghost predicate Distinct(s: seq<Node>) {
    forall j, k | 0 <= j < k < |s| :: s[j] != s[k]
  }

  class List {
    const listHead: Node
    /** The members, front to back. */
    ghost var Items: seq<Node>

    /** Once around the ring, from the header to the header. */
    ghost function Ring(): seq<Node>
      reads this
    {
      [listHead] + Items + [listHead]
    }

    ghost predicate Valid()
      reads this, listHead, Items
    {
      Distinct([listHead] + Items) && Linked(Ring())
    }

    constructor ()
      ensures Valid() && Items == [] && fresh(listHead)
    {
      var h := new Node();
      listHead, Items := h, [];
      new;
      h.next := h;
      h.prev := h;
    }

    /** Links n in behind the i-th node of the ring (the header is number 0). */
    method InsertAfter(afterHere: Node, n: Node, ghost i: nat)
      requires Valid() && i <= |Items| && afterHere == Ring()[i]
      requires n != listHead && n !in Items
      modifies this`Items, listHead, Items, n
      ensures Valid() && Items == old(Items)[..i] + [n] + old(Items)[i..]
      ensures n.IsOnList()
    {
      hide Distinct, Linked;
      ghost var s, items := Ring(), Items;
      RingShape(listHead, Items);
      AllLinks(s);
      var next := afterHere.next;
      assert s[i].next == s[i + 1];
      n.next := next;
      n.prev := afterHere;
      afterHere.next := n;
      next.prev := n;
      Items := items[..i] + [n] + items[i..];
      InsertShape(listHead, items, n, i);
      InsertLinks(s, n, i, Ring());
    }

    method InsertBefore(beforeHere: Node, n: Node, ghost i: nat)
      requires Valid() && i <= |Items| && beforeHere == Ring()[i + 1]
      requires n != listHead && n !in Items
      modifies this`Items, listHead, Items, n
      ensures Valid() && Items == old(Items)[..i] + [n] + old(Items)[i..]
      ensures n.IsOnList()
    {
      hide Distinct, Linked;
      ghost var s, items := Ring(), Items;
      RingShape(listHead, Items);
      AllLinks(s);
      var prev := beforeHere.prev;
      assert s[i + 1].prev == s[i];
      n.next := beforeHere;
      n.prev := prev;
      prev.next := n;
      beforeHere.prev := n;
      Items := items[..i] + [n] + items[i..];
      InsertShape(listHead, items, n, i);
      InsertLinks(s, n, i, Ring());
    }

    method Remove(n: Node, ghost i: nat)
      requires Valid() && i < |Items| && n == Items[i]
      modifies this`Items, listHead, Items
      ensures Valid() && Items == old(Items)[..i] + old(Items)[i + 1..]
      ensures !n.IsOnList() && n !in Items && n != listHead
      ensures forall x | x in old(Items) && x != n :: x in Items
    {
      hide Distinct, Linked;
      ghost var s, items := Ring(), Items;
      RingShape(listHead, Items);
      AllLinks(s);
      RemoveShape(listHead, items, i);
      var next, prev := n.next, n.prev;
      assert n == s[i + 1] && next == s[i + 2] && prev == s[i];
      next.prev := prev;
      prev.next := next;
      n.next := null;
      Items := items[..i] + items[i + 1..];
      RemoveLinks(s, i, Ring());
    }

    method AddHead(n: Node)
      requires Valid() && n != listHead && n !in Items
      modifies this`Items, listHead, Items, n
      ensures Valid() && Items == [n] + old(Items)
    {
      InsertAfter(listHead, n, 0);
    }

    method AddTail(n: Node)
      requires Valid() && n != listHead && n !in Items
      modifies this`Items, listHead, Items, n
      ensures Valid() && Items == old(Items) + [n]
    {
      InsertBefore(listHead, n, |Items|);
    }

    /** The first member, or, from an empty list, the header: Null(). */
    method RemoveHead() returns (t: Node)
      requires Valid()
      modifies this`Items, listHead, Items
      ensures Valid()
      ensures if old(Items) == [] then t == listHead && Items == []
              else t == old(Items)[0] && Items == old(Items)[1..] && !t.IsOnList()
    {
      Neighbours(0);
      t := listHead.next;
      if t != listHead {
        Remove(t, 0);
      }
    }

    /** The nodes around position i of the ring. */
    lemma Neighbours(i: nat)
      requires Valid() && i <= |Items|
      ensures Ring()[i].next == Ring()[i + 1] && Ring()[i + 1].prev == Ring()[i]
      ensures Ring()[i] == if i == 0 then listHead else Items[i - 1]
      ensures Ring()[i + 1] == if i == |Items| then listHead else Items[i]
      ensures listHead !in Items && Distinct(Items)
    {
      RingShape(listHead, Items);
      var t := [listHead] + Items;
      assert forall k {:trigger Items[k]} | 0 <= k < |Items| :: Items[k] == t[k + 1];
      assert t[0] == listHead;
    }

    /** Leaves every former member off the list. */
    method RemoveAll()
      requires Valid()
      modifies this`Items, listHead, Items
      ensures Valid() && Items == []
      ensures forall x | x in old(Items) :: !x.IsOnList()
    {
      hide Distinct, Linked;
      Neighbours(0);
      var n := listHead.next;
      while n != listHead
        invariant Valid() && (forall x | x in Items :: x in old(Items)) && listHead !in Items
        invariant n == if Items == [] then listHead else Items[0]
        invariant forall x | x in old(Items) :: x in Items || !x.IsOnList()
        decreases |Items|
      {
        Neighbours(1);
        var next := n.next;
        assert forall k {:trigger Items[k]} | 0 <= k < |Items| :: Items[k] in old(Items);
        Remove(n, 0);
        Neighbours(0);
        n := next;
      }
    }

    method IsMember(t: Node) returns (r: bool)
      requires Valid()
      ensures r <==> t in Items
    {
      hide Distinct, Linked;
      Neighbours(0);
      var n := listHead.next;
      ghost var k := 0;
      while n != listHead
        invariant 0 <= k <= |Items| && n == if k == |Items| then listHead else Items[k]
        invariant forall j | 0 <= j < k :: Items[j] != t
        decreases |Items| - k
      {
        if n == t {
          return true;
        }
        Neighbours(k + 1);
        n := n.next;
        k := k + 1;
      }
      return false;
    }

    /** Exchanges two members, and moves no other. */
    method Swap(item1: Node, item2: Node, ghost i: nat, ghost j: nat)
      requires Valid() && i < |Items| && j < |Items| && item1 == Items[i] && item2 == Items[j]
      modifies this`Items, listHead, Items
      ensures Valid() && Items == old(Items)[i := item2][j := item1]
    {
      hide Distinct, Linked;
      ghost var s := Items;
      Neighbours(i);
      Neighbours(j);
      SameItem(s, i, j);
      if item1 == item2 {
        return;
      }
      var prev1, prev2 := item1.prev, item2.prev;
      if prev1 == item2 {
        SamePlace(listHead, s, i, j);
        Remove(item2, j);
        InsertAfter(item1, item2, j + 1);
        AdjacentSwapped(s, j);
        return;
      }
      if prev2 == item1 {
        SamePlace(listHead, s, j, i);
        Remove(item1, i);
        InsertAfter(item2, item1, i + 1);
        AdjacentSwapped(s, i);
        return;
      }
      SwapApart(item1, item2, prev1, prev2, i, j);
    }

    /** The last part of swap: something lies between the two, on both sides. */
    method SwapApart(item1: Node, item2: Node, prev1: Node, prev2: Node, ghost i: nat, ghost j: nat)
      requires Valid() && i < |Items| && j < |Items| && (i + 1 < j || j + 1 < i)
      requires item1 == Items[i] && item2 == Items[j] && prev1 == Ring()[i] && prev2 == Ring()[j]
      modifies this`Items, listHead, Items
      ensures Valid() && Items == old(Items)[i := item2][j := item1]
    {
      hide Distinct, Linked, WithoutBoth, WithSecond;
      ghost var s := Items;
      Neighbours(i);
      Neighbours(j);
      RemoveBoth(item1, item2, i, j);
      assert forall k {:trigger Items[k]} | 0 <= k < |Items| :: Items[k] in s;
      assert item1 in s && item2 in s;
      InsertBoth(item1, item2, prev1, prev2, i, j, s);
    }

    method RemoveBoth(item1: Node, item2: Node, ghost i: nat, ghost j: nat)
      requires Valid() && i < |Items| && j < |Items| && i != j && item1 == Items[i] && item2 == Items[j]
      modifies this`Items, listHead, Items
      ensures Valid() && Items == WithoutBoth(old(Items), i, j)
      ensures item1 != item2 && item1 != listHead && item2 != listHead && item1 !in Items && item2 !in Items
      ensures forall x | x in Items :: x in old(Items)
    {
      hide Distinct, Linked, WithoutBoth;
      ghost var s := Items;
      Neighbours(i);
      SameItem(s, i, j);
      CutBoth(s, i, j);
      Remove(item1, i);
      Remove(item2, if i < j then j - 1 else j);
    }

    method InsertBoth(item1: Node, item2: Node, prev1: Node, prev2: Node,
                      ghost i: nat, ghost j: nat, ghost s: seq<Node>)
      requires Valid() && i < |s| && j < |s| && (i + 1 < j || j + 1 < i) && item1 == s[i] && item2 == s[j]
      requires Items == WithoutBoth(s, i, j)
      requires item1 != item2 && item1 != listHead && item2 != listHead && item1 !in Items && item2 !in Items
      requires prev1 == (if i == 0 then listHead else s[i - 1]) && prev2 == if j == 0 then listHead else s[j - 1]
      modifies this`Items, listHead, Items, item1, item2
      ensures Valid() && Items == s[i := item2][j := item1]
    {
      hide Distinct, Linked, WithoutBoth, WithSecond;
      ghost var i' := if i < j then i else i - 1;
      ghost var u := Items;
      PutSecond(s, i, j);
      PutFirst(s, i, j);
      Neighbours(i');
      InsertAfter(prev1, item2, i');
      NotInserted(u, i', item2, item1);
      Neighbours(j);
      InsertAfter(prev2, item1, j);
    }
  }

  lemma NotInserted(u: seq<Node>, i: nat, n: Node, x: Node)
    requires i <= |u| && x != n && x !in u
    ensures x !in u[..i] + [n] + u[i..]
  {
  }

  lemma SameItem(s: seq<Node>, i: nat, j: nat)
    requires Distinct(s) && i < |s| && j < |s|
    ensures s[i] == s[j] <==> i == j
  {
  }

  /** The node before the i-th is the j-th: then the j-th is the one before. */
  lemma SamePlace(h: Node, s: seq<Node>, i: nat, j: nat)
    requires Distinct(s) && h !in s && i < |s| && j < |s|
    requires (if i == 0 then h else s[i - 1]) == s[j]
    ensures i == j + 1
  {
    assert s[j] in s;
  }

  lemma AdjacentSwapped(s: seq<Node>, i: nat)
    requires i + 1 < |s|
    ensures var t := s[..i] + s[i + 1..];
            t[..i + 1] + [s[i]] + t[i + 1..] == s[i := s[i + 1]][i + 1 := s[i]]
  {
  }

  function WithoutBoth(s: seq<Node>, i: nat, j: nat): (u: seq<Node>)
    requires i < |s| && j < |s| && i != j
    ensures |u| == |s| - 2
  {
    if i < j then s[..i] + s[i + 1..j] + s[j + 1..] else s[..j] + s[j + 1..i] + s[i + 1..]
  }

  /** The list once item2 has been put where item1 was. */
  function WithSecond(s: seq<Node>, i: nat, j: nat): seq<Node>
    requires i < |s| && j < |s| && i != j
  {
    if i < j then s[..i] + [s[j]] + s[i + 1..j] + s[j + 1..]
    else s[..j] + s[j + 1..i] + [s[j]] + s[i + 1..]
  }

  lemma CutBoth(s: seq<Node>, i: nat, j: nat)
    requires i < |s| && j < |s| && i != j
    ensures var j' := if i < j then j - 1 else j;
            var t := s[..i] + s[i + 1..];
            t[j'] == s[j] && t[..j'] + t[j' + 1..] == WithoutBoth(s, i, j)
  {
    if i < j {
      var t := s[..i] + s[i + 1..];
      assert t[..j - 1] == s[..i] + s[i + 1..j];
      assert t[j..] == s[j + 1..];
    } else {
      var t := s[..i] + s[i + 1..];
      assert t[..j] == s[..j];
      assert t[j + 1..] == s[j + 1..i] + s[i + 1..];
      assert s[..j] + (s[j + 1..i] + s[i + 1..]) == s[..j] + s[j + 1..i] + s[i + 1..];
    }
  }

  lemma PutSecond(s: seq<Node>, i: nat, j: nat)
    requires i < |s| && j < |s| && (i + 1 < j || j + 1 < i)
    ensures var i' := if i < j then i else i - 1;
            var u := WithoutBoth(s, i, j);
            && (i > 0 ==> i' > 0 && u[i' - 1] == s[i - 1])
            && u[..i'] + [s[j]] + u[i'..] == WithSecond(s, i, j)
  {
    var u := WithoutBoth(s, i, j);
    if i < j {
      assert u[..i] == s[..i];
      assert u[i..] == s[i + 1..j] + s[j + 1..];
      assert s[..i] + [s[j]] + (s[i + 1..j] + s[j + 1..]) == s[..i] + [s[j]] + s[i + 1..j] + s[j + 1..];
    } else {
      assert u[..i - 1] == s[..j] + s[j + 1..i];
      assert u[i - 1..] == s[i + 1..];
    }
  }

  lemma PutFirst(s: seq<Node>, i: nat, j: nat)
    requires i < |s| && j < |s| && (i + 1 < j || j + 1 < i)
    ensures var v := WithSecond(s, i, j);
            && |v| == |s| - 1 && (j > 0 ==> v[j - 1] == s[j - 1])
            && v[..j] + [s[i]] + v[j..] == s[i := s[j]][j := s[i]]
  {
    var v := WithSecond(s, i, j);
    var r := s[i := s[j]][j := s[i]];
    if i < j {
      assert v[..j] == r[..j];
      assert v[j..] == r[j + 1..];
    } else {
      assert v[..j] == r[..j];
      assert v[j..] == r[j + 1..];
    }
    SplitAt(r, j);
  }

  lemma SplitAt(r: seq<Node>, j: nat)
    requires j < |r|
    ensures r == r[..j] + [r[j]] + r[j + 1..]
  {
  }

  lemma AllLinks(s: seq<Node>)
    requires Linked(s)
    ensures forall k {:trigger s[k].next} | 0 <= k < |s| - 1 :: s[k].next == s[k + 1]
    ensures forall k {:trigger s[k].prev} | 0 < k < |s| :: s[k].prev == s[k - 1]
  {
  }

  /** s with n between its i-th node and the next, when only their pointers changed. */
  lemma InsertLinks(s: seq<Node>, n: Node, i: nat, r: seq<Node>)
    requires i < |s| - 1 && |r| == |s| + 1
    requires forall k {:trigger r[k]} | 0 <= k < |r| ::
               r[k] == if k <= i then s[k] else if k == i + 1 then n else s[k - 1]
    requires forall k {:trigger s[k].next} | 0 <= k < |s| - 1 && k != i :: s[k].next == s[k + 1]
    requires forall k {:trigger s[k].prev} | 0 < k < |s| && k != i + 1 :: s[k].prev == s[k - 1]
    requires s[i].next == n && n.next == s[i + 1] && s[i + 1].prev == n && n.prev == s[i]
    ensures Linked(r)
  {
    forall k | 0 <= k < |r| - 1 ensures r[k].next == r[k + 1] {
      if k > i + 1 { assert s[k - 1].next == s[k]; }
    }
    forall k | 0 < k < |r| ensures r[k].prev == r[k - 1] {
      if k > i + 2 { assert s[k - 1].prev == s[k - 2]; }
    }
  }

  /** s without its node i + 1, when only the pointers of its neighbours changed. */
  lemma RemoveLinks(s: seq<Node>, i: nat, r: seq<Node>)
    requires i < |s| - 2 && |r| == |s| - 1
    requires forall k {:trigger r[k]} | 0 <= k < |r| :: r[k] == if k <= i then s[k] else s[k + 1]
    requires forall k {:trigger s[k].next} | 0 <= k < |s| - 1 && k != i && k != i + 1 :: s[k].next == s[k + 1]
    requires forall k {:trigger s[k].prev} | 0 < k < |s| && k != i + 2 && k != i + 1 :: s[k].prev == s[k - 1]
    requires s[i].next == s[i + 2] && s[i + 2].prev == s[i]
    ensures Linked(r)
  {
    forall k | 0 <= k < |r| - 1 ensures r[k].next == r[k + 1] {
      if k > i { assert s[k + 1].next == s[k + 2]; }
    }
    forall k | 0 < k < |r| ensures r[k].prev == r[k - 1] {
      if k > i + 1 { assert s[k + 1].prev == s[k]; }
    }
  }

  /** Around the ring, only the header comes twice. */
  lemma RingShape(h: Node, items: seq<Node>)
    requires Distinct([h] + items)
    ensures var s := [h] + items + [h];
            && |s| == |items| + 2 && s[0] == h == s[|items| + 1]
            && (forall k {:trigger items[k]} | 0 <= k < |items| :: s[k + 1] == items[k])
            && (forall j, k | 0 <= j < k < |s| && (j > 0 || k < |s| - 1) :: s[j] != s[k])
  {
    var s, t := [h] + items + [h], [h] + items;
    assert forall k | 0 <= k < |t| :: s[k] == t[k];
    forall j, k | 0 <= j < k < |s| && (j > 0 || k < |s| - 1) ensures s[j] != s[k] {
      if k == |s| - 1 { assert s[k] == t[0] && s[j] == t[j]; }
    }
  }

  lemma InsertShape(h: Node, items: seq<Node>, n: Node, i: nat)
    requires Distinct([h] + items) && i <= |items| && n != h && n !in items
    ensures var items' := items[..i] + [n] + items[i..];
            var s, s' := [h] + items + [h], [h] + items' + [h];
            && Distinct([h] + items')
            && |s'| == |s| + 1
            && forall k {:trigger s'[k]} | 0 <= k < |s'| ::
                 s'[k] == if k <= i then s[k] else if k == i + 1 then n else s[k - 1]
  {
    var items' := items[..i] + [n] + items[i..];
    var t, t' := [h] + items, [h] + items';
    assert forall k {:trigger t'[k]} | 0 <= k < |t'| ::
             t'[k] == if k <= i then t[k] else if k == i + 1 then n else t[k - 1];
    assert forall k | 0 <= k < |t| :: t[k] != n;
    forall j, k | 0 <= j < k < |t'| ensures t'[j] != t'[k] {
      assert j != i + 1 ==> t'[j] == t[if j <= i then j else j - 1];
      assert k != i + 1 ==> t'[k] == t[if k <= i then k else k - 1];
    }
  }

  lemma RemoveShape(h: Node, items: seq<Node>, i: nat)
    requires Distinct([h] + items) && i < |items|
    ensures var items' := items[..i] + items[i + 1..];
            var s, s' := [h] + items + [h], [h] + items' + [h];
            && Distinct([h] + items') && items[i] !in items' && items[i] != h
            && (forall x | x in items && x != items[i] :: x in items')
            && |s'| == |s| - 1
            && forall k {:trigger s'[k]} | 0 <= k < |s'| :: s'[k] == if k <= i then s[k] else s[k + 1]
  {
    var items' := items[..i] + items[i + 1..];
    var t, t' := [h] + items, [h] + items';
    assert forall k {:trigger t'[k]} | 0 <= k < |t'| :: t'[k] == if k <= i then t[k] else t[k + 1];
    forall j, k | 0 <= j < k < |t'| ensures t'[j] != t'[k] {
      assert t'[j] == t[if j <= i then j else j + 1] && t'[k] == t[if k <= i then k else k + 1];
    }
    assert t[i + 1] == items[i] && t[0] == h;
    forall x | x in items && x != items[i] ensures x in items' {
      var k :| 0 <= k < |items| && items[k] == x;
      assert items'[if k < i then k else k - 1] == x;
    }
    forall x | x in items' ensures x != items[i] {
      var k :| 0 <= k < |items'| && items'[k] == x;
      assert x == t[if k < i then k + 1 else k + 2];
    }
  }
}
