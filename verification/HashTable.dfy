/** hash.c: the chained table, as a map from key bytes to a stack of values. */
module HashTable {
  import opened Words
  import opened Hash

  /** A `void *`; 0 is NULL. */
  type Data = nat

  const NULL: Data := 0

  /** The key that a pointer and a length stand for: length 0 asks for strlen. */
  function KeyOf(mem: seq<Byte>, keyLen: nat): (k: seq<Byte>)
    requires keyLen <= |mem| && (keyLen == 0 ==> 0 in mem)
    ensures k <= mem && if keyLen > 0 then |k| == keyLen else 0 !in k && |k| < |mem| && mem[|k|] == 0
  {
    if keyLen > 0 then mem[..keyLen] else mem[..Strlen(mem)]
  }

  function Strlen(mem: seq<Byte>): (n: nat)
    requires 0 in mem
    ensures n < |mem| && mem[n] == 0 && 0 !in mem[..n]
  {
    if mem[0] == 0 then 0
    else
      var n := Strlen(mem[1..]);
      assert mem[..n + 1] == [mem[0]] + mem[1..][..n];
      n + 1
  }

  /** internal_entry: key and data are set once, the link is relinked in place. */
  class Entry {
    var next: Entry?
    const key: seq<Byte>
    const data: Data

    constructor (k: seq<Byte>, d: Data)
      ensures key == k && data == d && next == null
    {
      key, data, next := k, d, null;
    }
  }

  /** The values a chain holds for a key, newest first. */
  ghost function Values(c: seq<Entry>, k: seq<Byte>): seq<Data> {
    if c == [] then [] else Own(c[0], k) + Values(c[1..], k)
  }

  function Own(e: Entry, k: seq<Byte>): seq<Data> {
    if e.key == k then [e.data] else []
  }

  lemma {:induction false} ValuesJoin(a: seq<Entry>, b: seq<Entry>, k: seq<Byte>)
    ensures Values(a + b, k) == Values(a, k) + Values(b, k)
    decreases |a|
  {
    if a == [] {
      assert a + b == b;
    } else {
      hide Own;
      assert (a + b)[1..] == a[1..] + b;
      ValuesJoin(a[1..], b, k);
    }
  }

  lemma {:induction false} NoValues(c: seq<Entry>, k: seq<Byte>)
    requires forall e | e in c :: e.key != k
    ensures Values(c, k) == []
    decreases |c|
  {
    if c != [] {
      assert c[0] in c;
      NoValues(c[1..], k);
    }
  }

  lemma ValuesAt(c: seq<Entry>, i: nat, k: seq<Byte>)
    requires i < |c|
    ensures Values(c, k) == Values(c[..i], k) + (Own(c[i], k) + Values(c[i + 1..], k))
    ensures Values(c[..i] + c[i + 1..], k) == Values(c[..i], k) + Values(c[i + 1..], k)
  {
    hide Own;
    var rest := c[i + 1..];
    assert c == c[..i] + c[i..];
    assert c[i..][1..] == rest;
    ValuesJoin(c[..i], c[i..], k);
    ValuesJoin(c[..i], rest, k);
  }

  /** A chain that starts with entries of other keys has its first match as its newest value. */
  lemma FirstMatch(c: seq<Entry>, i: nat, k: seq<Byte>)
    requires i < |c| && c[i].key == k && forall j | 0 <= j < i :: c[j].key != k
    ensures Values(c, k) == [c[i].data] + Values(c[..i] + c[i + 1..], k)
  {
    hide Values;
    ValuesAt(c, i, k);
    NoValues(c[..i], k);
  }

  lemma OtherKeys(c: seq<Entry>, i: nat, k: seq<Byte>)
    requires i < |c| && c[i].key != k
    ensures Values(c, k) == Values(c[..i] + c[i + 1..], k)
  {
    hide Values;
    ValuesAt(c, i, k);
  }

  function Link(c: seq<Entry>, i: nat): Entry? {
    if i < |c| then c[i] else null
  }

  /** The bucket a key belongs to. */
  function Bucket(k: seq<Byte>, size: nat): nat
    requires size > 0
  {
    Reduce(Sum(k)) % size
  }

  lemma BucketIs(k: seq<Byte>, size: nat)
    requires size > 0
    ensures Bucket(k, size) < size && Bucket(k, size) <= 255
  {
    hide Reduce, Sum;
    Twice(Reduce(Sum(k)), size);
  }

  /** The code finds it by hashing with the size as an int and masking with the size, if and only
      if the size is below 2^32; it is always one of the first 256. */
  lemma BucketComputedIff(k: seq<Byte>, size: nat)
    requires IsPow2(size)
    ensures ToInt(size) != 0 <==> size < TWO32
    ensures size < TWO32 ==> And(Rem(Reduce(Sum(k)), ToInt(size)), size - 1) == Bucket(k, size)
    ensures Bucket(k, size) < size && Bucket(k, size) <= 255
  {
    hide IsPow2, And, Reduce, Sum, Rem, ToInt;
    HashDefinedIff(Reduce(Sum(k)), size);
    BucketIs(k, size);
  }

  class Table {
    var htable: array?<Entry?>
    var size: nat
    /** The entries of each bucket, in list order. */
    ghost var chains: seq<seq<Entry>>
    ghost var nodes: set<Entry>

    /** The list from a head runs through exactly these entries, each once, all of one bucket. */
    ghost predicate Chain(head: Entry?, c: seq<Entry>, b: nat)
      requires size > 0
      reads this`size, this`nodes, nodes
    {
      && head == Link(c, 0)
      && forall i {:trigger c[i]} | 0 <= i < |c| ::
           && c[i] in nodes && Bucket(c[i].key, size) == b && c[i].next == Link(c, i + 1)
           && forall j {:trigger c[j]} | 0 <= j < i :: c[j] != c[i]
    }

    ghost predicate Ready()
      reads this, htable, nodes
    {
      && htable != null && htable.Length == size == |chains| && IsPow2(size) && size > 0
      && forall b {:trigger chains[b]} | 0 <= b < size :: Chain(htable[b], chains[b], b)
    }

    /** What the table holds for a key, newest first. */
    ghost function Stack(k: seq<Byte>): seq<Data>
      requires IsPow2(size) && |chains| == size
      reads this
    {
      StackIn(chains, k)
    }

    constructor ()
      ensures htable == null
    {
      htable, size, chains, nodes := null, 0, [], {};
    }

    lemma BucketAt(b: nat)
      requires Ready() && b < size
      ensures htable[b] == Link(chains[b], 0)
      ensures forall i {:trigger chains[b][i]} | 0 <= i < |chains[b]| ::
                chains[b][i].next == Link(chains[b], i + 1) && chains[b][i] in nodes
    {
      hide IsPow2, Bucket;
      assert Chain(htable[b], chains[b], b);
    }

    lemma EntryBucket(b: nat, i: nat)
      requires Ready() && b < size && i < |chains[b]|
      ensures Bucket(chains[b][i].key, size) == b
    {
      hide IsPow2, Bucket;
      assert Chain(htable[b], chains[b], b);
    }

    /** new_hash_table: refuses a table that already has buckets; `memory` says whether malloc
        succeeds, which it cannot for a size that overflowed. */
    method NewTable(nel: nat, memory: bool) returns (ok: bool)
      requires memory ==> IsPow2(SizeFor(nel))
      modifies this
      ensures ok == (old(htable) == null && memory)
      ensures ok ==> Ready() && size == SizeFor(nel) && fresh(htable) && nodes == {}
      ensures ok ==> forall k :: Stack(k) == []
      ensures !ok ==> htable == old(htable) && chains == old(chains) && nodes == old(nodes)
      ensures old(htable) != null ==> size == old(size)
    {
      hide IsPow2, SizeFor, Bucket;
      if htable != null { return false; }
      size := TableSize(nel);
      if !memory { return false; }
      htable := new Entry?[size];
      for idx := 0 to size
        invariant forall b | 0 <= b < idx :: htable[b] == null
        modifies htable
      {
        htable[idx] := null;
      }
      chains, nodes := seq(size, _ => []), {};
      forall k ensures Stack(k) == [] { BucketIs(k, size); }
      return true;
    }

    /** add_hash_entry */
    method Add(mem: seq<Byte>, keyLen: nat, data: Data, memory: bool) returns (ok: bool)
      requires Ready() && size < TWO32 && keyLen <= |mem| && (keyLen == 0 ==> 0 in mem)
      modifies this`chains, this`nodes, htable
      ensures ok == memory && Ready() && fresh(nodes - old(nodes))
      ensures !ok ==> chains == old(chains)
      ensures ok ==> var key := KeyOf(mem, keyLen);
                     && Stack(key) == [data] + old(Stack(key))
                     && forall k | k != key :: Stack(k) == old(Stack(k))
    {
      hide IsPow2, Bucket, Reduce, Sum, And, Rem, ToInt, Values, KeyOf, StackIn;
      var key := KeyOf(mem, keyLen);
      BucketComputedIff(key, size);
      var hashval := HashKey(key, |key|, ToInt(size));
      assert key[..|key|] == key;
      var b := And(hashval, size - 1);
      if !memory { return false; }
      var ie := new Entry(key, data);
      AddStacks(chains, ie);
      Insert(b, ie);
      return true;
    }

    /** hash_lookup: the newest live value of the key. */
    method Lookup(mem: seq<Byte>, keyLen: nat) returns (data: Data)
      requires Ready() && size < TWO32 && keyLen <= |mem| && (keyLen == 0 ==> 0 in mem)
      ensures var values := Stack(KeyOf(mem, keyLen));
              data == if values == [] then NULL else values[0]
    {
      hide IsPow2, Bucket, Reduce, Sum, And, Rem, ToInt, Values, KeyOf;
      var key := KeyOf(mem, keyLen);
      BucketComputedIff(key, size);
      var hashval := HashKey(key, |key|, ToInt(size));
      assert key[..|key|] == key;
      ghost var c, i := chains[Bucket(key, size)], 0;
      var ie := htable[And(hashval, size - 1)];
      while ie != null
        invariant i <= |c| && ie == Link(c, i)
        invariant forall j | 0 <= j < i :: c[j].key != key
        decreases |c| - i
      {
        if |key| == |ie.key| && ie.key == key { break; }
        ie, i := ie.next, i + 1;
      }
      FirstValue(c, i, key);
      data := if ie != null then ie.data else NULL;
    }

    /** delete_hash_entry: takes out the newest entry of the key, if there is one. */
    method Delete(mem: seq<Byte>, keyLen: nat)
      requires Ready() && size < TWO32 && keyLen <= |mem| && (keyLen == 0 ==> 0 in mem)
      modifies this`chains, htable, nodes
      ensures Ready()
      ensures var key := KeyOf(mem, keyLen);
              && Stack(key) == (if old(Stack(key)) == [] then [] else old(Stack(key))[1..])
              && forall k | k != key :: Stack(k) == old(Stack(k))
    {
      hide IsPow2, Bucket, Reduce, Sum, And, Rem, ToInt, Values, KeyOf, StackIn, Chain;
      var key := KeyOf(mem, keyLen);
      BucketComputedIff(key, size);
      var hashval := HashKey(key, |key|, ToInt(size));
      assert key[..|key|] == key;
      var b := And(hashval, size - 1);
      BucketAt(b);
      ghost var c, i := chains[b], 0;
      var ie, prev: Entry? := htable[b], null;
      while ie != null
        invariant i <= |c| && ie == Link(c, i) && prev == if i == 0 then null else c[i - 1]
        invariant forall j | 0 <= j < i :: c[j].key != key
        invariant Ready() && chains == old(chains) && htable == old(htable)
        decreases |c| - i
      {
        if |key| == |ie.key| && ie.key == key {
          EntryBucket(b, i);
          DeleteStacks(chains, b, i);
          if prev != null {
            TakeAfter(b, i, prev, ie);
          } else {
            TakeFirst(b);
            assert c[..0] + c[1..] == c[1..];
          }
          return;
        }
        prev, ie, i := ie, ie.next, i + 1;
      }
      NothingStacked(chains, key);
    }

    /** Relinks the list past its first entry. */
    method TakeFirst(b: nat)
      requires Ready() && b < size && |chains[b]| > 0
      modifies this`chains, htable
      ensures Ready() && chains == old(chains)[b := old(chains[b][1..])]
    {
      hide IsPow2, Bucket;
      htable[b] := htable[b].next;
      chains := chains[b := chains[b][1..]];
    }

    /** Relinks the list past a later entry, found behind prev. */
    method TakeAfter(b: nat, ghost i: nat, prev: Entry, ie: Entry)
      requires Ready() && b < size && 0 < i < |chains[b]|
      requires ie == chains[b][i] && prev == chains[b][i - 1]
      modifies this`chains, prev
      ensures Ready() && chains == old(chains)[b := old(chains[b][..i] + chains[b][i + 1..])]
    {
      hide IsPow2, Bucket, Chain;
      Relink(b, i, prev, ie);
      chains := chains[b := chains[b][..i] + chains[b][i + 1..]];
    }

    method Relink(b: nat, ghost i: nat, prev: Entry, ie: Entry)
      requires Ready() && b < size && 0 < i < |chains[b]|
      requires ie == chains[b][i] && prev == chains[b][i - 1]
      modifies prev
      ensures Chain(htable[b], chains[b][..i] + chains[b][i + 1..], b)
      ensures forall a {:trigger chains[a]} | 0 <= a < size && a != b :: Chain(htable[a], chains[a], a)
    {
      hide IsPow2, Bucket;
      WithoutOne(chains[b], i);
      prev.next := ie.next;
    }

    /** SLIST_INSERT_HEAD */
    method Insert(b: nat, ie: Entry)
      requires Ready() && b < size && Bucket(ie.key, size) == b && ie !in nodes
      modifies this`chains, this`nodes, htable, ie
      ensures Ready() && chains == old(chains)[b := [ie] + old(chains[b])] && nodes == old(nodes) + {ie}
    {
      hide IsPow2, Bucket;
      ie.next := htable[b];
      htable[b] := ie;
      chains := chains[b := [ie] + chains[b]];
      nodes := nodes + {ie};
    }
  }

  ghost function StackIn(chains: seq<seq<Entry>>, k: seq<Byte>): seq<Data>
    requires IsPow2(|chains|)
  {
    BucketIs(k, |chains|);
    Values(chains[Bucket(k, |chains|)], k)
  }

  /** The walk ends at the first entry of the key, or at the end of a chain without one. */
  lemma FirstValue(c: seq<Entry>, i: nat, k: seq<Byte>)
    requires i <= |c| && forall j | 0 <= j < i :: c[j].key != k
    requires i < |c| ==> c[i].key == k
    ensures if i < |c| then Values(c, k) != [] && Values(c, k)[0] == c[i].data else Values(c, k) == []
  {
    hide Values;
    if i < |c| { FirstMatch(c, i, k); } else { NoValues(c, k); }
  }

  lemma WithoutOne(c: seq<Entry>, i: nat)
    requires i < |c|
    ensures var after := c[..i] + c[i + 1..];
            && |after| == |c| - 1
            && forall j {:trigger after[j]} | 0 <= j < |after| :: after[j] == if j < i then c[j] else c[j + 1]
  {
  }

  lemma NothingStacked(chains: seq<seq<Entry>>, k: seq<Byte>)
    requires IsPow2(|chains|)
    requires Bucket(k, |chains|) < |chains|
    requires forall e | e in chains[Bucket(k, |chains|)] :: e.key != k
    ensures StackIn(chains, k) == []
  {
    hide IsPow2, Bucket;
    NoValues(chains[Bucket(k, |chains|)], k);
  }

  lemma DeleteStacks(chains: seq<seq<Entry>>, b: nat, i: nat)
    requires IsPow2(|chains|) && b < |chains| && i < |chains[b]|
    requires Bucket(chains[b][i].key, |chains|) == b
    requires forall j | 0 <= j < i :: chains[b][j].key != chains[b][i].key
    ensures var key := chains[b][i].key;
            var after := chains[b := chains[b][..i] + chains[b][i + 1..]];
            && StackIn(chains, key) == [chains[b][i].data] + StackIn(after, key)
            && forall k | k != key :: StackIn(after, k) == StackIn(chains, k)
  {
    hide IsPow2, Bucket, Values;
    var c, key := chains[b], chains[b][i].key;
    var after := chains[b := c[..i] + c[i + 1..]];
    FirstMatch(c, i, key);
    forall k | k != key ensures StackIn(after, k) == StackIn(chains, k) {
      BucketIs(k, |chains|);
      OtherKeys(c, i, k);
    }
  }

  lemma AddStacks(chains: seq<seq<Entry>>, e: Entry)
    requires IsPow2(|chains|)
    ensures Bucket(e.key, |chains|) < |chains|
    ensures var b := Bucket(e.key, |chains|);
            var after := chains[b := [e] + chains[b]];
            && StackIn(after, e.key) == [e.data] + StackIn(chains, e.key)
            && forall k | k != e.key :: StackIn(after, k) == StackIn(chains, k)
  {
    hide IsPow2, Bucket;
    BucketIs(e.key, |chains|);
    var b := Bucket(e.key, |chains|);
    var after := chains[b := [e] + chains[b]];
    assert ([e] + chains[b])[1..] == chains[b];
    forall k | k != e.key ensures StackIn(after, k) == StackIn(chains, k) {
      BucketIs(k, |chains|);
    }
  }
}
