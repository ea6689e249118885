/** circ_buffer.c: a ring of max + 1 slots that serves as a bounded queue. */
module CircBuffer {

  /** A `void *` kept in a ulong; 0 is NULL. */
  type Data = nat

  /** The flag is set. */
  predicate Has(flags: bv16, bit: bv16) {
    flags & bit != 0
  }

  const NULL: Data := 0
  const OVERWRITE: bv16 := 0x0001
  const USER: bv16 := 0x000F
  const MALLOC: bv16 := 0x0010
  const VALID: bv16 := 0x8000

  // ---------------------------------------------------------------- the queue it stands for

  /** A queue of at most limit items: full, it gives up its oldest item or refuses the new one. */
  function Push(q: seq<Data>, x: Data, limit: nat, overwrite: bool): seq<Data> {
    if |q| < limit then q + [x]
    else if overwrite && q != [] then q[1..] + [x]
    else q
  }

  datatype Op = Put(item: Data) | Take

  function Step(q: seq<Data>, op: Op, limit: nat, overwrite: bool): seq<Data> {
    match op
    case Put(x) => Push(q, x, limit, overwrite)
    case Take => if q == [] then q else q[1..]
  }

  function Run(ops: seq<Op>, limit: nat, overwrite: bool): seq<Data> {
    if ops == [] then []
    else Step(Run(ops[..|ops| - 1], limit, overwrite), ops[|ops| - 1], limit, overwrite)
  }

  /** Everything ever offered, in order. */
  function Offered(ops: seq<Op>): seq<Data> {
    if ops == [] then []
    else
      var op := ops[|ops| - 1];
      Offered(ops[..|ops| - 1]) + if op.Put? then [op.item] else []
  }

  /** The last n elements. */
  function Newest(s: seq<Data>, n: nat): seq<Data> {
    if n < |s| then s[|s| - n..] else s
  }

  function Oldest(s: seq<Data>, n: nat): seq<Data> {
    if n < |s| then s[..n] else s
  }

  /** Overwriting, the queue always holds the newest of the items ever offered: whatever it gave
      out or dropped is older than all that it holds. */
  lemma {:induction false} KeepsNewest(ops: seq<Op>, limit: nat)
    requires limit > 0
    ensures var q := Run(ops, limit, true);
            |q| <= limit && |q| <= |Offered(ops)| && q == Newest(Offered(ops), |q|)
  {
    if ops != [] {
      var init := ops[..|ops| - 1];
      KeepsNewest(init, limit);
      NewestStep(Run(init, limit, true), Offered(init), ops[|ops| - 1], limit);
    }
  }

  lemma NewestStep(q: seq<Data>, all: seq<Data>, op: Op, limit: nat)
    requires 0 < limit && |q| <= limit && |q| <= |all| && q == Newest(all, |q|)
    ensures var q', all' := Step(q, op, limit, true), all + if op.Put? then [op.item] else [];
            |q'| <= limit && |q'| <= |all'| && q' == Newest(all', |q'|)
  {
    assert q == all[|all| - |q|..];
    if op.Take? {
      assert all + [] == all;
    }
  }

  function Puts(xs: seq<Data>): (ops: seq<Op>)
    ensures |ops| == |xs|
  {
    seq(|xs|, i requires 0 <= i < |xs| => Put(xs[i]))
  }

  lemma {:induction false} OfferedPuts(xs: seq<Data>)
    ensures Offered(Puts(xs)) == xs
  {
    if xs != [] {
      var n := |xs| - 1;
      assert Puts(xs)[..n] == Puts(xs[..n]);
      OfferedPuts(xs[..n]);
    }
  }

  /** Filled without a take, it holds the newest limit items when it overwrites, and the oldest
      limit items when it does not. */
  lemma {:induction false} Filled(xs: seq<Data>, limit: nat, overwrite: bool)
    requires limit > 0
    ensures Run(Puts(xs), limit, overwrite)
         == if overwrite then Newest(xs, limit) else Oldest(xs, limit)
  {
    if xs != [] {
      hide Push, Newest, Oldest;
      var n := |xs| - 1;
      Filled(xs[..n], limit, overwrite);
      assert Puts(xs)[..n] == Puts(xs[..n]);
      PushOne(xs[..n], xs[n], limit);
      assert xs == xs[..n] + [xs[n]];
    }
  }

  lemma PushOne(xs: seq<Data>, x: Data, limit: nat)
    requires limit > 0
    ensures Push(Newest(xs, limit), x, limit, true) == Newest(xs + [x], limit)
    ensures Push(Oldest(xs, limit), x, limit, false) == Oldest(xs + [x], limit)
  {
  }

  // ---------------------------------------------------------------- what becomes of an item

  datatype Fate = Dequeued | Cleaned | Lost
  datatype Gone = Gone(item: Data, fate: Fate)

  function Items(gs: seq<Gone>): (xs: seq<Data>)
    ensures |xs| == |gs|
  {
    seq(|gs|, i requires 0 <= i < |gs| => gs[i].item)
  }

  function With(gs: seq<Gone>, f: Fate): seq<Data> {
    if gs == [] then []
    else With(gs[..|gs| - 1], f) + if gs[|gs| - 1].fate == f then [gs[|gs| - 1].item] else []
  }

  /** The items, all with one fate. */
  function All(xs: seq<Data>, f: Fate): (gs: seq<Gone>)
    ensures |gs| == |xs| && forall i | 0 <= i < |xs| :: gs[i] == Gone(xs[i], f)
  {
    seq(|xs|, i requires 0 <= i < |xs| => Gone(xs[i], f))
  }

  lemma {:induction false} WithAll(gs: seq<Gone>, xs: seq<Data>, f: Fate, g: Fate)
    ensures With(gs + All(xs, f), g) == With(gs, g) + if f == g then xs else []
    decreases |xs|
  {
    hide All;
    var all := gs + All(xs, f);
    if xs == [] {
      assert all == gs;
    } else {
      var n := |xs| - 1;
      WithAll(gs, xs[..n], f, g);
      assert all[..|all| - 1] == gs + All(xs[..n], f);
      assert xs == xs[..n] + [xs[n]];
    }
  }

  lemma ItemsAll(gs: seq<Gone>, xs: seq<Data>, f: Fate)
    ensures Items(gs + All(xs, f)) == Items(gs) + xs
  {
    hide All;
  }

  lemma Leave(gs: seq<Gone>, x: Data, f: Fate)
    ensures Items(gs + [Gone(x, f)]) == Items(gs) + [x]
    ensures forall g :: With(gs + [Gone(x, f)], g) == With(gs, g) + if f == g then [x] else []
  {
    hide Items, With;
    assert All([x], f) == [Gone(x, f)];
    WithAll(gs, [x], f, Cleaned);
    WithAll(gs, [x], f, Dequeued);
    WithAll(gs, [x], f, Lost);
    ItemsAll(gs, [x], f);
    forall g ensures With(gs + [Gone(x, f)], g) == With(gs, g) + if f == g then [x] else [] {
      match g case Cleaned => case Dequeued => case Lost =>
    }
  }

  /** Every item accepted so far is exactly one of dequeued, cleaned up, lost or stored (the
      queue q), in order; cleanup_func was called once for each item cleaned up; with such a
      function nothing is lost, without it nothing is cleaned up. */
  ghost predicate Account(accepted: seq<Data>, gone: seq<Gone>, cleaned: seq<Data>, cleanup: bool, q: seq<Data>) {
    && accepted == Items(gone) + q
    && cleaned == With(gone, Cleaned)
    && (cleanup ==> With(gone, Lost) == [])
    && (!cleanup ==> With(gone, Cleaned) == [])
  }

  lemma Arrives(accepted: seq<Data>, gone: seq<Gone>, cleaned: seq<Data>, cleanup: bool, q: seq<Data>, x: Data)
    requires Account(accepted, gone, cleaned, cleanup, q)
    ensures Account(accepted + [x], gone, cleaned, cleanup, q + [x])
  {
  }

  /** What the queue loses without a dequeue. */
  function Dropped(cleanup: bool): Fate {
    if cleanup then Cleaned else Lost
  }

  /** The oldest stored item leaves. */
  lemma Departs(accepted: seq<Data>, gone: seq<Gone>, cleaned: seq<Data>, cleanup: bool, q: seq<Data>, f: Fate)
    requires Account(accepted, gone, cleaned, cleanup, q) && q != []
    requires f == Dequeued || f == Dropped(cleanup)
    ensures Account(accepted, gone + [Gone(q[0], f)],
                    if f == Cleaned then cleaned + [q[0]] else cleaned, cleanup, q[1..])
  {
    hide Items, With;
    Leave(gone, q[0], f);
    assert q == [q[0]] + q[1..];
  }

  /** All stored items leave without a dequeue. */
  lemma DepartAll(accepted: seq<Data>, gone: seq<Gone>, cleaned: seq<Data>, cleanup: bool, q: seq<Data>)
    requires Account(accepted, gone, cleaned, cleanup, q)
    ensures Account(accepted, gone + All(q, Dropped(cleanup)),
                    if cleanup && q != [] then cleaned + q else cleaned, cleanup, [])
  {
    hide Items, With, All;
    assert cleaned + [] == cleaned;
    WithAll(gone, q, Dropped(cleanup), Cleaned);
    WithAll(gone, q, Dropped(cleanup), Lost);
    ItemsAll(gone, q, Dropped(cleanup));
  }

  function Count(s: seq<Data>, x: Data): nat {
    if s == [] then 0 else Count(s[..|s| - 1], x) + if s[|s| - 1] == x then 1 else 0
  }

  lemma {:induction false} CountJoin(a: seq<Data>, b: seq<Data>, x: Data)
    ensures Count(a + b, x) == Count(a, x) + Count(b, x)
    decreases |b|
  {
    if b == [] {
      assert a + b == a;
    } else {
      assert (a + b)[..|a + b| - 1] == a + b[..|b| - 1];
      CountJoin(a, b[..|b| - 1], x);
    }
  }

  lemma {:induction false} EachHasOneFate(gs: seq<Gone>, x: Data)
    ensures Count(Items(gs), x)
         == Count(With(gs, Dequeued), x) + Count(With(gs, Cleaned), x) + Count(With(gs, Lost), x)
  {
    if gs != [] {
      var n := |gs| - 1;
      EachHasOneFate(gs[..n], x);
      WithLast(gs, Dequeued, x);
      WithLast(gs, Cleaned, x);
      WithLast(gs, Lost, x);
      assert Items(gs)[..n] == Items(gs[..n]);
    }
  }

  lemma WithLast(gs: seq<Gone>, f: Fate, x: Data)
    requires gs != []
    ensures Count(With(gs, f), x)
         == Count(With(gs[..|gs| - 1], f), x) + if gs[|gs| - 1] == Gone(x, f) then 1 else 0
  {
    var g, before := gs[|gs| - 1], With(gs[..|gs| - 1], f);
    if g.fate == f {
      assert (before + [g.item])[..|before|] == before;
    } else {
      assert before + [] == before;
    }
  }

  /** With a cleanup function every item accepted is exactly one of dequeued, cleaned up (once)
      and stored, counted as often as it was accepted. */
  lemma Conservation(accepted: seq<Data>, gone: seq<Gone>, cleaned: seq<Data>, q: seq<Data>, x: Data)
    requires Account(accepted, gone, cleaned, true, q)
    ensures Count(accepted, x) == Count(With(gone, Dequeued), x) + Count(cleaned, x) + Count(q, x)
  {
    hide Items, With;
    EachHasOneFate(gone, x);
    CountJoin(Items(gone), q, x);
  }

  lemma PushCases(q: seq<Data>, x: Data, limit: nat, overwrite: bool)
    requires |q| <= limit && limit > 0
    ensures Push(q, x, limit, overwrite) ==
            if |q| < limit then q + [x] else if overwrite then (q + [x])[1..] else q
  {
    if |q| == limit { assert (q + [x])[1..] == q[1..] + [x]; }
  }

  // ---------------------------------------------------------------- the ring

  /** The slot k steps into a ring, for k below twice its size. */
  function Slot(k: nat, max: nat): nat {
    if k < max then k else k - max
  }

  /** The count items of a ring from its base on, oldest first. */
  function Ring(slots: seq<Data>, base: nat, count: nat): (q: seq<Data>)
    requires base < |slots| && count <= |slots|
    ensures |q| == count
    ensures forall i {:trigger q[i]} | 0 <= i < count :: q[i] == slots[Slot(base + i, |slots|)]
  {
    seq(count, i requires 0 <= i < count => slots[Slot(base + i, |slots|)])
  }

  lemma RingPush(slots: seq<Data>, base: nat, count: nat, x: Data)
    requires base < |slots| && count < |slots|
    ensures Ring(slots[Slot(base + count, |slots|) := x], base, count + 1) == Ring(slots, base, count) + [x]
  {
  }

  lemma RingPop(slots: seq<Data>, base: nat, count: nat)
    requires base < |slots| && 0 < count <= |slots|
    ensures Ring(slots, base, count)[0] == slots[base]
    ensures Ring(slots, base, count)[1..] == Ring(slots, Slot(base + 1, |slots|), count - 1)
  {
  }

  /** Two positions at most one turn short of each other are the same slot only if equal: so the
      write and read positions meet exactly when the ring is empty. */
  lemma Meet(base: nat, i: nat, count: nat, max: nat)
    requires base < max && i <= count < max
    ensures Slot(base + count, max) == Slot(base + i, max) <==> i == count
  {
  }

  class Header {
    var buffer: array?<Data>
    var curr: nat
    var base: nat
    var flags: bv16
    var count: nat
    var max: nat
    const cleanupFunc: bool
    /** The calls of cleanup_func, in order. */
    var cleaned: seq<Data>
    ghost var accepted: seq<Data>
    ghost var gone: seq<Gone>

    ghost predicate Live()
      reads this
    {
      Has(flags, VALID)
    }

    ghost predicate Overwrites()
      reads this
    {
      Has(flags, OVERWRITE)
    }

    ghost predicate Shape()
      reads this
    {
      && buffer != null && buffer.Length == max >= 2
      && base < max && count < max && curr == Slot(base + count, max)
    }

    /** The items from the oldest to the newest. */
    ghost function Contents(): (q: seq<Data>)
      requires Live() ==> Shape()
      reads this, buffer
      ensures Live() ==> |q| == count
    {
      if Live() then Ring(buffer[..], base, count) else []
    }

    ghost predicate Ledger()
      requires Live() ==> Shape()
      reads this, buffer
    {
      Account(accepted, gone, cleaned, cleanupFunc, Contents())
    }

    ghost predicate Valid()
      reads this, buffer
    {
      (Live() ==> Shape()) && Ledger()
    }

    /** cbuf_create for max > 0. A header from malloc starts with whatever flags it contains. */
    constructor (limit: nat, asked: bv16, clfunc: bool, provided: bool, garbage: bv16)
      requires 0 < limit < 0x1_0000
      ensures Valid() && Live() && fresh(buffer) && max == limit + 1 && Contents() == []
      ensures cleanupFunc == clfunc && cleaned == [] && accepted == [] && gone == []
      ensures Overwrites() <==> asked & OVERWRITE != 0 || (!provided && garbage & OVERWRITE != 0)
    {
      var fl: bv16 := if provided then 0 else garbage | MALLOC;
      FlagsOf(fl, asked);
      FlagsOf(garbage, asked);
      flags := fl | (asked & USER) | VALID;
      max, count, curr, base := limit + 1, 0, 0, 0;
      buffer := new Data[limit + 1];
      cleanupFunc, cleaned, accepted, gone := clfunc, [], [], [];
    }

    /** The ring just after a write that filled its last slot. */
    ghost predicate Brimming()
      reads this, buffer
    {
      && Live() && buffer != null && buffer.Length == max == count >= 2 && base == curr < max
      && Account(accepted, gone, cleaned, cleanupFunc, Ring(buffer[..], base, count))
    }

    /** The tail of cbuf_enqueue_default: gives up the oldest item. */
    method Evict()
      requires Brimming()
      modifies this`base, this`count, this`cleaned, this`gone
      ensures Valid() && count == old(count) - 1
      ensures Contents() == old(Ring(buffer[..], base, count)[1..])
      ensures gone == old(gone) + [Gone(old(Ring(buffer[..], base, count)[0]), Dropped(cleanupFunc))]
    {
      hide Ring, Account, Has;
      RingPop(buffer[..], base, count);
      ghost var q := Ring(buffer[..], base, count);
      Departs(accepted, gone, cleaned, cleanupFunc, q, Dropped(cleanupFunc));
      if cleanupFunc { cleaned := cleaned + [buffer[base]]; }
      gone := gone + [Gone(q[0], Dropped(cleanupFunc))];
      base := base + 1;
      count := count - 1;
      if base >= max { base := 0; }
    }

    /** The write of cbuf_enqueue_default, into the slot that is always free. */
    method Store(data: Data)
      requires Live() && Valid()
      modifies this`count, this`curr, this`accepted, buffer
      ensures count == old(count) + 1 && accepted == old(accepted) + [data]
      ensures curr == base <==> count == max
      ensures Ring(buffer[..], base, count) == old(Contents()) + [data]
      ensures if curr == base then Brimming() else Valid()
    {
      hide Ring, Account, Has;
      RingPush(buffer[..], base, count, data);
      if count + 1 < max { Meet(base, 0, count + 1, max); }
      Arrives(accepted, gone, cleaned, cleanupFunc, Contents(), data);
      buffer[curr] := data;
      assert buffer[..] == old(buffer[..])[curr := data];
      count := count + 1;
      curr := curr + 1;
      if curr >= max { curr := 0; }
      accepted := accepted + [data];
    }

    /** cbuf_enqueue_default */
    method Enqueue(data: Data) returns (ok: bool)
      requires Valid()
      modifies this, buffer
      ensures Valid() && flags == old(flags) && buffer == old(buffer) && max == old(max)
      ensures ok == Live()
      ensures !ok ==> accepted == old(accepted) && gone == old(gone)
      ensures ok ==> Contents() == Push(old(Contents()), data, max - 1, Overwrites())
      ensures ok ==> accepted == old(accepted)
                               + if old(count) < max - 1 || Overwrites() then [data] else []
      ensures gone == old(gone) + if Live() && old(count) == max - 1 && Overwrites()
                                  then [Gone(old(Contents())[0], Dropped(cleanupFunc))]
                                  else []
    {
      if !Has(flags, VALID) { return false; }
      hide Ring, Account, Push, Has;
      PushCases(Contents(), data, max - 1, Has(flags, OVERWRITE));
      if (count == max - 1 && Has(flags, OVERWRITE)) || count != max - 1 {
        Store(data);
        if curr == base { Evict(); }
      }
      return true;
    }

    /** The part of cbuf_dequeue_default before its sanity check. */
    method TakeOldest() returns (data: Data)
      requires Live() && Valid() && count > 0
      modifies this`count, this`base, this`gone
      ensures Valid() && count == old(count) - 1
      ensures data == old(Contents())[0] && Contents() == old(Contents())[1..]
      ensures gone == old(gone) + [Gone(data, Dequeued)]
    {
      hide Ring, Account, Has;
      RingPop(buffer[..], base, count);
      Departs(accepted, gone, cleaned, cleanupFunc, Contents(), Dequeued);
      data := buffer[base];
      gone := gone + [Gone(data, Dequeued)];
      count := count - 1;
      base := base + 1;
      if base >= max { base := 0; }
    }

    /** The sanity check of cbuf_dequeue_default: a ring found empty gets its count set to 0. */
    method SanityCheck()
      modifies this`count
      ensures count == if base == curr then 0 else old(count)
    {
      if base == curr {
        if count != 0 { count := 0; }
      }
    }

    /** cbuf_dequeue_default; count == old(count) - 1 says that its sanity check never finds
        anything to repair. */
    method Dequeue() returns (data: Data)
      requires Valid()
      modifies this`count, this`base, this`gone
      ensures Valid()
      ensures if old(Contents()) == [] then
                data == NULL && count == old(count) && base == old(base) && gone == old(gone)
              else
                && data == old(Contents())[0] && Contents() == old(Contents())[1..]
                && count == old(count) - 1
                && gone == old(gone) + [Gone(data, Dequeued)]
    {
      hide Ring, Account, Has;
      if !Has(flags, VALID) { return NULL; }
      if count == 0 { return NULL; }
      data := TakeOldest();
      Meet(base, 0, count, max);
      SanityCheck();
    }

    /** cbuf_peekqueue_default */
    method Peek() returns (data: Data)
      requires Valid()
      ensures data == if Contents() == [] then NULL else Contents()[0]
    {
      if !Has(flags, VALID) { return NULL; }
      if count == 0 { return NULL; }
      data := buffer[base];
    }

    /** The loop over the stored items in cbuf_reset_default and cbuf_destroy. */
    method CleanAll()
      requires Valid() && Live() && cleanupFunc
      modifies this`cleaned
      ensures cleaned == old(cleaned) + Contents()
    {
      hide Ring, Account, Has;
      Meet(base, 0, count, max);
      ghost var q, i := Contents(), 0;
      var runner := base;
      while runner != curr
        invariant i <= count && runner == Slot(base + i, max) && (runner == curr <==> i == count)
        invariant cleaned == old(cleaned) + q[..i]
        decreases count - i
      {
        cleaned := cleaned + [buffer[runner]];
        runner := runner + 1;
        if runner >= max { runner := 0; }
        i := i + 1;
        Meet(base, i, count, max);
      }
    }

    /** cbuf_reset_default */
    method Reset() returns (ok: bool)
      requires Valid()
      modifies this
      ensures Valid() && ok == Live() && flags == old(flags) && max == old(max) && buffer == old(buffer)
      ensures Contents() == [] && accepted == old(accepted)
      ensures gone == old(gone) + All(old(Contents()), Dropped(cleanupFunc))
      ensures cleaned == old(cleaned) + if cleanupFunc then old(Contents()) else []
    {
      hide Ring, Account, Has;
      if !Has(flags, VALID) { return false; }
      DepartAll(accepted, gone, cleaned, cleanupFunc, Contents());
      if count == 0 || !cleanupFunc {
        gone := gone + All(Contents(), Dropped(cleanupFunc));
        base, curr, count := 0, 0, 0;
        assert Contents() == [];
        return true;
      }
      CleanAll();
      gone := gone + All(Contents(), Dropped(cleanupFunc));
      base, curr, count := 0, 0, 0;
      assert Contents() == [];
      return true;
    }

    /** cbuf_lookup_default: the oldest item for which func returns 0. */
    method Lookup(data: Data, func: (Data, Data) -> int) returns (r: Data)
      requires Valid()
      ensures || (r == NULL && forall j | 0 <= j < |Contents()| :: func(Contents()[j], data) != 0)
              || exists i | 0 <= i < |Contents()| ::
                   && r == Contents()[i] && func(r, data) == 0
                   && forall j | 0 <= j < i :: func(Contents()[j], data) != 0
    {
      hide Ring, Account, Has;
      if !Has(flags, VALID) { return NULL; }
      if count == 0 { return NULL; }
      Meet(base, 0, count, max);
      ghost var i := 0;
      var runner := base;
      while runner != curr
        invariant i <= count && runner == Slot(base + i, max) && (runner == curr <==> i == count)
        invariant forall j | 0 <= j < i :: func(Contents()[j], data) != 0
        decreases count - i
      {
        var cbdata := buffer[runner];
        assert cbdata == Contents()[i];
        if func(cbdata, data) == 0 { return cbdata; }
        runner := runner + 1;
        if runner >= max { runner := 0; }
        i := i + 1;
        Meet(base, i, count, max);
      }
      return NULL;
    }

    /** cbuf_destroy: the header is no longer live, so every later call is turned away. */
    method Destroy()
      requires Valid() && Live()
      modifies this
      ensures Valid() && !Live() && accepted == old(accepted)
      ensures gone == old(gone) + All(old(Contents()), Dropped(cleanupFunc))
      ensures cleaned == old(cleaned) + if cleanupFunc then old(Contents()) else []
    {
      hide Ring, Account, Has, All, Dropped;
      DepartAll(accepted, gone, cleaned, cleanupFunc, Contents());
      if count != 0 && cleanupFunc { CleanAll(); }
      gone := gone + All(Contents(), Dropped(cleanupFunc));
      ClearsValid(flags);
      flags := flags & !VALID;
      buffer := null;
    }
  }

  lemma ClearsValid(f: bv16)
    ensures !Has(f & !VALID, VALID)
  {
  }

  lemma FlagsOf(f: bv16, asked: bv16)
    ensures (f | (asked & USER) | VALID) & VALID != 0
    ensures (f | (asked & USER) | VALID) & OVERWRITE != 0 <==> f & OVERWRITE != 0 || asked & OVERWRITE != 0
  {
  }
}
