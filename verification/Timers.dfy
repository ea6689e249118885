/** multimer.c: the timer queue and the free list as linked lists, relinked in place. */
module Timers {
  import opened TimerLaws
  import opened TimerSpec

  class TQE {
    var link: TQE?
    var time: Time
    var interval: Time
    var func: int
    var client: int
    ghost var stamp: nat

    constructor ()
      ensures link == null && interval == ZERO
    {
      link, interval := null, ZERO;
    }

    ghost function Data(): Entry
      reads this
    {
      Entry(time, interval, func, client, stamp)
    }
  }

  /** head and the links from it run through exactly these elements. */
  ghost predicate IsList(head: TQE?, s: seq<TQE>)
    reads s
  {
    && head == (if s == [] then null else s[0])
    && (s != [] ==> s[|s| - 1].link == null)
    && forall i {:trigger s[i].link} | 0 <= i < |s| - 1 :: s[i].link == s[i + 1]
  }

  ghost predicate Distinct(s: seq<TQE>) {
    forall i, j | 0 <= i < j < |s| :: s[i] != s[j]
  }

  ghost function View(s: seq<TQE>): (r: seq<Entry>)
    reads s
    ensures |r| == |s| && forall i | 0 <= i < |s| :: r[i] == s[i].Data()
  {
    seq(|s|, i requires 0 <= i < |s| reads s => s[i].Data())
  }

  /** The intervals left in the elements. */
  ghost function Spare(s: seq<TQE>): (r: seq<Time>)
    reads s
    ensures |r| == |s| && forall i | 0 <= i < |s| :: r[i] == s[i].interval
  {
    seq(|s|, i requires 0 <= i < |s| reads s => s[i].interval)
  }

  class TimerQueue {
    var timerQ: TQE?
    var freeTQEQ: TQE?
    /** The elements of the two lists, front to back, and the number of insertions so far. */
    ghost var Q: seq<TQE>
    ghost var F: seq<TQE>
    ghost var stamp: nat
    /** Every element ever allocated. */
    ghost var All: set<TQE>
    /** Everything that timer_get and the handlers it called did, in order. */
    ghost var log: seq<Event>

    constructor ()
      ensures Valid() && Q == [] && F == [] && stamp == 0 && All == {} && log == []
    {
      timerQ, freeTQEQ, Q, F, stamp, All, log := null, null, [], [], 0, {}, [];
    }

    /** The two lists are well formed and disjoint. */
    ghost predicate Lists()
      reads this`timerQ, this`freeTQEQ, this`Q, this`F, Q, F
    {
      IsList(timerQ, Q) && IsList(freeTQEQ, F) && Distinct(Q) && Distinct(F)
      && forall x | x in Q :: x !in F
    }

    ghost predicate Valid()
      reads this`timerQ, this`freeTQEQ, this`Q, this`F, this`stamp, this`All, Q, F
    {
      && Lists() && Good(View(Q), stamp) && Accounted({})
      && forall x | x in F :: Normal(x.interval)
    }

    /** What the two lists hold. */
    ghost function Value(): State
      reads this`Q, this`F, this`stamp, Q, F
    {
      State(View(Q), Spare(F), stamp)
    }

    /** The active list, the free list and the elements in hand are all that was allocated. */
    ghost predicate Accounted(hand: set<TQE>)
      reads this`Q, this`F, this`All
    {
      && (forall x | x in All :: x in Q || x in F || x in hand)
      && (forall x | x in Q :: x in All)
      && (forall x | x in F :: x in All)
      && hand <= All
    }

    /** Everything is in order, except that tp is on neither list, and will become the only
        element of the client. */
    ghost predicate InHand(tp: TQE, client: int)
      reads this, Q, F, tp
    {
      && Lists() && Good(View(Q), stamp) && Accounted({tp})
      && tp !in Q && tp !in F && Normal(tp.interval)
      && (forall x | x in F :: Normal(x.interval))
      && forall x | x in Q :: x.client != client
    }

    /** The first loop of timer_set: takes the client's element out of the active queue. */
    method Unlink(client: int) returns (np: TQE?)
      requires Lists()
      modifies this`timerQ, this`Q, Q`link
      ensures Lists() && (np != null ==> np !in Q && np !in F)
      ensures var i := IndexOf(old(View(Q)), client);
              if i < |old(Q)| then np == old(Q)[i] && Q == old(Q)[..i] + old(Q)[i + 1..]
              else np == null && Q == old(Q)
    {
      ghost var q := View(Q);
      var op: TQE?;
      op, np := null, timerQ;
      ghost var i := 0;
      while np != null && np.client != client
        invariant 0 <= i <= |Q| && np == (if i < |Q| then Q[i] else null)
        invariant op == if i == 0 then null else Q[i - 1]
        invariant forall j | 0 <= j < i :: q[j].client != client
        decreases |Q| - i
      {
        op, np := np, np.link;
        i := i + 1;
      }
      IndexIs(q, client, i);
      if np != null {
        CutOut(op, np, i);
      }
    }

    /** Links past np; op is the element before it, or null for the head of the list. */
    method CutOut(op: TQE?, np: TQE, ghost i: nat)
      requires Lists() && i < |Q| && np == Q[i] && op == if i == 0 then null else Q[i - 1]
      modifies this`timerQ, this`Q, Q`link
      ensures Lists() && Q == old(Q)[..i] + old(Q)[i + 1..] && np !in Q
    {
      hide Distinct;
      ghost var q := Q;
      Q := q[..i] + q[i + 1..];
      if op == null {
        timerQ := np.link;
      } else {
        assert op in q;
        op.link := np.link;
        assert forall k | 0 <= k < |F| :: F[k] in F && F[k] != op;
      }
      DistinctCut(q, i);
      forall k | 0 <= k < |Q| ensures Q[k] == q[if k < i then k else k + 1] { }
      forall x | x in Q ensures x in q { }
    }

    /** Takes an element off the free list, allocating one when the list is empty. */
    method TakeFree() returns (tp: TQE)
      requires Lists()
      modifies this`freeTQEQ, this`F
      ensures Lists() && tp !in Q && tp !in F
      ensures if old(F) == [] then fresh(tp) && F == [] && tp.interval == ZERO
              else tp == old(F)[0] && F == old(F)[1..]
    {
      if freeTQEQ == null {
        tp := new TQE();
        freeTQEQ, F := tp, [tp];
      }
      tp := freeTQEQ;
      ghost var f := F;
      freeTQEQ, F := tp.link, F[1..];
      forall k | 0 <= k < |F| ensures F[k] == f[k + 1] { }
    }

    /** Puts an element on the front of the free list. */
    method Free(np: TQE)
      requires Lists() && np !in Q && np !in F
      modifies this`freeTQEQ, this`F, np`link
      ensures Lists() && F == [np] + old(F)
    {
      ghost var f := F;
      np.link := freeTQEQ;
      freeTQEQ, F := np, [np] + F;
      assert forall k | 0 <= k < |Q| :: Q[k] in Q && Q[k] != np;
      assert forall k | 0 <= k < |f| :: f[k] in f && f[k] != np;
      forall k | 0 < k < |F| ensures F[k] == f[k - 1] { }
    }

    /** The second loop of timer_set: puts tp behind every element that does not expire later. */
    method Enqueue(tp: TQE)
      requires Lists() && tp !in Q && tp !in F
      modifies this`timerQ, this`Q, Q`link, tp`link
      ensures Lists()
      ensures var i := Ahead(old(View(Q)), tp.time); Q == old(Q)[..i] + [tp] + old(Q)[i..]
      ensures forall x | x in old(Q) :: x.Data() == old(x.Data())
      ensures tp.Data() == old(tp.Data())
    {
      hide Distinct, Ahead, View;
      ghost var q := View(Q);
      var op: TQE?, np := null, timerQ;
      ghost var i := 0;
      while np != null && !TimerLess(tp.time, np.time)
        invariant 0 <= i <= |Q| && np == (if i < |Q| then Q[i] else null)
        invariant op == if i == 0 then null else Q[i - 1]
        invariant forall j | 0 <= j < i :: !TimerLess(tp.time, q[j].time)
        decreases |Q| - i
      {
        op, np := np, np.link;
        i := i + 1;
      }
      AheadIs(q, tp.time, i);
      PutIn(op, tp, np, i);
    }

    /** Links tp in between op, or null for the head of the list, and np. */
    method PutIn(op: TQE?, tp: TQE, np: TQE?, ghost i: nat)
      requires Lists() && tp !in Q && tp !in F && i <= |Q|
      requires np == (if i < |Q| then Q[i] else null) && op == if i == 0 then null else Q[i - 1]
      modifies this`timerQ, this`Q, Q`link, tp`link
      ensures Lists() && Q == old(Q)[..i] + [tp] + old(Q)[i..]
    {
      hide Distinct;
      ghost var q := Q;
      Q := q[..i] + [tp] + q[i..];
      if op == null {
        timerQ := tp;
      } else {
        assert op in q;
        op.link := tp;
        assert forall k | 0 <= k < |F| :: F[k] in F && F[k] != op;
      }
      tp.link := np;
      assert forall k | 0 <= k < |F| :: F[k] in F && F[k] != tp;
      assert forall k | 0 <= k < |q| :: q[k] in q && q[k] != tp;
      DistinctPut(q, tp, i);
      forall k | 0 <= k < |Q| - 1 ensures Q[k].link == Q[k + 1] {
        if k + 1 < i {
          assert Q[k] == q[k] && q[k] != op && Q[k + 1] == q[k + 1];
        } else if k > i {
          assert Q[k] == q[k - 1] && q[k - 1] != op && Q[k + 1] == q[k];
        }
      }
      assert Q[|Q| - 1] == if i == |q| then tp else q[|q| - 1];
      forall x | x in Q ensures x == tp || x in q { }
    }

    /** Takes the client's element, if it has one, out of the active queue. */
    method Detach(client: int) returns (np: TQE?)
      requires Valid()
      modifies this`timerQ, this`Q, Q`link
      ensures var q := old(View(Q));
              var i := IndexOf(q, client);
              && View(Q) == Without(q, i)
              && (np == null <==> i == |q|)
              && (np == null ==> Valid() && forall x | x in Q :: x.client != client)
              && (np != null ==> InHand(np, client) && np in old(Q) && np.interval == q[i].interval)
              && (np != null ==> np == old(Q)[i])
              && forall x | x in Q :: x in old(Q)
      ensures Spare(F) == old(Spare(F))
    {
      hide Good, Distinct, IsList, IndexOf;
      ghost var q, oldQ := View(Q), Q;
      ghost var i := IndexOf(q, client);
      WithoutGood(q, i, stamp);
      IntervalsNormal(q, stamp);
      NotFound(q, client);
      np := Unlink(client);
      if np != null {
        CutMembers(oldQ, i);
        assert View(Q) == Without(q, i);
      } else {
        assert View(Q) == q;
      }
      ClientsOf(Q, client);
    }

    /** Puts tp in its place in the queue. */
    method Place(tp: TQE)
      requires Lists() && tp !in Q && tp !in F
      modifies this`timerQ, this`Q, Q`link, tp`link
      ensures Lists() && View(Q) == Insert(old(View(Q)), tp.Data()) && tp.Data() == old(tp.Data())
      ensures tp in Q && (forall x | x in Q :: x == tp || x in old(Q)) && forall x | x in old(Q) :: x in Q
    {
      hide Distinct, IsList, Ahead, View;
      ghost var q, oldQ := View(Q), Q;
      Enqueue(tp);
      SameData(oldQ, q);
      AheadBound(q, tp.time);
      PutMembers(oldQ, tp, Ahead(q, tp.time));
      ViewPut(oldQ, tp, Ahead(q, tp.time));
    }

    /** Fills tp in and puts it in its place in the queue. */
    method FillIn(tp: TQE, t: Time, func: int, client: int)
      requires InHand(tp, client) && Normal(t)
      modifies this`timerQ, this`Q, this`stamp, Q`link, tp
      ensures Valid() && F == old(F) && tp in Q && tp.client == client && stamp == old(stamp) + 1
      ensures View(Q) == Insert(old(View(Q)), Entry(t, old(tp.interval), func, client, old(stamp)))
    {
      hide Good, Distinct, IsList, Insert, View;
      ghost var q, e := View(Q), Entry(t, tp.interval, func, client, stamp);
      NoClient(Q, client);
      InsertGood(q, e, stamp);
      tp.time := t;
      tp.func := func;
      tp.client := client;
      tp.stamp := stamp;
      Place(tp);
      stamp := stamp + 1;
    }

    /** An element for a client that has none in the queue. */
    method Acquire(client: int) returns (tp: TQE)
      requires Valid() && forall x | x in Q :: x.client != client
      modifies this`freeTQEQ, this`F, this`All
      ensures InHand(tp, client) && old(All) <= All && fresh(All - old(All))
      ensures if old(F) != [] then tp == old(F)[0] && F == old(F)[1..] && All == old(All) else fresh(tp)
      ensures tp.interval == if old(F) != [] then old(Spare(F))[0] else ZERO
      ensures Spare(F) == if old(F) != [] then old(Spare(F))[1..] else []
    {
      hide Good, Distinct, IsList;
      ghost var f := F;
      tp := TakeFree();
      if f == [] {
        All := All + {tp};
      } else {
        assert f == [f[0]] + F;
      }
    }

    /** timer_set: sets or replaces the timer of a client; with no interval, cancels it. A client
        in the queue keeps its element; another one gets the first free element, or a new one. */
    method TimerSet(interval: Arg, func: int, client: int, relative: bool, now: Time) returns (r: TQE?)
      requires Valid() && Normal(now) && NormalArg(interval)
      modifies this, Q, F
      ensures Valid() && old(All) <= All && fresh(All - old(All)) && log == old(log)
      ensures Value() == Apply(old(Value()), SetEvent(interval, func, client, relative, now))
      ensures IsSet(old(View(Q)), View(Q), interval, func, client, relative, now)
      ensures IntervalsKept(old(Value()), Value(), interval, client)
      ensures var q := old(View(Q));
              var i := IndexOf(q, client);
              if interval.Null? then
                r == null && All == old(All) && F == if i < |q| then [old(Q)[i]] + old(F) else old(F)
              else
                && r != null && r in Q && r.client == client
                && if i < |q| then r == old(Q)[i] && F == old(F) && All == old(All)
                   else if old(F) != [] then r == old(F)[0] && F == old(F)[1..] && All == old(All)
                   else fresh(r) && F == []
    {
      hide Valid, InHand, Insert, View, Spare, IndexOf, Without, Apply, IsSet, IntervalsKept, GoodState;
      ghost var s := Value();
      ValidIsGood();
      SetMeans(s, interval, func, client, relative, now);
      NotFound(s.q, client);
      var np := Detach(client);
      assert np != null ==> np in old(Q);
      assert forall k | 0 <= k < |Q| :: Q[k] in old(Q);
      if interval.Null? {
        Dismiss(np, client);
        CancelIs(s, client);
        return null;
      }
      var t := interval.time;
      if relative {
        t := TimerAdd(now, interval.time);
        TimeArithmetic(now, interval.time);
        assert t.usec < MILLION;
      }
      r := Occupy(np, t, func, client);
      ArmIs(s, Request(t, func, client));
    }

    /** Gives an element taken out of the queue, if any, to the free list. */
    method Dismiss(np: TQE?, client: int)
      requires if np == null then Valid() else InHand(np, client)
      modifies this`freeTQEQ, this`F, (if np == null then {} else {np})`link
      ensures Valid() && View(Q) == old(View(Q))
      ensures if np == null then F == old(F) && Spare(F) == old(Spare(F))
              else F == [np] + old(F) && Spare(F) == [old(np.interval)] + old(Spare(F))
    {
      hide Good, Distinct, IsList, View, Spare;
      ghost var q, f := View(Q), Spare(F);
      if np != null {
        Free(np);
        SpareFreed(F, f, np.interval);
        SameData(Q, q);
      }
    }

    /** Puts an element for the client into the queue: the one taken out, or else a free one. */
    method Occupy(np: TQE?, t: Time, func: int, client: int) returns (tp: TQE)
      requires if np == null then Valid() && forall x | x in Q :: x.client != client else InHand(np, client)
      requires Normal(t)
      modifies this`timerQ, this`freeTQEQ, this`Q, this`F, this`stamp, this`All, Q, F, if np == null then {} else {np}
      ensures Valid() && old(All) <= All && fresh(All - old(All)) && stamp == old(stamp) + 1
      ensures tp in Q && tp.client == client
      ensures if np != null then tp == np && F == old(F) && All == old(All)
              else if old(F) != [] then tp == old(F)[0] && F == old(F)[1..] && All == old(All)
              else fresh(tp) && F == []
      ensures Spare(F) == if np != null || old(F) == [] then old(Spare(F)) else old(Spare(F))[1..]
      ensures var interval := if np != null then old(np.interval)
                              else if old(F) != [] then old(Spare(F))[0] else ZERO;
              View(Q) == Insert(old(View(Q)), Entry(t, interval, func, client, old(stamp)))
    {
      hide Good, Distinct, IsList, Insert, View, Spare;
      if np != null {
        tp := np;
      } else {
        tp := Acquire(client);
        assert old(F) != [] ==> tp in old(F);
      }
      ghost var f := Spare(F);
      assert tp !in F;
      FillIn(tp, t, func, client);
      SameSpare(F, f);
    }

    /** Takes the head out of the active queue. */
    method CutHead() returns (tp: TQE)
      requires Valid() && Q != []
      modifies this`timerQ, this`Q, Q`link
      ensures InHand(tp, tp.client) && tp == old(Q)[0] && Q == old(Q)[1..]
      ensures View(Q) == old(View(Q))[1..] && Spare(F) == old(Spare(F)) && tp.Data() == old(Q[0].Data())
    {
      hide Good, Distinct, IsList, View, Spare;
      ghost var q, oldQ, f := View(Q), Q, Spare(F);
      HeadOf(timerQ, Q);
      PopGood(q, stamp);
      TailMembers(oldQ);
      tp := timerQ;
      CutOut(null, tp, 0);
      assert Q == oldQ[1..];
      SameData(Q, q[1..]);
      SameSpare(F, f);
      ClientsOf(Q, tp.client);
    }

    /** The head of the active queue goes to the front of the free list. */
    method PopHead()
      requires Valid() && Q != []
      modifies this`timerQ, this`Q, this`freeTQEQ, this`F, Q`link
      ensures Valid() && Q == old(Q)[1..] && F == [old(Q)[0]] + old(F)
      ensures View(Q) == old(View(Q))[1..] && old(Q)[0].Data() == old(Q[0].Data())
      ensures Spare(F) == [old(View(Q))[0].interval] + old(Spare(F))
    {
      hide Valid, InHand, View, Spare;
      assert Q[0] in Q;
      var tp := CutHead();
      Dismiss(tp, tp.client);
    }

    /** Sets the timer of an element just freed again, one interval after its old expiry. */
    method Rearm(tp: TQE, now: Time)
      requires Valid() && Normal(now) && F != [] && tp == F[0] && Normal(tp.time)
      requires forall x | x in Q :: x.client != tp.client
      modifies this, Q, F
      ensures Valid() && old(All) <= All && fresh(All - old(All)) && log == old(log)
      ensures F == old(F)[1..] && tp in Q
      ensures var e := old(tp.Data());
              Value() == Apply(old(Value()), Arm(Request(TimerAdd(e.interval, e.time), e.func, e.client)))
    {
      hide Good, Distinct, Insert, View, Spare, Apply, IsSet, IntervalsKept;
      ghost var q, f := View(Q), Spare(F);
      TimeArithmetic(tp.interval, tp.time);
      NoClient(Q, tp.client);
      NoneFound(q, tp.client);
      tp.time := TimerAdd(tp.interval, tp.time);
      assert tp !in Q;
      Untouched(Q, tp);
      SameData(Q, q);
      SameSpare(F, f);
      var r := TimerSet(At(tp.time), tp.func, tp.client, false, now);
    }

    /** The expired branch of timer_get, up to the call of the handler: the head goes to the free
        list, and an interval timer is set again, through that same element. */
    method FireHead(now: Time) returns (tp: TQE)
      requires Valid() && Normal(now) && timerQ != null
      modifies this, Q, F
      ensures Valid() && old(All) <= All && fresh(All - old(All)) && log == old(log)
      ensures old(Q) != [] && tp == old(Q)[0] && Value() == Apply(old(Value()), Fire(now))
      ensures if old(View(Q))[0].interval != ZERO then F == old(F) && tp in Q
              else F == [tp] + old(F)
      ensures IsFired(old(Value()), Value(), old(View(Q))[0])
    {
      hide Good, Insert, Distinct, IsList, View, Spare, TimerAdd, Apply, IsFired, GoodState;
      HeadOf(timerQ, Q);
      ghost var s := Value();
      ValidIsGood();
      FireMeans(s, now);
      PopGood(s.q, stamp);
      FireIs(s, now);
      tp := timerQ;
      PopHead();
      ClientsOf(Q, tp.client);
      if tp.interval.sec != 0 || tp.interval.usec != 0 {
        Rearm(tp, now);
      }
    }

    /** What a caller does with the pointer timer_set returns. */
    method WriteInterval(r: TQE, every: Time)
      requires Valid() && r in Q && Normal(every)
      modifies r`interval
      ensures Valid() && Value() == Apply(old(Value()), Write(r.client, every))
    {
      hide Good, Distinct, View, Spare, Apply;
      ghost var s := Value();
      EntryNormal(s.q, stamp);
      ghost var i :| 0 <= i < |Q| && Q[i] == r;
      OnlyOne(Q, i);
      ClientAt(s.q, i, stamp);
      r.interval := every;
      assert r !in F;
      WriteIs(s, i, every);
      WrittenGood(s.q, i, every, stamp);
      SameData(Q, s.q[i := s.q[i].(interval := every)]);
      SameSpare(F, s.spare);
    }

    /** The calls one handler makes, in order. */
    method RunHandler(acts: Acts)
      requires Valid() && NormalActs(acts)
      modifies this, Q, F
      ensures Valid() && old(All) <= All && fresh(All - old(All))
      ensures var es := HandlerEvents(old(Value()), acts);
              log == old(log) + es && Value() == Replay(old(Value()), es)
      decreases acts, 0
    {
      hide Valid, Value, Apply, Replay, GetOutcome, SetEvents, GotBy, Returns, Legal, Answers, Suffix;
      ghost var s := Value();
      Owned();
      LegalNothing(s);
      match acts
      case NoMore =>
      case Set(interval, every, func, client, relative, now, rest) =>
        ghost var es := SetEvents(interval, every, func, client, relative, now);
        SetAndWrite(interval, every, func, client, relative, now);
        ReplayJoin(s, es, HandlerEvents(Value(), rest));
        Owned();
        assert forall x | x in Q || x in F :: x in old(All) || x in All - old(All);
        RunHandler(rest);
      case Get(script, rest) =>
        ghost var es := GetOutcome(s, script).events;
        var timeout, left := TimerGet(script);
        ReplayJoin(s, es, HandlerEvents(Value(), rest));
        Owned();
        assert forall x | x in Q || x in F :: x in old(All) || x in All - old(All);
        RunHandler(rest);
    }

    /** A call of timer_set by a handler, and the interval it then writes. */
    method SetAndWrite(interval: Arg, every: Arg, func: int, client: int, relative: bool, now: Time)
      requires Valid() && NormalArg(interval) && NormalArg(every) && Normal(now)
      modifies this, Q, F
      ensures Valid() && old(All) <= All && fresh(All - old(All))
      ensures var es := SetEvents(interval, every, func, client, relative, now);
              log == old(log) + es && Value() == Replay(old(Value()), es)
    {
      hide Valid, Value, View, Apply, Replay, SetEvent, IsSet, IntervalsKept, IndexOf;
      ghost var s, e := Value(), SetEvent(interval, func, client, relative, now);
      ReplayOne(s, e);
      var r := TimerSet(interval, func, client, relative, now);
      log := log + [e];
      if r != null && every.At? {
        ghost var w := Write(client, every.time);
        ReplayOne(Apply(s, e), w);
        ReplayJoin(s, [e], [w]);
        WriteInterval(r, every.time);
        log := log + [w];
      } else {
        assert [e] + [] == [e];
      }
    }

    /** The expired branch of timer_get, with the call of the handler. */
    method Expire(now: Time, acts: Acts)
      requires Valid() && Normal(now) && timerQ != null && !TimerLess(now, timerQ.time) && NormalActs(acts)
      modifies this, Q, F
      ensures Valid() && old(All) <= All && fresh(All - old(All))
      ensures var es := TurnEvents(old(Value()), now, acts);
              log == old(log) + es && Value() == Replay(old(Value()), es)
      decreases acts, 1
    {
      hide Valid, Value, View, Apply, Replay, HandlerEvents, IsFired;
      ghost var s := Value();
      Owned();
      ReplayOne(s, Fire(now));
      var tp := FireHead(now);
      log := log + [Fire(now)];
      ReplayJoin(s, [Fire(now)], HandlerEvents(Value(), acts));
      Owned();
      assert forall x | x in Q || x in F :: x in old(All) || x in All - old(All);
      RunHandler(acts);
    }

    /** timer_get. The script says what each pass of the loop reads from the clock and what the
        handler does if the head has expired; left is what remains of it, from the pass that
        gave the answer on. With a clock by which timers keep expiring the loop goes on for ever;
        here the script is then used up, and the call is Looping. */
    method TimerGet(script: Script) returns (timeout: Timeout, left: Script)
      requires Valid() && NormalScript(script)
      modifies this, Q, F
      ensures Valid() && old(All) <= All && fresh(All - old(All))
      ensures var o := GetOutcome(old(Value()), script);
              && timeout == o.timeout && left == o.rest
              && log == old(log) + o.events && Value() == Replay(old(Value()), o.events)
      ensures Legal(old(Value()), log[|old(log)|..])
      ensures GotBy(old(Value()), log[|old(log)|..], script, left) && Returns(Value(), left)
      ensures Suffix(left, script) && Answers(timeout, left, Value().q)
      decreases script, 0
    {
      hide Valid, Value, View, Replay, Legal, TurnEvents, Suffix, Answers, GetOutcome, After, GoodState;
      hide GotBy, Returns;
      ghost var s0, es := Value(), [];
      ValidIsGood();
      Owned();
      GetSound(s0, script);
      GetMade(s0, script);
      LegalNothing(s0);
      AfterNothing(GetOutcome(s0, script));
      left := script;
      while left.Turn?
        invariant Valid() && NormalScript(left) && (left == script || left < script)
        invariant old(All) <= All && fresh(All - old(All))
        invariant forall x :: x in All <==> x in Q || x in F
        invariant log == old(log) + es && Value() == Replay(s0, es)
        invariant GetOutcome(s0, script) == After(es, GetOutcome(Value(), left))
        decreases left
      {
        Head();
        GetStep(Value(), left, es);
        if timerQ == null {
          return NoTimers, left;
        }
        var now := left.now;
        if TimerLess(now, timerQ.time) {
          var t := Gap(timerQ.time, now);
          return Wait(t), left;
        }
        ghost var turn := TurnEvents(Value(), now, left.acts);
        ReplayJoin(s0, es, turn);
        Expire(now, left.acts);
        Owned();
        left, es := left.rest, es + turn;
      }
      Head();
      GetStep(Value(), left, es);
      timeout := if timerQ == null then NoTimers else Looping;
    }

    lemma Owned()
      requires Valid()
      ensures forall x | x in All :: x in Q || x in F
      ensures forall x | x in Q || x in F :: x in All
    {
    }

    lemma Head()
      requires Valid()
      ensures timerQ == null <==> Value().q == []
      ensures timerQ != null ==> timerQ.time == Value().q[0].time
    {
      hide Good, Distinct;
      HeadOf(timerQ, Q);
    }

    lemma ValidIsGood()
      requires Valid()
      ensures GoodState(Value())
    {
    }
  }

  // ---------------------------------------------------------------- states and lists

  /** One pass of the loop of timer_get, with es done before. */
  lemma GetStep(s: State, script: Script, es: seq<Event>)
    ensures After(es, GetOutcome(s, script)) ==
            if s.q == [] then Outcome(es, NoTimers, script)
            else if script.Stop? then Outcome(es, Looping, script)
            else if TimerLess(script.now, s.q[0].time) then
              Outcome(es, Wait(Gap(s.q[0].time, script.now)), script)
            else
              var turn := TurnEvents(s, script.now, script.acts);
              After(es + turn, GetOutcome(Replay(s, turn), script.rest))
  {
    hide Replay, TurnEvents, Gap, TimerLess;
    assert es + [] == es;
  }

  lemma AfterNothing(o: Outcome)
    ensures After([], o) == o
  {
    assert [] + o.events == o.events;
  }

  lemma CancelIs(s: State, client: int)
    ensures var i := IndexOf(s.q, client);
            Apply(s, Cancel(client))
            == s.(q := Without(s.q, i), spare := if i < |s.q| then [s.q[i].interval] + s.spare else s.spare)
  {
  }

  lemma ArmIs(s: State, r: Request)
    ensures var i := IndexOf(s.q, r.client);
            var interval := if i < |s.q| then s.q[i].interval else if s.spare != [] then s.spare[0] else ZERO;
            Apply(s, Arm(r))
            == State(Insert(Without(s.q, i), Entry(r.time, interval, r.func, r.client, s.stamp)),
                     if i < |s.q| || s.spare == [] then s.spare else s.spare[1..], s.stamp + 1)
  {
  }

  /** Firing is popping the head into the free list and, for an interval timer, arming again. */
  lemma FireIs(s: State, now: Time)
    requires s.q != [] && forall j | 0 <= j < |s.q[1..]| :: s.q[1..][j].client != s.q[0].client
    ensures var e := s.q[0];
            var popped := State(s.q[1..], [e.interval] + s.spare, s.stamp);
            && (e.interval == ZERO <==> e.interval.sec == 0 && e.interval.usec == 0)
            && Apply(s, Fire(now))
               == if e.interval == ZERO then popped
                  else Apply(popped, Arm(Request(TimerAdd(e.interval, e.time), e.func, e.client)))
  {
    hide Insert;
    NoneFound(s.q[1..], s.q[0].client);
    assert ([s.q[0].interval] + s.spare)[1..] == s.spare;
  }

  lemma WriteIs(s: State, i: nat, every: Time)
    requires i < |s.q| && IndexOf(s.q, s.q[i].client) == i
    ensures Apply(s, Write(s.q[i].client, every)) == s.(q := s.q[i := s.q[i].(interval := every)])
  {
  }

  lemma SameSpare(s: seq<TQE>, f: seq<Time>)
    requires |f| == |s| && forall k | 0 <= k < |s| :: s[k].interval == f[k]
    ensures Spare(s) == f
  {
  }

  lemma SpareFreed(s: seq<TQE>, f: seq<Time>, interval: Time)
    requires |s| == |f| + 1 && s[0].interval == interval
    requires forall k | 0 < k < |s| :: s[k].interval == f[k - 1]
    ensures Spare(s) == [interval] + f
  {
  }

  lemma OnlyOne(s: seq<TQE>, i: nat)
    requires Distinct(s) && i < |s|
    ensures forall k | 0 <= k < |s| && k != i :: s[k] != s[i]
  {
  }

  lemma ClientAt(q: seq<Entry>, i: nat, stamp: nat)
    requires Good(q, stamp) && i < |q|
    ensures IndexOf(q, q[i].client) == i
  {
    IndexIs(q, q[i].client, i);
  }

  /** The elements hold what they held when q was their view. */
  lemma SameData(s: seq<TQE>, q: seq<Entry>)
    requires |q| == |s| && forall k | 0 <= k < |s| :: s[k].Data() == q[k]
    ensures View(s) == q
  {
  }

  lemma ViewPut(s: seq<TQE>, tp: TQE, i: nat)
    requires i <= |s|
    ensures View(s[..i] + [tp] + s[i..]) == View(s)[..i] + [tp.Data()] + View(s)[i..]
  {
  }

  lemma NoClient(s: seq<TQE>, client: int)
    requires forall x | x in s :: x.client != client
    ensures forall j | 0 <= j < |s| :: View(s)[j].client != client
  {
  }

  lemma Untouched(s: seq<TQE>, tp: TQE)
    requires tp !in s
    ensures forall k | 0 <= k < |s| :: s[k] != tp
  {
  }

  lemma PutMembers(s: seq<TQE>, tp: TQE, i: nat)
    requires i <= |s|
    ensures var r := s[..i] + [tp] + s[i..];
            && |r| == |s| + 1
            && (forall k | 0 <= k <= |s| :: r[k] == if k < i then s[k] else if k == i then tp else s[k - 1])
            && (forall x | x in s :: x in r) && (forall x | x in r :: x == tp || x in s) && tp in r
  {
    var r := s[..i] + [tp] + s[i..];
    assert r[i] == tp;
    forall x | x in s ensures x in r {
      var k :| 0 <= k < |s| && s[k] == x;
      assert r[if k < i then k else k + 1] == x;
    }
  }

  lemma IntervalsNormal(q: seq<Entry>, stamp: nat)
    requires Good(q, stamp)
    ensures forall i | 0 <= i < |q| :: Normal(q[i].interval)
  {
  }

  lemma CutMembers(s: seq<TQE>, i: nat)
    requires i < |s|
    ensures var r := s[..i] + s[i + 1..];
            && |r| == |s| - 1 && (forall k | 0 <= k < |r| :: r[k] == s[if k < i then k else k + 1])
            && (forall x | x in s :: x == s[i] || x in r) && (forall x | x in r :: x in s)
  {
    var r := s[..i] + s[i + 1..];
    forall x | x in s ensures x == s[i] || x in r {
      var k :| 0 <= k < |s| && s[k] == x;
      if k != i { assert r[if k < i then k else k - 1] == x; }
    }
  }

  lemma TailMembers(s: seq<TQE>)
    requires s != []
    ensures forall x | x in s :: x == s[0] || x in s[1..]
    ensures forall x | x in s[1..] :: x in s
  {
  }

  lemma NoneFound(q: seq<Entry>, client: int)
    requires forall j | 0 <= j < |q| :: q[j].client != client
    ensures IndexOf(q, client) == |q|
  {
  }

  lemma HeadOf(head: TQE?, s: seq<TQE>)
    requires IsList(head, s)
    ensures (head == null <==> s == []) && (s != [] ==> head == s[0])
  {
  }

  lemma PopGood(q: seq<Entry>, stamp: nat)
    requires Good(q, stamp) && q != []
    ensures Good(q[1..], stamp) && Normal(q[0].interval) && Normal(q[0].time)
    ensures forall j | 0 <= j < |q[1..]| :: q[1..][j].client != q[0].client
  {
    assert q[1..] == Without(q, 0);
    WithoutGood(q, 0, stamp);
  }

  lemma NotFound(q: seq<Entry>, client: int)
    ensures IndexOf(q, client) <= |q|
    ensures IndexOf(q, client) == |q| ==> forall j | 0 <= j < |q| :: q[j].client != client
    ensures IndexOf(q, client) < |q| ==> q[IndexOf(q, client)].client == client
  {
  }

  lemma ClientsOf(s: seq<TQE>, client: int)
    requires forall j | 0 <= j < |s| :: View(s)[j].client != client
    ensures forall x | x in s :: x.client != client
  {
    forall x | x in s ensures x.client != client {
      var k :| 0 <= k < |s| && s[k] == x;
      assert View(s)[k] == x.Data();
    }
  }

  lemma DistinctCut(s: seq<TQE>, i: nat)
    requires Distinct(s) && i < |s|
    ensures Distinct(s[..i] + s[i + 1..])
    ensures forall k | 0 <= k < |s| && k != i :: s[k] != s[i]
    ensures i > 0 ==> forall k | 0 <= k < |s| && k != i - 1 :: s[k] != s[i - 1]
    ensures s[i] !in s[..i] + s[i + 1..]
  {
  }

  lemma DistinctPut(s: seq<TQE>, x: TQE, i: nat)
    requires Distinct(s) && i <= |s| && x !in s
    ensures Distinct(s[..i] + [x] + s[i..])
    ensures i > 0 ==> forall k | 0 <= k < |s| && k != i - 1 :: s[k] != s[i - 1]
  {
  }

  lemma AheadIs(q: seq<Entry>, t: Time, i: nat)
    requires i <= |q| && (i < |q| ==> TimerLess(t, q[i].time))
    requires forall j | 0 <= j < i :: !TimerLess(t, q[j].time)
    ensures Ahead(q, t) == i
  {
    var k := Ahead(q, t);
    assert !(k < i) && !(i < k);
  }

  lemma IndexIs(q: seq<Entry>, client: int, i: nat)
    requires i <= |q| && (i < |q| ==> q[i].client == client)
    requires forall j | 0 <= j < i :: q[j].client != client
    ensures IndexOf(q, client) == i
  {
    var k := IndexOf(q, client);
    assert !(k < i) && !(i < k);
  }
}
