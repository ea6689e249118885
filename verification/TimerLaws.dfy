/** multimer.c: what the calls on the timer queue promise, client by client, and which calls a
    run of timer_get is made of. */
module TimerLaws {
  import opened TimerSpec

  // ---------------------------------------------------------------- one call

  /** x is the one element of its client in q. */
  ghost predicate OnlyTimer(q: seq<Entry>, x: Entry) {
    x in q && forall y | y in q && y.client == x.client :: y == x
  }

  ghost predicate NoTimer(q: seq<Entry>, client: int) {
    forall y | y in q :: y.client != client
  }

  ghost predicate OthersKept(q: seq<Entry>, q': seq<Entry>, client: int) {
    forall y: Entry | y.client != client :: y in q' <==> y in q
  }

  /** When a timer is due: an interval from now, or at the time given. */
  ghost predicate IsDue(t: Time, interval: Time, relative: bool, now: Time) {
    if relative then Normal(t) && Micros(t) == Micros(now) + Micros(interval) else t == interval
  }

  /** What timer_set promises: the client has one timer, with this function and due then, or none
      if the interval is null. Every other timer is as it was. */
  ghost predicate IsSet(
    q: seq<Entry>, q': seq<Entry>, interval: Arg, func: int, client: int, relative: bool, now: Time)
  {
    && OthersKept(q, q', client)
    && if interval.Null? then NoTimer(q', client)
       else exists x :: OnlyTimer(q', x) && x.client == client && x.func == func
                        && IsDue(x.time, interval.time, relative, now)
  }

  /** Which interval the client's timer has after timer_set, and which are left to the free
      elements: a client keeps its element, another takes the first free one or a new one. */
  ghost predicate IntervalsKept(s: State, s': State, interval: Arg, client: int) {
    && (forall o | o in s.q && o.client == client ::
          && s'.spare == (if interval.Null? then [o.interval] + s.spare else s.spare)
          && forall x | x in s'.q && x.client == client :: x.interval == o.interval)
    && (NoTimer(s.q, client) ==>
          && s'.spare == (if interval.Null? || s.spare == [] then s.spare else s.spare[1..])
          && forall x | x in s'.q && x.client == client ::
               x.interval == if s.spare == [] then ZERO else s.spare[0])
  }

  lemma WithoutMembers(q: seq<Entry>, client: int, stamp: nat)
    requires Good(q, stamp)
    ensures forall x :: x in Without(q, IndexOf(q, client)) <==> x in q && x.client != client
  {
    hide Good, IndexOf, Without;
    forall x | x in q && x.client != client ensures x in Without(q, IndexOf(q, client)) {
      StaysIn(q, client, x);
    }
    forall x | x in Without(q, IndexOf(q, client)) ensures x in q && x.client != client {
      CameFrom(q, client, x, stamp);
    }
  }

  lemma StaysIn(q: seq<Entry>, client: int, x: Entry)
    requires x in q && x.client != client
    ensures x in Without(q, IndexOf(q, client))
  {
    var i := IndexOf(q, client);
    var k :| 0 <= k < |q| && q[k] == x;
    assert i < |q| ==> Without(q, i)[if k < i then k else k - 1] == x;
  }

  lemma CameFrom(q: seq<Entry>, client: int, x: Entry, stamp: nat)
    requires Good(q, stamp) && x in Without(q, IndexOf(q, client))
    ensures x in q && x.client != client
  {
    hide InOrder;
    var i := IndexOf(q, client);
    var w := Without(q, i);
    var k :| 0 <= k < |w| && w[k] == x;
    assert x == q[if k < i then k else k + 1];
  }

  lemma OldTimer(q: seq<Entry>, client: int, stamp: nat)
    requires Good(q, stamp)
    ensures var i := IndexOf(q, client);
            if i < |q| then OnlyTimer(q, q[i]) && q[i].client == client else NoTimer(q, client)
  {
    hide InOrder;
  }

  /** timer_set does as promised, and the timer it sets is the newest. */
  lemma SetMeans(s: State, interval: Arg, func: int, client: int, relative: bool, now: Time)
    requires GoodState(s) && NormalArg(interval) && Normal(now)
    ensures var s' := Apply(s, SetEvent(interval, func, client, relative, now));
            && IsSet(s.q, s'.q, interval, func, client, relative, now)
            && IntervalsKept(s, s', interval, client)
            && forall x | x in s'.q && x.client == client :: x.stamp == s.stamp
  {
    hide Good, Without, IndexOf, Insert;
    var i := IndexOf(s.q, client);
    var w := Without(s.q, i);
    WithoutMembers(s.q, client, s.stamp);
    OldTimer(s.q, client, s.stamp);
    IndexBound(s.q, client);
    if interval.At? {
      TimeArithmetic(now, interval.time);
      var t := if relative then TimerAdd(now, interval.time) else interval.time;
      var kept := if i < |s.q| then s.q[i].interval else if s.spare != [] then s.spare[0] else ZERO;
      var x := Entry(t, kept, func, client, s.stamp);
      InsertMembers(w, x);
      assert OnlyTimer(Insert(w, x), x);
    }
  }

  lemma IndexBound(q: seq<Entry>, client: int)
    ensures IndexOf(q, client) <= |q|
  {
  }

  /** A fired timer is gone if it has no interval. If it has one it is back, due one interval
      after its old expiry, with the same function and interval. Every other timer is as it was. */
  ghost predicate IsFired(s: State, s': State, e: Entry) {
    && OthersKept(s.q, s'.q, e.client)
    && if e.interval == ZERO then NoTimer(s'.q, e.client) && s'.spare == [ZERO] + s.spare
       else
         && s'.spare == s.spare
         && exists x :: OnlyTimer(s'.q, x) && x.client == e.client && x.func == e.func && x.interval == e.interval
                        && IsDue(x.time, e.interval, true, e.time)
  }

  lemma FireMeans(s: State, now: Time)
    requires GoodState(s) && s.q != []
    ensures IsFired(s, Apply(s, Fire(now)), s.q[0])
  {
    hide Good, Without, Insert;
    var e := s.q[0];
    HeadTimer(s.q, s.stamp);
    if e.interval != ZERO {
      var x := Entry(TimerAdd(e.interval, e.time), e.interval, e.func, e.client, s.stamp);
      TimeArithmetic(e.interval, e.time);
      InsertMembers(s.q[1..], x);
      assert OnlyTimer(Insert(s.q[1..], x), x);
    }
  }

  lemma HeadTimer(q: seq<Entry>, stamp: nat)
    requires Good(q, stamp) && q != []
    ensures forall x :: x in q[1..] <==> x in q && x.client != q[0].client
    ensures Normal(q[0].time) && Normal(q[0].interval)
  {
    hide InOrder;
    forall x | x in q[1..] ensures x in q && x.client != q[0].client {
      var k :| 0 <= k < |q[1..]| && q[1..][k] == x;
      assert q[k + 1] == x;
    }
    forall x | x in q && x.client != q[0].client ensures x in q[1..] {
      var k :| 0 <= k < |q| && q[k] == x;
      assert q[1..][k - 1] == x;
    }
  }

  /** Writing through the pointer changes the interval of the client's element and nothing else. */
  lemma WriteMeans(s: State, client: int, every: Time)
    requires GoodState(s)
    ensures var s' := Apply(s, Write(client, every));
            && s'.spare == s.spare && s'.stamp == s.stamp && |s'.q| == |s.q|
            && forall i | 0 <= i < |s.q| ::
                 s'.q[i] == if s.q[i].client == client then s.q[i].(interval := every) else s.q[i]
  {
    hide InOrder;
    OldTimer(s.q, client, s.stamp);
  }

  // ---------------------------------------------------------------- a run of timer_get

  /** The event of one call of timer_set. */
  ghost predicate IsCall(e: Event, interval: Arg, func: int, client: int, relative: bool, now: Time) {
    if interval.Null? then e == Cancel(client)
    else
      && e.Arm? && e.request.func == func && e.request.client == client
      && IsDue(e.request.time, interval.time, relative, now)
  }

  /** timer_get returns here: nothing is queued, or the head has not expired by the time read.
      A script that has ended reads no time. */
  ghost predicate Returns(s: State, script: Script) {
    s.q == [] || script.Stop? || TimerLess(script.now, s.q[0].time)
  }

  /** In the state s the events are those of the calls a handler makes: one for every timer_set,
      one for the interval written through the pointer it returns, unless that is null, and those
      of every nested timer_get, which goes on until it may return. */
  ghost predicate MadeBy(s: State, es: seq<Event>, acts: Acts)
    decreases acts, 0
  {
    match acts
    case NoMore => es == []
    case Set(interval, every, func, client, relative, now, rest) =>
      var n := if interval.At? && every.At? then 2 else 1;
      && |es| >= n && IsCall(es[0], interval, func, client, relative, now)
      && (n == 2 ==> es[1] == Write(client, every.time))
      && MadeBy(Replay(s, es[..n]), es[n..], rest)
    case Get(script, rest) =>
      exists k, r | 0 <= k <= |es| ::
        GotBy(s, es[..k], script, r) && Returns(Replay(s, es[..k]), r) && MadeBy(Replay(s, es[..k]), es[k..], rest)
  }

  /** In the state s the events are those of the passes of timer_get from script up to r: in
      each the head fires, by the time read there, and then its handler is called. */
  ghost predicate GotBy(s: State, es: seq<Event>, script: Script, r: Script)
    decreases script, 0
  {
    if es == [] then r == script
    else
      && script.Turn? && !Returns(s, script) && es[0] == Fire(script.now)
      && exists k | 1 <= k <= |es| ::
           && MadeBy(Apply(s, es[0]), es[1..k], script.acts)
           && GotBy(Replay(s, es[..k]), es[k..], script.rest, r)
  }

  lemma CallIs(e: Event, interval: Arg, func: int, client: int, relative: bool, now: Time)
    requires NormalArg(interval) && Normal(now)
    ensures IsCall(e, interval, func, client, relative, now) <==> e == SetEvent(interval, func, client, relative, now)
  {
    if interval.At? {
      TimeArithmetic(now, interval.time);
      if e.Arm? && relative && Normal(e.request.time) {
        TimeArithmetic(e.request.time, TimerAdd(now, interval.time));
      }
    }
  }

  lemma Joined(a: seq<Event>, b: seq<Event>)
    ensures (a + b)[..|a|] == a && (a + b)[|a|..] == b
  {
  }

  lemma {:induction false} HandlerMade(s: State, acts: Acts)
    requires NormalActs(acts)
    ensures MadeBy(s, HandlerEvents(s, acts), acts)
    decreases acts, 0
  {
    hide Apply, Replay, Returns, IsCall, GetOutcome, GotBy;
    match acts
    case NoMore =>
    case Set(interval, every, func, client, relative, now, rest) =>
      var es := SetEvents(interval, every, func, client, relative, now);
      CallIs(es[0], interval, func, client, relative, now);
      HandlerMade(Replay(s, es), rest);
      Joined(es, HandlerEvents(Replay(s, es), rest));
    case Get(script, rest) =>
      var o := GetOutcome(s, script);
      GetMade(s, script);
      HandlerMade(Replay(s, o.events), rest);
      Joined(o.events, HandlerEvents(Replay(s, o.events), rest));
  }

  /** What timer_get does is made of exactly the calls of its script, and it goes on until it
      may return. */
  lemma {:induction false} GetMade(s: State, script: Script)
    requires NormalScript(script)
    ensures var o := GetOutcome(s, script);
            GotBy(s, o.events, script, o.rest) && Returns(Replay(s, o.events), o.rest)
    decreases script, 0
  {
    hide Apply, Replay, MadeBy, HandlerEvents;
    ReplayNothing(s);
    if !Returns(s, script) {
      var turn := TurnEvents(s, script.now, script.acts);
      var o := GetOutcome(Replay(s, turn), script.rest);
      HandlerMade(Apply(s, Fire(script.now)), script.acts);
      GetMade(Replay(s, turn), script.rest);
      Joined(turn, o.events);
      ReplayJoin(s, turn, o.events);
      assert (turn + o.events)[1..|turn|] == HandlerEvents(Apply(s, Fire(script.now)), script.acts);
    }
  }

  lemma ReplayNothing(s: State)
    ensures Replay(s, []) == s
  {
  }

  lemma CallsAre(es: seq<Event>, interval: Arg, every: Arg, func: int, client: int, relative: bool, now: Time)
    returns (n: nat)
    requires NormalArg(interval) && Normal(now)
    requires |es| >= 1 && IsCall(es[0], interval, func, client, relative, now)
    requires interval.At? && every.At? ==> |es| >= 2 && es[1] == Write(client, every.time)
    ensures n == if interval.At? && every.At? then 2 else 1
    ensures es[..n] == SetEvents(interval, every, func, client, relative, now)
  {
    hide IsCall, SetEvent;
    CallIs(es[0], interval, func, client, relative, now);
    n := if interval.At? && every.At? then 2 else 1;
  }

  lemma {:induction false} OnlyMade(s: State, es: seq<Event>, acts: Acts)
    requires NormalActs(acts) && MadeBy(s, es, acts)
    ensures es == HandlerEvents(s, acts)
    decreases acts, 0
  {
    hide Apply, Replay, Returns, IsCall, GetOutcome, GotBy, SetEvents;
    match acts
    case NoMore =>
    case Set(interval, every, func, client, relative, now, rest) =>
      var n := CallsAre(es, interval, every, func, client, relative, now);
      OnlyMade(Replay(s, es[..n]), es[n..], rest);
      assert es == es[..n] + es[n..];
    case Get(script, rest) =>
      var k, r :| 0 <= k <= |es| && GotBy(s, es[..k], script, r) && Returns(Replay(s, es[..k]), r)
                  && MadeBy(Replay(s, es[..k]), es[k..], rest);
      OnlyGot(s, es[..k], script, r);
      OnlyMade(Replay(s, es[..k]), es[k..], rest);
      assert es == es[..k] + es[k..];
  }

  /** And nothing else is. */
  lemma {:induction false} OnlyGot(s: State, es: seq<Event>, script: Script, r: Script)
    requires NormalScript(script) && GotBy(s, es, script, r) && Returns(Replay(s, es), r)
    ensures es == GetOutcome(s, script).events && r == GetOutcome(s, script).rest
    decreases script, 0
  {
    hide Apply, Replay, MadeBy, HandlerEvents;
    ReplayNothing(s);
    if es != [] {
      var k :| 1 <= k <= |es| && MadeBy(Apply(s, es[0]), es[1..k], script.acts)
               && GotBy(Replay(s, es[..k]), es[k..], script.rest, r);
      OnlyMade(Apply(s, es[0]), es[1..k], script.acts);
      assert es == es[..k] + es[k..] && es[..k] == [es[0]] + es[1..k];
      ReplayJoin(s, es[..k], es[k..]);
      OnlyGot(Replay(s, es[..k]), es[k..], script.rest, r);
    }
  }

  /** So these are the runs of timer_get, and there is one for every state and script. */
  lemma RunsIff(s: State, script: Script, es: seq<Event>, r: Script)
    requires NormalScript(script)
    ensures GotBy(s, es, script, r) && Returns(Replay(s, es), r)
            <==> es == GetOutcome(s, script).events && r == GetOutcome(s, script).rest
  {
    hide GotBy, Returns, Replay, GetOutcome;
    GetMade(s, script);
    if GotBy(s, es, script, r) && Returns(Replay(s, es), r) { OnlyGot(s, es, script, r); }
  }
}
