/** multimer.c: what the timer queue does, on plain values. */
module TimerSpec {

  const MILLION := 1_000_000

  /** struct timeval */
  datatype Time = Time(sec: int, usec: int)

  const ZERO := Time(0, 0)

  predicate Normal(t: Time) { 0 <= t.usec < MILLION }

  function TimerAdd(a: Time, b: Time): Time {
    var usec := a.usec + b.usec;
    if usec >= MILLION then Time(a.sec + b.sec + 1, usec - MILLION) else Time(a.sec + b.sec, usec)
  }

  predicate TimerLess(a: Time, b: Time) {
    a.sec < b.sec || (a.sec == b.sec && a.usec < b.usec)
  }

  /** The subtraction in timer_get. */
  function Gap(later: Time, now: Time): Time {
    var sec, usec := later.sec - now.sec, later.usec - now.usec;
    if usec < 0 then Time(sec - 1, usec + MILLION) else Time(sec, usec)
  }

  function Micros(t: Time): int { t.sec * MILLION + t.usec }

  /** On normalised times the three routines are addition, comparison and subtraction of
      microseconds, and keep times normalised. */
  lemma TimeArithmetic(a: Time, b: Time)
    requires Normal(a) && Normal(b)
    ensures Normal(TimerAdd(a, b)) && Micros(TimerAdd(a, b)) == Micros(a) + Micros(b)
    ensures TimerLess(a, b) <==> Micros(a) < Micros(b)
    ensures Normal(Gap(a, b)) && Micros(Gap(a, b)) == Micros(a) - Micros(b)
    ensures Micros(a) == Micros(b) ==> a == b
  {
  }

  // ---------------------------------------------------------------- the queue

  /** A queue element's data. The stamp counts insertions, to tell which of two elements with
      the same expiry was inserted first; the program has no such field. */
  datatype Entry = Entry(time: Time, interval: Time, func: int, client: int, stamp: nat)

  /** By expiry, ties in the order of insertion. */
  predicate Before(a: Entry, b: Entry) {
    TimerLess(a.time, b.time) || (a.time == b.time && a.stamp < b.stamp)
  }

  ghost predicate InOrder(q: seq<Entry>) {
    forall i, j | 0 <= i < j < |q| :: Before(q[i], q[j])
  }

  ghost predicate OneEach(q: seq<Entry>) {
    forall i, j | 0 <= i < j < |q| :: q[i].client != q[j].client
  }

  /** What every call keeps true of the active queue. */
  ghost predicate Good(q: seq<Entry>, stamp: nat) {
    && InOrder(q) && OneEach(q)
    && forall i | 0 <= i < |q| :: Normal(q[i].time) && Normal(q[i].interval) && q[i].stamp < stamp
  }

  /** The place of a client in the queue, or the length of the queue. */
  function IndexOf(q: seq<Entry>, client: int): (i: nat)
    ensures i <= |q| && (i < |q| ==> q[i].client == client)
    ensures forall j | 0 <= j < i :: q[j].client != client
  {
    if q == [] || q[0].client == client then 0 else 1 + IndexOf(q[1..], client)
  }

  function Without(q: seq<Entry>, i: nat): seq<Entry> {
    if i < |q| then q[..i] + q[i + 1..] else q
  }

  /** How many elements stay ahead of a new one: those that do not expire later. */
  function Ahead(q: seq<Entry>, t: Time): (i: nat)
    ensures i <= |q| && (i < |q| ==> TimerLess(t, q[i].time))
    ensures forall j | 0 <= j < i :: !TimerLess(t, q[j].time)
  {
    if q == [] || TimerLess(t, q[0].time) then 0 else 1 + Ahead(q[1..], t)
  }

  function Insert(q: seq<Entry>, e: Entry): seq<Entry> {
    var i := Ahead(q, e.time);
    q[..i] + [e] + q[i..]
  }

  /** The timer a call of timer_set asks for. */
  datatype Request = Request(time: Time, func: int, client: int)

  /** The active queue after timer_set: any old timer of the client goes, and the new one keeps
      the interval of the element it reuses, its own or else the first free one. */
  function Armed(q: seq<Entry>, f: seq<Time>, r: Request, stamp: nat): seq<Entry> {
    var i := IndexOf(q, r.client);
    var interval := if i < |q| then q[i].interval else if f != [] then f[0] else ZERO;
    Insert(Without(q, i), Entry(r.time, interval, r.func, r.client, stamp))
  }

  /** Taking out an element keeps order and uniqueness. */
  lemma WithoutGood(q: seq<Entry>, i: nat, stamp: nat)
    requires Good(q, stamp)
    ensures Good(Without(q, i), stamp)
    ensures i < |q| ==> forall j | 0 <= j < |Without(q, i)| :: Without(q, i)[j].client != q[i].client
  {
    if i < |q| {
      var w := Without(q, i);
      assert forall j | 0 <= j < |w| :: w[j] == q[if j < i then j else j + 1];
    }
  }

  lemma InsertGood(q: seq<Entry>, e: Entry, stamp: nat)
    requires Good(q, stamp) && e.stamp == stamp && Normal(e.time) && Normal(e.interval)
    requires forall j | 0 <= j < |q| :: q[j].client != e.client
    ensures Good(Insert(q, e), stamp + 1)
  {
    hide InOrder, Before;
    InsertInOrder(q, e);
    var k, r := Ahead(q, e.time), Insert(q, e);
    assert forall j | 0 <= j < |r| :: r[j] == if j < k then q[j] else if j == k then e else q[j - 1];
  }

  lemma InsertInOrder(q: seq<Entry>, e: Entry)
    requires InOrder(q) && forall j | 0 <= j < |q| :: q[j].stamp < e.stamp
    ensures InOrder(Insert(q, e))
  {
    hide Before, TimerLess;
    var k, r := Ahead(q, e.time), Insert(q, e);
    forall i, j | 0 <= i < j < |r| ensures Before(r[i], r[j]) {
      if j == k {
        InsertBefore(q[i], e);
      } else if i == k {
        if k < j - 1 { LessThrough(e.time, q[k], q[j - 1]); }
        BeforeLess(e, q[j - 1]);
      } else {
        assert r[i] == q[if i < k then i else i - 1] && r[j] == q[if j < k then j else j - 1];
      }
    }
  }

  lemma BeforeLess(a: Entry, b: Entry)
    requires TimerLess(a.time, b.time)
    ensures Before(a, b)
  {
  }

  lemma InsertBefore(a: Entry, e: Entry)
    requires !TimerLess(e.time, a.time) && a.stamp < e.stamp
    ensures Before(a, e)
  {
  }

  lemma LessThrough(t: Time, a: Entry, b: Entry)
    requires TimerLess(t, a.time) && Before(a, b)
    ensures TimerLess(t, b.time)
  {
  }

  /** timer_set keeps the queue sorted, ties in insertion order, each client at most once. */
  lemma ArmedGood(q: seq<Entry>, f: seq<Time>, r: Request, stamp: nat)
    requires Good(q, stamp) && Normal(r.time) && forall i | 0 <= i < |f| :: Normal(f[i])
    ensures Good(Armed(q, f, r, stamp), stamp + 1)
    ensures var a := Armed(q, f, r, stamp);
            (forall x | x in a :: x.client == r.client ==> x.time == r.time && x.stamp == stamp)
            && (exists x :: x in a && x.client == r.client)
  {
    var i := IndexOf(q, r.client);
    WithoutGood(q, i, stamp);
    var w := Without(q, i);
    var interval := if i < |q| then q[i].interval else if f != [] then f[0] else ZERO;
    var e := Entry(r.time, interval, r.func, r.client, stamp);
    InsertGood(w, e, stamp);
    var k, a := Ahead(w, e.time), Insert(w, e);
    assert a[k] == e;
    forall x | x in a && x != e ensures x in w { }
  }

  /** The queue after the head has been taken off and, if it has an interval, queued again at
      its old expiry plus the interval. */
  function Fired(q: seq<Entry>, stamp: nat): seq<Entry>
    requires q != []
  {
    var e := q[0];
    if e.interval.sec != 0 || e.interval.usec != 0 then
      Insert(q[1..], Entry(TimerAdd(e.interval, e.time), e.interval, e.func, e.client, stamp))
    else q[1..]
  }

  lemma FiredGood(q: seq<Entry>, stamp: nat)
    requires Good(q, stamp) && q != []
    ensures Good(Fired(q, stamp), if q[0].interval == ZERO then stamp else stamp + 1)
    ensures |Fired(q, stamp)| == if q[0].interval == ZERO then |q| - 1 else |q|
  {
    var e := q[0];
    TimeArithmetic(e.interval, e.time);
    assert q[1..] == Without(q, 0);
    WithoutGood(q, 0, stamp);
    if e.interval != ZERO {
      InsertGood(q[1..], Entry(TimerAdd(e.interval, e.time), e.interval, e.func, e.client, stamp), stamp);
    }
  }

  /** A fired interval timer is back in the queue once, due one interval after its old expiry,
      whatever the clock says by now; every other timer is left as it was. */
  lemma FiredRequeues(q: seq<Entry>, stamp: nat)
    requires Good(q, stamp) && q != [] && q[0].interval != ZERO
    ensures exists x :: x in Fired(q, stamp) && x.client == q[0].client
                        && Micros(x.time) == Micros(q[0].time) + Micros(q[0].interval)
    ensures forall x :: x in Fired(q, stamp) && x.client != q[0].client <==> x in q[1..]
  {
    hide Insert, Before;
    var e := q[0];
    TimeArithmetic(e.interval, e.time);
    var n := Entry(TimerAdd(e.interval, e.time), e.interval, e.func, e.client, stamp);
    InsertMembers(q[1..], n);
    assert n in Fired(q, stamp);
    forall x | x in q[1..] ensures x.client != e.client {
      var j :| 0 <= j < |q[1..]| && q[1..][j] == x;
      assert q[j + 1] == x;
    }
  }

  lemma InsertMembers(q: seq<Entry>, e: Entry)
    ensures forall x :: x in Insert(q, e) <==> x == e || x in q
  {
    hide Ahead;
    AheadBound(q, e.time);
    var k, r := Ahead(q, e.time), Insert(q, e);
    assert r[k] == e;
    forall x | x in q ensures x in r {
      var j :| 0 <= j < |q| && q[j] == x;
      assert r[if j < k then j else j + 1] == x;
    }
  }

  lemma AheadBound(q: seq<Entry>, t: Time)
    ensures Ahead(q, t) <= |q|
  {
  }

  // ---------------------------------------------------------------- states and what changes them

  /** The active queue, the intervals left in the elements of the free list, front to back, and
      the stamp of the next insertion. */
  datatype State = State(q: seq<Entry>, spare: seq<Time>, stamp: nat)

  ghost predicate GoodState(s: State) {
    Good(s.q, s.stamp) && forall i | 0 <= i < |s.spare| :: Normal(s.spare[i])
  }

  /** A timer fired by timer_get, with the time it read from the clock; a timer set or cancelled
      by timer_set; an interval written through the pointer that timer_set returned. */
  datatype Event = Fire(now: Time) | Arm(request: Request) | Cancel(client: int) | Write(client: int, every: Time)

  function Apply(s: State, e: Event): State {
    match e
    case Fire(_) =>
      if s.q == [] then s
      else if s.q[0].interval == ZERO then State(Fired(s.q, s.stamp), [ZERO] + s.spare, s.stamp)
      else State(Fired(s.q, s.stamp), s.spare, s.stamp + 1)
    case Arm(r) =>
      State(Armed(s.q, s.spare, r, s.stamp),
            if IndexOf(s.q, r.client) < |s.q| || s.spare == [] then s.spare else s.spare[1..],
            s.stamp + 1)
    case Cancel(client) =>
      var i := IndexOf(s.q, client);
      s.(q := Without(s.q, i), spare := if i < |s.q| then [s.q[i].interval] + s.spare else s.spare)
    case Write(client, every) =>
      var i := IndexOf(s.q, client);
      if i < |s.q| then s.(q := s.q[i := s.q[i].(interval := every)]) else s
  }

  function Replay(s: State, es: seq<Event>): State
    decreases |es|
  {
    if es == [] then s else Replay(Apply(s, es[0]), es[1..])
  }

  /** A timer may fire only at the head of the queue, and only once its expiry has passed. */
  predicate Enabled(s: State, e: Event) {
    match e
    case Fire(now) => s.q != [] && Normal(now) && !TimerLess(now, s.q[0].time)
    case Arm(r) => Normal(r.time)
    case Cancel(_) => true
    case Write(_, every) => Normal(every)
  }

  predicate Legal(s: State, es: seq<Event>)
    decreases |es|
  {
    es == [] || (Enabled(s, es[0]) && Legal(Apply(s, es[0]), es[1..]))
  }

  lemma {:induction false} ReplayJoin(s: State, a: seq<Event>, b: seq<Event>)
    ensures Replay(s, a + b) == Replay(Replay(s, a), b)
    ensures Legal(s, a + b) <==> Legal(s, a) && Legal(Replay(s, a), b)
    decreases |a|
  {
    hide Apply, Enabled;
    if a == [] {
      assert a + b == b;
    } else {
      assert (a + b)[0] == a[0] && (a + b)[1..] == a[1..] + b;
      ReplayJoin(Apply(s, a[0]), a[1..], b);
    }
  }

  lemma ReplayOne(s: State, e: Event)
    ensures Replay(s, [e]) == Apply(s, e) && (Legal(s, [e]) <==> Enabled(s, e))
  {
    hide Apply, Enabled;
    assert [e][1..] == [];
    assert Replay(Apply(s, e), []) == Apply(s, e);
  }

  /** Every event leads from a good state to a good state. */
  lemma ApplyGood(s: State, e: Event)
    requires GoodState(s) && Enabled(s, e)
    ensures GoodState(Apply(s, e))
  {
    hide Good, Fired, Armed, Without, IndexOf;
    match e
    case Fire(_) => FiredGood(s.q, s.stamp);
    case Arm(r) => ArmedGood(s.q, s.spare, r, s.stamp);
    case Cancel(client) =>
      WithoutGood(s.q, IndexOf(s.q, client), s.stamp);
      EntryNormal(s.q, s.stamp);
    case Write(client, every) =>
      if IndexOf(s.q, client) < |s.q| { WrittenGood(s.q, IndexOf(s.q, client), every, s.stamp); }
  }

  /** A call of timer_set leaves the client without a timer if and only if the interval is the
      null pointer. */
  lemma CancelsIff(s: State, interval: Arg, func: int, client: int, relative: bool, now: Time)
    requires GoodState(s) && NormalArg(interval) && Normal(now)
    ensures var q := Apply(s, SetEvent(interval, func, client, relative, now)).q;
            interval.Null? <==> forall x | x in q :: x.client != client
  {
    hide Good, Insert, Without;
    if interval.At? {
      TimeArithmetic(now, interval.time);
      var r := SetEvent(interval, func, client, relative, now).request;
      ArmedGood(s.q, s.spare, r, s.stamp);
    } else {
      ClientGone(s.q, client, s.stamp);
    }
  }

  lemma ClientGone(q: seq<Entry>, client: int, stamp: nat)
    requires Good(q, stamp)
    ensures forall x | x in Without(q, IndexOf(q, client)) :: x.client != client
  {
    var i := IndexOf(q, client);
    WithoutGood(q, i, stamp);
  }

  /** A zero interval, from now on, does not cancel: the client's timer is due at once, and the
      next timer_get that reads the clock no earlier finds the head of the queue expired. */
  lemma ZeroIsDueAtOnce(s: State, func: int, client: int, now: Time, later: Time)
    requires GoodState(s) && Normal(now) && Normal(later) && !TimerLess(later, now)
    ensures var q := Apply(s, SetEvent(At(ZERO), func, client, true, now)).q;
            && (exists x :: x in q && x.client == client && x.time == now)
            && q != [] && !TimerLess(later, q[0].time)
  {
    hide Good, Insert, Without;
    TimeArithmetic(now, ZERO);
    var r := Request(now, func, client);
    assert SetEvent(At(ZERO), func, client, true, now) == Arm(r);
    ArmedGood(s.q, s.spare, r, s.stamp);
    var q := Armed(s.q, s.spare, r, s.stamp);
    var x :| x in q && x.client == client;
    HeadFirst(q, x, s.stamp + 1);
  }

  lemma HeadFirst(q: seq<Entry>, x: Entry, stamp: nat)
    requires Good(q, stamp) && x in q
    ensures q != [] && !TimerLess(x.time, q[0].time)
  {
    var i :| 0 <= i < |q| && q[i] == x;
    if i > 0 { assert Before(q[0], q[i]); }
  }

  lemma EntryNormal(q: seq<Entry>, stamp: nat)
    requires Good(q, stamp)
    ensures forall i | 0 <= i < |q| :: Normal(q[i].interval)
  {
  }

  lemma WrittenGood(q: seq<Entry>, i: nat, every: Time, stamp: nat)
    requires Good(q, stamp) && i < |q| && Normal(every)
    ensures Good(q[i := q[i].(interval := every)], stamp)
  {
  }

  /** In a legal run every step starts in a good state, and every timer that fires is the head
      of the queue there, with its expiry passed. */
  lemma {:induction false} LegalMeans(s: State, es: seq<Event>, i: nat)
    requires GoodState(s) && Legal(s, es) && i <= |es|
    ensures GoodState(Replay(s, es[..i]))
    ensures i < |es| ==> Enabled(Replay(s, es[..i]), es[i])
    decreases i
  {
    hide Apply, Enabled, GoodState;
    if i > 0 {
      ApplyGood(s, es[0]);
      assert es[..i][0] == es[0] && es[..i][1..] == es[1..][..i - 1];
      LegalMeans(Apply(s, es[0]), es[1..], i - 1);
    }
  }

  // ---------------------------------------------------------------- timer_get

  /** The interval argument of timer_set: a null pointer, or a time. */
  datatype Arg = Null | At(time: Time)

  /** What timer_get returns: a null pointer, or the time to wait. Looping is a call for which
      the script below ran out. */
  datatype Timeout = NoTimers | Wait(t: Time) | Looping

  /** What happens around a call of timer_get: what each pass of its loop reads from the clock,
      and what the handler does if the head has expired. */
  datatype Script = Stop | Turn(now: Time, acts: Acts, rest: Script)

  /** The calls a handler makes, in order: timer_set, with the clock it may read and an interval
      written through the pointer returned, and timer_get again. */
  datatype Acts =
    | NoMore
    | Set(interval: Arg, every: Arg, func: int, client: int, relative: bool, now: Time, rest: Acts)
    | Get(script: Script, rest: Acts)

  predicate NormalArg(a: Arg) { a.At? ==> Normal(a.time) }

  predicate NormalScript(s: Script) {
    s.Turn? ==> Normal(s.now) && NormalActs(s.acts) && NormalScript(s.rest)
  }

  predicate NormalActs(a: Acts) {
    match a
    case NoMore => true
    case Set(interval, every, _, _, _, now, rest) =>
      NormalArg(interval) && NormalArg(every) && Normal(now) && NormalActs(rest)
    case Get(script, rest) => NormalScript(script) && NormalActs(rest)
  }

  /** What a call of timer_set does: with a null pointer it cancels. */
  function SetEvent(interval: Arg, func: int, client: int, relative: bool, now: Time): Event {
    if interval.Null? then Cancel(client)
    else Arm(Request(if relative then TimerAdd(now, interval.time) else interval.time, func, client))
  }

  function SetEvents(interval: Arg, every: Arg, func: int, client: int, relative: bool, now: Time): seq<Event> {
    [SetEvent(interval, func, client, relative, now)]
    + if interval.At? && every.At? then [Write(client, every.time)] else []
  }

  /** What a call of timer_get does, returns, and leaves of the script. */
  datatype Outcome = Outcome(events: seq<Event>, timeout: Timeout, rest: Script)

  function After(es: seq<Event>, o: Outcome): Outcome {
    o.(events := es + o.events)
  }

  function HandlerEvents(s: State, acts: Acts): seq<Event>
    decreases acts, 0
  {
    match acts
    case NoMore => []
    case Set(interval, every, func, client, relative, now, rest) =>
      var es := SetEvents(interval, every, func, client, relative, now);
      es + HandlerEvents(Replay(s, es), rest)
    case Get(script, rest) =>
      var es := GetOutcome(s, script).events;
      es + HandlerEvents(Replay(s, es), rest)
  }

  function GetOutcome(s: State, script: Script): Outcome
    decreases script, 0
  {
    if s.q == [] then Outcome([], NoTimers, script)
    else if script.Stop? then Outcome([], Looping, script)
    else if TimerLess(script.now, s.q[0].time) then
      Outcome([], Wait(Gap(s.q[0].time, script.now)), script)
    else
      var es := TurnEvents(s, script.now, script.acts);
      After(es, GetOutcome(Replay(s, es), script.rest))
  }

  /** A pass of the loop that finds the head expired: it fires, and is queued again if it has an
      interval, before its handler is called. */
  function TurnEvents(s: State, now: Time, acts: Acts): seq<Event>
    decreases acts, 1
  {
    [Fire(now)] + HandlerEvents(Apply(s, Fire(now)), acts)
  }

  /** What is left of a script after some turns. */
  predicate Suffix(r: Script, s: Script) {
    r == s || (s.Turn? && Suffix(r, s.rest))
  }

  /** t is the positive, normalised time from now to the expiry. */
  predicate IsGap(t: Time, expiry: Time, now: Time) {
    Normal(t) && Micros(t) == Micros(expiry) - Micros(now) && Micros(t) > 0
  }

  /** The answer of timer_get fits the queue it leaves: a null pointer for an empty one, else
      the exact gap from the time read in the last pass to the next expiry, no timer having
      expired by that time. */
  ghost predicate Answers(timeout: Timeout, rest: Script, q: seq<Entry>) {
    match timeout
    case NoTimers => q == []
    case Wait(t) =>
      && rest.Turn? && q != [] && IsGap(t, q[0].time, rest.now)
      && forall i | 0 <= i < |q| :: TimerLess(rest.now, q[i].time)
    case Looping => rest.Stop? && q != []
  }

  lemma SetEventsLegal(s: State, interval: Arg, every: Arg, func: int, client: int, relative: bool, now: Time)
    requires NormalArg(interval) && NormalArg(every) && Normal(now)
    ensures Legal(s, SetEvents(interval, every, func, client, relative, now))
  {
    hide Apply;
    if interval.At? { TimeArithmetic(now, interval.time); }
    var e := SetEvent(interval, func, client, relative, now);
    ReplayOne(s, e);
    if interval.At? && every.At? {
      ReplayOne(Apply(s, e), Write(client, every.time));
      ReplayJoin(s, [e], [Write(client, every.time)]);
    }
  }

  lemma {:induction false} HandlerLegal(s: State, acts: Acts)
    requires GoodState(s) && NormalActs(acts)
    ensures Legal(s, HandlerEvents(s, acts)) && GoodState(Replay(s, HandlerEvents(s, acts)))
    decreases acts, 0
  {
    hide Apply, GoodState, Legal, Replay, SetEvents, GetOutcome;
    LegalNothing(s);
    match acts
    case NoMore =>
    case Set(interval, every, func, client, relative, now, rest) =>
      var es := SetEvents(interval, every, func, client, relative, now);
      SetEventsLegal(s, interval, every, func, client, relative, now);
      LegalRun(s, es);
      HandlerLegal(Replay(s, es), rest);
      ReplayJoin(s, es, HandlerEvents(Replay(s, es), rest));
    case Get(script, rest) =>
      var es := GetOutcome(s, script).events;
      GetSound(s, script);
      HandlerLegal(Replay(s, es), rest);
      ReplayJoin(s, es, HandlerEvents(Replay(s, es), rest));
  }

  lemma LegalNothing(s: State)
    ensures Legal(s, []) && Replay(s, []) == s
  {
  }

  lemma LegalRun(s: State, es: seq<Event>)
    requires GoodState(s) && Legal(s, es)
    ensures GoodState(Replay(s, es))
  {
    LegalMeans(s, es, |es|);
    assert es[..|es|] == es;
  }

  lemma TurnLegal(s: State, now: Time, acts: Acts)
    requires GoodState(s) && NormalActs(acts) && Enabled(s, Fire(now))
    ensures Legal(s, TurnEvents(s, now, acts)) && GoodState(Replay(s, TurnEvents(s, now, acts)))
    decreases acts, 1
  {
    hide Apply, GoodState, Legal, Replay, HandlerEvents, Enabled;
    ApplyGood(s, Fire(now));
    ReplayOne(s, Fire(now));
    HandlerLegal(Apply(s, Fire(now)), acts);
    ReplayJoin(s, [Fire(now)], HandlerEvents(Apply(s, Fire(now)), acts));
  }

  /** timer_get with re-entrant handlers: all that happens, in the nested calls too, is a legal
      run, which leaves a good state; the answer fits what is left, and the pass that gave it
      is one of the script. */
  lemma {:induction false} GetSound(s: State, script: Script)
    requires GoodState(s) && NormalScript(script)
    ensures var o := GetOutcome(s, script);
            && Legal(s, o.events) && GoodState(Replay(s, o.events))
            && Suffix(o.rest, script) && Answers(o.timeout, o.rest, Replay(s, o.events).q)
    decreases script, 0
  {
    hide Legal, Replay, GoodState, Answers, IsGap, TurnEvents, Apply;
    LegalNothing(s);
    if s.q == [] || script.Stop? || TimerLess(script.now, s.q[0].time) {
      AnswersNow(s, script);
    } else {
      var es := TurnEvents(s, script.now, script.acts);
      TurnLegal(s, script.now, script.acts);
      GetSound(Replay(s, es), script.rest);
      ReplayJoin(s, es, GetOutcome(Replay(s, es), script.rest).events);
    }
  }

  lemma AnswersNow(s: State, script: Script)
    requires GoodState(s) && NormalScript(script)
    requires s.q == [] || script.Stop? || TimerLess(script.now, s.q[0].time)
    ensures var o := GetOutcome(s, script);
            o.events == [] && o.rest == script && Answers(o.timeout, script, s.q)
  {
    if s.q != [] && script.Turn? {
      TimeArithmetic(s.q[0].time, script.now);
      TimeArithmetic(script.now, s.q[0].time);
      forall i | 0 <= i < |s.q| ensures TimerLess(script.now, s.q[i].time) {
        if i > 0 { LessThrough(script.now, s.q[0], s.q[i]); }
      }
    }
  }
}
