/** dir_monitor_impl.hpp: handing events over between threads, with a mutex and a condition
    variable. Threads interleave at every lock, wait, notify and access to the shared fields. */
module DirMonitor {

  type Tid = nat

  datatype EventType = Added | Removed | RenamedOldName | RenamedNewName | NullEvent

  datatype Event = Event(dirname: string, filename: string, kind: EventType)

  /** What a finished call gives back: popfront_event an event or operation_aborted. */
  datatype Result = Nothing | Popped(ev: Event) | OperationAborted

  /** Where a thread stands in pushback_event, popfront_event or destroy. */
  datatype Pc =
    | Idle
    | PushLock(ev: Event)   // before the lock
    | PushTest(ev: Event)   // tests run_, then appends
    | PushNotify            // before notify_all
    | PopLock
    | PopTest               // the test of the wait loop
    | PopWait               // waiting, the lock released, not notified yet
    | PopWoken              // notified, or woken for no reason; must lock again
    | PopTake               // past the loop
    | StopLock
    | StopSet               // before run_ is cleared
    | StopNotify
    | Unlock(result: Result) // before the lock is released at the end of the scope

  datatype Owner = Free | Held(tid: Tid)

  /** The shared fields, the threads, and two histories: the events accepted by pushback_event,
      and those popped. */
  datatype State = State(
    run: bool, events: seq<Event>, owner: Owner, pcs: map<Tid, Pc>,
    accepted: seq<Event>, popped: seq<Event>)

  datatype Action =
    | CallPush(t: Tid, ev: Event)
    | CallPop(t: Tid)
    | CallDestroy(t: Tid)
    | Acquire(t: Tid)      // takes the free mutex
    | Step(t: Tid)         // the next step of the thread that holds the mutex
    | WakeUp(t: Tid)       // a spurious wakeup

  const START := State(true, [], Free, map[], [], [])

  function PcOf(s: State, t: Tid): Pc {
    if t in s.pcs then s.pcs[t] else Idle
  }

  function At(s: State, t: Tid, pc: Pc): State {
    s.(pcs := s.pcs[t := pc])
  }

  predicate WantsLock(pc: Pc) { pc.PushLock? || pc.PopLock? || pc.PopWoken? || pc.StopLock? }

  predicate Holds(pc: Pc) {
    pc.PushTest? || pc.PushNotify? || pc.PopTest? || pc.PopTake? || pc.StopSet? || pc.StopNotify? || pc.Unlock?
  }

  /** Where a thread goes on once it has the lock. */
  function Locked(pc: Pc): Pc
    requires WantsLock(pc)
  {
    match pc
    case PushLock(ev) => PushTest(ev)
    case StopLock => StopSet
    case _ => PopTest
  }

  /** The notification wakes every thread that waits. */
  function NotifyAll(pcs: map<Tid, Pc>): map<Tid, Pc> {
    map t | t in pcs :: if pcs[t] == PopWait then PopWoken else pcs[t]
  }

  predicate Enabled(s: State, a: Action) {
    match a
    case CallPush(t, _) => PcOf(s, t) == Idle
    case CallPop(t) => PcOf(s, t) == Idle
    case CallDestroy(t) => PcOf(s, t) == Idle
    case Acquire(t) => s.owner == Free && WantsLock(PcOf(s, t))
    case Step(t) => s.owner == Held(t) && Holds(PcOf(s, t))
    case WakeUp(t) => PcOf(s, t) == PopWait
  }

  /** One step of the thread that holds the mutex. */
  function Advance(s: State, t: Tid): State
    requires Holds(PcOf(s, t))
  {
    match PcOf(s, t)
    case PushTest(ev) =>
      if s.run then At(s.(events := s.events + [ev], accepted := s.accepted + [ev]), t, PushNotify)
      else At(s, t, Unlock(Nothing))
    case PushNotify => At(s.(pcs := NotifyAll(s.pcs)), t, Unlock(Nothing))
    case PopTest =>
      if s.run && s.events == [] then At(s.(owner := Free), t, PopWait)
      else At(s, t, PopTake)
    case PopTake =>
      if s.events != [] then
        At(s.(events := s.events[1..], popped := s.popped + [s.events[0]]), t, Unlock(Popped(s.events[0])))
      else At(s, t, Unlock(OperationAborted))
    case StopSet => At(s.(run := false), t, StopNotify)
    case StopNotify => At(s.(pcs := NotifyAll(s.pcs)), t, Unlock(Nothing))
    case Unlock(_) => At(s.(owner := Free), t, Idle)
  }

  function Do(s: State, a: Action): State
    requires Enabled(s, a)
  {
    match a
    case CallPush(t, ev) => At(s, t, PushLock(ev))
    case CallPop(t) => At(s, t, PopLock)
    case CallDestroy(t) => At(s, t, StopLock)
    case Acquire(t) => At(s.(owner := Held(t)), t, Locked(PcOf(s, t)))
    case Step(t) => Advance(s, t)
    case WakeUp(t) => At(s, t, PopWoken)
  }

  // ---------------------------------------------------------------- invariant

  /** Only the owner of the mutex is inside a critical section. */
  ghost predicate Exclusive(s: State) {
    && (forall t | t in s.pcs && Holds(s.pcs[t]) :: s.owner == Held(t))
    && (s.owner.Held? ==> Holds(PcOf(s, s.owner.tid)))
  }

  /** Popped events and those still queued are, in order, the accepted ones. */
  ghost predicate Conserved(s: State) {
    s.accepted == s.popped + s.events
  }

  /** Someone is about to call notify_all. */
  predicate Notifying(s: State) {
    s.owner.Held? && (PcOf(s, s.owner.tid).PushNotify? || PcOf(s, s.owner.tid).StopNotify?)
  }

  /** A thread waits, un-notified, only while there is nothing for it to do, or until the
      notification that is on its way. */
  ghost predicate NoLostWakeup(s: State) {
    forall t | t in s.pcs && s.pcs[t] == PopWait :: (s.run && s.events == []) || Notifying(s)
  }

  /** A thread past the wait loop has an event to take, or the monitor has stopped. */
  ghost predicate LoopLeft(s: State) {
    forall t | t in s.pcs && s.pcs[t] == PopTake :: !s.run || s.events != []
  }

  ghost predicate Inv(s: State) {
    Exclusive(s) && Conserved(s) && NoLostWakeup(s) && LoopLeft(s)
  }

  lemma StepKeepsExclusive(s: State, a: Action)
    requires Exclusive(s) && Enabled(s, a)
    ensures Exclusive(Do(s, a))
  {
  }

  lemma StepKeepsConserved(s: State, a: Action)
    requires Conserved(s) && Enabled(s, a)
    ensures Conserved(Do(s, a))
  {
    if a.Step? && PcOf(s, a.t).PopTake? && s.events != [] {
      assert s.popped + s.events == (s.popped + [s.events[0]]) + s.events[1..];
    } else if a.Step? && PcOf(s, a.t).PushTest? && s.run {
      assert s.popped + (s.events + [PcOf(s, a.t).ev]) == (s.popped + s.events) + [PcOf(s, a.t).ev];
    }
  }

  lemma StepKeepsWakeups(s: State, a: Action)
    requires Exclusive(s) && NoLostWakeup(s) && Enabled(s, a)
    ensures NoLostWakeup(Do(s, a))
  {
  }

  lemma StepKeepsLoopLeft(s: State, a: Action)
    requires Exclusive(s) && LoopLeft(s) && Enabled(s, a)
    ensures LoopLeft(Do(s, a))
  {
  }

  /** Every step of every thread keeps the invariant. */
  lemma StepKeepsInv(s: State, a: Action)
    requires Inv(s) && Enabled(s, a)
    ensures Inv(Do(s, a))
  {
    hide Do, Exclusive, Conserved, NoLostWakeup, LoopLeft;
    StepKeepsExclusive(s, a);
    StepKeepsConserved(s, a);
    StepKeepsWakeups(s, a);
    StepKeepsLoopLeft(s, a);
  }

  // ---------------------------------------------------------------- whole runs

  ghost predicate IsRun(s: State, acts: seq<Action>)
    decreases |acts|
  {
    acts == [] || (Enabled(s, acts[0]) && IsRun(Do(s, acts[0]), acts[1..]))
  }

  function After(s: State, acts: seq<Action>): State
    requires IsRun(s, acts)
    decreases |acts|
  {
    if acts == [] then s else After(Do(s, acts[0]), acts[1..])
  }

  lemma {:induction false} RunKeepsInv(s: State, acts: seq<Action>)
    requires Inv(s) && IsRun(s, acts)
    ensures Inv(After(s, acts))
    decreases |acts|
  {
    if acts != [] {
      StepKeepsInv(s, acts[0]);
      RunKeepsInv(Do(s, acts[0]), acts[1..]);
    }
  }

  /** For every interleaving: what was popped is a prefix of what was accepted, in order and
      each event once; and whenever the mutex is free, a thread that waits un-notified has
      nothing to wait for but a new event or the stop. */
  lemma HandOff(acts: seq<Action>)
    requires IsRun(START, acts)
    ensures var s := After(START, acts);
            && s.popped <= s.accepted && s.accepted == s.popped + s.events
            && (s.owner == Free ==>
                  forall t | t in s.pcs && s.pcs[t] == PopWait :: s.run && s.events == [])
            && (forall t, u | t in s.pcs && u in s.pcs && Holds(s.pcs[t]) && Holds(s.pcs[u]) :: t == u)
  {
    RunKeepsInv(START, acts);
    var s := After(START, acts);
    forall t, u | t in s.pcs && u in s.pcs && Holds(s.pcs[t]) && Holds(s.pcs[u]) ensures t == u {
      assert s.owner == Held(t) && s.owner == Held(u);
    }
  }

  /** operation_aborted comes out only of a stopped monitor with nothing queued. */
  lemma AbortedOnlyWhenDone(acts: seq<Action>, t: Tid)
    requires IsRun(START, acts) && Enabled(After(START, acts), Step(t))
    requires var s := After(START, acts);
             PcOf(s, t) == PopTake && PcOf(Do(s, Step(t)), t) == Unlock(OperationAborted)
    ensures var s := After(START, acts); !s.run && s.events == []
  {
    RunKeepsInv(START, acts);
  }

  /** Once stopped the monitor stays stopped and accepts nothing more; before that, an event is
      accepted just when pushback_event finds run_ true. */
  lemma {:induction false} StopsForGood(s: State, acts: seq<Action>)
    requires IsRun(s, acts) && !s.run
    ensures !After(s, acts).run && After(s, acts).accepted == s.accepted
    decreases |acts|
  {
    if acts != [] {
      var s' := Do(s, acts[0]);
      assert !s'.run && s'.accepted == s.accepted;
      StopsForGood(s', acts[1..]);
    }
  }

  // ---------------------------------------------------------------- refinement

  /** What a client may think of: a queue with atomic operations. */
  datatype Queue = Queue(run: bool, events: seq<Event>)

  datatype Op = Stutter | Push(ev: Event) | Pop(ev: Event) | Abort | Stop

  ghost predicate Atomic(q: Queue, op: Op, q': Queue) {
    match op
    case Stutter => q' == q
    case Push(ev) => q' == if q.run then q.(events := q.events + [ev]) else q
    case Pop(ev) => q.events != [] && ev == q.events[0] && q' == q.(events := q.events[1..])
    case Abort => !q.run && q.events == [] && q' == q
    case Stop => q' == q.(run := false)
  }

  function Abs(s: State): Queue { Queue(s.run, s.events) }

  /** The atomic operation a step stands for. */
  function OpOf(s: State, a: Action): Op {
    if !a.Step? then Stutter
    else
      match PcOf(s, a.t)
      case PushTest(ev) => Push(ev)
      case PopTake => if s.events != [] then Pop(s.events[0]) else Abort
      case StopSet => Stop
      case _ => Stutter
  }

  /** The interleaved monitor refines the atomic queue: every step is one atomic operation or
      none, made while the thread holds the lock, and its result is what the call gives back. */
  lemma StepRefines(s: State, a: Action)
    requires Inv(s) && Enabled(s, a)
    ensures Atomic(Abs(s), OpOf(s, a), Abs(Do(s, a)))
    ensures OpOf(s, a) != Stutter ==> s.owner == Held(a.t)
    ensures a.Step? && OpOf(s, a).Pop? ==> PcOf(Do(s, a), a.t) == Unlock(Popped(OpOf(s, a).ev))
    ensures a.Step? && OpOf(s, a).Abort? ==> PcOf(Do(s, a), a.t) == Unlock(OperationAborted)
  {
  }

  /** What a call is there to do. */
  datatype Call = Pushing(ev: Event) | Popping | Stopping

  predicate Performs(op: Op, c: Call) {
    match c
    case Pushing(ev) => op == Push(ev)
    case Popping => op.Pop? || op.Abort?
    case Stopping => op == Stop
  }

  /** The call that a thread is in, as long as its operation is still to come. */
  function Pending(pc: Pc): (cs: seq<Call>)
    ensures |cs| <= 1
  {
    match pc
    case PushLock(ev) => [Pushing(ev)]
    case PushTest(ev) => [Pushing(ev)]
    case PopLock => [Popping]
    case PopTest => [Popping]
    case PopWait => [Popping]
    case PopWoken => [Popping]
    case PopTake => [Popping]
    case StopLock => [Stopping]
    case StopSet => [Stopping]
    case _ => []
  }

  /** The call that an action of the thread begins. */
  function Begun(a: Action, t: Tid): seq<Call> {
    if a.t != t then []
    else
      match a
      case CallPush(_, ev) => [Pushing(ev)]
      case CallPop(_) => [Popping]
      case CallDestroy(_) => [Stopping]
      case _ => []
  }

  /** The operation that an action of the thread performs. */
  function Performed(s: State, a: Action, t: Tid): seq<Op> {
    if a.t != t || OpOf(s, a) == Stutter then [] else [OpOf(s, a)]
  }

  /** The calls a thread begins in a run, in order, and the operations it performs. */
  function Calls(acts: seq<Action>, t: Tid): seq<Call> {
    if acts == [] then [] else Begun(acts[0], t) + Calls(acts[1..], t)
  }

  function Ops(s: State, acts: seq<Action>, t: Tid): seq<Op>
    requires IsRun(s, acts)
    decreases |acts|
  {
    if acts == [] then [] else Performed(s, acts[0], t) + Ops(Do(s, acts[0]), acts[1..], t)
  }

  /** The operations are those of the first calls, one each, and the rest is still to come. */
  ghost predicate Served(calls: seq<Call>, ops: seq<Op>, rest: seq<Call>) {
    && |ops| <= |calls| && calls[|ops|..] == rest
    && forall i | 0 <= i < |ops| :: Performs(ops[i], calls[i])
  }

  lemma OneStep(s: State, a: Action, t: Tid)
    requires Enabled(s, a)
    ensures Served(Pending(PcOf(s, t)) + Begun(a, t), Performed(s, a, t), Pending(PcOf(Do(s, a), t)))
  {
    if a.t != t { OtherThread(s, a, t); }
  }

  lemma OtherThread(s: State, a: Action, t: Tid)
    requires Enabled(s, a) && a.t != t
    ensures PcOf(Do(s, a), t) == PcOf(s, t) || (PcOf(s, t) == PopWait && PcOf(Do(s, a), t) == PopWoken)
  {
  }

  lemma ServedJoin(p: seq<Call>, o: seq<Op>, mid: seq<Call>, c: seq<Call>, ops: seq<Op>, rest: seq<Call>)
    requires Served(p, o, mid) && Served(mid + c, ops, rest)
    ensures Served(p + c, o + ops, rest)
  {
    assert p == p[..|o|] + mid;
    assert p + c == p[..|o|] + (mid + c);
    forall i | 0 <= i < |o + ops| ensures Performs((o + ops)[i], (p + c)[i]) {
      if i >= |o| { assert (p + c)[i] == (mid + c)[i - |o|]; }
    }
    assert (p + c)[|o + ops|..] == (mid + c)[|ops|..];
  }

  lemma {:induction false} ServedSoFar(s: State, acts: seq<Action>, t: Tid)
    requires IsRun(s, acts)
    ensures Served(Pending(PcOf(s, t)) + Calls(acts, t), Ops(s, acts, t), Pending(PcOf(After(s, acts), t)))
    decreases |acts|
  {
    hide Served, Pending, Begun, Performed, Do, Enabled;
    var p := Pending(PcOf(s, t));
    if acts == [] {
      ServedNothing(p);
      assert p + [] == p;
    } else {
      var s' := Do(s, acts[0]);
      OneStep(s, acts[0], t);
      ServedSoFar(s', acts[1..], t);
      ServedJoin(p + Begun(acts[0], t), Performed(s, acts[0], t), Pending(PcOf(s', t)), Calls(acts[1..], t),
                 Ops(s', acts[1..], t), Pending(PcOf(After(s', acts[1..]), t)));
      assert p + (Begun(acts[0], t) + Calls(acts[1..], t)) == p + Begun(acts[0], t) + Calls(acts[1..], t);
    }
  }

  lemma ServedNothing(p: seq<Call>)
    ensures Served(p, [], p)
  {
  }

  /** Whole calls: in every run each thread performs, in the order of its calls, exactly one
      operation for each call, and of its kind; only the last call, if it is not finished, may
      still have it before it. */
  lemma OneOperationPerCall(acts: seq<Action>, t: Tid)
    requires IsRun(START, acts)
    ensures var calls, ops := Calls(acts, t), Ops(START, acts, t);
            && |calls| - 1 <= |ops| <= |calls|
            && (forall i | 0 <= i < |ops| :: Performs(ops[i], calls[i]))
            && (PcOf(After(START, acts), t) == Idle ==> |ops| == |calls|)
  {
    hide Calls, Ops, After, Performs;
    ServedSoFar(START, acts, t);
    assert [] + Calls(acts, t) == Calls(acts, t);
  }

  // ---------------------------------------------------------------- no thread is forgotten

  /** As soon as there is an event, or the monitor has stopped, every thread inside
      popfront_event can be scheduled: with the lock free it may take it, and the thread that
      has the lock may always go on. */
  lemma NobodyForgotten(acts: seq<Action>, t: Tid)
    requires IsRun(START, acts)
    ensures var s := After(START, acts);
            && (s.owner.Held? ==> Enabled(s, Step(s.owner.tid)))
            && (s.owner == Free && (!s.run || s.events != []) && PcOf(s, t) != Idle ==>
                  Enabled(s, Acquire(t)))
  {
    RunKeepsInv(START, acts);
  }

  lemma {:induction false} RunJoin(s: State, a: seq<Action>, b: seq<Action>)
    requires IsRun(s, a) && IsRun(After(s, a), b)
    ensures IsRun(s, a + b) && After(s, a + b) == After(After(s, a), b)
    decreases |a|
  {
    hide Do, Enabled;
    if a == [] {
      assert a + b == b;
    } else {
      assert (a + b)[0] == a[0] && (a + b)[1..] == a[1..] + b;
      RunJoin(Do(s, a[0]), a[1..], b);
    }
  }

  /** How many steps the owner of the lock of a stopped monitor still has to make. */
  function StepsLeft(pc: Pc): nat {
    match pc
    case PopTest => 3
    case StopSet => 3
    case PushTest(_) => 2
    case PopTake => 2
    case PushNotify => 2
    case StopNotify => 2
    case Unlock(_) => 1
    case _ => 0
  }

  /** In a stopped monitor the owner of the lock finishes its call and frees the lock; the other
      threads stay where they are, but for waiting ones that are woken. */
  lemma {:induction false} OwnerFinishes(s: State, u: Tid) returns (acts: seq<Action>)
    requires Inv(s) && !s.run && s.owner == Held(u)
    ensures IsRun(s, acts)
    ensures var r := After(s, acts);
            && Inv(r) && !r.run && r.owner == Free && PcOf(r, u) == Idle
            && forall t | t != u :: PcOf(r, t) == PcOf(s, t) || (PcOf(s, t) == PopWait && PcOf(r, t) == PopWoken)
    decreases StepsLeft(PcOf(s, u))
  {
    var a := Step(u);
    StepKeepsInv(s, a);
    var s' := Do(s, a);
    OwnerStep(s, u);
    if s'.owner == Free {
      acts := [a];
      assert acts[1..] == [];
    } else {
      var rest := OwnerFinishes(s', u);
      acts := [a] + rest;
      assert acts[1..] == rest;
    }
  }

  lemma OwnerStep(s: State, u: Tid)
    requires Inv(s) && !s.run && s.owner == Held(u)
    ensures Enabled(s, Step(u)) && !Do(s, Step(u)).run
    ensures var r := Do(s, Step(u));
            && (if r.owner == Free then PcOf(r, u) == Idle
                else r.owner == Held(u) && StepsLeft(PcOf(r, u)) < StepsLeft(PcOf(s, u)))
            && forall t | t != u :: PcOf(r, t) == PcOf(s, t) || (PcOf(s, t) == PopWait && PcOf(r, t) == PopWoken)
  {
  }

  /** From any stopped state every thread inside a call can return: the owner of the lock
      finishes, and then this thread takes the lock and finishes too. So after destroy no pop
      is left waiting. */
  lemma EveryCallCanReturn(s: State, t: Tid) returns (acts: seq<Action>)
    requires Inv(s) && !s.run
    ensures IsRun(s, acts) && PcOf(After(s, acts), t) == Idle
  {
    acts := [];
    if s.owner.Held? {
      acts := OwnerFinishes(s, s.owner.tid);
    }
    var r := After(s, acts);
    if PcOf(r, t) != Idle {
      var a := Acquire(t);
      StepKeepsInv(r, a);
      var rest := OwnerFinishes(Do(r, a), t);
      assert ([a] + rest)[1..] == rest;
      RunJoin(s, acts, [a] + rest);
      acts := acts + ([a] + rest);
    }
  }
}
