/** Posting events to a loop from any number of threads (event/hloop.c, evpp/EventLoop.h), as a state machine
    over the steps that threads take between synchronisation points. */
module PostEvent {
  import opened Sets

  /** An event in the loop's queue: posted with `hloop_post_event`, or by `EventLoop::postEvent`, whose
      callback takes the next functor of `customEvents`. */
  datatype Ev = Raw(id: nat) | Custom

  /** What a posting thread is at. `Locked`, `Sent` and `Done` hold `custom_events_mutex`. */
  datatype Phase = Idle | Ready(e: Ev) | Locked(e: Ev) | Sent(e: Ev) | Done

  /** What `sockpair_read_cb` is at; hand counts the wake-up bytes it has read and not yet used. `Holding` and
      `Popped` hold the mutex. */
  datatype Reader = Waiting | Loop(hand: nat) | Holding(hand: nat) | Popped(hand: nat, e: Ev)
    | Running(hand: nat, e: Ev)

  datatype Mutex = Free | ByPoster(t: nat) | ByReader

  /** `pipe` counts the bytes in the socket pair. The rest records what has happened: events in the order in
      which they entered the queue, those run, functors pushed and run, functors whose event was never
      posted, and whether something undefined was done. */
  datatype State = State(mutex: Mutex, pipe: nat, queue: seq<Ev>, functors: seq<nat>, posters: map<nat, Phase>,
                         reader: Reader,
                         posted: seq<Ev>, ran: seq<Ev>, pushed: seq<nat>, called: seq<nat>, orphans: nat,
                         foundEmpty: bool, frontOfEmpty: bool)

  function PhaseOf(s: State, t: nat): Phase {
    if t in s.posters then s.posters[t] else Idle
  }

  datatype Action =
    | PushFunctor(t: nat, f: nat) | PostRaw(t: nat, id: nat) | Lock(t: nat) | SendOk(t: nat) | SendFail(t: nat)
      | Enqueue(t: nat) | Unlock(t: nat)
    | Read(k: nat) | ReaderLock | ReaderEmpty | ReaderPop | ReaderUnlock | Call

  predicate Enabled(s: State, a: Action) {
    match a
    case PushFunctor(t, _) => PhaseOf(s, t).Idle?
    case PostRaw(t, _) => PhaseOf(s, t).Idle?
    case Lock(t) => PhaseOf(s, t).Ready? && s.mutex.Free?
    case SendOk(t) => PhaseOf(s, t).Locked?
    case SendFail(t) => PhaseOf(s, t).Locked?
    case Enqueue(t) => PhaseOf(s, t).Sent?
    case Unlock(t) => PhaseOf(s, t).Done?
    case Read(k) => s.reader.Waiting? && 0 < k <= s.pipe
    case ReaderLock => s.reader.Loop? && s.mutex.Free?
    case ReaderEmpty => s.reader.Holding? && s.queue == []
    case ReaderPop => s.reader.Holding? && s.queue != []
    case ReaderUnlock => s.reader.Popped?
    case Call => s.reader.Running?
  }

  function At(s: State, t: nat, p: Phase): State {
    s.(posters := s.posters[t := p])
  }

  /** The next iteration of the reader's loop, or its end. */
  function Onward(hand: nat): Reader {
    if hand == 0 then Waiting else Loop(hand)
  }

  function Next(s: State, a: Action): (s': State)
    requires Enabled(s, a)
  {
    match a
    case PushFunctor(t, f) => At(s, t, Ready(Custom)).(functors := s.functors + [f], pushed := s.pushed + [f])
    case PostRaw(t, id) => At(s, t, Ready(Raw(id)))
    case Lock(t) => At(s, t, Locked(PhaseOf(s, t).e)).(mutex := ByPoster(t))
    case SendOk(t) => At(s, t, Sent(PhaseOf(s, t).e)).(pipe := s.pipe + 1)
    case SendFail(t) => At(s, t, Done).(orphans := s.orphans + if PhaseOf(s, t).e.Custom? then 1 else 0)
    case Enqueue(t) => At(s, t, Done).(queue := s.queue + [PhaseOf(s, t).e], posted := s.posted + [PhaseOf(s, t).e])
    case Unlock(t) => At(s, t, Idle).(mutex := Free)
    case Read(k) => s.(pipe := s.pipe - k, reader := Loop(k))
    case ReaderLock => s.(mutex := ByReader, reader := Holding(s.reader.hand))
    case ReaderEmpty => s.(mutex := Free, reader := Waiting, foundEmpty := true)
    case ReaderPop => s.(reader := Popped(if s.reader.hand > 0 then s.reader.hand - 1 else 0, s.queue[0]),
      queue := s.queue[1..])
    case ReaderUnlock => s.(mutex := Free, reader := Running(s.reader.hand, s.reader.e))
    case Call =>
      var r := s.(reader := Onward(s.reader.hand), ran := s.ran + [s.reader.e]);
      if s.reader.e.Raw? then r
      else if s.functors == [] then r.(frontOfEmpty := true)
      else r.(functors := s.functors[1..], called := s.called + [s.functors[0]])
  }

  const INITIAL: State := State(Free, 0, [], [], map[], Waiting, [], [], [], [], 0, false, false)

  // ---------------------------------------------------------------- the invariant

  function Hand(r: Reader): nat {
    if r.Waiting? then 0 else r.hand
  }

  /** The event the reader has taken out of the queue and not yet run. */
  function Taken(r: Reader): seq<Ev> {
    if r.Popped? || r.Running? then [r.e] else []
  }

  predicate Inside(p: Phase) {
    p.Locked? || p.Sent? || p.Done?
  }

  /** The mutex is held by the one that is inside. */
  ghost predicate Exclusive(s: State) {
    && (forall t: nat :: Inside(PhaseOf(s, t)) <==> s.mutex == ByPoster(t))
    && (s.reader.Holding? || s.reader.Popped? <==> s.mutex.ByReader?)
    && (s.reader.Loop? || s.reader.Holding? ==> s.reader.hand > 0)
  }

  /** A byte has been sent and its event not yet queued. */
  function Ahead(s: State): nat {
    if s.mutex.ByPoster? && PhaseOf(s, s.mutex.t).Sent? then 1 else 0
  }

  /** Wake-up bytes match queued events. */
  ghost predicate Balanced(s: State) {
    s.pipe + Hand(s.reader) == |s.queue| + Ahead(s)
  }

  function Customs(q: seq<Ev>): (n: nat) {
    if |q| == 0 then 0 else Customs(q[..|q| - 1]) + if q[|q| - 1].Custom? then 1 else 0
  }

  predicate Owes(p: Phase) {
    (p.Ready? || p.Locked? || p.Sent?) && p.e.Custom?
  }

  /** The posters that have pushed a functor and not yet queued its event. */
  function Owing(posters: map<nat, Phase>): set<nat> {
    set t | t in posters && Owes(posters[t])
  }

  /** There is a functor for every custom event on its way, and one for every send that failed. */
  ghost predicate Provided(s: State) {
    |s.functors| == Customs(s.queue) + |Owing(s.posters)| + Customs(Taken(s.reader)) + s.orphans
  }

  ghost predicate InOrder(s: State) {
    s.posted == s.ran + Taken(s.reader) + s.queue && s.pushed == s.called + s.functors
  }

  ghost predicate Inv(s: State) {
    Exclusive(s) && Balanced(s) && Provided(s) && InOrder(s) && !s.foundEmpty && !s.frontOfEmpty
  }

  // ---------------------------------------------------------------- every step keeps it

  lemma ExclusiveKept(s: State, a: Action)
    requires Exclusive(s) && Enabled(s, a)
    ensures Exclusive(Next(s, a))
  {
    var s' := Next(s, a);
    forall t: nat
      ensures Inside(PhaseOf(s', t)) <==> s'.mutex == ByPoster(t)
    {
      assert Inside(PhaseOf(s, t)) <==> s.mutex == ByPoster(t);
    }
  }

  lemma BalancedKept(s: State, a: Action)
    requires Exclusive(s) && Balanced(s) && Enabled(s, a) && !a.ReaderEmpty?
    ensures Balanced(Next(s, a))
  {
    if s.mutex.ByPoster? {
      assert Inside(PhaseOf(s, s.mutex.t));
    }
    if a.SendOk? || a.SendFail? || a.Enqueue? || a.Unlock? {
      assert Inside(PhaseOf(s, a.t));
    }
  }

  /** The queue is never found empty. */
  lemma NeverEmpty(s: State)
    requires Exclusive(s) && Balanced(s) && s.reader.Holding?
    ensures s.queue != []
  {
  }

  lemma OwingAt(s: State, t: nat, p: Phase)
    ensures |Owing(s.posters[t := p])|
            == |Owing(s.posters)| - (if Owes(PhaseOf(s, t)) then 1 else 0) + (if Owes(p) then 1 else 0)
  {
    OneChanged(Owing(s.posters), Owing(s.posters[t := p]), t);
  }

  lemma {:induction false} CustomsFirst(q: seq<Ev>)
    requires |q| > 0
    ensures Customs(q) == Customs([q[0]]) + Customs(q[1..])
    decreases |q|
  {
    if |q| == 1 {
      assert q == [q[0]];
    } else {
      CustomsFirst(q[..|q| - 1]);
      assert q[..|q| - 1][1..] == q[1..][..|q[1..]| - 1];
    }
  }

  lemma CustomsLast(q: seq<Ev>, e: Ev)
    ensures Customs(q + [e]) == Customs(q) + if e.Custom? then 1 else 0
    ensures Customs([e]) == if e.Custom? then 1 else 0
  {
    assert (q + [e])[..|q|] == q;
    assert [e][..0] == [];
  }

  lemma ProvidedByPoster(s: State, a: Action)
    requires Provided(s) && Enabled(s, a)
    requires a.PushFunctor? || a.PostRaw? || a.Lock? || a.SendOk? || a.SendFail? || a.Enqueue? || a.Unlock?
    ensures Provided(Next(s, a))
  {
    var s' := Next(s, a);
    OwingAt(s, a.t, PhaseOf(s', a.t));
    if a.Enqueue? {
      CustomsLast(s.queue, PhaseOf(s, a.t).e);
    }
  }

  lemma ProvidedByReader(s: State, a: Action)
    requires Provided(s) && Enabled(s, a) && (a.Read? || a.ReaderLock? || a.ReaderPop? || a.ReaderUnlock?)
    ensures Provided(Next(s, a))
  {
    if a.ReaderPop? {
      CustomsFirst(s.queue);
    }
  }

  /** `onCustomEvent` always finds a functor. */
  lemma FunctorThere(s: State)
    requires Provided(s) && s.reader.Running? && s.reader.e.Custom?
    ensures s.functors != []
  {
    CustomsLast([], Custom);
  }

  lemma ProvidedByCall(s: State)
    requires Provided(s) && s.reader.Running?
    ensures Provided(Next(s, Call)) && Next(s, Call).frontOfEmpty == s.frontOfEmpty
  {
    CustomsLast([], s.reader.e);
    if s.reader.e.Custom? {
      FunctorThere(s);
    }
  }

  lemma OrderKept(s: State, a: Action)
    requires InOrder(s) && Enabled(s, a) && !a.Call?
    ensures InOrder(Next(s, a))
  {
    if a.Enqueue? {
      var e := PhaseOf(s, a.t).e;
      assert s.ran + Taken(s.reader) + s.queue + [e] == s.ran + Taken(s.reader) + (s.queue + [e]);
    } else if a.ReaderPop? {
      assert s.queue == [s.queue[0]] + s.queue[1..];
      assert s.ran + [] + ([s.queue[0]] + s.queue[1..]) == s.ran + [s.queue[0]] + s.queue[1..];
    } else if a.PushFunctor? {
      assert s.called + s.functors + [a.f] == s.called + (s.functors + [a.f]);
    }
  }

  lemma OrderByCall(s: State)
    requires InOrder(s) && s.reader.Running?
    ensures InOrder(Next(s, Call))
  {
    var e := s.reader.e;
    assert s.ran + [e] + [] + s.queue == s.ran + [e] + s.queue;
    if e.Custom? && s.functors != [] {
      assert s.functors == [s.functors[0]] + s.functors[1..];
      assert s.called + ([s.functors[0]] + s.functors[1..]) == s.called + [s.functors[0]] + s.functors[1..];
    }
  }

  lemma InvKept(s: State, a: Action)
    requires Inv(s) && Enabled(s, a)
    ensures Inv(Next(s, a)) && !a.ReaderEmpty?
  {
    if a.ReaderEmpty? || a.ReaderPop? {
      NeverEmpty(s);
    }
    ExclusiveKept(s, a);
    BalancedKept(s, a);
    if a.Call? {
      ProvidedByCall(s);
      OrderByCall(s);
    } else {
      OrderKept(s, a);
      if a.Read? || a.ReaderLock? || a.ReaderPop? || a.ReaderUnlock? {
        ProvidedByReader(s, a);
      } else {
        ProvidedByPoster(s, a);
      }
    }
  }

  // ---------------------------------------------------------------- every run

  /** The actions happen one after the other, each when it is enabled. */
  ghost predicate Runs(s: State, actions: seq<Action>, s': State)
    decreases |actions|
  {
    if |actions| == 0 then s == s' else Enabled(s, actions[0]) && Runs(Next(s, actions[0]), actions[1..], s')
  }

  lemma {:induction false} InvAlways(s: State, actions: seq<Action>, s': State)
    requires Inv(s) && Runs(s, actions, s')
    ensures Inv(s')
    decreases |actions|
  {
    if |actions| == 0 {
    } else {
      InvKept(s, actions[0]);
      InvAlways(Next(s, actions[0]), actions[1..], s');
    }
  }

  lemma InitialInv()
    ensures Inv(INITIAL)
  {
    InitialExclusive();
    InitialProvided();
  }

  lemma InitialExclusive()
    ensures Exclusive(INITIAL)
  {
  }

  lemma InitialProvided()
    ensures Provided(INITIAL)
  {
    assert Owing(INITIAL.posters) == {} && Customs(INITIAL.queue) == 0 && Customs(Taken(INITIAL.reader)) == 0;
  }

  /** In every reachable state: with the mutex free, bytes in the pipe and in the reader's hand equal the
      events queued; the branch for an empty queue has not been taken and no functor was taken from an empty
      queue; and events and functors have been run in the order they were queued, each once. */
  lemma Safe(actions: seq<Action>, s: State)
    requires Runs(INITIAL, actions, s)
    ensures s.mutex.Free? ==> s.pipe + Hand(s.reader) == |s.queue|
    ensures !s.foundEmpty && !s.frontOfEmpty
    ensures s.ran <= s.posted && s.posted == s.ran + Taken(s.reader) + s.queue
    ensures s.called <= s.pushed && s.pushed == s.called + s.functors
  {
    InitialInv();
    InvAlways(INITIAL, actions, s);
  }

  /** When everything has come to rest, every posted event has run, and the functors that have not are as
      many as sends have failed. */
  lemma AllRun(actions: seq<Action>, s: State)
    requires Runs(INITIAL, actions, s)
    requires s.pipe == 0 && s.reader.Waiting? && forall t :: t in s.posters ==> s.posters[t].Idle?
    ensures s.ran == s.posted && |s.pushed| - |s.called| == s.orphans
  {
    InitialInv();
    InvAlways(INITIAL, actions, s);
    NothingAhead(s);
    AtRest(s);
  }

  lemma AtRest(s: State)
    requires Balanced(s) && Provided(s) && InOrder(s) && Ahead(s) == 0
    requires s.pipe == 0 && s.reader.Waiting? && forall t :: t in s.posters ==> s.posters[t].Idle?
    ensures s.ran == s.posted && |s.pushed| - |s.called| == s.orphans
  {
    assert s.queue == [];
    assert Owing(s.posters) == {};
  }

  lemma NothingAhead(s: State)
    requires Exclusive(s) && forall t :: t in s.posters ==> s.posters[t].Idle?
    ensures Ahead(s) == 0
  {
    if s.mutex.ByPoster? {
      assert Inside(PhaseOf(s, s.mutex.t));
    }
  }

  // ---------------------------------------------------------------- a send that fails

  lemma RunsOn(s: State, a: Action, t: State, actions: seq<Action>, s': State)
    requires Enabled(s, a) && Next(s, a) == t && Runs(t, actions, s')
    ensures Runs(s, [a] + actions, s')
  {
    assert ([a] + actions)[1..] == actions;
  }

  /** Thread 0 posts functor 7, and its send fails; it posts functor 8; the loop handles an event. */
  const LOST: seq<Action> := [PushFunctor(0, 7)] + ([Lock(0)] + ([SendFail(0)] + ([Unlock(0)] + [])))
  const PUSHED: seq<Action> := [PushFunctor(0, 8)] + ([Lock(0)] + [])
  const POSTED: seq<Action> := [SendOk(0)] + ([Enqueue(0)] + ([Unlock(0)] + []))
  const READ: seq<Action> := [Read(1)] + ([ReaderLock] + ([ReaderPop] + []))
  const CALLED: seq<Action> := [ReaderUnlock] + ([Call] + [])

  const AFTER_LOST: State := INITIAL.(functors := [7], pushed := [7], posters := map[0 := Idle], orphans := 1)
  const AFTER_PUSHED: State :=
    AFTER_LOST.(functors := [7, 8], pushed := [7, 8], posters := map[0 := Locked(Custom)], mutex := ByPoster(0))
  const AFTER_POSTED: State :=
    AFTER_LOST.(functors := [7, 8], pushed := [7, 8], pipe := 1, queue := [Custom], posted := [Custom])
  const AFTER_READ: State := AFTER_POSTED.(pipe := 0, queue := [], mutex := ByReader, reader := Popped(0, Custom))
  const AT_REST: State := AFTER_POSTED.(pipe := 0, queue := [], functors := [8], called := [7], ran := [Custom])

  lemma SendLost()
    ensures Runs(INITIAL, LOST, AFTER_LOST)
  {
    var s1 := INITIAL.(functors := [7], pushed := [7], posters := map[0 := Ready(Custom)]);
    var s2 := s1.(mutex := ByPoster(0), posters := map[0 := Locked(Custom)]);
    var s3 := s2.(posters := map[0 := Done], orphans := 1);
    RunsOn(s3, Unlock(0), AFTER_LOST, [], AFTER_LOST);
    RunsOn(s2, SendFail(0), s3, [Unlock(0)] + [], AFTER_LOST);
    RunsOn(s1, Lock(0), s2, [SendFail(0)] + ([Unlock(0)] + []), AFTER_LOST);
    RunsOn(INITIAL, PushFunctor(0, 7), s1, [Lock(0)] + ([SendFail(0)] + ([Unlock(0)] + [])), AFTER_LOST);
  }

  lemma PushLocked()
    ensures Runs(AFTER_LOST, PUSHED, AFTER_PUSHED)
  {
    var s1 := AFTER_LOST.(functors := [7, 8], pushed := [7, 8], posters := map[0 := Ready(Custom)]);
    RunsOn(s1, Lock(0), AFTER_PUSHED, [], AFTER_PUSHED);
    RunsOn(AFTER_LOST, PushFunctor(0, 8), s1, [Lock(0)] + [], AFTER_PUSHED);
  }

  lemma SendPosted()
    ensures Runs(AFTER_PUSHED, POSTED, AFTER_POSTED)
  {
    var t := AFTER_POSTED;
    var s1 := AFTER_PUSHED.(posters := map[0 := Sent(Custom)], pipe := 1);
    var s2 := s1.(posters := map[0 := Done], queue := [Custom], posted := [Custom]);
    RunsOn(s2, Unlock(0), t, [], t);
    RunsOn(s1, Enqueue(0), s2, [Unlock(0)] + [], t);
    RunsOn(AFTER_PUSHED, SendOk(0), s1, [Enqueue(0)] + ([Unlock(0)] + []), t);
  }

  lemma ReadPosted()
    ensures Runs(AFTER_POSTED, READ, AFTER_READ)
  {
    var t := AFTER_READ;
    var s1 := AFTER_POSTED.(pipe := 0, reader := Loop(1));
    var s2 := s1.(mutex := ByReader, reader := Holding(1));
    RunsOn(s2, ReaderPop, t, [], t);
    RunsOn(s1, ReaderLock, s2, [ReaderPop] + [], t);
    RunsOn(AFTER_POSTED, Read(1), s1, [ReaderLock] + ([ReaderPop] + []), t);
  }

  lemma CallRead()
    ensures Runs(AFTER_READ, CALLED, AT_REST)
  {
    var s1 := AFTER_READ.(mutex := Free, reader := Running(0, Custom));
    RunsOn(s1, Call, AT_REST, [], AT_REST);
    RunsOn(AFTER_READ, ReaderUnlock, s1, [Call] + [], AT_REST);
  }

  lemma {:induction false} RunsThen(s: State, x: seq<Action>, t: State, y: seq<Action>, u: State)
    requires Runs(s, x, t) && Runs(t, y, u)
    ensures Runs(s, x + y, u)
    decreases |x|
  {
    if |x| == 0 {
      assert x + y == y;
    } else {
      assert (x + y)[0] == x[0] && (x + y)[1..] == x[1..] + y;
      RunsThen(Next(s, x[0]), x[1..], t, y, u);
    }
  }

  /** A run with a send that fails, at rest: of two functors posted one is left behind, and it is not the one
      whose send has failed. */
  lemma LeftBehind() returns (actions: seq<Action>, s: State)
    ensures Runs(INITIAL, actions, s)
    ensures s.pipe == 0 && s.reader.Waiting? && (forall t :: t in s.posters ==> s.posters[t].Idle?)
    ensures s.orphans == 1 && s.pushed == [7, 8] && s.called == [7] && s.functors == [8]
  {
    actions, s := LOST + (PUSHED + (POSTED + (READ + CALLED))), AT_REST;
    SendLost();
    PushLocked();
    SendPosted();
    ReadPosted();
    CallRead();
    RunsThen(AFTER_POSTED, READ, AFTER_READ, CALLED, s);
    RunsThen(AFTER_PUSHED, POSTED, AFTER_POSTED, READ + CALLED, s);
    RunsThen(AFTER_LOST, PUSHED, AFTER_PUSHED, POSTED + (READ + CALLED), s);
    RunsThen(INITIAL, LOST, AFTER_LOST, PUSHED + (POSTED + (READ + CALLED)), s);
  }
}
