/** The thread pool of cpputil/hthreadpool.h between `start` and `stop`, as a state machine over the steps of
    its workers, of the threads that commit tasks and of the threads in `wait`. */
module ThreadPool {
  import opened Sets

  /** A worker waits for a task, holds the mutex, has lowered `idle_num`, has taken a task off the queue, runs
      it without the mutex, or has run it and not yet raised `idle_num`. */
  datatype Worker = Away | Holding | Lowered | Took(task: nat) | Running(task: nat) | Ran(task: nat)

  /** A thread in `wait` that was called when n tasks had been committed: about to look at the queue, having
      seen it empty, or returned. */
  datatype Waiter = Looking(n: nat) | SawEmpty(n: nat) | Returned(n: nat)

  datatype Mutex = Free | By(w: nat)

  /** Tasks are numbered in the order of `commit`; `taken` records those that workers have taken. */
  datatype State = State(mutex: Mutex, queue: seq<nat>, committed: nat, idle: int, taken: seq<nat>, done: set<nat>,
                         workers: map<nat, Worker>, waiters: map<nat, Waiter>)

  datatype Action =
    | Commit
    | Acquire(w: nat) | Lower(w: nat) | Take(w: nat) | Release(w: nat) | Finish(w: nat) | Raise(w: nat)
    | CallWait(c: nat) | SeeQueue(c: nat) | SeeIdle(c: nat)

  predicate Enabled(s: State, a: Action) {
    match a
    case Commit => s.mutex.Free?
    case Acquire(w) => w in s.workers && s.workers[w].Away? && s.mutex.Free? && s.queue != []
    case Lower(w) => w in s.workers && s.workers[w].Holding?
    case Take(w) => w in s.workers && s.workers[w].Lowered?
    case Release(w) => w in s.workers && s.workers[w].Took?
    case Finish(w) => w in s.workers && s.workers[w].Running?
    case Raise(w) => w in s.workers && s.workers[w].Ran?
    case CallWait(c) => c !in s.waiters
    case SeeQueue(c) => c in s.waiters && s.waiters[c].Looking?
    case SeeIdle(c) => c in s.waiters && s.waiters[c].SawEmpty?
  }

  function At(s: State, w: nat, p: Worker): State {
    s.(workers := s.workers[w := p])
  }

  function Waits(s: State, c: nat, p: Waiter): State {
    s.(waiters := s.waiters[c := p])
  }

  function Next(s: State, a: Action): (s': State)
    requires Enabled(s, a)
  {
    match a
    case Commit => s.(queue := s.queue + [s.committed], committed := s.committed + 1)
    case Acquire(w) => At(s, w, Holding).(mutex := By(w))
    case Lower(w) => At(s, w, Lowered).(idle := s.idle - 1)
    case Take(w) =>
      if s.queue == [] then s
      else At(s, w, Took(s.queue[0])).(queue := s.queue[1..], taken := s.taken + [s.queue[0]])
    case Release(w) => At(s, w, Running(s.workers[w].task)).(mutex := Free)
    case Finish(w) => At(s, w, Ran(s.workers[w].task)).(done := s.done + {s.workers[w].task})
    case Raise(w) => At(s, w, Away).(idle := s.idle + 1)
    case CallWait(c) => Waits(s, c, Looking(s.committed))
    case SeeQueue(c) => if s.queue == [] then Waits(s, c, SawEmpty(s.waiters[c].n)) else s
    case SeeIdle(c) => Waits(s, c, if s.idle == |s.workers| then Returned(s.waiters[c].n) else Looking(s.waiters[c].n))
  }

  ghost predicate Initial(s: State) {
    && s.mutex.Free? && s.queue == [] && s.committed == 0 && s.taken == [] && s.done == {} && s.waiters == map[]
    && s.idle == |s.workers| && forall w :: w in s.workers ==> s.workers[w].Away?
  }

  // ---------------------------------------------------------------- the invariant

  predicate Inside(p: Worker) {
    p.Holding? || p.Lowered? || p.Took?
  }

  /** The mutex is held by the worker that is inside; one that is about to take a task finds one. */
  ghost predicate Exclusive(s: State) {
    && (forall w :: w in s.workers ==> (Inside(s.workers[w]) <==> s.mutex == By(w)))
    && (forall w :: w in s.workers && (s.workers[w].Holding? || s.workers[w].Lowered?) ==> s.queue != [])
  }

  predicate Busy(p: Worker) {
    p.Lowered? || p.Took? || p.Running? || p.Ran?
  }

  function BusyOnes(m: map<nat, Worker>): set<nat> {
    set w | w in m && Busy(m[w])
  }

  /** `idle_num` is the pool size less the workers between taking and finishing a task. */
  ghost predicate Counted(s: State) {
    s.idle == |s.workers| - |BusyOnes(s.workers)|
  }

  predicate Has(p: Worker, x: nat) {
    (p.Took? || p.Running?) && p.task == x
  }

  /** The task is queued, or a worker has it, or it is done. */
  ghost predicate Somewhere(s: State, x: nat) {
    x in s.queue || x in s.done || exists w :: w in s.workers && Has(s.workers[w], x)
  }

  ghost predicate NoneLost(s: State) {
    forall x: nat {:trigger Somewhere(s, x)} :: x < s.committed ==> Somewhere(s, x)
  }

  /** What a waiter has learnt. */
  ghost predicate Knows(s: State, p: Waiter) {
    && p.n <= s.committed
    && (p.SawEmpty? ==> forall x :: x in s.queue ==> x >= p.n)
    && (p.Returned? ==> forall x: nat :: x < p.n ==> x in s.done)
  }

  ghost predicate AllKnow(s: State) {
    forall c {:trigger s.waiters[c]} :: c in s.waiters ==> Knows(s, s.waiters[c])
  }

  /** The tasks taken and then those queued are all that were committed, in that order. */
  ghost predicate InOrder(s: State) {
    && |s.taken| + |s.queue| == s.committed && (forall i :: 0 <= i < |s.taken| ==> s.taken[i] == i)
    && forall i :: 0 <= i < |s.queue| ==> s.queue[i] == |s.taken| + i
  }

  ghost predicate Inv(s: State) {
    Exclusive(s) && Counted(s) && NoneLost(s) && AllKnow(s) && InOrder(s)
  }

  // ---------------------------------------------------------------- every step keeps it

  lemma ExclusiveKept(s: State, a: Action)
    requires Exclusive(s) && Enabled(s, a)
    ensures Exclusive(Next(s, a))
  {
  }

  lemma BusyAt(s: State, w: nat, p: Worker)
    requires w in s.workers
    ensures |s.workers[w := p]| == |s.workers|
    ensures |BusyOnes(s.workers[w := p])|
            == |BusyOnes(s.workers)| - (if Busy(s.workers[w]) then 1 else 0) + (if Busy(p) then 1 else 0)
  {
    assert s.workers[w := p].Keys == s.workers.Keys;
    assert |s.workers[w := p]| == |s.workers[w := p].Keys| && |s.workers| == |s.workers.Keys|;
    OneChanged(BusyOnes(s.workers), BusyOnes(s.workers[w := p]), w);
  }

  lemma CountedKept(s: State, a: Action)
    requires Exclusive(s) && Counted(s) && Enabled(s, a)
    ensures Counted(Next(s, a))
  {
    if !(a.Commit? || a.CallWait? || a.SeeQueue? || a.SeeIdle?) {
      BusyAt(s, a.w, Next(s, a).workers[a.w]);
    }
  }

  /** A step does not lose a task. */
  lemma SomewhereKept(s: State, a: Action, x: nat)
    requires Exclusive(s) && Enabled(s, a) && Somewhere(s, x)
    ensures Somewhere(Next(s, a), x)
  {
    var s' := Next(s, a);
    if x in s.queue {
      if a.Take? {
        assert s.queue == [s.queue[0]] + s.queue[1..];
        assert x == s.queue[0] ==> Has(s'.workers[a.w], x);
      }
    } else if x !in s.done {
      var w :| w in s.workers && Has(s.workers[w], x);
      assert w in s'.workers && (Has(s'.workers[w], x) || x in s'.done);
    }
  }

  lemma NoneLostKept(s: State, a: Action)
    requires Exclusive(s) && NoneLost(s) && Enabled(s, a)
    ensures NoneLost(Next(s, a))
  {
    var s' := Next(s, a);
    forall x: nat | x < s'.committed
      ensures Somewhere(s', x)
    {
      if x < s.committed {
        SomewhereKept(s, a, x);
      } else {
        assert s'.queue[|s.queue|] == x;
      }
    }
  }

  /** A step of someone else takes nothing from what a waiter knows. */
  lemma KnowsKept(s: State, a: Action, p: Waiter)
    requires Knows(s, p) && Enabled(s, a)
    ensures Knows(Next(s, a), p)
  {
    var s' := Next(s, a);
    if p.SawEmpty? {
      forall x | x in s'.queue
        ensures x >= p.n
      {
        assert x in s.queue || x == s.committed;
      }
    }
  }

  /** With the queue seen empty and then every worker seen idle, all tasks known at the call are done. */
  lemma IdleMeansDone(s: State, p: Waiter, x: nat)
    requires Counted(s) && NoneLost(s) && Knows(s, p) && p.SawEmpty? && s.idle == |s.workers| && x < p.n
    ensures x in s.done
  {
    assert Somewhere(s, x);
    assert BusyOnes(s.workers) == {};
    forall w | w in s.workers
      ensures !Has(s.workers[w], x)
    {
      assert w !in BusyOnes(s.workers);
    }
  }

  lemma AllKnowKept(s: State, a: Action)
    requires Inv(s) && Enabled(s, a)
    ensures AllKnow(Next(s, a))
  {
    var s' := Next(s, a);
    forall c | c in s'.waiters
      ensures Knows(s', s'.waiters[c])
    {
      if c in s.waiters {
        KnowsKept(s, a, s.waiters[c]);
        if a == SeeIdle(c) && s.idle == |s.workers| {
          forall x: nat | x < s.waiters[c].n
            ensures x in s.done
          {
            IdleMeansDone(s, s.waiters[c], x);
          }
        }
      }
    }
  }

  lemma OrderKept(s: State, a: Action)
    requires InOrder(s) && Enabled(s, a)
    ensures InOrder(Next(s, a))
  {
  }

  lemma InvKept(s: State, a: Action)
    requires Inv(s) && Enabled(s, a)
    ensures Inv(Next(s, a))
  {
    ExclusiveKept(s, a);
    CountedKept(s, a);
    NoneLostKept(s, a);
    AllKnowKept(s, a);
    OrderKept(s, a);
  }

  // ---------------------------------------------------------------- every run

  ghost predicate Runs(s: State, actions: seq<Action>, s': State)
    decreases |actions|
  {
    if |actions| == 0 then s == s' else Enabled(s, actions[0]) && Runs(Next(s, actions[0]), actions[1..], s')
  }

  lemma {:induction false} InvAlways(s: State, actions: seq<Action>, s': State)
    requires Inv(s) && Runs(s, actions, s')
    ensures Inv(s')
    decreases |actions|
  {
    if |actions| == 0 {
    } else {
      InvKept(s, actions[0]);
      InvAlways(Next(s, actions[0]), actions[1..], s');
    }
  }

  /** In every run: `idle_num` is right, and whoever has returned from `wait` called when n tasks had been
      committed finds those n tasks finished. */
  lemma WaitWaits(s0: State, actions: seq<Action>, s: State)
    requires Initial(s0) && Runs(s0, actions, s)
    ensures s.idle == |s.workers| - |BusyOnes(s.workers)|
    ensures forall c, x: nat :: c in s.waiters && s.waiters[c].Returned? && x < s.waiters[c].n ==> x in s.done
  {
    assert BusyOnes(s0.workers) == {};
    InvAlways(s0, actions, s);
    forall c, x: nat | c in s.waiters && s.waiters[c].Returned? && x < s.waiters[c].n
      ensures x in s.done
    {
      assert Knows(s, s.waiters[c]);
    }
  }

  /** In every run tasks leave the queue in the order of `commit`, and each once. */
  lemma TakenInOrder(s0: State, actions: seq<Action>, s: State)
    requires Initial(s0) && Runs(s0, actions, s)
    ensures |s.taken| + |s.queue| == s.committed
    ensures forall i :: 0 <= i < |s.taken| ==> s.taken[i] == i
    ensures forall i :: 0 <= i < |s.queue| ==> s.queue[i] == |s.taken| + i
  {
    assert BusyOnes(s0.workers) == {};
    InvAlways(s0, actions, s);
  }
}
