/** The timers of an event loop (event/hloop.c): adding, deleting, resetting and expiring them. */
module Timers {
  import opened HeapShape
  import opened MinHeap

  /** (uint32_t)-1. */
  const INFINITE: nat := 0xFFFF_FFFF

  /** t is the first instant after now that lies a whole number of periods after next. */
  ghost predicate NextTick(next: int, period: nat, now: int, t: int) {
    && t > now && t >= next && period > 0 && (t - next) % period == 0
    && (t == next || t - period <= now)
  }

  /** Earlier instants of the kind are not after now: t is the least. */
  lemma TickIsLeast(next: int, period: nat, now: int, t: int, s: int)
    requires NextTick(next, period, now, t)
    requires s > now && s >= next && (s - next) % period == 0
    ensures t <= s
  {
    if s < t {
      var a, b := (s - next) / period, (t - next) / period;
      assert s - next == a * period && t - next == b * period;
      FewerPeriods(a, b, period);
    }
  }

  lemma FewerPeriods(a: int, b: int, period: nat)
    requires period > 0 && a * period < b * period
    ensures a * period <= b * period - period
  {
    var d := b - a;
    assert d * period == b * period - a * period;
    assert d <= 0 ==> d * period <= 0;
    assert d >= 1 ==> d * period >= period;
  }

  lemma Whole(a: int, period: nat)
    requires period > 0 && a % period == 0
    ensures (a + period) % period == 0
  {
    var q := a / period;
    assert a == q * period + a % period;
    assert a + period == (q + 1) * period;
    ModMultiple(q + 1, period);
  }

  lemma ModMultiple(q: int, period: nat)
    requires period > 0
    ensures (q * period) % period == 0
  {
    var r, d := (q * period) % period, (q * period) / period;
    assert q * period == d * period + r;
    var e := q - d;
    assert e * period == r;
    assert e >= 1 ==> e * period >= period;
    assert e <= -1 ==> e * period <= -1 * period;
  }

  /** The catch-up loop of `hloop_process_timers`. */
  method CatchUp(next: int, period: nat, now: int) returns (t: int)
    requires period > 0
    ensures NextTick(next, period, now, t)
  {
    t := next;
    while t <= now
      invariant t >= next && (t - next) % period == 0
      invariant t == next || t - period <= now
      decreases now - t
    {
      Whole(t - next, period);
      t := t + period;
    }
  }

  /** `--timer->repeat` on 32 bits, unless it is INFINITE. */
  function Lowered(repeat: nat): (r: nat)
    requires repeat <= INFINITE
  {
    if repeat != INFINITE then (repeat - 1) % 0x1_0000_0000 else repeat
  }

  /** What one expiry does to a timer that had these values. A timer added with count zero becomes an endless
      one. */
  ghost predicate Expired(n: Node, key: int, period: nat, repeat: nat, now: int, inHeap: bool)
    reads n
  {
    && n.pending && n.period == period
    && (1 <= repeat < 0xFFFF_FFFF ==> n.repeat == repeat - 1)
    && (repeat == 0 || repeat == 0xFFFF_FFFF ==> n.repeat == 0xFFFF_FFFF)
    && (repeat == 1 ==> n.destroy && !inHeap && n.key == key)
    && (repeat != 1 ==> !n.destroy && inHeap && NextTick(key, period, now, n.key))
  }

  datatype Fields = Fields(key: int, period: nat, repeat: nat, pending: bool, destroy: bool)

  /** The instant at which a timer is due and the number of times it is still to expire. */
  datatype Life = Life(due: int, left: nat)

  /** The first instant after now that lies a whole number of periods after next. */
  function Tick(next: int, period: nat, now: int): (t: int)
    requires period > 0 && next <= now
  {
    next + ((now - next) / period + 1) * period
  }

  /** A call of `hloop_process_timers` at `now`. */
  function Lived(l: Life, period: nat, now: int): (r: Life)
    requires period > 0
  {
    if l.left == 0 || now < l.due then l
    else Life(if l.left == 1 then l.due else Tick(l.due, period, now), l.left - 1)
  }

  function LivedAll(l: Life, period: nat, nows: seq<int>): (r: Life)
    requires period > 0
  {
    if |nows| == 0 then l else Lived(LivedAll(l, period, nows[..|nows| - 1]), period, nows[|nows| - 1])
  }

  /** The number of calls at which the timer is due. */
  function Expiries(l: Life, period: nat, nows: seq<int>): (n: nat)
    requires period > 0
  {
    if |nows| == 0 then 0
    else
      var before := LivedAll(l, period, nows[..|nows| - 1]);
      Expiries(l, period, nows[..|nows| - 1]) + if before.left > 0 && before.due <= nows[|nows| - 1] then 1 else 0
  }

  lemma {:induction false} ExpiresOften(l: Life, period: nat, nows: seq<int>)
    requires period > 0
    ensures Expiries(l, period, nows) + LivedAll(l, period, nows).left == l.left
    decreases |nows|
  {
    if |nows| == 0 {
    } else {
      ExpiresOften(l, period, nows[..|nows| - 1]);
    }
  }

  /** Calls at least a period apart, the first when the timer is due, each find it due until its count is used
      up. */
  lemma {:induction false} ExpiresEachTime(l: Life, period: nat, nows: seq<int>)
    requires period > 0 && |nows| > 0 && l.due <= nows[0]
    requires forall i :: 0 < i < |nows| ==> nows[i - 1] + period <= nows[i]
    ensures Expiries(l, period, nows) == if |nows| <= l.left then |nows| else l.left
    ensures LivedAll(l, period, nows).left > 0 ==> LivedAll(l, period, nows).due <= nows[|nows| - 1] + period
    decreases |nows|
  {
    var init, now := nows[..|nows| - 1], nows[|nows| - 1];
    ExpiresOften(l, period, nows);
    if |nows| == 1 {
      assert LivedAll(l, period, init) == l && Expiries(l, period, init) == 0;
      LivedSoon(l, period, now);
    } else {
      ExpiresEachTime(l, period, init);
      ExpiresOften(l, period, init);
      LivedSoon(LivedAll(l, period, init), period, now);
    }
  }

  lemma LivedSoon(l: Life, period: nat, now: int)
    requires period > 0 && (l.left > 0 ==> l.due <= now)
    ensures Lived(l, period, now).left > 0 ==> Lived(l, period, now).due <= now + period
  {
    if l.left > 1 {
      TickNext(l.due, period, now);
    }
  }

  lemma TickNext(next: int, period: nat, now: int)
    requires period > 0 && next <= now
    ensures NextTick(next, period, now, Tick(next, period, now))
  {
    var q, r := (now - next) / period, (now - next) % period;
    assert now - next == q * period + r;
    assert (q + 1) * period == q * period + period;
    ModMultiple(q + 1, period);
  }

  lemma TickIs(next: int, period: nat, now: int, t: int)
    requires NextTick(next, period, now, t) && next <= now
    ensures t == Tick(next, period, now)
  {
    var s := Tick(next, period, now);
    TickNext(next, period, now);
    TickIsLeast(next, period, now, t, s);
    TickIsLeast(next, period, now, s, t);
  }

  class Loop {
    const timers: Heap
    var ntimers: nat
    /** The timers made pending, oldest first: the linked list of their priority, read from its end. */
    var pend: seq<Node>

    ghost predicate TimerOk(n: Node)
      reads n
    {
      n.period > 0 && n.repeat <= INFINITE && !n.destroy
    }

    ghost predicate Valid()
      reads this, timers, timers.order
    {
      && timers.Valid() && ntimers == timers.nelts
      && forall n :: n in timers.order ==> TimerOk(n)
    }

    constructor ()
      ensures Valid() && fresh(timers) && timers.order == [] && pend == []
    {
      timers := new Heap();
      ntimers, pend := 0, [];
    }

    /** `EVENT_PENDING`. */
    method MakePending(n: Node)
      modifies this`pend, n`pending
      ensures n.pending && pend == if old(n.pending) then old(pend) else old(pend) + [n]
    {
      if !n.pending {
        n.pending := true;
        pend := pend + [n];
      }
    }

    /** The fields of a timer other than its place in the heap. */
    twostate predicate Same(n: Node)
      reads n
    {
      n.key == old(n.key) && n.period == old(n.period) && n.repeat == old(n.repeat) && n.pending == old(n.pending)
        && n.destroy == old(n.destroy)
    }

    /** The timer leaves the heap. */
    method Withdraw(t: Node)
      requires timers.Valid() && ntimers == timers.nelts && timers.In(t)
      modifies this`ntimers, timers, timers.order`parent, timers.order`left, timers.order`right, timers.order`slot
      ensures timers.Valid() && ntimers == timers.nelts && timers.Nodes() == old(timers.Nodes()) - {t}
    {
      timers.Remove(t);
      ntimers := ntimers - 1;
    }

    /** `__htimer_del`: takes the timer out of the heap and marks it, once. */
    method Unlink(t: Node)
      requires timers.Valid() && ntimers == timers.nelts && (!t.destroy ==> timers.In(t))
      modifies this`ntimers, timers, timers.order`parent, timers.order`left, timers.order`right, timers.order`slot,
               t`destroy
      ensures timers.Valid() && ntimers == timers.nelts && t.destroy
      ensures timers.Nodes() == if old(t.destroy) then old(timers.Nodes()) else old(timers.Nodes()) - {t}
    {
      if t.destroy {
        return;
      }
      Withdraw(t);
      t.destroy := true;
    }

    /** Take the root out, move its next timeout past now, and put it back. */
    method Reschedule(t: Node, now: int)
      requires timers.Valid() && t == timers.root && t.period > 0
      modifies timers, timers.order`parent, timers.order`left, timers.order`right, timers.order`slot, t`key
      ensures timers.Valid() && timers.nelts == old(timers.nelts) && timers.Nodes() == old(timers.Nodes())
      ensures NextTick(old(t.key), t.period, now, t.key)
    {
      timers.InRef(0);
      timers.Dequeue();
      t.key := CatchUp(t.key, t.period, now);
      timers.Insert(t);
    }

    /** One round of the loop of `hloop_process_timers`, for the due timer at the root. */
    method ExpireRoot(now: int) returns (t: Node)
      requires Valid() && timers.root != null
      modifies this, timers, timers.order
      ensures Valid() && t == old(timers.root) && t in old(timers.order)
      ensures Expired(t, old(timers.root.key), old(timers.root.period), old(timers.root.repeat), now,
              t in timers.Nodes())
      ensures timers.Nodes() == if old(timers.root.repeat) == 1 then old(timers.Nodes()) - {t} else old(timers.Nodes())
      ensures pend == if old(timers.root.pending) then old(pend) else old(pend) + [t]
      ensures forall n :: n in old(timers.Nodes()) && n != t ==> Same(n)
      ensures forall i :: 0 <= i < |timers.order| ==> timers.order[i] in old(timers.order)
    {
      t := timers.root;
      timers.InRef(0);
      assert TimerOk(t);
      Requeue(t, now);
      MakePending(t);
      MembersOk(t);
    }

    /** Lower the count, then drop the timer from the heap or move it on. */
    method Requeue(t: Node, now: int)
      requires timers.Valid() && ntimers == timers.nelts && t == timers.root && TimerOk(t)
      modifies this`ntimers, timers, timers.order`parent, timers.order`left, timers.order`right, timers.order`slot,
               t`key, t`repeat, t`destroy
      ensures timers.Valid() && ntimers == timers.nelts
      ensures 1 <= old(t.repeat) < 0xFFFF_FFFF ==> t.repeat == old(t.repeat) - 1
      ensures old(t.repeat) == 0 || old(t.repeat) == 0xFFFF_FFFF ==> t.repeat == 0xFFFF_FFFF
      ensures old(t.repeat) == 1 ==> t.destroy && t.key == old(t.key) && timers.Nodes() == old(timers.Nodes()) - {t}
      ensures old(t.repeat) != 1 ==>
              !t.destroy && NextTick(old(t.key), t.period, now, t.key) && timers.Nodes() == old(timers.Nodes())
      ensures t in old(timers.Nodes())
    {
      timers.InRef(0);
      t.repeat := Lowered(t.repeat);
      if t.repeat == 0 {
        Unlink(t);
      } else {
        Reschedule(t, now);
      }
    }

    /** The timers still in the heap are fit to expire again. */
    twostate lemma MembersOk(t: Node)
      requires old(Valid()) && timers.Nodes() <= old(timers.Nodes())
      requires forall n :: n in old(timers.Nodes()) && n != t ==> Same(n)
      requires t in timers.Nodes() ==> TimerOk(t)
      ensures forall n :: n in timers.order ==> TimerOk(n)
      ensures forall i :: 0 <= i < |timers.order| ==> timers.order[i] in old(timers.order)
    {
      forall n | n in timers.order
        ensures TimerOk(n) && n in old(timers.order)
      {
        assert n in timers.Nodes();
        assert n in old(timers.Nodes());
      }
    }

    ghost predicate NoDuplicates(s: seq<Node>) {
      forall i, j :: 0 <= i < j < |s| ==> s[i] != s[j]
    }

    /** The fields of the timers in `all`. */
    ghost function Record(all: set<Node>): map<Node, Fields>
      reads all
    {
      map n | n in all :: Fields(n.key, n.period, n.repeat, n.pending, n.destroy)
    }

    /** What became of timer n, of which the record at the start is r. */
    ghost predicate Outcome(n: Node, r: Fields, now: int, isDone: bool)
      reads n, timers
    {
      if isDone then r.key <= now && Expired(n, r.key, r.period, r.repeat, now, n in timers.Nodes())
      else r == Fields(n.key, n.period, n.repeat, n.pending, n.destroy) && n in timers.Nodes()
    }

    /** Where the timers stand when those of `done`, all due at the start, have been expired. */
    ghost predicate Progress(at: map<Node, Fields>, now: int, done: set<Node>)
      reads this, timers, at.Keys
    {
      && timers.Nodes() <= at.Keys && done <= at.Keys
      && forall n {:trigger Outcome(n, at[n], now, n in done)} :: n in at ==> Outcome(n, at[n], now, n in done)
    }

    /** The timers of `done` that were not pending at the start, each once. */
    ghost predicate Listed(at: map<Node, Fields>, added: seq<Node>, done: set<Node>)
      requires done <= at.Keys
    {
      && NoDuplicates(added)
      && (forall n :: n in added ==> n in done && !at[n].pending)
      && (forall n :: n in done && !at[n].pending ==> n in added)
    }

    lemma ListMore(at: map<Node, Fields>, added: seq<Node>, done: set<Node>, t: Node)
      requires done <= at.Keys && Listed(at, added, done) && t in at && t !in done
      ensures Listed(at, if at[t].pending then added else added + [t], done + {t})
    {
    }

    /** The root is due: one more timer is expired. */
    method Advance(now: int, ghost at: map<Node, Fields>, ghost done: set<Node>, ghost added: seq<Node>,
                   ghost all: seq<Node>) returns (t: Node, ghost more: seq<Node>)
      requires Valid() && timers.root != null && timers.root.key <= now && Progress(at, now, done)
      requires Listed(at, added, done)
      requires forall i :: 0 <= i < |timers.order| ==> timers.order[i] in all
      modifies this, timers, timers.order
      ensures Valid() && t in at && t !in done && Progress(at, now, done + {t}) && Listed(at, more, done + {t})
      ensures pend == old(pend) + (if at[t].pending then [] else [t])
              && more == added + (if at[t].pending then [] else [t])
      ensures t in Due(at, now)
      ensures forall i :: 0 <= i < |timers.order| ==> timers.order[i] in all
    {
      timers.InRef(0);
      t := timers.root;
      assert t in timers.Nodes();
      assert Outcome(t, at[t], now, t in done);
      t := ExpireRoot(now);
      forall n | n in at
        ensures Outcome(n, at[n], now, n in done + {t})
      {
        assert old(Outcome(n, at[n], now, n in done));
      }
      forall i | 0 <= i < |timers.order|
        ensures timers.order[i] in all
      {
        assert timers.order[i] in old(timers.order);
      }
      ListMore(at, added, done, t);
      more := added + (if at[t].pending then [] else [t]);
    }

    lemma Behind(x: seq<Node>, y: seq<Node>, z: seq<Node>)
      ensures x + y + z == x + (y + z)
    {
    }

    ghost function Due(at: map<Node, Fields>, now: int): set<Node> {
      set n | n in at && at[n].key <= now
    }

    /** With the root later than now, no timer is due, so every timer due at the start is done. */
    lemma AllDone(at: map<Node, Fields>, now: int, done: set<Node>)
      requires Valid() && Progress(at, now, done) && (timers.root != null ==> timers.root.key > now)
      ensures done == Due(at, now)
      ensures forall n :: n in timers.order ==> n.key > now
    {
      forall n | n in timers.order
        ensures n.key > now
      {
        var k :| 0 <= k < |timers.order| && timers.order[k] == n;
        RootLeast(Keys(timers.order), k);
      }
      forall n | n in at
        ensures n in done <==> n in Due(at, now)
      {
        assert Outcome(n, at[n], now, n in done);
      }
    }

    /** `hloop_process_timers`: exactly the timers due at the start are expired, each once. */
    method ProcessTimers(now: int) returns (count: nat)
      requires Valid()
      modifies this, timers, timers.order
      ensures Valid()
      ensures var at := old(Record(timers.Nodes()));
              && Progress(at, now, Due(at, now)) && count == |Due(at, now)|
              && old(pend) <= pend && Listed(at, pend[|old(pend)|..], Due(at, now))
      ensures forall n :: n in timers.order ==> n.key > now
    {
      ghost var at := Record(timers.Nodes());
      Start(at, now);
      ghost var done, added;
      count, done, added := ExpireAll(now, at);
      AllDone(at, now, done);
    }

    /** The loop itself. */
    method ExpireAll(now: int, ghost at: map<Node, Fields>) returns (count: nat, ghost done: set<Node>,
                     ghost added: seq<Node>)
      requires Valid() && Progress(at, now, {}) && Listed(at, [], {})
      modifies this, timers, timers.order
      ensures Valid() && Progress(at, now, done) && Listed(at, added, done)
      ensures pend == old(pend) + added && count == |done|
      ensures timers.root != null ==> timers.root.key > now
    {
      count, done, added := 0, {}, [];
      while timers.root != null && timers.root.key <= now
        invariant Valid() && Progress(at, now, done) && Listed(at, added, done)
        invariant pend == old(pend) + added && count == |done|
        invariant forall i :: 0 <= i < |timers.order| ==> timers.order[i] in old(timers.order)
        decreases Due(at, now) - done
      {
        var t;
        ghost var more;
        t, more := Advance(now, at, done, added, old(timers.order));
        Behind(old(pend), added, if at[t].pending then [] else [t]);
        done, added, count := done + {t}, more, count + 1;
      }
    }

    // ------------------------------------------------------------ a timer's life

    /** What is left to t: when it is due and how often it expires. A timer out of the heap is not due. */
    ghost function LifeOf(t: Node): Life
      reads this, timers, t
    {
      Life(t.key, if t in timers.Nodes() then t.repeat else 0)
    }

    /** A timer that is in the heap with a finite count, or out of it and marked. */
    ghost predicate Mortal(t: Node)
      reads this, timers, t
    {
      t.period > 0 && if t in timers.Nodes() then 1 <= t.repeat < 0xFFFF_FFFF else t.destroy
    }

    /** A call, as such a timer sees it. */
    method ProcessFor(now: int, t: Node) returns (count: nat)
      requires Valid() && Mortal(t)
      modifies this, timers, timers.order
      ensures Valid() && Mortal(t) && t.period == old(t.period)
      ensures LifeOf(t) == Lived(old(LifeOf(t)), t.period, now)
      ensures forall i :: 0 <= i < |timers.order| ==> timers.order[i] in old(timers.order)
    {
      ghost var at := Record(timers.Nodes());
      count := ProcessTimers(now);
      forall i | 0 <= i < |timers.order|
        ensures timers.order[i] in old(timers.order)
      {
        assert timers.order[i] in timers.Nodes();
      }
      if t in at {
        assert Outcome(t, at[t], now, t in Due(at, now));
        if t in Due(at, now) && at[t].repeat > 1 {
          TickIs(at[t].key, t.period, now, t.key);
        }
      }
    }

    /** Calls at the instants `nows`: a timer of count k expires at the first k calls at which it is due, leaves
        the heap with the last of them, and is then marked. */
    method ProcessAll(nows: seq<int>, t: Node)
      requires Valid() && t in timers.Nodes() && 1 <= t.repeat < 0xFFFF_FFFF
      modifies this, timers, timers.order
      ensures Valid() && t.period == old(t.period)
      ensures var n := Expiries(Life(old(t.key), old(t.repeat)), t.period, nows);
              && n <= old(t.repeat) && (t in timers.Nodes() <==> n < old(t.repeat))
              && (n < old(t.repeat) ==> t.repeat == old(t.repeat) - n) && (n == old(t.repeat) ==> t.destroy)
    {
      assert TimerOk(t);
      ghost var l := LifeOf(t);
      for i := 0 to |nows|
        invariant Valid() && Mortal(t) && t.period == old(t.period)
        invariant LifeOf(t) == LivedAll(l, t.period, nows[..i])
        invariant forall i :: 0 <= i < |timers.order| ==> timers.order[i] in old(timers.order)
      {
        assert nows[..i + 1][..i] == nows[..i];
        var _ := ProcessFor(nows[i], t);
      }
      assert nows[..|nows|] == nows;
      ExpiresOften(l, t.period, nows);
    }

    lemma Start(at: map<Node, Fields>, now: int)
      requires Valid() && at == Record(timers.Nodes())
      ensures Progress(at, now, {}) && Listed(at, [], {})
    {
      forall n | n in at
        ensures Outcome(n, at[n], now, n in {})
      {
      }
    }

    // ------------------------------------------------------------ adding, deleting, resetting

    /** The first timeout of a timer of `timeout` milliseconds: long round periods are cut to 100 ms. */
    function FirstTimeout(now: int, timeout: nat): (t: int)
      requires 0 <= now && timeout > 0
      ensures now < t <= now + timeout * 1000
      ensures if timeout >= 1000 && timeout % 100 == 0 then t % 100000 == 0 && now + timeout * 1000 - 100000 < t
              else t == now + timeout * 1000
    {
      var t := now + timeout * 1000;
      if timeout >= 1000 && timeout % 100 == 0 then t / 100000 * 100000 else t
    }

    /** `htimer_add`. */
    method Add(now: int, timeout: nat, repeat: nat) returns (t: Node?)
      requires Valid() && 0 <= now && repeat <= INFINITE
      modifies this`ntimers, timers, timers.order`parent, timers.order`left, timers.order`right, timers.order`slot
      ensures Valid() && (t == null <==> timeout == 0)
      ensures timeout == 0 ==> timers.Nodes() == old(timers.Nodes())
      ensures timeout > 0 ==> fresh(t) && timers.Nodes() == old(timers.Nodes()) + {t}
      ensures timeout > 0 ==> t.key == FirstTimeout(now, timeout) && t.period == timeout * 1000 && t.repeat == repeat
    {
      if timeout == 0 {
        return null;
      }
      t := new Node(FirstTimeout(now, timeout), timeout * 1000, repeat);
      timers.Insert(t);
      ntimers := ntimers + 1;
      InsertedOk(t);
    }

    twostate lemma InsertedOk(new t: Node)
      requires old(Valid()) && timers.Nodes() == old(timers.Nodes()) + {t} && TimerOk(t)
      requires forall n :: n in old(timers.Nodes()) ==> Same(n)
      ensures forall n :: n in timers.order ==> TimerOk(n)
    {
      forall n | n in timers.order
        ensures TimerOk(n)
      {
        assert n in timers.Nodes();
        assert n == t || n in old(timers.Nodes());
      }
    }

    method Detach(t: Node)
      requires timers.Valid() && ntimers == timers.nelts
      requires if t.destroy then timers.Absent(t) && t.left == null && t.right == null else timers.In(t)
      modifies this`ntimers, timers, timers.order`parent, timers.order`left, timers.order`right, timers.order`slot
      ensures timers.Valid() && ntimers == timers.nelts + 1 && timers.Nodes() == old(timers.Nodes()) - {t}
      ensures timers.Absent(t) && t.left == null && t.right == null
      ensures forall i :: 0 <= i < |timers.order| ==> timers.order[i] in old(timers.order)
    {
      if t.destroy {
        ntimers := ntimers + 1;
      } else {
        timers.Remove(t);
        assert t !in timers.Nodes();
      }
    }

    /** `EVENT_RESET`, and a count of zero starts over as one. */
    method Refresh(t: Node, key: int)
      requires timers.Valid() && timers.Absent(t)
      modifies t`key, t`repeat, t`destroy, t`pending
      ensures timers.Valid()
      ensures t.key == key && !t.destroy && !t.pending && t.repeat == (if old(t.repeat) == 0 then 1 else old(t.repeat))
    {
      if t.repeat == 0 {
        t.repeat := 1;
      }
      t.key, t.destroy, t.pending := key, false, false;
    }

    /** The timer enters the heap again with the given timeout. */
    method Attach(t: Node, key: int)
      requires timers.Valid() && timers.Absent(t) && t.left == null && t.right == null
      modifies timers, timers.order`parent, timers.order`left, timers.order`right, timers.order`slot
      modifies t`key, t`repeat, t`destroy, t`pending, t`parent, t`left, t`right, t`slot
      ensures timers.Valid() && timers.nelts == old(timers.nelts) + 1 && timers.Nodes() == old(timers.Nodes()) + {t}
      ensures t.key == key && !t.destroy && !t.pending && t.repeat == (if old(t.repeat) == 0 then 1 else old(t.repeat))
    {
      Refresh(t, key);
      timers.Insert(t);
    }

    /** The heap part of `htimer_reset`: the timer starts over from now, whether or not it was still in
        the heap. */
    method Reset(t: Node, now: int, timeout: nat)
      requires Valid() && 0 <= now && timeout > 0 && t.period == timeout * 1000 && t.repeat <= INFINITE
      requires if t.destroy then timers.Absent(t) && t.left == null && t.right == null else timers.In(t)
      modifies this`ntimers, timers, timers.order`parent, timers.order`left, timers.order`right, timers.order`slot
      modifies t`key, t`repeat, t`destroy, t`pending, t`parent, t`left, t`right, t`slot
      ensures Valid() && t in timers.Nodes() && !t.destroy
      ensures timers.Nodes() == old(timers.Nodes()) + {t}
      ensures t.key == FirstTimeout(now, timeout) && t.repeat == (if old(t.repeat) == 0 then 1 else old(t.repeat))
    {
      Detach(t);
      Attach(t, FirstTimeout(now, timeout));
      InsertedOkAgain(t);
    }

    twostate lemma InsertedOkAgain(t: Node)
      requires old(Valid()) && timers.Nodes() == old(timers.Nodes()) + {t} && TimerOk(t)
      requires forall n :: n in old(timers.Nodes()) && n != t ==> Same(n)
      ensures forall n :: n in timers.order ==> TimerOk(n)
    {
      forall n | n in timers.order
        ensures TimerOk(n)
      {
        assert n in timers.Nodes();
        assert n == t || n in old(timers.Nodes());
      }
    }
  }
}
