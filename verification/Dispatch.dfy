/** Pending events, their dispatch by priority and their deferred deletion (event/hloop.c, macros in
    event/hevent.h), as a state machine: between two steps of the dispatcher a callback may add and delete
    any events. */
module Dispatch {
  import opened Sets

  /** HEVENT_PRIORITY_SIZE; a priority is an index from 0, the lowest, to 10. */
  const LEVELS := 11

  type Priority = p: int | 0 <= p < LEVELS

  /** An event that is allocated. `repeat` is none for an io and for an infinite timer. */
  datatype Repeat = Forever | Times(n: nat)

  datatype Event = Event(active: bool, pending: bool, destroy: bool, priority: Priority, repeat: Repeat)

  /** Outside `hloop_process_pendings`; at the event `rest[0]` of a level; or in the callback of that event.
      `rest` is what the walk along `pending_next` has still to visit. */
  datatype Phase = Outside | Walking(level: Priority, rest: seq<nat>) | Calling(level: Priority, rest: seq<nat>)

  /** A callback: of which event, and at which priority. */
  datatype Call = Call(id: nat, priority: Priority)

  /** `freed` and `called` record the calls of free, and the callbacks of this round. */
  datatype State = State(events: map<nat, Event>, pendings: seq<seq<nat>>, nactives: int, npendings: int, phase: Phase,
                         freed: seq<nat>, called: seq<Call>)

  datatype Action =
    | Add(id: nat, priority: Priority, repeat: Repeat) | Delete(id: nat) | Expire(id: nat) | Ready(id: nat)
    | Stop(id: nat) | Restart(id: nat)
    | Begin | Visit | Return | Down

  // ---------------------------------------------------------------- the macros

  function Put(s: State, id: nat, e: Event): State {
    s.(events := s.events[id := e])
  }

  /** EVENT_ACTIVE. */
  function Activate(s: State, id: nat): State
    requires id in s.events
  {
    if s.events[id].active then s else Put(s, id, s.events[id].(active := true)).(nactives := s.nactives + 1)
  }

  /** EVENT_INACTIVE. */
  function Deactivate(s: State, id: nat): State
    requires id in s.events
  {
    if s.events[id].active then Put(s, id, s.events[id].(active := false)).(nactives := s.nactives - 1) else s
  }

  function Free(s: State, id: nat): State {
    s.(events := s.events - {id}, freed := s.freed + [id])
  }

  /** EVENT_DEL. */
  function Drop(s: State, id: nat): State
    requires id in s.events
  {
    var t := Deactivate(s, id);
    if t.events[id].pending then t else Free(t, id)
  }

  /** EVENT_PENDING. */
  function Enlist(s: State, id: nat): State
    requires id in s.events && |s.pendings| == LEVELS
  {
    var e := s.events[id];
    if e.pending then s
    else Put(s, id, e.(pending := true)).(npendings := s.npendings + 1,
      pendings := s.pendings[e.priority := [id] + s.pendings[e.priority]])
  }

  /** One expiry less; with the last one the event is marked for deletion. Below zero the 32-bit count is that
      of an infinite timer. */
  function Count(e: Event): Event {
    var r := if e.repeat.Forever? || e.repeat.n == 0 then Forever else Times(e.repeat.n - 1);
    e.(repeat := r, destroy := e.destroy || r == Times(0))
  }

  /** The dispatcher is done with the event it was at. */
  function Leave(s: State, id: nat): State
    requires id in s.events
  {
    var e := s.events[id];
    var t := Put(s, id, e.(pending := false));
    if e.destroy then Drop(t, id) else t
  }

  // ---------------------------------------------------------------- the steps

  /** Users name only events that are allocated; a new one gets a number never used. Events become pending
      only outside the dispatcher, where timers, idles and ios are polled. */
  predicate Enabled(s: State, a: Action) {
    && |s.pendings| == LEVELS
    && match a
       case Add(id, _, _) => !s.phase.Walking? && id !in s.events && id !in s.freed
       case Delete(id) => !s.phase.Walking? && id in s.events
       case Expire(id) => s.phase.Outside? && id in s.events && s.events[id].active && !s.events[id].destroy
       case Ready(id) => s.phase.Outside? && id in s.events && s.events[id].active
       case Stop(id) => !s.phase.Walking? && id in s.events
       case Restart(id) => !s.phase.Walking? && id in s.events && !s.events[id].destroy
       case Begin => s.phase.Outside?
       case Visit => s.phase.Walking? && s.phase.rest != [] && s.phase.rest[0] in s.events
       case Return => s.phase.Calling? && s.phase.rest != [] && s.phase.rest[0] in s.events
       case Down => s.phase.Walking? && s.phase.rest == []
  }

  function Next(s: State, a: Action): (s': State)
    requires Enabled(s, a)
  {
    match a
    case Add(id, p, r) => Activate(Put(s, id, Event(false, false, false, p, r)), id)
    case Delete(id) => if s.events[id].active then Drop(Put(s, id, s.events[id].(destroy := true)), id) else s
    case Expire(id) => Enlist(Put(s, id, Count(s.events[id])), id)
    case Ready(id) => Enlist(s, id)
    case Stop(id) => Deactivate(s, id)
    case Restart(id) => Activate(s, id)
    case Begin => if s.npendings == 0 then s else s.(phase := Walking(LEVELS - 1, s.pendings[LEVELS - 1]), called := [])
    case Visit =>
      var id := s.phase.rest[0];
      var e := s.events[id];
      if e.pending && e.active then s.(phase := Calling(s.phase.level, s.phase.rest),
        called := s.called + [Call(id, e.priority)])
      else (if e.pending then Leave(s, id) else s).(phase := Walking(s.phase.level, s.phase.rest[1..]))
    case Return => Leave(s, s.phase.rest[0]).(phase := Walking(s.phase.level, s.phase.rest[1..]))
    case Down =>
      var t := s.(pendings := s.pendings[s.phase.level := []]);
      if s.phase.level == 0 then t.(phase := Outside, npendings := 0)
      else t.(phase := Walking(s.phase.level - 1, s.pendings[s.phase.level - 1]))
  }

  const INITIAL: State := State(map[], [[], [], [], [], [], [], [], [], [], [], []], 0, 0, Outside, [], [])

  // ---------------------------------------------------------------- the lists

  type Lists = l: seq<seq<nat>> | |l| == LEVELS witness [[], [], [], [], [], [], [], [], [], [], []]

  /** What is still to be visited, level by level. */
  function Level(s: State, p: Priority): seq<nat>
    requires |s.pendings| == LEVELS
  {
    match s.phase
    case Outside => s.pendings[p]
    case Walking(l, rest) => if p > l then [] else if p == l then rest else s.pendings[p]
    case Calling(l, rest) => if p > l then [] else if p == l then rest else s.pendings[p]
  }

  function LinkedIn(s: State): (l: Lists)
    requires |s.pendings| == LEVELS
    ensures forall p: Priority :: l[p] == Level(s, p)
  {
    seq(LEVELS, p requires 0 <= p < LEVELS => Level(s, p))
  }

  ghost predicate NoDup(l: seq<nat>) {
    forall i, j :: 0 <= i < j < |l| ==> l[i] != l[j]
  }

  /** The events that are in the lists are exactly the pending ones, each once and at its priority, and none
      of them has been freed. */
  ghost predicate Linked(m: map<nat, Event>, l: Lists) {
    && (forall p: Priority {:trigger l[p]} :: NoDup(l[p]))
    && (forall p: Priority, i {:trigger l[p][i]} :: 0 <= i < |l[p]| ==>
       l[p][i] in m && m[l[p][i]].pending && m[l[p][i]].priority == p)
    && (forall id {:trigger m[id]} :: id in m && m[id].pending ==> id in l[m[id].priority])
  }

  /** A change that leaves the pending flag and the priority alone. */
  lemma LinkedPut(m: map<nat, Event>, l: Lists, id: nat, e: Event)
    requires Linked(m, l)
    requires if id in m then e.pending == m[id].pending && e.priority == m[id].priority else !e.pending
    ensures Linked(m[id := e], l)
  {
  }

  lemma LinkedFree(m: map<nat, Event>, l: Lists, id: nat)
    requires Linked(m, l) && id in m && !m[id].pending
    ensures Linked(m - {id}, l)
  {
  }

  lemma LinkedEnlist(m: map<nat, Event>, l: Lists, id: nat)
    requires Linked(m, l) && id in m && !m[id].pending
    ensures var p := m[id].priority; Linked(m[id := m[id].(pending := true)], l[p := [id] + l[p]])
  {
    var p := m[id].priority;
    var m', l' := m[id := m[id].(pending := true)], l[p := [id] + l[p]];
    forall q: Priority
      ensures NoDup(l'[q])
    {
      assert NoDup(l[q]);
      assert forall i :: 0 <= i < |l[q]| ==> l[q][i] != id;
    }
    forall q: Priority, i | 0 <= i < |l'[q]|
      ensures l'[q][i] in m' && m'[l'[q][i]].pending && m'[l'[q][i]].priority == q
    {
      assert q != p ==> l'[q][i] == l[q][i];
      assert q == p && i > 0 ==> l'[q][i] == l[q][i - 1];
    }
    forall x | x in m' && m'[x].pending
      ensures x in l'[m'[x].priority]
    {
      assert x != id ==> m[x].pending;
      assert x == id ==> l'[p][0] == id;
    }
  }

  /** The first event of a level is taken off. */
  lemma LinkedLeave(m: map<nat, Event>, l: Lists, p: Priority)
    requires Linked(m, l) && |l[p]| > 0
    ensures var id := l[p][0];
            id in m && m[id].pending && m[id].priority == p
              && Linked(m[id := m[id].(pending := false)], l[p := l[p][1..]])
  {
    var id := l[p][0];
    var m', l' := m[id := m[id].(pending := false)], l[p := l[p][1..]];
    assert NoDup(l[p]);
    forall q: Priority
      ensures NoDup(l'[q])
    {
      assert NoDup(l[q]);
    }
    forall q: Priority, i | 0 <= i < |l'[q]|
      ensures l'[q][i] in m' && m'[l'[q][i]].pending && m'[l'[q][i]].priority == q
    {
      assert q == p ==> l'[q][i] == l[q][i + 1] && l[q][i + 1] != l[q][0];
      assert q != p ==> l'[q][i] == l[q][i];
    }
    forall x | x in m' && m'[x].pending
      ensures x in l'[m'[x].priority]
    {
      assert x != id && m[x].pending;
      var q := m[x].priority;
      assert x in l[q];
      if q == p {
        assert l[p] == [id] + l[p][1..];
      }
    }
  }

  lemma DropLinked(s: State, l: Lists, id: nat)
    requires Linked(s.events, l) && id in s.events
    ensures Linked(Drop(s, id).events, l)
  {
    LinkedPut(s.events, l, id, s.events[id].(active := false));
    var t := Deactivate(s, id);
    if !t.events[id].pending {
      LinkedFree(t.events, l, id);
    }
  }

  lemma LeaveLinked(s: State, l: Lists, p: Priority)
    requires Linked(s.events, l) && |l[p]| > 0
    ensures l[p][0] in s.events && Linked(Leave(s, l[p][0]).events, l[p := l[p][1..]])
  {
    var id := l[p][0];
    LinkedLeave(s.events, l, p);
    var e := s.events[id];
    if e.destroy {
      DropLinked(Put(s, id, e.(pending := false)), l[p := l[p][1..]], id);
    }
  }

  /** LEVELS above the one being walked are finished. */
  ghost predicate Cleared(s: State) {
    && |s.pendings| == LEVELS
    && (!s.phase.Outside? ==> forall p: Priority {:trigger s.pendings[p]} :: p > s.phase.level ==> s.pendings[p] == [])
    && (s.phase.Calling? ==> s.phase.rest != [])
  }

  lemma ClearedKept(s: State, a: Action)
    requires Cleared(s) && Enabled(s, a)
    ensures Cleared(Next(s, a))
  {
  }

  lemma SameLists(s: State, t: State)
    requires |s.pendings| == LEVELS && s.pendings == t.pendings && s.phase == t.phase
    ensures LinkedIn(s) == LinkedIn(t)
  {
  }

  /** After the walk has left an event. */
  lemma ShorterLists(s: State, t: State)
    requires |s.pendings| == LEVELS && s.pendings == t.pendings && !s.phase.Outside? && s.phase.rest != []
    requires t.phase == Walking(s.phase.level, s.phase.rest[1..])
    ensures LinkedIn(s)[s.phase.level] == s.phase.rest
    ensures LinkedIn(t) == LinkedIn(s)[s.phase.level := s.phase.rest[1..]]
  {
  }

  lemma UserLinked(s: State, a: Action)
    requires Enabled(s, a) && Linked(s.events, LinkedIn(s)) && (a.Add? || a.Delete? || a.Stop? || a.Restart?)
    ensures |Next(s, a).pendings| == LEVELS && Linked(Next(s, a).events, LinkedIn(Next(s, a)))
  {
    var l, t := LinkedIn(s), Next(s, a);
    SameLists(s, t);
    match a
    case Add(id, p, r) =>
      LinkedPut(s.events, l, id, Event(true, false, false, p, r));
      assert t.events == s.events[id := Event(true, false, false, p, r)];
    case Delete(id) =>
      var e := s.events[id].(destroy := true);
      LinkedPut(s.events, l, id, e);
      DropLinked(Put(s, id, e), l, id);
    case Stop(id) => LinkedPut(s.events, l, id, s.events[id].(active := false));
    case Restart(id) => LinkedPut(s.events, l, id, s.events[id].(active := true));
  }

  lemma EnlistLinked(s: State, id: nat)
    requires s.phase.Outside? && |s.pendings| == LEVELS && Linked(s.events, LinkedIn(s)) && id in s.events
    ensures |Enlist(s, id).pendings| == LEVELS && Linked(Enlist(s, id).events, LinkedIn(Enlist(s, id)))
  {
    var l, t, p := LinkedIn(s), Enlist(s, id), s.events[id].priority;
    if !s.events[id].pending {
      LinkedEnlist(s.events, l, id);
      assert LinkedIn(t) == l[p := [id] + l[p]];
    }
  }

  lemma PollLinked(s: State, a: Action)
    requires Enabled(s, a) && Linked(s.events, LinkedIn(s)) && (a.Expire? || a.Ready?)
    ensures |Next(s, a).pendings| == LEVELS && Linked(Next(s, a).events, LinkedIn(Next(s, a)))
  {
    if a.Expire? {
      var t := Put(s, a.id, Count(s.events[a.id]));
      LinkedPut(s.events, LinkedIn(s), a.id, Count(s.events[a.id]));
      SameLists(s, t);
      EnlistLinked(t, a.id);
    } else {
      EnlistLinked(s, a.id);
    }
  }

  lemma WalkLinked(s: State, a: Action)
    requires Cleared(s) && Linked(s.events, LinkedIn(s)) && Enabled(s, a)
    requires a.Begin? || a.Visit? || a.Return? || a.Down?
    ensures |Next(s, a).pendings| == LEVELS && Linked(Next(s, a).events, LinkedIn(Next(s, a)))
  {
    var t := Next(s, a);
    if a.Begin? || a.Down? || t.phase.Calling? {
      WalkStays(s, a);
    } else {
      ShorterLists(s, t);
      LeaveLinked(s, LinkedIn(s), s.phase.level);
    }
  }

  /** No event is left. */
  lemma WalkStays(s: State, a: Action)
    requires Cleared(s) && Linked(s.events, LinkedIn(s)) && Enabled(s, a)
    requires a.Begin? || a.Down? || (a.Visit? && Next(s, a).phase.Calling?)
    ensures |Next(s, a).pendings| == LEVELS && LinkedIn(Next(s, a)) == LinkedIn(s) && Next(s, a).events == s.events
  {
  }

  // ---------------------------------------------------------------- deletion

  /** An event that is marked for deletion and not linked has been freed already. */
  ghost predicate Marked(m: map<nat, Event>) {
    forall id {:trigger m[id]} :: id in m && m[id].destroy ==> m[id].pending
  }

  /** No event is freed twice, and none that is freed is used. */
  ghost predicate FreedOnce(s: State) {
    NoDup(s.freed) && forall id :: id in s.freed ==> id !in s.events
  }

  lemma MarkedKept(s: State, a: Action)
    requires Marked(s.events) && Enabled(s, a)
    ensures Marked(Next(s, a).events)
  {
  }

  lemma FreeOnce(s: State, id: nat)
    requires FreedOnce(s) && id in s.events
    ensures FreedOnce(Free(s, id))
  {
  }

  lemma DropOnce(s: State, id: nat)
    requires FreedOnce(s) && id in s.events
    ensures FreedOnce(Drop(s, id))
  {
    var t := Deactivate(s, id);
    if !t.events[id].pending {
      FreeOnce(t, id);
    }
  }

  lemma LeaveOnce(s: State, id: nat)
    requires FreedOnce(s) && id in s.events
    ensures FreedOnce(Leave(s, id))
  {
    var e := s.events[id];
    if e.destroy {
      DropOnce(Put(s, id, e.(pending := false)), id);
    }
  }

  lemma FreedOnceKept(s: State, a: Action)
    requires FreedOnce(s) && Enabled(s, a)
    ensures FreedOnce(Next(s, a))
  {
    if a.Delete? && s.events[a.id].active {
      DropOnce(Put(s, a.id, s.events[a.id].(destroy := true)), a.id);
    } else if a.Visit? || a.Return? {
      LeaveOnce(s, s.phase.rest[0]);
    }
  }

  // ---------------------------------------------------------------- the counters

  function Actives(m: map<nat, Event>): set<nat> {
    set id | id in m && m[id].active
  }

  function Pendings(m: map<nat, Event>): set<nat> {
    set id | id in m && m[id].pending
  }

  function One(b: bool): int {
    if b then 1 else 0
  }

  lemma ActivesAt(m: map<nat, Event>, id: nat, e: Event)
    ensures |Actives(m[id := e])| == |Actives(m)| - One(id in m && m[id].active) + One(e.active)
  {
    OneChanged(Actives(m), Actives(m[id := e]), id);
  }

  lemma PendingsAt(m: map<nat, Event>, id: nat, e: Event)
    ensures |Pendings(m[id := e])| == |Pendings(m)| - One(id in m && m[id].pending) + One(e.pending)
  {
    OneChanged(Pendings(m), Pendings(m[id := e]), id);
  }

  /** `nactives` is right. */
  ghost predicate CountedActives(s: State) {
    s.nactives == |Actives(s.events)|
  }

  lemma PutCounted(s: State, id: nat, e: Event)
    requires CountedActives(s) && id in s.events && e.active == s.events[id].active
    ensures CountedActives(Put(s, id, e))
  {
    ActivesAt(s.events, id, e);
  }

  lemma DropCounted(s: State, id: nat)
    requires CountedActives(s) && id in s.events
    ensures CountedActives(Drop(s, id))
  {
    ActivesAt(s.events, id, s.events[id].(active := false));
    var t := Deactivate(s, id);
    assert Actives(t.events - {id}) == Actives(t.events);
  }

  lemma LeaveCounted(s: State, id: nat)
    requires CountedActives(s) && id in s.events
    ensures CountedActives(Leave(s, id))
  {
    var e := s.events[id].(pending := false);
    PutCounted(s, id, e);
    if e.destroy {
      DropCounted(Put(s, id, e), id);
    }
  }

  lemma EnlistCounted(s: State, id: nat)
    requires CountedActives(s) && id in s.events && |s.pendings| == LEVELS
    ensures CountedActives(Enlist(s, id))
  {
    PutCounted(s, id, s.events[id].(pending := true));
  }

  lemma CountedActivesKept(s: State, a: Action)
    requires CountedActives(s) && Enabled(s, a)
    ensures CountedActives(Next(s, a))
  {
    match a
    case Add(id, p, r) =>
      ActivesAt(s.events, id, Event(true, false, false, p, r));
      assert Next(s, a).events == s.events[id := Event(true, false, false, p, r)];
    case Delete(id) =>
      PutCounted(s, id, s.events[id].(destroy := true));
      DropCounted(Put(s, id, s.events[id].(destroy := true)), id);
    case Expire(id) =>
      PutCounted(s, id, Count(s.events[id]));
      EnlistCounted(Put(s, id, Count(s.events[id])), id);
    case Ready(id) => EnlistCounted(s, id);
    case Stop(id) => ActivesAt(s.events, id, s.events[id].(active := false));
    case Restart(id) => ActivesAt(s.events, id, s.events[id].(active := true));
    case Begin =>
    case Visit => LeaveCounted(s, s.phase.rest[0]);
    case Return => LeaveCounted(s, s.phase.rest[0]);
    case Down =>
  }

  /** Outside the dispatcher `npendings` is right. */
  ghost predicate CountedPendings(s: State) {
    s.phase.Outside? ==> s.npendings == |Pendings(s.events)|
  }

  lemma DropPendings(s: State, id: nat)
    requires id in s.events
    ensures Pendings(Drop(s, id).events) == Pendings(s.events)
  {
  }

  /** When the last level has been walked nothing is pending. */
  lemma NothingLeft(s: State)
    requires Cleared(s) && Linked(s.events, LinkedIn(s)) && s.phase == Walking(0, [])
    ensures Pendings(s.events) == {}
  {
    forall id | id in s.events
      ensures !s.events[id].pending
    {
      assert LinkedIn(s)[s.events[id].priority] == [];
    }
  }

  lemma CountedPendingsKept(s: State, a: Action)
    requires Enabled(s, a) && Cleared(s) && Linked(s.events, LinkedIn(s)) && CountedPendings(s)
    ensures CountedPendings(Next(s, a))
  {
    match a
    case Add(id, p, r) =>
      PendingsAt(s.events, id, Event(true, false, false, p, r));
      assert Next(s, a).events == s.events[id := Event(true, false, false, p, r)];
    case Delete(id) =>
      var e := s.events[id].(destroy := true);
      PendingsAt(s.events, id, e);
      DropPendings(Put(s, id, e), id);
    case Expire(id) =>
      var e := Count(s.events[id]);
      PendingsAt(s.events, id, e);
      PendingsAt(s.events[id := e], id, e.(pending := true));
    case Ready(id) => PendingsAt(s.events, id, s.events[id].(pending := true));
    case Stop(id) => PendingsAt(s.events, id, s.events[id].(active := false));
    case Restart(id) => PendingsAt(s.events, id, s.events[id].(active := true));
    case Begin =>
    case Visit =>
    case Return =>
    case Down =>
      if s.phase.level == 0 {
        NothingLeft(s);
      }
  }

  // ---------------------------------------------------------------- a round

  /** The callbacks of which the dispatcher has taken leave. */
  function Over(s: State): nat {
    if s.phase.Calling? && |s.called| > 0 then |s.called| - 1 else |s.called|
  }

  /** x is not linked. */
  ghost predicate Unlinked(l: Lists, x: nat) {
    forall p: Priority {:trigger l[p]} :: x !in l[p]
  }

  ghost predicate Distinct(cs: seq<Call>) {
    forall i, j :: 0 <= i < j < |cs| ==> cs[i].id != cs[j].id
  }

  /** High priorities before low ones. */
  ghost predicate Descending(cs: seq<Call>) {
    forall i, j :: 0 <= i < j < |cs| ==> cs[i].priority >= cs[j].priority
  }

  ghost predicate Round(s: State) {
    && |s.pendings| == LEVELS && Distinct(s.called) && Descending(s.called)
    && (!s.phase.Outside? ==>
          && (forall i :: 0 <= i < |s.called| ==> s.called[i].priority >= s.phase.level)
          && (forall i :: 0 <= i < Over(s) ==> Unlinked(LinkedIn(s), s.called[i].id)))
    && (s.phase.Calling? ==>
       s.phase.rest != [] && |s.called| > 0
       && s.called[|s.called| - 1] == Call(s.phase.rest[0], s.phase.level))
  }

  /** The event the walk leaves is in no list any more. */
  lemma LeftUnlinked(m: map<nat, Event>, l: Lists, p: Priority)
    requires Linked(m, l) && |l[p]| > 0
    ensures Unlinked(l[p := l[p][1..]], l[p][0])
  {
    var id, l' := l[p][0], l[p := l[p][1..]];
    assert NoDup(l[p]);
    forall q: Priority
      ensures id !in l'[q]
    {
      forall i | 0 <= i < |l'[q]|
        ensures l'[q][i] != id
      {
        assert l'[q][i] == if q == p then l[q][i + 1] else l[q][i];
        assert m[l[p][0]].priority == p;
      }
    }
  }

  lemma StillUnlinked(l: Lists, p: Priority, x: nat)
    requires Unlinked(l, x) && |l[p]| > 0
    ensures Unlinked(l[p := l[p][1..]], x)
  {
    var l' := l[p := l[p][1..]];
    forall q: Priority
      ensures x !in l'[q]
    {
      assert x !in l[q];
    }
  }

  lemma RoundByUser(s: State, a: Action)
    requires Enabled(s, a) && Round(s) && (a.Add? || a.Delete? || a.Stop? || a.Restart? || a.Expire? || a.Ready?)
    ensures Round(Next(s, a))
  {
    if !s.phase.Outside? {
      SameLists(s, Next(s, a));
    }
  }

  lemma RoundByVisit(s: State)
    requires Enabled(s, Visit) && Round(s) && Linked(s.events, LinkedIn(s))
    ensures Round(Next(s, Visit))
  {
    var t, l, p := Next(s, Visit), LinkedIn(s), s.phase.level;
    assert l[p] == s.phase.rest && l[p][0] == s.phase.rest[0];
    if t.phase.Calling? {
      assert LinkedIn(t) == l;
      forall i | 0 <= i < |s.called|
        ensures s.called[i].id != s.phase.rest[0]
      {
        assert Unlinked(l, s.called[i].id);
        assert s.called[i].id !in l[p];
      }
    } else {
      ShorterLists(s, t);
      forall i | 0 <= i < |s.called|
        ensures Unlinked(LinkedIn(t), s.called[i].id)
      {
        StillUnlinked(l, p, s.called[i].id);
      }
    }
  }

  lemma RoundByReturn(s: State)
    requires Enabled(s, Return) && Round(s) && Linked(s.events, LinkedIn(s))
    ensures Round(Next(s, Return))
  {
    var t, l, p := Next(s, Return), LinkedIn(s), s.phase.level;
    assert l[p] == s.phase.rest;
    ShorterLists(s, t);
    forall i | 0 <= i < |s.called|
      ensures Unlinked(LinkedIn(t), s.called[i].id)
    {
      if i == |s.called| - 1 {
        LeftUnlinked(s.events, l, p);
      } else {
        StillUnlinked(l, p, s.called[i].id);
      }
    }
  }

  lemma RoundByLoop(s: State, a: Action)
    requires Enabled(s, a) && Round(s) && Cleared(s) && (a.Begin? || a.Down?)
    ensures Round(Next(s, a))
  {
    assert LinkedIn(Next(s, a)) == LinkedIn(s);
  }

  // ---------------------------------------------------------------- every run

  ghost predicate Inv(s: State) {
    && Cleared(s) && Linked(s.events, LinkedIn(s)) && Marked(s.events) && FreedOnce(s)
    && CountedActives(s) && CountedPendings(s) && Round(s)
  }

  lemma InvKept(s: State, a: Action)
    requires Enabled(s, a) && Inv(s)
    ensures Inv(Next(s, a))
  {
    ClearedKept(s, a);
    MarkedKept(s, a);
    FreedOnceKept(s, a);
    CountedActivesKept(s, a);
    CountedPendingsKept(s, a);
    LinkedKept(s, a);
    RoundKept(s, a);
  }

  lemma LinkedKept(s: State, a: Action)
    requires Enabled(s, a) && Cleared(s) && Linked(s.events, LinkedIn(s))
    ensures |Next(s, a).pendings| == LEVELS && Linked(Next(s, a).events, LinkedIn(Next(s, a)))
  {
    if a.Begin? || a.Visit? || a.Return? || a.Down? {
      WalkLinked(s, a);
    } else if a.Expire? || a.Ready? {
      PollLinked(s, a);
    } else {
      UserLinked(s, a);
    }
  }

  lemma RoundKept(s: State, a: Action)
    requires Enabled(s, a) && Cleared(s) && Linked(s.events, LinkedIn(s)) && Round(s)
    ensures Round(Next(s, a))
  {
    if a.Visit? {
      RoundByVisit(s);
    } else if a.Return? {
      RoundByReturn(s);
    } else if a.Begin? || a.Down? {
      RoundByLoop(s, a);
    } else {
      RoundByUser(s, a);
    }
  }

  ghost predicate Runs(s: State, actions: seq<Action>, s': State)
    decreases |actions|
  {
    if |actions| == 0 then s == s' else Enabled(s, actions[0]) && Runs(Next(s, actions[0]), actions[1..], s')
  }

  lemma {:induction false} InvAlways(s: State, actions: seq<Action>, s': State)
    requires Inv(s) && Runs(s, actions, s')
    ensures Inv(s')
    decreases |actions|
  {
    if |actions| == 0 {
    } else {
      InvKept(s, actions[0]);
      InvAlways(Next(s, actions[0]), actions[1..], s');
    }
  }

  lemma InitialInv()
    ensures Inv(INITIAL)
  {
    assert Actives(INITIAL.events) == {} && Pendings(INITIAL.events) == {};
  }

  /** In every reachable state: the counters are right; every event is in the lists at most once, and only
      allocated events are; none has been freed twice or is used after; the callbacks of a round are of
      different events, from high priority to low; and the walk never meets a freed event. */
  lemma Safe(actions: seq<Action>, s: State)
    requires Runs(INITIAL, actions, s)
    ensures |s.pendings| == LEVELS
    ensures s.nactives == |Actives(s.events)| && (s.phase.Outside? ==> s.npendings == |Pendings(s.events)|)
    ensures Linked(s.events, LinkedIn(s)) && FreedOnce(s) && Distinct(s.called) && Descending(s.called)
    ensures s.phase.Walking? && s.phase.rest != [] ==> s.phase.rest[0] in s.events && s.events[s.phase.rest[0]].pending
    ensures s.phase.Calling? ==> s.phase.rest != [] && s.phase.rest[0] in s.events
  {
    InitialInv();
    InvAlways(INITIAL, actions, s);
    if !s.phase.Outside? {
      var l := LinkedIn(s);
      assert l[s.phase.level] == s.phase.rest;
      if s.phase.rest != [] {
        assert l[s.phase.level][0] in s.events;
      }
    }
  }

  /** In every run: when the walk comes to an event, its callback is made exactly if the event is active, and at
      its priority; and no other step makes a callback. */
  lemma CallsActive(actions: seq<Action>, s: State, a: Action)
    requires Runs(INITIAL, actions, s) && Enabled(s, a)
    ensures s.phase.Walking? && s.phase.rest != [] ==>
              Enabled(s, Visit) && s.events[s.phase.rest[0]].pending
              && Next(s, Visit).called ==
                   s.called + if s.events[s.phase.rest[0]].active then [Call(s.phase.rest[0], s.phase.level)] else []
    ensures !a.Visit? ==> Next(s, a).called == s.called || (a.Begin? && Next(s, a).called == [])
  {
    Safe(actions, s);
    if s.phase.Walking? && s.phase.rest != [] {
      AtLevel(s);
    }
  }

  lemma AtLevel(s: State)
    requires |s.pendings| == LEVELS && Linked(s.events, LinkedIn(s)) && s.phase.Walking? && s.phase.rest != []
    ensures s.phase.rest[0] in s.events && s.events[s.phase.rest[0]].pending
    ensures s.events[s.phase.rest[0]].priority == s.phase.level
  {
    var l := LinkedIn(s);
    assert l[s.phase.level][0] == s.phase.rest[0];
  }

  /** Between rounds, when nothing is pending, every event that was deleted or has expired for the last time
      has been freed. */
  lemma AllFreed(actions: seq<Action>, s: State)
    requires Runs(INITIAL, actions, s) && s.phase.Outside? && s.npendings == 0
    ensures forall id :: id in s.events ==> !s.events[id].destroy
  {
    InitialInv();
    InvAlways(INITIAL, actions, s);
    forall id | id in s.events
      ensures !s.events[id].destroy
    {
      assert Pendings(s.events) == {};
      assert id !in Pendings(s.events);
    }
  }

  /** What an expiry leaves of a timer: one time less, and marked for deletion after the last. */
  lemma ExpireCounts(s: State, id: nat)
    requires Enabled(s, Expire(id))
    ensures var e, f := s.events[id], Next(s, Expire(id)).events[id];
            && f.pending && f.active == e.active && f.priority == e.priority
            && (e.repeat == Times(1) ==> f.destroy)
            && (e.repeat.Times? && e.repeat.n > 1 ==> f.repeat == Times(e.repeat.n - 1) && !f.destroy)
            && (e.repeat == Forever || e.repeat == Times(0) ==> f.repeat == Forever && !f.destroy)
  {
  }

  /** An active event that is deleted is freed at once, or, if it is linked, marked and no longer called. */
  lemma DeleteFrees(s: State, id: nat)
    requires Enabled(s, Delete(id))
    ensures var t := Next(s, Delete(id));
            if !s.events[id].active then t == s
            else if s.events[id].pending then id in t.events && t.events[id].destroy && !t.events[id].active
            else id !in t.events && t.freed == s.freed + [id]
  {
  }

  /** Stopping and restarting change the activity of that event and the count of active ones. */
  lemma StopAndRestart(s: State, id: nat)
    ensures Enabled(s, Stop(id)) ==>
              Next(s, Stop(id)) == s.(events := s.events[id := s.events[id].(active := false)],
                                      nactives := s.nactives - if s.events[id].active then 1 else 0)
    ensures Enabled(s, Restart(id)) ==>
              Next(s, Restart(id)) == s.(events := s.events[id := s.events[id].(active := true)],
                                         nactives := s.nactives + if s.events[id].active then 0 else 1)
  {
    assert id in s.events ==> s.events[id := s.events[id]] == s.events;
  }

  /** An event that is ready is linked in front of the others of its priority, unless it is linked already. */
  lemma ReadyLinks(s: State, id: nat)
    requires Enabled(s, Ready(id))
    ensures var e, t := s.events[id], Next(s, Ready(id));
            && t.events[id].pending
            && t.pendings[e.priority] == (if e.pending then [] else [id]) + s.pendings[e.priority]
            && t.npendings == s.npendings + if e.pending then 0 else 1
  {
    assert [] + s.pendings[s.events[id].priority] == s.pendings[s.events[id].priority];
  }

  /** With nothing pending a round does not begin; otherwise it begins with the highest priority. */
  lemma RoundBegins(s: State)
    requires Enabled(s, Begin)
    ensures s.npendings == 0 <==> Next(s, Begin) == s
    ensures s.npendings != 0 ==> Next(s, Begin).phase == Walking(10, s.pendings[10]) && Next(s, Begin).called == []
  {
  }

  // ---------------------------------------------------------------- resetting a timer

  /** EVENT_RESET, with which `htimer_reset` ends. */
  function Reset(s: State, id: nat): State
    requires id in s.events
  {
    var t := Activate(Put(s, id, s.events[id].(destroy := false)), id);
    Put(t, id, t.events[id].(pending := false))
  }

  /** Resetting a timer keeps the lists in order exactly when the timer is not linked. */
  lemma ResetIff(s: State, id: nat)
    requires Cleared(s) && Linked(s.events, LinkedIn(s)) && id in s.events
    ensures Linked(Reset(s, id).events, LinkedIn(Reset(s, id))) <==> !s.events[id].pending
  {
    var l, e, t := LinkedIn(s), s.events[id], Reset(s, id);
    SameLists(s, t);
    assert t.events == s.events[id := e.(destroy := false, active := true, pending := false)];
    if e.pending {
      assert id in l[e.priority];
      var i :| 0 <= i < |l[e.priority]| && l[e.priority][i] == id;
      assert !t.events[l[e.priority][i]].pending;
    } else {
      LinkedPut(s.events, l, id, e.(destroy := false, active := true, pending := false));
    }
  }

  /** If a callback resets a timer that is linked and then deletes it, the timer is freed while linked. */
  lemma FreedWhileLinked(s: State, id: nat)
    requires Inv(s) && s.phase.Calling? && id in s.events && s.events[id].pending
    ensures Enabled(Reset(s, id), Delete(id))
    ensures var t := Next(Reset(s, id), Delete(id));
            id !in t.events && id in t.freed && |t.pendings| == LEVELS && id in LinkedIn(t)[s.events[id].priority]
  {
    var r := Reset(s, id);
    var t := Next(r, Delete(id));
    SameLists(s, r);
    SameLists(r, t);
    assert id in LinkedIn(s)[s.events[id].priority];
    assert t.freed[|t.freed| - 1] == id;
  }

  const TIMER := Event(true, false, false, 10, Forever)
  const PENDING := TIMER.(pending := true)

  /** Two timers of one priority are due; the callback of one is running and the other is linked behind it. */
  function TwoDue(): State {
    State(map[0 := PENDING, 1 := PENDING], [[], [], [], [], [], [], [], [], [], [], [1, 0]], 2, 2, Calling(10, [1, 0]),
          [], [Call(1, 10)])
  }

  const NONE: seq<seq<nat>> := [[], [], [], [], [], [], [], [], [], []]

  /** Both timers have expired. */
  function TwoQueued(): State {
    State(map[0 := PENDING, 1 := PENDING], NONE + [[1, 0]], 2, 2, Outside, [], [])
  }

  /** Both timers have been added. */
  function TwoAdded(): State {
    State(map[0 := TIMER, 1 := TIMER], NONE + [[]], 2, 0, Outside, [], [])
  }

  lemma QueuedToDue()
    ensures Runs(TwoQueued(), [Begin, Visit], TwoDue())
  {
    var walking := TwoQueued().(phase := Walking(10, [1, 0]));
    RunsOn(walking, Visit, TwoDue(), [], TwoDue());
    RunsOn(TwoQueued(), Begin, walking, [Visit], TwoDue());
  }

  lemma AddedToDue()
    ensures Runs(TwoAdded(), [Expire(0), Expire(1), Begin, Visit], TwoDue())
  {
    var one := State(map[0 := PENDING, 1 := TIMER], NONE + [[0]], 2, 1, Outside, [], []);
    ExpireTop(TwoAdded(), 0, NONE, []);
    ExpireTop(one, 1, NONE, [0]);
    assert [0] + [] == [0] && [1] + [0] == [1, 0];
    assert TwoAdded().events[0 := PENDING] == one.events && one.events[1 := PENDING] == TwoQueued().events;
    QueuedToDue();
    RunsOn(one, Expire(1), TwoQueued(), [Begin, Visit], TwoDue());
    RunsOn(TwoAdded(), Expire(0), one, [Expire(1), Begin, Visit], TwoDue());
  }

  /** It is reached by adding the timers, their expiry, and the first visit. */
  lemma TwoDueReached()
    ensures Runs(INITIAL, [Add(0, 10, Forever), Add(1, 10, Forever), Expire(0), Expire(1), Begin, Visit], TwoDue())
  {
    var one := State(map[0 := TIMER], NONE + [[]], 1, 0, Outside, [], []);
    AddedToDue();
    RunsOn(one, Add(1, 10, Forever), TwoAdded(), [Expire(0), Expire(1), Begin, Visit], TwoDue());
    RunsOn(INITIAL, Add(0, 10, Forever), one, [Add(1, 10, Forever), Expire(0), Expire(1), Begin, Visit], TwoDue());
  }

  /** The expiry of a timer of the highest priority. */
  lemma ExpireTop(s: State, id: nat, lower: seq<seq<nat>>, top: seq<nat>)
    requires s.phase.Outside? && id in s.events && s.events[id] == TIMER && |lower| == 10 && s.pendings == lower + [top]
    ensures Enabled(s, Expire(id))
    ensures Next(s, Expire(id))
            == s.(events := s.events[id := PENDING], npendings := s.npendings + 1, pendings := lower + [[id] + top])
  {
    assert s.events[id := Count(TIMER)] == s.events;
    assert (lower + [top])[10 := [id] + top] == lower + [[id] + top];
  }

  lemma RunsOn(s: State, a: Action, t: State, actions: seq<Action>, u: State)
    requires Enabled(s, a) && Next(s, a) == t && Runs(t, actions, u)
    ensures Runs(s, [a] + actions, u)
  {
    assert ([a] + actions)[1..] == actions;
  }

  /** From there, resetting and deleting the second timer in the callback of the first leads the walk to a
      freed event. */
  lemma WalkMeetsFreed()
    ensures Enabled(Reset(TwoDue(), 0), Delete(0))
    ensures var t := Next(Reset(TwoDue(), 0), Delete(0));
            Enabled(t, Return) && Next(t, Return).phase == Walking(10, [0]) && 0 in t.freed
              && 0 !in Next(t, Return).events
  {
    var t := Next(Reset(TwoDue(), 0), Delete(0));
    assert t.freed == [0];
    assert [1, 0][1..] == [0];
  }
}
