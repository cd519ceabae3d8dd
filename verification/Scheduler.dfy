// The round-robin scheduler: a run queue rotated by elections, a time slice counted down by
// the timer, and the idle thread when nothing can run.

module Scheduler {
  import opened Common

  const SCHEDULER_TIME: nat := 10
  const WORD: nat := 0x1_0000_0000

  datatype ThreadState = Running | Blocked | Zombie

  /** `time` is unsigned: counting down from 0 wraps. */
  datatype Sched = Sched(time: nat, running: Option<nat>, idle: nat, queue: seq<nat>)

  // ----- elections -----

  /** The elected thread and the queue after it.  Every thread looked at goes to the back;
      a forced election does not take the running thread. */
  function Elect(q: seq<nat>, running: Option<nat>, idle: nat, force: bool): (nat, seq<nat>)
    requires Distinct(q)
    decreases if q != [] && Some(q[0]) == running then 1 else 0
  {
    if q == [] then (idle, q) else
      var thread, rest := q[0], q[1..];
      var rotated := rest + [thread];
      RotateDistinct(q);
      if force && running == Some(thread) then
        if rest == [] then (idle, rotated) else Elect(rotated, running, idle, force)
      else (thread, rotated)
  }

  lemma RotateDistinct(q: seq<nat>)
    requires Distinct(q) && q != []
    ensures Distinct(q[1..] + [q[0]])
    ensures multiset(q[1..] + [q[0]]) == multiset(q)
  {
    assert q == [q[0]] + q[1..];
  }

  function Rotate(q: seq<nat>, n: nat): seq<nat>
    requires n <= |q|
  {
    q[n..] + q[..n]
  }

  /** An election takes the first thread in line; forced, the first that is not running; and
      the idle thread when there is none.  The queue is only rotated, past the thread taken. */
  lemma ElectExact(q: seq<nat>, running: Option<nat>, idle: nat, force: bool)
    requires Distinct(q)
    ensures
      var (thread, q') := Elect(q, running, idle, force);
      var skip := if q != [] && force && running == Some(q[0]) then 1 else 0;
      if skip == |q| then thread == idle && q' == q
      else thread == q[skip] && q' == Rotate(q, skip + 1)
    ensures Distinct(Elect(q, running, idle, force).1)
    ensures multiset(Elect(q, running, idle, force).1) == multiset(q)
  {
    if q != [] {
      var rotated := q[1..] + [q[0]];
      RotateDistinct(q);
      assert rotated == Rotate(q, 1);
      if force && running == Some(q[0]) && |q| > 1 {
        RotateDistinct(rotated);
        assert rotated[1..] + [rotated[0]] == Rotate(q, 2);
      }
    }
  }

  /** A forced election hands over to another thread whenever the running one is queued. */
  lemma ForcedElection(q: seq<nat>, running: nat, idle: nat)
    requires Distinct(q) && running in q && running != idle
    ensures Elect(q, Some(running), idle, true).0 != running
    ensures Elect(q, Some(running), idle, true).0 == idle && idle !in q ==> q == [running]
  {
    ElectExact(q, Some(running), idle, true);
  }

  // ----- the time slice -----

  function Dropped(running: Option<nat>, states: nat -> ThreadState): nat -> bool {
    (t: nat) => states(t) == Blocked || (states(t) == Zombie && running != Some(t))
  }

  /** The queue without blocked threads and without zombies, except a zombie still running. */
  function Cleaned(q: seq<nat>, running: Option<nat>, states: nat -> ThreadState): seq<nat> {
    Kept(q, Dropped(running, states))
  }

  function CountDown(time: nat): nat
    requires time < WORD
  {
    if time == 0 then WORD - 1 else time - 1
  }

  predicate NeedsElection(s: Sched, regs: bool, force: bool, states: nat -> ThreadState)
    requires s.time < WORD && (s.running.Some? || s.time == 1)
  {
    || CountDown(s.time) == 0
    || states(s.running.value) != Running
    || !regs || force
    || (s.running.value == s.idle && s.queue != [])
  }

  function Update(s: Sched, regs: bool, force: bool, states: nat -> ThreadState): Sched
    requires s.time < WORD && (s.running.Some? || s.time == 1) && Distinct(s.queue)
  {
    if NeedsElection(s, regs, force, states) then
      KeptIn(s.queue, Dropped(s.running, states));
      KeptDistinct(s.queue, Dropped(s.running, states));
      var (thread, q) := Elect(Cleaned(s.queue, s.running, states), s.running, s.idle, force);
      Sched(SCHEDULER_TIME, Some(thread), s.idle, q)
    else s.(time := CountDown(s.time))
  }

  function Add(s: Sched, t: nat): Sched {
    s.(queue := s.queue + [t], time := if s.running == Some(s.idle) then 1 else s.time)
  }

  function Without(q: seq<nat>, t: nat): seq<nat> {
    Kept(q, (x: nat) => x == t)
  }

  /** The running zombie leaves, or the scheduler starts: nothing runs, and an election is due. */
  function Leave(s: Sched): Sched {
    s.(running := None, time := 1)
  }

  // ----- runs -----

  datatype Event =
    | Arrive(thread: nat)
    | Remove(thread: nat)
    | Timer(regs: bool, force: bool, states: nat -> ThreadState)
    | Vacate(force: bool, states: nat -> ThreadState)

  ghost predicate Inv(s: Sched) {
    Distinct(s.queue) && s.running.Some? && 1 <= s.time <= SCHEDULER_TIME
  }

  /** A thread arrives only when it is not queued, and the running one is not taken out. */
  predicate Allowed(s: Sched, e: Event) {
    match e
    case Arrive(t) => t !in s.queue
    case Remove(t) => s.running != Some(t)
    case Timer(_, _, _) => true
    case Vacate(_, _) => true
  }

  function Step(s: Sched, e: Event): Sched
    requires Distinct(s.queue) && s.running.Some? && s.time < WORD
  {
    match e
    case Arrive(t) => Add(s, t)
    case Remove(t) => s.(queue := Without(s.queue, t))
    case Timer(regs, force, states) => Update(s, regs, force, states)
    case Vacate(force, states) => Update(Leave(s), false, force, states)
  }

  /** The thread elected by an event, if it holds an election. */
  function Elected(s: Sched, e: Event): Option<nat>
    requires Distinct(s.queue) && s.running.Some? && s.time < WORD
  {
    match e
    case Timer(regs, force, states) =>
      if NeedsElection(s, regs, force, states) then Update(s, regs, force, states).running else None
    case Vacate(force, states) => Update(Leave(s), false, force, states).running
    case _ => None
  }

  lemma UpdateKeepsInv(s: Sched, regs: bool, force: bool, states: nat -> ThreadState)
    requires Distinct(s.queue) && 1 <= s.time <= SCHEDULER_TIME && (s.running.Some? || s.time == 1)
    ensures Inv(Update(s, regs, force, states))
    ensures NeedsElection(s, regs, force, states) ==>
      multiset(Update(s, regs, force, states).queue) == multiset(Cleaned(s.queue, s.running, states))
  {
    KeptIn(s.queue, Dropped(s.running, states));
    KeptDistinct(s.queue, Dropped(s.running, states));
    ElectExact(Cleaned(s.queue, s.running, states), s.running, s.idle, force);
  }

  lemma StepKeepsInv(s: Sched, e: Event)
    requires Inv(s) && Allowed(s, e)
    ensures Inv(Step(s, e)) && Step(s, e).idle == s.idle
  {
    match e
    case Arrive(t) =>
    case Remove(t) =>
      KeptIn(s.queue, (x: nat) => x == t);
      KeptDistinct(s.queue, (x: nat) => x == t);
    case Timer(regs, force, states) => UpdateKeepsInv(s, regs, force, states);
    case Vacate(force, states) => UpdateKeepsInv(Leave(s), false, force, states);
  }

  // ----- bounded waiting -----

  /** The place of `t` in the queue, or the length of the queue. */
  function Place(q: seq<nat>, t: nat): (k: nat)
    ensures k <= |q| && t !in q[..k]
    ensures k < |q| <==> t in q
    ensures k < |q| ==> q[k] == t
  {
    if q == [] || q[0] == t then 0 else 1 + Place(q[1..], t)
  }

  lemma PlaceUnique(q: seq<nat>, t: nat, k: nat)
    requires k < |q| && q[k] == t && t !in q[..k]
    ensures Place(q, t) == k
  {
  }

  lemma PlaceBehind(x: nat, q: seq<nat>, t: nat)
    requires x != t
    ensures Place([x] + q, t) == 1 + Place(q, t)
  {
    assert ([x] + q)[1..] == q;
  }

  lemma {:induction false} KeptPlace(q: seq<nat>, drops: nat -> bool, t: nat)
    requires t in q && !drops(t)
    ensures t in Kept(q, drops) && Place(Kept(q, drops), t) <= Place(q, t)
    decreases |q|
  {
    hide Place;
    var x, rest := q[0], q[1..];
    assert q == [x] + rest;
    if x == t {
      PlaceUnique(q, t, 0);
      PlaceUnique(Kept(q, drops), t, 0);
    } else {
      KeptPlace(rest, drops, t);
      PlaceBehind(x, rest, t);
      PlaceBehind(x, Kept(rest, drops), t);
      assert Kept(q, drops) == if drops(x) then Kept(rest, drops) else [x] + Kept(rest, drops);
    }
  }

  /** An election that passes over a waiting thread moves it at least one place forward. */
  lemma ElectAdvances(q: seq<nat>, running: Option<nat>, idle: nat, force: bool, t: nat)
    requires Distinct(q) && t in q && running != Some(t)
    ensures
      var (thread, q') := Elect(q, running, idle, force);
      thread == t || (t in q' && Place(q', t) < Place(q, t))
  {
    ElectExact(q, running, idle, force);
    var (thread, q') := Elect(q, running, idle, force);
    var k := Place(q, t);
    var skip := if force && running == Some(q[0]) then 1 else 0;
    assert skip <= k;
    if thread != t {
      assert skip + 1 <= k;
      assert q'[k - (skip + 1)] == t;
      PlaceUnique(q', t, k - (skip + 1));
    }
  }

  /** A thread that waits: queued, not running, and ready in the states of the event. */
  ghost predicate Waits(s: Sched, t: nat) {
    t in s.queue && s.running != Some(t)
  }

  ghost predicate Ready(e: Event, t: nat) {
    match e
    case Arrive(_) => true
    case Remove(x) => x != t
    case Timer(_, _, states) => states(t) == Running
    case Vacate(_, states) => states(t) == Running
  }

  /** Timer updates a waiting thread can still see before its turn. */
  function Patience(s: Sched, t: nat): nat {
    SCHEDULER_TIME * Place(s.queue, t) + s.time
  }

  lemma ElectionBringsForward(s: Sched, regs: bool, force: bool, states: nat -> ThreadState, t: nat)
    requires Distinct(s.queue) && 1 <= s.time <= SCHEDULER_TIME && (s.running.Some? || s.time == 1)
    requires Waits(s, t) && states(t) == Running && NeedsElection(s, regs, force, states)
    ensures
      var s' := Update(s, regs, force, states);
      s'.running == Some(t) || (Waits(s', t) && Place(s'.queue, t) < Place(s.queue, t) && s'.time == SCHEDULER_TIME)
  {
    KeptIn(s.queue, Dropped(s.running, states));
    KeptDistinct(s.queue, Dropped(s.running, states));
    KeptPlace(s.queue, Dropped(s.running, states), t);
    ElectAdvances(Cleaned(s.queue, s.running, states), s.running, s.idle, force, t);
  }

  /** Until its turn, a waiting thread keeps waiting and its remaining patience never grows;
      every timer update uses some of it up, and every election moves the thread forward. */
  lemma StepBringsForward(s: Sched, e: Event, t: nat)
    requires Inv(s) && Allowed(s, e) && Waits(s, t) && Ready(e, t)
    ensures
      var s' := Step(s, e);
      || Elected(s, e) == Some(t)
      || (&& Waits(s', t)
          && Place(s'.queue, t) <= Place(s.queue, t) - (if Elected(s, e).Some? then 1 else 0)
          && Patience(s', t) <= Patience(s, t) - (if e.Timer? then 1 else 0))
  {
    match e
    case Arrive(x) =>
      PlaceUnique(s.queue + [x], t, Place(s.queue, t));
    case Remove(x) =>
      KeptPlace(s.queue, (y: nat) => y == x, t);
    case Timer(regs, force, states) =>
      if NeedsElection(s, regs, force, states) {
        ElectionBringsForward(s, regs, force, states, t);
      }
    case Vacate(force, states) =>
      ElectionBringsForward(Leave(s), false, force, states, t);
  }

  /** A run in which every event is allowed and `t` stays ready. */
  ghost predicate Fair(s: Sched, events: seq<Event>, t: nat)
    requires Inv(s)
    decreases |events|
  {
    events == [] ||
    (Allowed(s, events[0]) && Ready(events[0], t) &&
     (StepKeepsInv(s, events[0]);
      Fair(Step(s, events[0]), events[1..], t)))
  }

  /** The threads elected in a run, in order. */
  ghost function Elections(s: Sched, events: seq<Event>, t: nat): seq<nat>
    requires Inv(s) && Fair(s, events, t)
    decreases |events|
  {
    if events == [] then [] else
      StepKeepsInv(s, events[0]);
      (match Elected(s, events[0]) case Some(x) => [x] case None => []) +
      Elections(Step(s, events[0]), events[1..], t)
  }

  function Timers(events: seq<Event>): nat {
    if events == [] then 0 else (if events[0].Timer? then 1 else 0) + Timers(events[1..])
  }

  lemma InFront(a: seq<nat>, rest: seq<nat>, n: nat, k: nat, t: nat)
    requires n <= |rest| && |a| + n <= k <= |a + rest| && t in rest[..n]
    ensures t in (a + rest)[..k]
  {
    var i :| 0 <= i < n && rest[..n][i] == t;
    assert (a + rest)[..k][|a| + i] == t;
  }

  /** Bounded waiting, in elections: a thread with `k` threads before it is among the first
      `k + 1` elected. */
  lemma {:induction false} ElectedInTurn(s: Sched, events: seq<Event>, t: nat)
    requires Inv(s) && Fair(s, events, t) && Waits(s, t)
    requires |Elections(s, events, t)| > Place(s.queue, t)
    ensures t in Elections(s, events, t)[..Place(s.queue, t) + 1]
    decreases |events|
  {
    hide Step, Elected, Waits, Place, Patience, Ready, Allowed;
    var e, s', k := events[0], Step(s, events[0]), Place(s.queue, t);
    StepKeepsInv(s, e);
    StepBringsForward(s, e, t);
    var all, rest := Elections(s, events, t), Elections(s', events[1..], t);
    if Elected(s, e) != Some(t) {
      ElectedInTurn(s', events[1..], t);
      var n := Place(s'.queue, t) + 1;
      if Elected(s, e).Some? {
        InFront([Elected(s, e).value], rest, n, k + 1, t);
      } else {
        InFront([], rest, n, k + 1, t);
        assert all == [] + rest;
      }
    } else {
      assert all[..k + 1][0] == t;
    }
  }

  /** Bounded waiting, in time: within SCHEDULER_TIME timer updates for each thread before it
      and the rest of the current slice, a waiting thread gets its turn. */
  lemma {:induction false} ElectedInTime(s: Sched, events: seq<Event>, t: nat)
    requires Inv(s) && Fair(s, events, t) && Waits(s, t)
    requires Timers(events) >= SCHEDULER_TIME * Place(s.queue, t) + s.time
    ensures t in Elections(s, events, t)
    decreases |events|
  {
    var e, s' := events[0], Step(s, events[0]);
    StepKeepsInv(s, e);
    StepBringsForward(s, e, t);
    if Elected(s, e) != Some(t) {
      ElectedInTime(s', events[1..], t);
    }
  }

  // ----- who can run -----

  /** A thread that is not blocked or dead; a dead one may still be running when it leaves. */
  predicate CanRun(t: nat, was: Option<nat>, states: nat -> ThreadState) {
    states(t) == Running || (states(t) == Zombie && was == Some(t))
  }

  lemma {:induction false} KeptOrder(q: seq<nat>, drops: nat -> bool, t: nat, u: nat)
    requires t in q && u in q && !drops(t) && !drops(u)
    ensures Place(Kept(q, drops), t) < Place(Kept(q, drops), u) <==> Place(q, t) < Place(q, u)
    decreases |q|
  {
    hide Place;
    var x, rest, kept := q[0], q[1..], Kept(q[1..], drops);
    assert q == [x] + rest;
    assert Kept(q, drops) == if drops(x) then kept else [x] + kept;
    if x == t || x == u {
      PlaceUnique(q, x, 0);
      PlaceUnique([x] + kept, x, 0);
      if x != t { PlaceBehind(x, rest, t); PlaceBehind(x, kept, t); }
      if x != u { PlaceBehind(x, rest, u); PlaceBehind(x, kept, u); }
    } else {
      KeptOrder(rest, drops, t, u);
      PlaceBehind(x, rest, t);
      PlaceBehind(x, rest, u);
      PlaceBehind(x, kept, t);
      PlaceBehind(x, kept, u);
    }
  }

  /** Cleaning the queue leaves exactly the threads that can run, in their order. */
  lemma CleanedExact(q: seq<nat>, was: Option<nat>, states: nat -> ThreadState)
    ensures forall t :: t in Cleaned(q, was, states) <==> t in q && CanRun(t, was, states)
    ensures forall t, u :: t in Cleaned(q, was, states) && u in Cleaned(q, was, states) ==>
              (Place(Cleaned(q, was, states), t) < Place(Cleaned(q, was, states), u) <==> Place(q, t) < Place(q, u))
  {
    hide Place, Kept;
    var drops := Dropped(was, states);
    KeptIn(q, drops);
    forall t, u | t in Cleaned(q, was, states) && u in Cleaned(q, was, states)
      ensures Place(Cleaned(q, was, states), t) < Place(Cleaned(q, was, states), u) <==> Place(q, t) < Place(q, u)
    {
      KeptOrder(q, drops, t, u);
    }
  }

  /** An election takes a queued thread, or the idle one if there is no other choice. */
  lemma ElectsFromQueue(q: seq<nat>, running: Option<nat>, idle: nat, force: bool)
    requires Distinct(q)
    ensures var (thread, q') := Elect(q, running, idle, force);
            && (thread == idle || thread in q)
            && (forall t :: t in q' <==> t in q)
            && (thread == idle && idle !in q ==> forall t :: t in q ==> force && running == Some(t))
  {
    hide Elect;
    ElectExact(q, running, idle, force);
    var q' := Elect(q, running, idle, force).1;
    forall t ensures t in q' <==> t in q { assert t in multiset(q') <==> t in multiset(q); }
  }

  /** After every update the running thread can run, or is the idle one. After an election
      exactly the threads that can run are still queued, and the idle thread runs only if no
      queued thread can, save for one that was forced to stop. */
  lemma UpdateRunsReady(s: Sched, regs: bool, force: bool, states: nat -> ThreadState)
    requires Distinct(s.queue) && 1 <= s.time <= SCHEDULER_TIME && (s.running.Some? || s.time == 1)
    ensures var s' := Update(s, regs, force, states);
            && s'.running.Some?
            && (s'.running == Some(s.idle) || CanRun(s'.running.value, s.running, states))
            && (NeedsElection(s, regs, force, states) ==>
                  && (forall t :: t in s'.queue <==> t in s.queue && CanRun(t, s.running, states))
                  && (s'.running == Some(s.idle) && s.idle !in s.queue ==>
                        forall t :: t in s.queue && CanRun(t, s.running, states) ==> force && s.running == Some(t)))
  {
    hide Elect, Kept, Place, Distinct;
    if NeedsElection(s, regs, force, states) {
      var q := Cleaned(s.queue, s.running, states);
      KeptDistinct(s.queue, Dropped(s.running, states));
      CleanedExact(s.queue, s.running, states);
      hide Cleaned;
      ElectsFromQueue(q, s.running, s.idle, force);
    }
  }

  /** An update lets a thread go on exactly when it has time left, can run, nobody asked for
      an election, and it is not the idle thread while others wait. */
  lemma SliceGoesOn(s: Sched, regs: bool, force: bool, states: nat -> ThreadState)
    requires Distinct(s.queue) && 1 <= s.time <= SCHEDULER_TIME && s.running.Some?
    ensures var goesOn := s.time > 1 && states(s.running.value) == Running && regs && !force
                          && !(s.running == Some(s.idle) && s.queue != []);
            var s' := Update(s, regs, force, states);
            if goesOn then s' == s.(time := s.time - 1) else s'.time == SCHEDULER_TIME
  {
  }

  // ----- the kernel's code -----

  class RunQueue {
    var time: nat
    var running: Option<nat>
    var idle: nat
    var queue: seq<nat>

    function Now(): Sched
      reads this
    {
      Sched(time, running, idle, queue)
    }

    constructor (idleThread: nat)
      ensures Now() == Sched(0, None, idleThread, [])
    {
      time, running, idle, queue := 0, None, idleThread, [];
    }

    method AddThread(t: nat)
      requires t !in queue && Distinct(queue)
      modifies this
      ensures Now() == Add(old(Now()), t) && Distinct(queue)
    {
      queue := queue + [t];
      if running.Some? && running.value == idle {
        time := 1;
      }
    }

    method ElectNext(force: bool) returns (thread: nat)
      requires Distinct(queue)
      modifies this`queue
      ensures (thread, queue) == Elect(old(queue), running, idle, force)
      decreases if queue != [] && Some(queue[0]) == running then 1 else 0
    {
      if queue == [] {
        return idle;
      }
      RotateDistinct(queue);
      thread := queue[0];
      queue := queue[1..];
      var others := |queue|;
      queue := queue + [thread];
      if force && running == Some(thread) {
        if others == 0 {
          thread := idle;
        } else {
          thread := ElectNext(force);
        }
      }
    }

    /** The walk over the run queue that takes out blocked threads and dead ones. */
    method Clean(states: nat -> ThreadState)
      modifies this`queue
      ensures queue == Cleaned(old(queue), running, states)
      ensures forall t :: t in queue <==> t in old(queue) && CanRun(t, running, states)
    {
      var i := 0;
      var kept := [];
      while i < |queue|
        invariant 0 <= i <= |queue| && queue == old(queue)
        invariant kept + Cleaned(queue[i..], running, states) == Cleaned(queue, running, states)
      {
        assert queue[i..][1..] == queue[i + 1..];
        var t := queue[i];
        if !(states(t) == Blocked || (states(t) == Zombie && running != Some(t))) {
          kept := kept + [t];
        }
        i := i + 1;
      }
      queue := kept;
      CleanedExact(old(queue), running, states);
    }

    method Tick(regs: bool, force: bool, states: nat -> ThreadState)
      requires time < WORD && (running.Some? || time == 1) && Distinct(queue)
      modifies this
      ensures Now() == Update(old(Now()), regs, force, states) && Distinct(queue)
    {
      hide Distinct, Elect, Kept;
      ghost var s := Now();
      time := if time == 0 then WORD - 1 else time - 1;
      if time <= 0 || states(running.value) != Running || !regs || force
         || (running.value == idle && queue != [])
      {
        assert NeedsElection(s, regs, force, states);
        KeptIn(queue, Dropped(running, states));
        KeptDistinct(queue, Dropped(running, states));
        Clean(states);
        ElectExact(queue, running, idle, force);
        var thread := ElectNext(force);
        running := Some(thread);
        time := SCHEDULER_TIME;
      }
    }
  }
}
