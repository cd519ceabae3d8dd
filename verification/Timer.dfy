// Kernel timers: a table of slots, the list of running timers, and a 32-bit tick counter.
// A clock that never wraps and the record of registrations and firings are kept beside the
// kernel's own state, so that what fires when can be stated over whole runs.

module Timer {
  import opened Common
  import K = Klist

  const TIMER_NUM: nat := 255
  const WORD: nat := 0x1_0000_0000
  const EINVAL: int := 22
  const ONESHOT: int := 0
  const PERIODIC: int := 1

  type Word = x: int | 0 <= x < WORD

  datatype Request = Request(kind: int, time: Word, hasCallback: bool)

  datatype Slot = Slot(free: bool, periodic: bool, value: Word, next: Word)

  /** A registration: when it was made, for how long, and the slot it was given. */
  datatype Birth = Birth(clock: nat, time: Word, periodic: bool, slot: nat)

  /** Which registration a slot serves and the tick, counted without wrapping, it waits for. */
  datatype Holder = Holder(id: nat, due: nat)

  datatype Firing = Firing(clock: nat, id: nat)

  datatype History = History(clock: nat, births: seq<Birth>, holders: seq<Holder>, log: seq<Firing>)

  datatype State = State(ticks: Word, slots: seq<Slot>, active: seq<nat>, past: History)

  // ----- the kernel's operations -----

  predicate Acceptable(r: Request) {
    (r.kind == ONESHOT || r.kind == PERIODIC) && r.hasCallback && r.time != 0
  }

  /** The first free slot from `i` on, or the length of the table. */
  function FreeSlot(slots: seq<Slot>, i: nat): (k: nat)
    requires i <= |slots|
    ensures i <= k <= |slots|
    ensures k < |slots| ==> slots[k].free
    ensures forall j :: i <= j < k ==> !slots[j].free
    decreases |slots| - i
  {
    if i == |slots| || slots[i].free then i else FreeSlot(slots, i + 1)
  }

  function Register(st: State, r: Request): (State, int)
    requires |st.slots| == |st.past.holders|
  {
    var k := FreeSlot(st.slots, 0);
    if !Acceptable(r) then (st, -EINVAL)
    else if k == |st.slots| then (st, -1)
    else (Install(st, r, k), 1)
  }

  function Install(st: State, r: Request, k: nat): State
    requires k < |st.slots| == |st.past.holders|
  {
    var p := st.past;
    State(
      st.ticks,
      st.slots[k := Slot(false, r.kind == PERIODIC, r.time, (st.ticks + r.time) % WORD)],
      [k] + st.active,
      p.(births := p.births + [Birth(p.clock, r.time, r.kind == PERIODIC, k)],
         holders := p.holders[k := Holder(|p.births|, p.clock + r.time)]))
  }

  function RegisterAll(st: State, rs: seq<Request>): (r: State)
    requires |st.slots| == |st.past.holders|
    ensures |r.slots| == |r.past.holders| == |st.slots|
    decreases |rs|
  {
    if rs == [] then st else RegisterAll(Register(st, rs[0]).0, rs[1..])
  }

  function Without(q: seq<nat>, s: nat): seq<nat> {
    Kept(q, (x: nat) => x == s)
  }

  /** What follows the callback of slot `s`: the next round, or the end of the timer. */
  function Settle(st: State, s: nat): State
    requires s < |st.slots| == |st.past.holders|
  {
    var e, p := st.slots[s], st.past;
    var fired := p.log + [Firing(p.clock, p.holders[s].id)];
    if e.periodic then
      st.(slots := st.slots[s := e.(next := (st.ticks + e.value) % WORD)],
          past := p.(log := fired, holders := p.holders[s := p.holders[s].(due := p.clock + e.value)]))
    else
      st.(slots := st.slots[s := e.(free := true)], active := Without(st.active, s), past := p.(log := fired))
  }

  /** The visit of slot `s`; `does(s)` is what its callback registers. */
  function Visit(st: State, s: nat, does: nat -> seq<Request>): (r: State)
    requires s < |st.slots| == |st.past.holders|
    ensures |r.slots| == |r.past.holders| == |st.slots|
  {
    if st.slots[s].next == st.ticks then Settle(RegisterAll(st, does(s)), s) else st
  }

  predicate InTable(q: seq<nat>, n: nat) {
    forall i :: 0 <= i < |q| ==> q[i] < n
  }

  function VisitAll(st: State, pending: seq<nat>, does: nat -> seq<Request>): (r: State)
    requires |st.slots| == |st.past.holders| && InTable(pending, |st.slots|)
    ensures |r.slots| == |r.past.holders| == |st.slots|
    decreases |pending|
  {
    if pending == [] then st else VisitAll(Visit(st, pending[0], does), pending[1..], does)
  }

  function Advance(st: State): State {
    st.(ticks := (st.ticks + 1) % WORD, past := st.past.(clock := st.past.clock + 1))
  }

  /** The timer interrupt: it visits the timers that were running when it came. */
  function Tick(st: State, does: nat -> seq<Request>): State
    requires |st.slots| == |st.past.holders| && InTable(st.active, |st.slots|)
  {
    VisitAll(Advance(st), st.active, does)
  }

  // ----- what the clock promises -----

  /** The ticks at which a registration is due. */
  predicate Scheduled(b: Birth, k: nat)
    requires b.time > 0
  {
    k > b.clock && if b.periodic then (k - b.clock) % b.time == 0 else k == b.clock + b.time
  }

  ghost predicate Shape(st: State) {
    && |st.slots| == |st.past.holders| == TIMER_NUM
    && st.ticks == st.past.clock % WORD
    && Distinct(st.active)
    && (forall s :: s in st.active ==> s < TIMER_NUM && !st.slots[s].free)
    && (forall s :: 0 <= s < TIMER_NUM && !st.slots[s].free ==> s in st.active)
    && (forall i :: 0 <= i < |st.past.births| ==> BirthOk(st, st.past.births[i]))
  }

  ghost predicate BirthOk(st: State, b: Birth) {
    0 < b.time && b.slot < |st.slots| && b.clock <= st.past.clock
  }

  /** A busy slot waits for a tick its registration is scheduled for, within one period. */
  ghost predicate SlotOk(st: State, s: nat, pending: seq<nat>)
    requires Shape(st) && s < TIMER_NUM
  {
    var e, h, p := st.slots[s], st.past.holders[s], st.past;
    && h.id < |p.births|
    && p.births[h.id].slot == s && p.births[h.id].periodic == e.periodic && p.births[h.id].time == e.value
    && e.next == h.due % WORD
    && Scheduled(p.births[h.id], h.due)
    && p.clock <= h.due <= p.clock + e.value
    && (s in pending ==> h.due < p.clock + e.value)
    && (s !in pending ==> p.clock < h.due)
  }

  ghost predicate Live(st: State, i: nat)
    requires Shape(st) && i < |st.past.births|
  {
    var s := st.past.births[i].slot;
    !st.slots[s].free && st.past.holders[s].id == i
  }

  /** A registration has a tick to come, or one at this tick whose slot is still to visit. */
  ghost predicate Outstanding(b: Birth, clock: nat, pending: seq<nat>) {
    b.periodic || clock < b.clock + b.time || (clock == b.clock + b.time && b.slot in pending)
  }

  /** Tick `k` of a registration is behind the walk. */
  ghost predicate Passed(b: Birth, k: nat, clock: nat, pending: seq<nat>) {
    k < clock || (k == clock && b.slot !in pending)
  }

  ghost predicate LogOk(st: State, pending: seq<nat>)
    requires Shape(st)
  {
    var p := st.past;
    && Distinct(p.log)
    && (forall f :: f in p.log ==> f.id < |p.births|)
    && (forall k: nat, i :: 0 <= i < |p.births| ==>
          (Firing(k, i) in p.log <==> Scheduled(p.births[i], k) && Passed(p.births[i], k, p.clock, pending)))
  }

  /** The invariant in the middle of a walk that still has `pending` to visit. */
  ghost predicate Mid(st: State, pending: seq<nat>) {
    && Shape(st)
    && Distinct(pending) && (forall s :: s in pending ==> s in st.active)
    && (forall s :: 0 <= s < TIMER_NUM && !st.slots[s].free ==> SlotOk(st, s, pending))
    && (forall i :: 0 <= i < |st.past.births| ==>
          (Live(st, i) <==> Outstanding(st.past.births[i], st.past.clock, pending)))
    && LogOk(st, pending)
  }

  // ----- arithmetic of periods -----

  lemma Multiple(d: int, v: int)
    requires v > 0
    ensures d >= 1 ==> d * v >= v
    ensures d <= -1 ==> d * v <= -v
  {
  }

  lemma UniqueRemainder(x: int, v: int, q: int, r: int)
    requires v > 0 && x == q * v + r && 0 <= r < v
    ensures x % v == r
  {
    var d := x / v - q;
    assert x / v * v + x % v == q * v + r;
    assert d * v == r - x % v;
    Multiple(d, v);
  }

  lemma SamePhase(x: int, y: int, v: int)
    requires v > 0 && x % v == 0 && y % v == 0 && 0 <= y - x < v
    ensures x == y
  {
    var a, b := x / v, y / v;
    assert x == a * v && y == b * v;
    assert (b - a) * v == y - x;
    Multiple(b - a, v);
  }

  lemma NextPhase(x: int, v: int)
    requires v > 0
    ensures (x + v) % v == x % v
  {
    var q, r := x / v, x % v;
    assert x + v == (q + 1) * v + r;
    UniqueRemainder(x + v, v, q + 1, r);
  }

  /** The 32-bit test tells whether the timer is due, however often the counter wrapped. */
  lemma DueTest(st: State, s: nat, pending: seq<nat>)
    requires Mid(st, pending) && s in pending
    ensures SlotOk(st, s, pending)
    ensures st.slots[s].next == st.ticks <==> st.past.holders[s].due == st.past.clock
    ensures Scheduled(st.past.births[st.past.holders[s].id], st.past.clock) <==> st.past.holders[s].due == st.past.clock
  {
    var h, p := st.past.holders[s], st.past;
    var b := p.births[h.id];
    assert s in st.active;
    assert SlotOk(st, s, pending);
    assert BirthOk(st, b);
    if st.slots[s].next == st.ticks {
      assert (h.due - p.clock) % WORD == 0;
    }
    if Scheduled(b, p.clock) && b.periodic {
      SamePhase(p.clock - b.clock, h.due - b.clock, b.time);
    }
  }

  // ----- each operation keeps the invariant -----

  lemma InstallShape(st: State, r: Request, k: nat)
    requires Shape(st) && Acceptable(r) && k < TIMER_NUM && st.slots[k].free
    ensures Shape(Install(st, r, k))
  {
    var st', b := Install(st, r, k), Birth(st.past.clock, r.time, r.kind == PERIODIC, k);
    assert k !in st.active;
    assert BirthOk(st', b);
    forall i | 0 <= i < |st.past.births|
      ensures BirthOk(st', st.past.births[i])
    {
      assert BirthOk(st, st.past.births[i]);
    }
  }

  lemma InstallSlot(st: State, r: Request, k: nat, pending: seq<nat>)
    requires Mid(st, pending) && Acceptable(r) && k < TIMER_NUM && st.slots[k].free
    requires Shape(Install(st, r, k))
    ensures SlotOk(Install(st, r, k), k, pending)
  {
    var c := st.past.clock;
    assert k !in pending;
    if r.kind == PERIODIC {
      NextPhase(0, r.time);
    }
    AddToTicks(c, r.time);
  }

  lemma InstallKeeps(st: State, r: Request, k: nat, pending: seq<nat>)
    requires Mid(st, pending) && Acceptable(r) && k < TIMER_NUM && st.slots[k].free
    ensures Mid(Install(st, r, k), pending)
  {
    var st' := Install(st, r, k);
    var p, n := st.past, |st.past.births|;
    InstallShape(st, r, k);
    InstallSlot(st, r, k, pending);
    forall s | 0 <= s < TIMER_NUM && !st'.slots[s].free
      ensures SlotOk(st', s, pending)
    {
      assert s != k ==> SlotOk(st, s, pending);
    }
    forall i | 0 <= i < n
      ensures Live(st', i) <==> Outstanding(p.births[i], p.clock, pending)
    {
      assert Live(st, i) <==> Outstanding(p.births[i], p.clock, pending);
    }
    assert Live(st', n) && Outstanding(st'.past.births[n], p.clock, pending);
    forall x: nat, i | 0 <= i < |st'.past.births|
      ensures Firing(x, i) in p.log <==>
        Scheduled(st'.past.births[i], x) && Passed(st'.past.births[i], x, p.clock, pending)
    {
    }
  }

  lemma {:induction false} RegisterAllKeeps(st: State, rs: seq<Request>, pending: seq<nat>)
    requires Mid(st, pending)
    ensures Mid(RegisterAll(st, rs), pending)
    ensures forall s :: s in pending ==> RegisterAll(st, rs).slots[s] == st.slots[s]
    ensures forall s :: s in pending ==> RegisterAll(st, rs).past.holders[s] == st.past.holders[s]
    ensures RegisterAll(st, rs).past.clock == st.past.clock && RegisterAll(st, rs).ticks == st.ticks
    ensures st.past.births <= RegisterAll(st, rs).past.births
    decreases |rs|
  {
    if rs != [] {
      RegisterKeeps(st, rs[0], pending);
      RegisterAllKeeps(Register(st, rs[0]).0, rs[1..], pending);
    }
  }

  lemma RegisterKeeps(st: State, r: Request, pending: seq<nat>)
    requires Mid(st, pending)
    ensures Mid(Register(st, r).0, pending)
    ensures forall s :: s in pending ==> Register(st, r).0.slots[s] == st.slots[s]
    ensures forall s :: s in pending ==> Register(st, r).0.past.holders[s] == st.past.holders[s]
    ensures Register(st, r).0.past.clock == st.past.clock && Register(st, r).0.ticks == st.ticks
    ensures st.past.births <= Register(st, r).0.past.births
  {
    var k := FreeSlot(st.slots, 0);
    if Acceptable(r) && k < |st.slots| {
      InstallKeeps(st, r, k, pending);
      assert k !in st.active;
    }
  }

  lemma WithoutFacts(q: seq<nat>, s: nat)
    requires Distinct(q)
    ensures forall x :: x in Without(q, s) <==> x in q && x != s
    ensures Distinct(Without(q, s))
  {
    KeptIn(q, (x: nat) => x == s);
    KeptDistinct(q, (x: nat) => x == s);
  }

  /** The log grows by the firing of the visited slot, which was not in it. */
  lemma SettleLog(st: State, s: nat, pending: seq<nat>)
    requires Mid(st, pending) && s in pending && s == pending[0] && st.past.holders[s].due == st.past.clock
    requires Shape(Settle(st, s))
    ensures LogOk(Settle(st, s), pending[1..])
  {
    var p, h := st.past, st.past.holders[s];
    var f := Firing(p.clock, h.id);
    DueTest(st, s, pending);
    assert f !in p.log;
    forall x: nat, i | 0 <= i < |p.births|
      ensures Firing(x, i) in p.log + [f] <==>
        Scheduled(p.births[i], x) && Passed(p.births[i], x, p.clock, pending[1..])
    {
      assert Firing(x, i) in p.log <==> Scheduled(p.births[i], x) && Passed(p.births[i], x, p.clock, pending);
      ScheduledIsHeld(st, i, s, pending);
      assert p.births[i].slot in pending <==> p.births[i].slot == s || p.births[i].slot in pending[1..];
    }
  }

  /** A registration due at this very tick whose slot is still to visit holds that slot. */
  lemma ScheduledIsHeld(st: State, i: nat, s: nat, pending: seq<nat>)
    requires Mid(st, pending) && s in pending && i < |st.past.births|
    ensures st.past.births[i].slot == s && Scheduled(st.past.births[i], st.past.clock) ==> st.past.holders[s].id == i
  {
    assert Live(st, i) <==> Outstanding(st.past.births[i], st.past.clock, pending);
  }

  lemma SettleShape(st: State, s: nat, pending: seq<nat>)
    requires Mid(st, pending) && s in pending
    ensures Shape(Settle(st, s))
  {
    var st' := Settle(st, s);
    WithoutFacts(st.active, s);
    assert s in st.active;
    forall i | 0 <= i < |st.past.births|
      ensures BirthOk(st', st.past.births[i])
    {
      assert BirthOk(st, st.past.births[i]);
    }
  }

  lemma NextRound(b: Birth, k: nat)
    requires b.time > 0 && b.periodic && Scheduled(b, k)
    ensures Scheduled(b, k + b.time)
  {
    NextPhase(k - b.clock, b.time);
    assert k + b.time - b.clock == k - b.clock + b.time;
  }

  lemma AddToTicks(c: nat, v: Word)
    ensures (c % WORD + v) % WORD == (c + v) % WORD
  {
  }

  lemma SettleSlot(st: State, s: nat, pending: seq<nat>)
    requires Shape(st) && s < TIMER_NUM && SlotOk(st, s, pending) && pending != [] && s !in pending[1..]
    requires st.past.holders[s].due == st.past.clock
    requires Shape(Settle(st, s)) && st.slots[s].periodic
    ensures SlotOk(Settle(st, s), s, pending[1..])
  {
    var b, c := st.past.births[st.past.holders[s].id], st.past.clock;
    assert BirthOk(st, b);
    NextRound(b, c);
    AddToTicks(c, b.time);
    hide Scheduled;
  }

  lemma SettleKeeps(st: State, s: nat, pending: seq<nat>)
    requires Mid(st, pending) && s in pending && s == pending[0] && st.past.holders[s].due == st.past.clock
    ensures Mid(Settle(st, s), pending[1..])
  {
    var st', rest, p := Settle(st, s), pending[1..], st.past;
    SettleShape(st, s, pending);
    SettleLog(st, s, pending);
    WithoutFacts(st.active, s);
    assert s in st.active && SlotOk(st, s, pending);
    forall t | 0 <= t < TIMER_NUM && !st'.slots[t].free
      ensures SlotOk(st', t, rest)
    {
      if t == s {
        SettleSlot(st, s, pending);
      } else {
        assert SlotOk(st, t, pending) && (t in pending <==> t in rest);
      }
    }
    forall i | 0 <= i < |p.births|
      ensures Live(st', i) <==> Outstanding(p.births[i], p.clock, rest)
    {
      assert Live(st, i) <==> Outstanding(p.births[i], p.clock, pending);
      assert p.births[i].slot in pending <==> p.births[i].slot == s || p.births[i].slot in rest;
    }
  }

  /** A timer that is not due is passed over. */
  lemma SkipKeeps(st: State, s: nat, pending: seq<nat>)
    requires Mid(st, pending) && s in pending && s == pending[0] && st.past.holders[s].due != st.past.clock
    ensures Mid(st, pending[1..])
  {
    var rest, p := pending[1..], st.past;
    DueTest(st, s, pending);
    forall t | 0 <= t < TIMER_NUM && !st.slots[t].free
      ensures SlotOk(st, t, rest)
    {
      assert SlotOk(st, t, pending) && (t in pending <==> t == s || t in rest);
    }
    forall i | 0 <= i < |p.births|
      ensures Live(st, i) <==> Outstanding(p.births[i], p.clock, rest)
    {
      assert Live(st, i) <==> Outstanding(p.births[i], p.clock, pending);
      assert p.births[i].slot in pending <==> p.births[i].slot == s || p.births[i].slot in rest;
    }
    forall x: nat, i | 0 <= i < |p.births|
      ensures Firing(x, i) in p.log <==> Scheduled(p.births[i], x) && Passed(p.births[i], x, p.clock, rest)
    {
      assert Firing(x, i) in p.log <==> Scheduled(p.births[i], x) && Passed(p.births[i], x, p.clock, pending);
      ScheduledIsHeld(st, i, s, pending);
      assert p.births[i].slot in pending <==> p.births[i].slot == s || p.births[i].slot in rest;
    }
  }

  lemma VisitKeeps(st: State, pending: seq<nat>, does: nat -> seq<Request>)
    requires Mid(st, pending) && pending != []
    ensures pending[0] < |st.slots| && Mid(Visit(st, pending[0], does), pending[1..])
    ensures Visit(st, pending[0], does).past.clock == st.past.clock
    ensures st.past.births <= Visit(st, pending[0], does).past.births
  {
    var s := pending[0];
    assert s in pending;
    DueTest(st, s, pending);
    if st.slots[s].next == st.ticks {
      RegisterAllKeeps(st, does(s), pending);
      SettleKeeps(RegisterAll(st, does(s)), s, pending);
    } else {
      SkipKeeps(st, s, pending);
    }
  }

  lemma {:induction false} VisitAllKeeps(st: State, pending: seq<nat>, does: nat -> seq<Request>)
    requires Mid(st, pending)
    ensures InTable(pending, |st.slots|) && Mid(VisitAll(st, pending, does), [])
    ensures VisitAll(st, pending, does).past.clock == st.past.clock
    ensures st.past.births <= VisitAll(st, pending, does).past.births
    decreases |pending|
  {
    assert forall i :: 0 <= i < |pending| ==> pending[i] in pending;
    if pending != [] {
      VisitKeeps(st, pending, does);
      VisitAllKeeps(Visit(st, pending[0], does), pending[1..], does);
    }
  }

  /** When the clock moves on, every running timer is still to visit. */
  lemma AdvanceKeeps(st: State)
    requires Mid(st, [])
    ensures Mid(Advance(st), st.active)
  {
    AdvanceShape(st);
    var st', p := Advance(st), st.past;
    hide Scheduled, Distinct;
    forall s | 0 <= s < TIMER_NUM && !st'.slots[s].free
      ensures SlotOk(st', s, st.active)
    {
      assert SlotOk(st, s, []);
    }
    forall i | 0 <= i < |p.births|
      ensures Live(st', i) <==> Outstanding(p.births[i], st'.past.clock, st.active)
    {
      assert Live(st, i) <==> Outstanding(p.births[i], p.clock, []);
    }
    AdvanceLog(st);
  }

  lemma AdvanceShape(st: State)
    requires Shape(st)
    ensures Shape(Advance(st))
  {
    hide Distinct;
    AddToTicks(st.past.clock, 1);
    forall i | 0 <= i < |st.past.births|
      ensures BirthOk(Advance(st), st.past.births[i])
    {
      assert BirthOk(st, st.past.births[i]);
    }
  }

  lemma AdvanceLog(st: State)
    requires Mid(st, []) && Shape(Advance(st))
    ensures LogOk(Advance(st), st.active)
  {
    hide Distinct;
    var p := st.past;
    forall x: nat, i | 0 <= i < |p.births|
      ensures Firing(x, i) in p.log <==> Scheduled(p.births[i], x) && Passed(p.births[i], x, p.clock + 1, st.active)
    {
      assert Firing(x, i) in p.log <==> Scheduled(p.births[i], x) && Passed(p.births[i], x, p.clock, []);
      assert Live(st, i) <==> Outstanding(p.births[i], p.clock, []);
    }
  }

  // ----- runs -----

  /** A kernel thread registers a timer, or the timer interrupt comes and the callbacks it
      runs register what they like. */
  datatype Event = Call(request: Request) | Interrupt(does: nat -> seq<Request>)

  function Init(): State {
    State(0, seq(TIMER_NUM, _ => Slot(true, false, 0, 0)), [],
          History(0, [], seq(TIMER_NUM, _ => Holder(0, 0)), []))
  }

  predicate Ready(st: State) {
    |st.slots| == |st.past.holders| && InTable(st.active, |st.slots|)
  }

  lemma MidReady(st: State, pending: seq<nat>)
    requires Mid(st, pending)
    ensures Ready(st)
    ensures forall s :: s in pending ==> s < |st.slots|
  {
    assert forall i :: 0 <= i < |st.active| ==> st.active[i] in st.active;
  }

  function Step(st: State, e: Event): State
    requires Ready(st)
  {
    match e
    case Call(r) => Register(st, r).0
    case Interrupt(does) => Tick(st, does)
  }

  lemma StepKeeps(st: State, e: Event)
    requires Mid(st, [])
    ensures Ready(st) && Mid(Step(st, e), [])
    ensures Step(st, e).past.clock == st.past.clock + if e.Interrupt? then 1 else 0
    ensures st.past.births <= Step(st, e).past.births
  {
    MidReady(st, []);
    match e
    case Call(r) => RegisterKeeps(st, r, []);
    case Interrupt(does) =>
      AdvanceKeeps(st);
      VisitAllKeeps(Advance(st), st.active, does);
  }

  ghost function Run(st: State, events: seq<Event>): State
    requires Mid(st, [])
    decreases |events|
  {
    if events == [] then st else
      StepKeeps(st, events[0]);
      Run(Step(st, events[0]), events[1..])
  }

  function Interrupts(events: seq<Event>): nat {
    if events == [] then 0 else (if events[0].Interrupt? then 1 else 0) + Interrupts(events[1..])
  }

  lemma {:induction false} RunKeeps(st: State, events: seq<Event>)
    requires Mid(st, [])
    ensures Mid(Run(st, events), [])
    ensures Run(st, events).past.clock == st.past.clock + Interrupts(events)
    ensures st.past.births <= Run(st, events).past.births
    decreases |events|
  {
    if events != [] {
      StepKeeps(st, events[0]);
      RunKeeps(Step(st, events[0]), events[1..]);
    }
  }

  lemma InitOk()
    ensures Mid(Init(), [])
  {
  }

  /** Over every run, with any mix of registrations before, between and inside the
      callbacks: a one-shot timer fires exactly once, `time` interrupts after it was
      registered, and a periodic timer exactly at every multiple of `time`; nothing else
      fires. */
  lemma FiringsExact(events: seq<Event>, k: nat, i: nat)
    ensures Mid(Init(), [])
    ensures
      var past := Run(Init(), events).past;
      && past.clock == Interrupts(events)
      && Distinct(past.log)
      && (Firing(k, i) in past.log <==>
            && i < |past.births| && past.births[i].time > 0
            && Scheduled(past.births[i], k) && k <= past.clock)
  {
    InitOk();
    RunKeeps(Init(), events);
    var st := Run(Init(), events);
    var past := st.past;
    if i < |past.births| {
      assert BirthOk(st, past.births[i]);
      assert Firing(k, i) in past.log <==>
        Scheduled(past.births[i], k) && Passed(past.births[i], k, past.clock, []);
    }
  }

  /** A registration is refused exactly when it is malformed or all slots are taken by timers
      that still have to fire; an accepted one is recorded with the time of the call, and
      stays recorded. */
  lemma RegisterExact(st: State, r: Request, later: seq<Event>)
    requires Mid(st, [])
    ensures Register(st, r).1 == -EINVAL <==> !Acceptable(r)
    ensures Register(st, r).1 == -1 <==> Acceptable(r) && |st.active| == TIMER_NUM
    ensures Register(st, r).1 in {-EINVAL, -1} ==> Register(st, r).0 == st
    ensures Register(st, r).1 == 1 ==>
      var st', n := Register(st, r).0, |st.past.births|;
      && Mid(st', []) && n < |Run(st', later).past.births|
      && var b := Run(st', later).past.births[n];
      && b.clock == st.past.clock && b.time == r.time && b.periodic == (r.kind == PERIODIC)
  {
    RegisterKeeps(st, r, []);
    FullTable(st);
    if Register(st, r).1 == 1 {
      RunKeeps(Register(st, r).0, later);
    }
  }

  /** Seen from the caller: an accepted timer fires at the interrupts it asked for, counted
      from the call, whatever else is registered before or after it. */
  lemma AcceptedTimerFires(before: seq<Event>, r: Request, later: seq<Event>, n: nat)
    ensures Mid(Init(), []) && Mid(Run(Init(), before), [])
    ensures
      var st := Run(Init(), before);
      var (next, code) := Register(st, r);
      code == 1 ==>
        && Mid(next, [])
        && (Firing(st.past.clock + n, |st.past.births|) in Run(next, later).past.log <==>
              && 0 < n <= Interrupts(later)
              && if r.kind == PERIODIC then n % r.time == 0 else n == r.time)
  {
    hide Mid, Run, Register, Init, Distinct;
    InitOk();
    RunKeeps(Init(), before);
    var st := Run(Init(), before);
    MidReady(st, []);
    RegisterExact(st, r, later);
    var (next, code) := Register(st, r);
    if code == 1 {
      RegisterKeeps(st, r, []);
      RunKeeps(next, later);
      RecordedFirings(Run(next, later), |st.past.births|, st.past.clock + n);
    }
  }

  /** Between interrupts the log holds exactly the ticks scheduled so far. */
  lemma RecordedFirings(st: State, i: nat, k: nat)
    requires Mid(st, []) && i < |st.past.births|
    ensures st.past.births[i].time > 0
    ensures Firing(k, i) in st.past.log <==> Scheduled(st.past.births[i], k) && k <= st.past.clock
  {
    assert BirthOk(st, st.past.births[i]);
    assert Firing(k, i) in st.past.log <==>
      Scheduled(st.past.births[i], k) && Passed(st.past.births[i], k, st.past.clock, []);
  }

  /** The list of running timers is as long as the table exactly when no slot is free. */
  lemma FullTable(st: State)
    requires Shape(st)
    ensures |st.active| == TIMER_NUM <==> FreeSlot(st.slots, 0) == TIMER_NUM
  {
    Pigeonhole(st.active, |st.slots|);
  }

  lemma Pigeonhole(q: seq<nat>, n: nat)
    requires Distinct(q) && forall s :: s in q ==> s < n
    ensures |q| == n <==> forall s :: 0 <= s < n ==> s in q
  {
    DistinctSize(q);
    assert Members(q) <= Below(n);
    if |q| == n {
      SameSize(Members(q), Below(n));
      forall s | 0 <= s < n
        ensures s in q
      {
        assert s in Below(n) && s in Members(q);
      }
    }
    if forall s :: 0 <= s < n ==> s in q {
      assert Members(q) == Below(n);
    }
  }

  ghost function Members(q: seq<nat>): set<nat> {
    set s | s in q
  }

  lemma {:induction false} DistinctSize(q: seq<nat>)
    requires Distinct(q)
    ensures |Members(q)| == |q|
    decreases |q|
  {
    if q == [] {
      assert Members(q) == {};
    } else {
      var rest, last := q[..|q| - 1], q[|q| - 1];
      DistinctSize(rest);
      assert q == rest + [last] && last !in rest;
      assert Members(q) == Members(rest) + {last};
    }
  }

  ghost function Below(n: nat): (r: set<nat>)
    ensures |r| == n && forall s: nat :: s in r <==> s < n
  {
    if n == 0 then {} else Below(n - 1) + {n - 1}
  }

  lemma SameSize(a: set<nat>, b: set<nat>)
    requires a <= b && |a| == |b|
    ensures a == b
  {
    assert |b - a| == |b| - |a|;
  }

  // ----- the list of running timers in the heap -----

  /** The links of the slots in `q`, in order. */
  function NodesOf(nodes: seq<K.Node>, q: seq<nat>): (r: seq<K.Node>)
    requires InTable(q, |nodes|)
    ensures |r| == |q|
    ensures forall i :: 0 <= i < |q| ==> r[i] == nodes[q[i]]
  {
    seq(|q|, i requires 0 <= i < |q| => nodes[q[i]])
  }

  /** The links of a slot that is not on the list are not among those of the list. */
  lemma OtherNode(head: K.Node, nodes: seq<K.Node>, q: seq<nat>, k: nat)
    requires InTable(q, |nodes|) && k < |nodes| && k !in q && head !in nodes
    requires forall i, j :: 0 <= i < j < |nodes| ==> nodes[i] != nodes[j]
    ensures nodes[k] !in [head] + NodesOf(nodes, q)
  {
    forall i | 0 <= i < |q| ensures NodesOf(nodes, q)[i] != nodes[k] {
      assert q[i] in q;
      assert q[i] < k ==> nodes[q[i]] != nodes[k];
      assert k < q[i] ==> nodes[k] != nodes[q[i]];
    }
  }

  lemma FrontNodes(head: K.Node, nodes: seq<K.Node>, q: seq<nat>, k: nat)
    requires InTable(q, |nodes|) && k < |nodes|
    ensures InTable([k] + q, |nodes|)
    ensures K.Inserted([head] + NodesOf(nodes, q), 1, nodes[k]) == [head] + NodesOf(nodes, [k] + q)
  {
    var n, rest := nodes[k], NodesOf(nodes, q);
    assert NodesOf(nodes, [k] + q) == [n] + rest;
    hide NodesOf;
    SecondPlace(head, n, rest);
  }

  lemma SecondPlace(head: K.Node, n: K.Node, rest: seq<K.Node>)
    ensures K.Inserted([head] + rest, 1, n) == [head] + ([n] + rest)
  {
    assert ([head] + rest)[..1] == [head] && ([head] + rest)[1..] == rest;
  }

  lemma LessNodes(head: K.Node, nodes: seq<K.Node>, q: seq<nat>, i: nat)
    requires InTable(q, |nodes|) && i < |q|
    ensures InTable(q[..i] + q[i + 1..], |nodes|)
    ensures K.Removed([head] + NodesOf(nodes, q), i + 1) == [head] + NodesOf(nodes, q[..i] + q[i + 1..])
  {
  }

  /** `tail` is what `q` ends with. */
  predicate EndsWith(q: seq<nat>, tail: seq<nat>) {
    |tail| <= |q| && q[|q| - |tail|..] == tail
  }

  lemma WithoutAt(q: seq<nat>, i: nat)
    requires Distinct(q) && i < |q|
    ensures Without(q, q[i]) == q[..i] + q[i + 1..]
  {
    var drops := (x: nat) => x == q[i];
    KeptAppend(q[..i], q[i..], drops);
    assert q[..i] + q[i..] == q;
    assert Kept(q[i..], drops) == Kept(q[i + 1..], drops) by {
      assert q[i..][1..] == q[i + 1..];
    }
    hide Kept;
    KeptAll(q[..i], drops);
    KeptAll(q[i + 1..], drops);
  }

  lemma {:induction false} KeptAll(q: seq<nat>, drops: nat -> bool)
    requires forall k :: 0 <= k < |q| ==> !drops(q[k])
    ensures Kept(q, drops) == q
    decreases |q|
  {
    if q != [] {
      KeptAll(q[1..], drops);
    }
  }

  // ----- the kernel's code -----

  class TimerTable {
    var ticks: Word
    const slots: array<Slot>
    const head: K.Node
    const nodes: seq<K.Node>
    /** The slots on the list, as its links have them. */
    ghost var active: seq<nat>
    ghost var past: History

    ghost function Now(): State
      reads this, slots
    {
      State(ticks, slots[..], active, past)
    }

    /** Every slot has links of its own. */
    ghost predicate Valid() {
      && |nodes| == TIMER_NUM && head !in nodes
      && (forall i, j :: 0 <= i < j < |nodes| ==> nodes[i] != nodes[j])
      && (forall i :: 0 <= i < |nodes| ==> nodes[i].owner == i)
    }

    /** The links from the head on are those of the active slots, in order. */
    ghost predicate Listed()
      reads this`active, head, nodes
    {
      Valid() && InTable(active, |nodes|) && K.Ring([head] + NodesOf(nodes, active))
    }

    constructor ()
      ensures Now() == Init() && Listed() && fresh(slots) && fresh(head) && fresh(nodes)
    {
      ticks, active, past := 0, [], Init().past;
      var h := new K.Node(TIMER_NUM);
      var ns: seq<K.Node> := [];
      while |ns| < TIMER_NUM
        invariant |ns| <= TIMER_NUM && h !in ns && fresh(ns) && fresh(h)
        invariant forall i, j :: 0 <= i < j < |ns| ==> ns[i] != ns[j]
        invariant forall i :: 0 <= i < |ns| ==> ns[i].owner == i
      {
        var n := new K.Node(|ns|);
        ns := ns + [n];
      }
      K.Init(h);
      head, nodes := h, ns;
      slots := new Slot[TIMER_NUM](_ => Slot(true, false, 0, 0));
      new;
      assert slots[..] == Init().slots;
      assert [head] + NodesOf(nodes, active) == [head];
    }

    /** timer_new: the lowest free slot, or -1. */
    method NewSlot() returns (k: int)
      ensures k == -1 <==> FreeSlot(slots[..], 0) == slots.Length
      ensures k != -1 ==> k == FreeSlot(slots[..], 0) < slots.Length
    {
      k := 0;
      while k < slots.Length
        invariant 0 <= k <= slots.Length
        invariant FreeSlot(slots[..], 0) == FreeSlot(slots[..], k)
      {
        if slots[k].free {
          return;
        }
        k := k + 1;
      }
      k := -1;
    }

    method RegisterTimer(r: Request) returns (code: int)
      requires Shape(Now()) && Listed()
      modifies this, slots, head, nodes
      ensures Listed() && (Now(), code) == Register(old(Now()), r)
      ensures EndsWith(active, old(active))
    {
      if (r.kind != ONESHOT && r.kind != PERIODIC) || !r.hasCallback || r.time == 0 {
        return -EINVAL;
      }
      var k := NewSlot();
      if k < 0 {
        return -1;
      }
      hide Listed, FreeSlot, Shape, Install;
      FreeNotListed(Now(), k);
      Occupy(k, r);
      code := 1;
    }

    /** The slot is filled in and comes first on the list. */
    method Occupy(k: nat, r: Request)
      requires Listed() && k < slots.Length == |past.holders| == TIMER_NUM && k !in active
      modifies this, slots, head, nodes
      ensures Listed() && Now() == Install(old(Now()), r, k) && EndsWith(active, old(active))
    {
      hide Listed;
      ghost var was := Now();
      slots[k] := Slot(false, r.kind == PERIODIC, r.time, (ticks + r.time) % WORD);
      LinkFront(k);
      past := Install(was, r, k).past;
    }

    method LinkFront(k: nat)
      requires Listed() && k < TIMER_NUM && k !in active
      modifies this`active, head, nodes
      ensures Listed() && active == [k] + old(active)
    {
      hide K.Ring;
      ghost var ring := [head] + NodesOf(nodes, active);
      OtherNode(head, nodes, active, k);
      FrontNodes(head, nodes, active, k);
      K.AddAfter(head, nodes[k], ring, 0);
      active := [k] + active;
    }

    method Unlink(s: nat, ghost i: nat)
      requires Listed() && Distinct(active) && i < |active| && active[i] == s
      modifies this`active, head, nodes
      ensures Listed() && active == Without(old(active), s) == old(active)[..i] + old(active)[i + 1..]
    {
      hide K.Ring, K.Removed, Without;
      ghost var ring := [head] + NodesOf(nodes, active);
      assert ring[i + 1] == nodes[s];
      WithoutAt(active, i);
      LessNodes(head, nodes, active, i);
      K.Delete(nodes[s], ring, i + 1);
      active := Without(active, s);
    }

    /** The element after the head, or after the node of `q[0]` when `q` is what the list ends
        with. */
    function NodeOrHead(q: seq<nat>): K.Node
      requires InTable(q, |nodes|)
    {
      if q == [] then head else nodes[q[0]]
    }

    lemma NextOf(q: seq<nat>)
      requires Listed() && EndsWith(active, q)
      ensures InTable(q, |nodes|) && head.next != null
      ensures q != [] ==> NodeOrHead(q) != head && NodeOrHead(q).owner == q[0]
      ensures q != [] ==> NodeOrHead(q).next == NodeOrHead(q[1..])
      ensures q == active ==> head.next == NodeOrHead(q)
    {
      var ring := [head] + NodesOf(nodes, active);
      var d := |active| - |q|;
      assert forall i :: 0 <= i < |q| ==> q[i] == active[d + i];
      assert K.Linked(ring[0], K.After(ring, 0));
      if q != [] {
        assert ring[d + 1] == nodes[q[0]] && K.Linked(ring[d + 1], K.After(ring, d + 1));
      }
    }

    /** timer_handler: it follows the links with the next one saved, while the callbacks put
        new timers in front and expired ones leave.  `does` stands for what they register. */
    method HandleInterrupt(does: nat -> seq<Request>)
      requires Mid(Now(), []) && Listed()
      modifies this, slots, head, nodes
      ensures Mid(Now(), []) && Listed() && Ready(old(Now())) && Now() == Tick(old(Now()), does)
    {
      hide Mid, Visit, Listed;
      MidReady(Now(), []);
      AdvanceKeeps(Now());
      ticks := (ticks + 1) % WORD;
      past := past.(clock := past.clock + 1);
      ghost var began, pending := Now(), active;
      VisitAllKeeps(began, pending, does);
      NextOf(pending);
      var name := head.next;
      var next := name.next;
      if name != head {
        NextOf(pending[1..]);
      }
      while name != head
        invariant Mid(Now(), pending) && Listed() && EndsWith(active, pending) && InTable(pending, |nodes|)
        invariant slots.Length == |past.holders| && InTable(pending, slots.Length)
        invariant name == NodeOrHead(pending) && (pending == [] <==> name == head)
        invariant pending != [] ==> next == NodeOrHead(pending[1..])
        invariant VisitAll(began, old(active), does) == VisitAll(Now(), pending, does)
        decreases |pending|
      {
        NextOf(pending);
        VisitTimer(name.owner, does, pending);
        pending := pending[1..];
        name := next;
        NextOf(pending);
        next := name.next;
      }
    }

    /** The body of the walk: the timer fires if it is due. */
    method VisitTimer(s: nat, does: nat -> seq<Request>, ghost pending: seq<nat>)
      requires Mid(Now(), pending) && Listed() && EndsWith(active, pending) && pending != [] && pending[0] == s
      modifies this, slots, head, nodes
      ensures Listed() && EndsWith(active, pending[1..]) && Mid(Now(), pending[1..])
      ensures s < |old(Now()).slots| == |old(Now()).past.holders| && Now() == Visit(old(Now()), s, does)
    {
      hide Mid, Settle, RegisterAll, Listed;
      VisitKeeps(Now(), pending, does);
      MidReady(Now(), pending);
      assert active[|active| - |pending|..][1..] == active[|active| - |pending| + 1..];
      if slots[s].next == ticks {
        RunCallback(s, does(s), pending);
      }
    }

    /** One firing: the callback with its registrations, then what becomes of the timer. */
    method RunCallback(s: nat, requests: seq<Request>, ghost pending: seq<nat>)
      requires Mid(Now(), pending) && Listed() && EndsWith(active, pending) && pending != [] && pending[0] == s
      modifies this, slots, head, nodes
      ensures Listed() && EndsWith(active, pending[1..])
      ensures s < |old(Now()).slots| == |old(Now()).past.holders|
      ensures Now() == Settle(RegisterAll(old(Now()), requests), s)
    {
      hide Mid, Distinct, Settle, Listed;
      assert s in pending;
      MidReady(Now(), pending);
      ghost var began := Now();
      var j := 0;
      while j < |requests|
        invariant 0 <= j <= |requests| && Mid(Now(), pending) && Ready(Now()) && Listed()
        invariant EndsWith(active, pending)
        invariant RegisterAll(began, requests) == RegisterAll(Now(), requests[j..])
      {
        assert requests[j..][0] == requests[j] && requests[j..][1..] == requests[j + 1..];
        RegisterKeeps(Now(), requests[j], pending);
        MidShape(Now(), pending);
        ghost var before := active;
        var _ := RegisterTimer(requests[j]);
        EndsWithTrans(active, before, pending);
        MidReady(Now(), pending);
        j := j + 1;
      }
      MidShape(Now(), pending);
      SettleTimer(s, pending);
    }

    /** What follows the callback: the next round, or the end of the timer. */
    method SettleTimer(s: nat, ghost pending: seq<nat>)
      requires Shape(Now()) && Listed() && s < slots.Length
      requires EndsWith(active, pending) && pending != [] && pending[0] == s
      modifies this, slots, head, nodes
      ensures Listed() && EndsWith(active, pending[1..])
      ensures Now() == Settle(old(Now()), s)
    {
      hide Listed, Without;
      ghost var now, i := Now(), |active| - |pending|;
      assert active[i] == s && active[i + 1..] == pending[1..];
      if slots[s].periodic {
        slots[s] := slots[s].(next := (ticks + slots[s].value) % WORD);
      } else {
        Unlink(s, i);
        slots[s] := slots[s].(free := true);
      }
      past := Settle(now, s).past;
    }
  }

  lemma FreeNotListed(st: State, k: nat)
    requires Shape(st) && k < |st.slots| && st.slots[k].free
    ensures k < TIMER_NUM && k !in st.active
  {
  }

  lemma MidShape(st: State, pending: seq<nat>)
    requires Mid(st, pending)
    ensures Shape(st)
  {
  }

  lemma EndsWithTrans(a: seq<nat>, b: seq<nat>, c: seq<nat>)
    requires EndsWith(a, b) && EndsWith(b, c)
    ensures EndsWith(a, c)
  {
    var d := |b| - |c|;
    assert a[|a| - |c|..] == a[|a| - |b|..][d..];
  }
}
