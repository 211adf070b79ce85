/** The mutex protocol (kernel/kern/mutex.c, and the waiting loop in kernel/kern/scheduler.c) as atomic steps of many
    threads on one CPU. Each step is taken by the current thread between two points where it can be preempted: a
    compare-and-swap, or a section that runs with interrupts off. The nesting count does not wrap. */
module Mutex {
  import opened Range
  import opened Scheduler

  /** Where a thread stands in mutex_acquire or mutex_release. */
  datatype Pc =
    | Idle
    | Enqueue   // after the first compare-and-swap did not return the thread's own id
    | Testing   // in the queue and in scheduler_wait_object_acquire
    | Unqueue   // the test passed
    | Nest      // about to count the acquisition
    | Leave     // nested has dropped to 0; about to hand over or free the mutex

  /** `holds` counts each thread's acquisitions less its releases. */
  datatype World = World(s: Sched, owner: Tid, nested: nat, waiting: seq<Tid>, pc: map<Tid, Pc>, holds: map<Tid, nat>)

  datatype Act = Cas | Queue | Test(now: u32) | Dequeue | Count | Release | HandOff | Sys(op: Op)

  /** The current thread and the runnable ones are known to the scheduler. */
  ghost predicate Closed(s: Sched) {
    s.current in s.state && forall t :: t in s.runnable ==> t in s.state
  }

  /** All threads are known to all tables, and thread ids are nonzero. */
  ghost predicate Tabled(w: World) {
    && w.pc.Keys == w.s.state.Keys && w.holds.Keys == w.s.state.Keys && 0 !in w.s.state
    && Closed(w.s)
  }

  ghost predicate Enabled(w: World, a: Act)
    requires Tabled(w)
  {
    var me := w.s.current;
    match a
    case Cas => w.pc[me] == Idle && me != w.s.boot
    case Queue => w.pc[me] == Enqueue
    case Test(now) => w.pc[me] == Testing && (w.owner != me ==> CanSwitch(MakeBlocked(w.s, me), now))
    case Dequeue => w.pc[me] == Unqueue
    case Count => w.pc[me] == Nest
    case Release => w.pc[me] == Idle && w.holds[me] > 0
    case HandOff => w.pc[me] == Leave && (w.waiting != [] ==> w.waiting[0] in w.s.state)
    case Sys(op) => Allowed(w.s, op) && (op.Add? ==> op.t != 0)
  }

  /** The compare-and-swap of 0 with `me`. */
  function Swapped(owner: Tid, me: Tid): Tid {
    if owner == 0 then me else owner
  }

  ghost function Do(w: World, a: Act): World
    requires Tabled(w) && Enabled(w, a)
  {
    var me := w.s.current;
    match a
    case Cas => w.(owner := Swapped(w.owner, me), pc := w.pc[me := if w.owner == me then Nest else Enqueue])
    case Queue => w.(waiting := w.waiting + [me], pc := w.pc[me := Testing])
    case Test(now) =>
      if w.owner == me then w.(pc := w.pc[me := Unqueue])
      else w.(owner := Swapped(w.owner, me), s := Switch(MakeBlocked(w.s, me), now))
    case Dequeue => w.(waiting := Remove(w.waiting, me), pc := w.pc[me := Nest])
    case Count => w.(nested := w.nested + 1, holds := w.holds[me := w.holds[me] + 1], pc := w.pc[me := Idle])
    case Release =>
      var left := if w.nested > 0 then w.nested - 1 else 0;
      w.(nested := left, holds := w.holds[me := w.holds[me] - 1], pc := w.pc[me := if left == 0 then Leave else Idle])
    case HandOff =>
      if w.waiting == [] then w.(owner := 0, pc := w.pc[me := Idle])
      else w.(owner := w.waiting[0], s := MakeRunnable(w.s, w.waiting[0]), pc := w.pc[me := Idle])
    case Sys(op) =>
      var s' := Apply(w.s, op);
      if op.Add? then w.(s := s', pc := w.pc[op.t := Idle], holds := w.holds[op.t := 0]) else w.(s := s')
  }

  // ----- what every step keeps -----

  ghost predicate Ok(w: World, t: Tid)
    requires Tabled(w) && t in w.s.state
  {
    && (w.pc[t] != Idle || w.holds[t] > 0 ==> t != w.s.boot)
    && (w.pc[t] == Enqueue || w.pc[t] == Testing || w.pc[t] == Unqueue || w.pc[t] == Leave ==> w.holds[t] == 0)
    && (w.pc[t] == Unqueue || w.pc[t] == Nest || w.pc[t] == Leave || w.holds[t] > 0 ==> w.owner == t)
    && (w.owner == t && w.pc[t] == Idle ==> w.holds[t] > 0)
    && (t in w.waiting <==> w.pc[t] == Testing || w.pc[t] == Unqueue)
  }

  ghost predicate Safe(w: World) {
    && Tabled(w) && Distinct(w.waiting) && (forall t :: t in w.waiting ==> t in w.s.state)
    && (forall t :: t in w.s.state ==> Ok(w, t))
    && (w.owner == 0 || w.owner in w.s.state) && w.nested == if w.owner == 0 then 0 else w.holds[w.owner]
  }

  /** The scheduler's steps do not touch the mutex. */
  lemma KeepsSafe(w: World, s': Sched)
    requires Safe(w) && Closed(s') && s'.state.Keys == w.s.state.Keys && s'.boot == w.s.boot
    ensures Safe(w.(s := s'))
  {
    forall t | t in s'.state ensures Tabled(w.(s := s')) && Ok(w.(s := s'), t) { assert t in w.s.state && Ok(w, t); }
  }

  lemma {:induction false} RemoveSub(q: seq<Tid>, t: Tid)
    ensures forall u :: u in Remove(q, t) ==> u in q
  {
    if q != [] { RemoveSub(q[1..], t); }
  }

  lemma StateKeys(s: Sched, op: Op)
    requires Closed(s) && Allowed(s, op)
    ensures Closed(Apply(s, op)) && Apply(s, op).boot == s.boot
    ensures Apply(s, op).state.Keys == if op.Add? then s.state.Keys + {op.t} else s.state.Keys
  {
    match op
    case Next(now) => SwitchKeys(s, now);
    case Wake(t) => WakeKeys(s, t);
    case Block(t) => BlockKeys(s, t);
    case Add(t, st) =>
  }

  lemma SwitchKeys(s: Sched, now: u32)
    requires Closed(s) && CanSwitch(s, now)
    ensures Closed(Switch(s, now)) && Switch(s, now).boot == s.boot && Switch(s, now).state.Keys == s.state.Keys
  {
    assert s.runnable != [] ==> s.runnable[0] in s.runnable;
  }

  lemma WakeKeys(s: Sched, t: Tid)
    requires Closed(s) && t in s.state
    ensures Closed(MakeRunnable(s, t)) && MakeRunnable(s, t).boot == s.boot
    ensures MakeRunnable(s, t).state.Keys == s.state.Keys
  {
    RemoveSub(s.runnable, t);
  }

  lemma BlockKeys(s: Sched, t: Tid)
    requires Closed(s) && t in s.state
    ensures Closed(MakeBlocked(s, t)) && MakeBlocked(s, t).boot == s.boot
    ensures MakeBlocked(s, t).state.Keys == s.state.Keys
  {
    RemoveSub(s.runnable, t);
  }

  lemma SafeCas(w: World)
    requires Safe(w) && Enabled(w, Cas)
    ensures Safe(Do(w, Cas))
  {
    var w' := Do(w, Cas);
    forall t | t in w'.s.state ensures Ok(w', t) { assert Ok(w, t); }
    assert Ok(w, w.s.current);
  }

  lemma SafeQueue(w: World)
    requires Safe(w) && Enabled(w, Queue)
    ensures Safe(Do(w, Queue))
  {
    var w' := Do(w, Queue);
    assert Ok(w, w.s.current);
    forall t | t in w'.s.state ensures Ok(w', t) { assert Ok(w, t); }
  }

  /** A test that fails blocks the thread and switches to another one. */
  lemma SafeTest(w: World, now: u32)
    requires Safe(w) && Enabled(w, Test(now))
    ensures Safe(Do(w, Test(now)))
  {
    var me, w' := w.s.current, Do(w, Test(now));
    assert Ok(w, me);
    if w.owner == me {
      forall t | t in w'.s.state ensures Ok(w', t) { assert Ok(w, t); }
    } else {
      hide Switch, MakeBlocked;
      var b := MakeBlocked(w.s, me);
      BlockKeys(w.s, me);
      SwitchKeys(b, now);
      var v := w.(owner := Swapped(w.owner, me));
      forall t | t in v.s.state ensures Ok(v, t) { assert Ok(w, t); }
      KeepsSafe(v, Switch(b, now));
    }
  }

  lemma SafeDequeue(w: World)
    requires Safe(w) && Enabled(w, Dequeue)
    ensures Safe(Do(w, Dequeue))
  {
    var w' := Do(w, Dequeue);
    assert Ok(w, w.s.current);
    RemoveHas(w.waiting, w.s.current);
    forall t | t in w'.s.state ensures Ok(w', t) { assert Ok(w, t); }
  }

  lemma SafeCount(w: World)
    requires Safe(w) && Enabled(w, Count)
    ensures Safe(Do(w, Count))
  {
    var w' := Do(w, Count);
    assert Ok(w, w.s.current);
    forall t | t in w'.s.state ensures Ok(w', t) { assert Ok(w, t); }
  }

  lemma SafeRelease(w: World)
    requires Safe(w) && Enabled(w, Release)
    ensures Safe(Do(w, Release))
  {
    var w' := Do(w, Release);
    assert Ok(w, w.s.current);
    forall t | t in w'.s.state ensures Ok(w', t) { assert Ok(w, t); }
  }

  lemma SafeHandOff(w: World)
    requires Safe(w) && Enabled(w, HandOff)
    ensures Safe(Do(w, HandOff))
  {
    var me := w.s.current;
    assert Ok(w, me);
    var next := if w.waiting == [] then 0 else w.waiting[0];
    var v := w.(owner := next, pc := w.pc[me := Idle]);
    assert next != 0 ==> next in w.waiting && Ok(w, next);
    forall t | t in v.s.state ensures Ok(v, t) { assert Ok(w, t); }
    if next != 0 {
      WakeKeys(w.s, next);
      KeepsSafe(v, MakeRunnable(w.s, next));
    }
  }

  lemma SafeAdd(w: World, s': Sched, t: Tid)
    requires Safe(w) && Closed(s') && s'.state.Keys == w.s.state.Keys + {t} && s'.boot == w.s.boot && t !in w.s.state
    requires t != 0
    ensures Safe(w.(s := s', pc := w.pc[t := Idle], holds := w.holds[t := 0]))
  {
    var w' := w.(s := s', pc := w.pc[t := Idle], holds := w.holds[t := 0]);
    forall u | u in s'.state ensures Tabled(w') && Ok(w', u) { if u != t { assert u in w.s.state && Ok(w, u); } }
  }

  lemma SafeSys(w: World, op: Op)
    requires Safe(w) && Enabled(w, Sys(op))
    ensures Safe(Do(w, Sys(op)))
  {
    hide Apply, Ok;
    StateKeys(w.s, op);
    if op.Add? { SafeAdd(w, Apply(w.s, op), op.t); } else { KeepsSafe(w, Apply(w.s, op)); }
  }

  lemma StepSafe(w: World, a: Act)
    requires Safe(w) && Enabled(w, a)
    ensures Safe(Do(w, a))
  {
    hide Safe, Do;
    match a
    case Cas => SafeCas(w);
    case Queue => SafeQueue(w);
    case Test(now) => SafeTest(w, now);
    case Dequeue => SafeDequeue(w);
    case Count => SafeCount(w);
    case Release => SafeRelease(w);
    case HandOff => SafeHandOff(w);
    case Sys(op) => SafeSys(w, op);
  }

  // ----- runs -----

  ghost predicate Goes(w: World, acts: seq<Act>)
    decreases |acts|
  {
    acts == [] || (Tabled(w) && Enabled(w, acts[0]) && Goes(Do(w, acts[0]), acts[1..]))
  }

  ghost function End(w: World, acts: seq<Act>): World
    requires Goes(w, acts)
    decreases |acts|
  {
    if acts == [] then w else End(Do(w, acts[0]), acts[1..])
  }

  lemma {:induction false} RunSafe(w: World, acts: seq<Act>)
    requires Safe(w) && Goes(w, acts)
    ensures Safe(End(w, acts))
    decreases |acts|
  {
    if acts != [] {
      StepSafe(w, acts[0]);
      RunSafe(Do(w, acts[0]), acts[1..]);
    }
  }

  /** A free mutex with nobody queueing, whatever the scheduler's state. */
  ghost predicate Fresh(w: World) {
    && Tabled(w) && w.owner == 0 && w.nested == 0 && w.waiting == []
    && forall t :: t in w.s.state ==> w.pc[t] == Idle && w.holds[t] == 0
  }

  // ----- counting acquisitions over a run -----

  /** How often `t` takes a step like `a` in the run. */
  ghost function Times(w: World, acts: seq<Act>, t: Tid, a: Act): nat
    requires Goes(w, acts)
    decreases |acts|
  {
    if acts == [] then 0
    else (if w.s.current == t && acts[0] == a then 1 else 0) + Times(Do(w, acts[0]), acts[1..], t, a)
  }

  /** Calls of mutex_acquire that have counted, less calls of mutex_release. */
  ghost function Unreleased(w: World, acts: seq<Act>, t: Tid): int
    requires Goes(w, acts)
  {
    Times(w, acts, t, Count) - Times(w, acts, t, Release)
  }

  ghost function HoldsOf(w: World, t: Tid): nat {
    if t in w.holds then w.holds[t] else 0
  }

  /** `t` is inside mutex_acquire. */
  ghost predicate Acquiring(w: World, t: Tid) {
    t in w.pc && (w.pc[t] == Enqueue || w.pc[t] == Testing || w.pc[t] == Unqueue || w.pc[t] == Nest)
  }

  lemma StepCounts(w: World, a: Act, t: Tid)
    requires Tabled(w) && Enabled(w, a)
    ensures HoldsOf(Do(w, a), t) ==
      HoldsOf(w, t) + (if w.s.current == t && a == Count then 1 else 0)
        - (if w.s.current == t && a == Release then 1 else 0)
    ensures (if Acquiring(Do(w, a), t) then 1 else 0) + (if w.s.current == t && a == Count then 1 else 0) ==
      (if Acquiring(w, t) then 1 else 0) + (if w.s.current == t && a == Cas then 1 else 0)
  {
    hide Switch, MakeRunnable, MakeBlocked, AddThread;
  }

  lemma {:induction false} RunCounts(w: World, acts: seq<Act>, t: Tid)
    requires Safe(w) && Goes(w, acts)
    ensures HoldsOf(End(w, acts), t) == HoldsOf(w, t) + Unreleased(w, acts, t)
    ensures (if Acquiring(End(w, acts), t) then 1 else 0) + Times(w, acts, t, Count) ==
      (if Acquiring(w, t) then 1 else 0) + Times(w, acts, t, Cas)
    decreases |acts|
  {
    hide Safe, Do, Enabled, HoldsOf, Acquiring;
    if acts != [] {
      SafeTabled(w);
      StepCounts(w, acts[0], t);
      StepSafe(w, acts[0]);
      RunCounts(Do(w, acts[0]), acts[1..], t);
    }
  }

  lemma SafeTabled(w: World)
    requires Safe(w)
    ensures Tabled(w)
  {
  }

  /** Mutual exclusion, in every interleaving from a free mutex: at most one thread has acquired more often than it has
      released, that thread is the owner, and `nested` is by how much. Every call of mutex_acquire counts once, and is
      then over. */
  lemma Exclusion(w: World, acts: seq<Act>, t: Tid, u: Tid)
    requires Fresh(w) && Goes(w, acts)
    ensures var e, c, d := End(w, acts), Unreleased(w, acts, t), Unreleased(w, acts, u);
      && c >= 0 && (c > 0 ==> e.owner == t && e.nested == c) && (c > 0 && d > 0 ==> t == u)
      && (e.owner == t && t != 0 ==> e.nested == c) && (e.owner == 0 ==> e.nested == 0)
    ensures Times(w, acts, t, Count) == Times(w, acts, t, Cas) - if Acquiring(End(w, acts), t) then 1 else 0
  {
    assert Safe(w) by { forall x | x in w.s.state ensures Ok(w, x) { } }
    RunSafe(w, acts);
    RunCounts(w, acts, t);
    RunCounts(w, acts, u);
    var e := End(w, acts);
    assert HoldsOf(w, t) == 0 && HoldsOf(w, u) == 0 && !Acquiring(w, t);
    if t in e.holds { assert Ok(e, t); }
    if u in e.holds { assert Ok(e, u); }
  }

  // ----- the order of the queue -----

  /** How many threads stand before `t` in the queue that are not the owner. */
  ghost function Ahead(w: World, t: Tid): int {
    var p := Place(w.waiting, t);
    if w.owner in w.waiting && Place(w.waiting, w.owner) < p then p - 1 else p
  }

  /** A hand-over to the first in the queue. */
  ghost predicate HandsOver(w: World, a: Act) {
    a == HandOff && w.waiting != []
  }

  /** Taking `u` out moves those behind it up by one, and nobody else. */
  lemma {:induction false} PlaceWithout(q: seq<Tid>, u: Tid, t: Tid)
    requires t in q && u in q && t != u
    ensures t in Remove(q, u) && Place(Remove(q, u), t) == Place(q, t) - if Place(q, u) < Place(q, t) then 1 else 0
  {
    if q[0] == u {
      assert q == [u] + q[1..];
    } else if q[0] != t {
      PlaceWithout(q[1..], u, t);
    }
  }

  /** A waiting thread keeps its turn: nobody gets ahead of it, and every hand-over that does not go to it brings it
      forward. */
  lemma QueueStep(w: World, a: Act, t: Tid)
    requires Safe(w) && Enabled(w, a) && t in w.waiting && w.owner != t
    ensures Do(w, a).owner == t ||
      (t in Do(w, a).waiting && Ahead(Do(w, a), t) <= Ahead(w, t) - if HandsOver(w, a) then 1 else 0)
    ensures HandsOver(w, a) && Place(w.waiting, t) == 0 ==> Do(w, a).owner == t
  {
    hide Switch, MakeRunnable, MakeBlocked, AddThread, Remove, Place;
    var me := w.s.current;
    assert Ok(w, me) && Ok(w, t);
    match a
    case Queue => QueueMore(w, t);
    case Test(now) => TestQueue(w, now, t);
    case Dequeue => PlaceWithout(w.waiting, me, t);
    case HandOff => HeadFirst(w.waiting, t);
    case _ =>
  }

  lemma QueueMore(w: World, t: Tid)
    requires Safe(w) && Enabled(w, Queue) && t in w.waiting && w.owner != t
    ensures Ahead(Do(w, Queue), t) == Ahead(w, t)
  {
    hide Place;
    var me := w.s.current;
    assert Ok(w, me);
    PlaceAppend(w.waiting, me, t);
    if w.owner in w.waiting { PlaceAppend(w.waiting, me, w.owner); }
    else if w.owner == me { PlaceLast(w.waiting, me); }
  }

  lemma TestQueue(w: World, now: u32, t: Tid)
    requires Safe(w) && Enabled(w, Test(now)) && t in w.waiting && w.owner != t
    ensures Ahead(Do(w, Test(now)), t) <= Ahead(w, t) || Do(w, Test(now)).owner == t
  {
    hide Place, Switch, MakeBlocked;
    assert Ok(w, w.s.current);
  }

  lemma HeadFirst(q: seq<Tid>, t: Tid)
    requires t in q
    ensures Place(q, q[0]) == 0 && (Place(q, t) == 0 <==> q[0] == t)
  {
  }

  /** How often the mutex is handed over in the run. */
  ghost function HandOvers(w: World, acts: seq<Act>): nat
    requires Goes(w, acts)
    decreases |acts|
  {
    if acts == [] then 0 else (if HandsOver(w, acts[0]) then 1 else 0) + HandOvers(Do(w, acts[0]), acts[1..])
  }

  /** At some point of the run `t` is the owner. */
  ghost predicate OwnsOnce(w: World, acts: seq<Act>, t: Tid)
    requires Goes(w, acts)
    decreases |acts|
  {
    w.owner == t || (acts != [] && OwnsOnce(Do(w, acts[0]), acts[1..], t))
  }

  /** Waiters are served in the order they queued: after as many hand-overs as there were threads up to it, a waiting
      thread has had the mutex. */
  lemma ServedInTurn(w: World, acts: seq<Act>, t: Tid)
    requires Safe(w) && Goes(w, acts) && t in w.waiting && HandOvers(w, acts) > Place(w.waiting, t)
    ensures OwnsOnce(w, acts, t)
  {
    TurnComes(w, acts, t);
  }

  lemma {:induction false} TurnComes(w: World, acts: seq<Act>, t: Tid)
    requires Safe(w) && Goes(w, acts) && t in w.waiting && HandOvers(w, acts) > Ahead(w, t)
    ensures OwnsOnce(w, acts, t)
    decreases |acts|
  {
    hide Safe, Do, Enabled, Ahead;
    if w.owner != t {
      if acts == [] {
        AheadNat(w, t);
      } else {
        SafeTabled(w);
        QueueStep(w, acts[0], t);
        StepSafe(w, acts[0]);
        if Do(w, acts[0]).owner != t { TurnComes(Do(w, acts[0]), acts[1..], t); }
      }
    }
  }

  lemma AheadNat(w: World, t: Tid)
    ensures Ahead(w, t) >= 0
  {
  }

  // ----- handing over -----

  /** Only the owner's own hand-over changes the owner of a mutex that has one. */
  lemma OwnerStays(w: World, a: Act)
    requires Safe(w) && Enabled(w, a) && w.owner != 0 && !(a == HandOff && w.s.current == w.owner)
    ensures Do(w, a).owner == w.owner
  {
    assert Ok(w, w.s.current);
  }

  /** Mutex and scheduler are both in order. */
  ghost predicate Good(w: World) {
    Safe(w) && Inv(w.s)
  }

  lemma CanBlock(s: Sched, t: Tid)
    requires Inv(s) && t in s.state && t != s.boot
    ensures Listed(s, t)
  {
    assert Placed(s, t);
  }

  /** The owner's last release with a thread waiting passes the mutex straight to the first in the queue: it is never
      free in between, and that thread is runnable. */
  lemma PassedOn(w: World)
    requires Good(w) && Enabled(w, HandOff) && w.waiting != []
    ensures var w', next := Do(w, HandOff), w.waiting[0];
      w'.owner == next != 0 && next in w'.s.state && w'.s.state[next] == Runnable && w'.pc[next] == Testing &&
        next in w'.s.runnable
  {
    var me, next := w.s.current, w.waiting[0];
    assert Ok(w, me) && Ok(w, next);
    CanBlock(w.s, next);
    WakeInv(w.s, next);
    assert Placed(MakeRunnable(w.s, next), next);
  }

  /** The step is the test of thread `t`. */
  ghost predicate TestOf(w: World, a: Act, t: Tid) {
    a.Test? && w.s.current == t
  }

  ghost predicate NoTestOf(w: World, acts: seq<Act>, t: Tid)
    requires Goes(w, acts)
    decreases |acts|
  {
    acts == [] || (!TestOf(w, acts[0], t) && NoTestOf(Do(w, acts[0]), acts[1..], t))
  }

  lemma StateGrows(w: World, a: Act)
    requires Safe(w) && Enabled(w, a)
    ensures forall t :: t in w.s.state ==> t in Do(w, a).s.state
  {
    hide Ok;
    if a.Sys? { StateKeys(w.s, a.op); }
  }

  lemma StillTesting(w: World, a: Act, t: Tid)
    requires Safe(w) && Enabled(w, a) && t in w.s.state && w.pc[t] == Testing && !TestOf(w, a, t)
    ensures t in Do(w, a).pc && Do(w, a).pc[t] == Testing && t in Do(w, a).s.state
  {
    hide Ok;
    StepSafe(w, a);
    StateGrows(w, a);
  }

  /** However long it takes until the new owner runs, the mutex stays its own, and its first test then succeeds without
      blocking it again. */
  lemma {:induction false} HandedOver(w: World, acts: seq<Act>, t: Tid, now: u32)
    requires Safe(w) && Goes(w, acts) && t in w.s.state && w.owner == t && w.pc[t] == Testing && NoTestOf(w, acts, t)
    ensures var e := End(w, acts); Safe(e) && e.owner == t && t in e.pc && e.pc[t] == Testing
    ensures var e := End(w, acts); e.s.current == t ==>
      Enabled(e, Test(now)) && Do(e, Test(now)).pc[t] == Unqueue && Do(e, Test(now)).s == e.s
    decreases |acts|
  {
    if acts != [] {
      StepSafe(w, acts[0]);
      StillTesting(w, acts[0], t);
      assert Ok(w, t);
      OwnerStays(w, acts[0]);
      HandedOver(Do(w, acts[0]), acts[1..], t, now);
    }
  }

  // ----- until the new owner runs -----

  /** The scheduler calls a step makes, and those of a run. */
  ghost function Calls(w: World, a: Act): seq<Op>
    requires Tabled(w) && Enabled(w, a)
  {
    match a
    case Test(now) => if w.owner == w.s.current then [] else [Block(w.s.current), Next(now)]
    case HandOff => if w.waiting == [] then [] else [Wake(w.waiting[0])]
    case Sys(op) => [op]
    case _ => []
  }

  ghost function Trace(w: World, acts: seq<Act>): seq<Op>
    requires Goes(w, acts)
    decreases |acts|
  {
    if acts == [] then [] else Calls(w, acts[0]) + Trace(Do(w, acts[0]), acts[1..])
  }

  lemma {:induction false} RunJoin(s: Sched, a: seq<Op>, b: seq<Op>)
    requires Run(s, a) && Run(After(s, a), b)
    ensures Run(s, a + b) && After(s, a + b) == After(After(s, a), b)
    decreases |a|
  {
    if a == [] {
      assert a + b == b;
    } else {
      RunJoin(Apply(s, a[0]), a[1..], b);
      assert (a + b)[1..] == a[1..] + b;
    }
  }

  lemma RunOne(s: Sched, op: Op)
    requires Allowed(s, op)
    ensures Run(s, [op]) && After(s, [op]) == Apply(s, op)
  {
    hide Apply, Allowed;
    var s' := Apply(s, op);
    assert [op][1..] == [] && Run(s', []) && After(s', []) == s';
  }

  /** A thread that is in the middle of something is listed. */
  lemma BusyListed(w: World, t: Tid)
    requires Good(w) && t in w.s.state && w.pc[t] != Idle
    ensures Listed(w.s, t)
  {
    hide Inv;
    assert Ok(w, t);
    CanBlock(w.s, t);
  }

  lemma FirstBusy(w: World)
    requires Good(w) && w.waiting != []
    ensures w.waiting[0] in w.s.state && w.pc[w.waiting[0]] != Idle
  {
    hide Inv;
    assert w.waiting[0] in w.waiting && Ok(w, w.waiting[0]);
  }

  lemma CallsRun(w: World, a: Act)
    requires Good(w) && Enabled(w, a)
    ensures Run(w.s, Calls(w, a)) && After(w.s, Calls(w, a)) == Do(w, a).s && Good(Do(w, a))
  {
    hide Inv, Ok, Switch, MakeRunnable, MakeBlocked, AddThread;
    var me := w.s.current;
    StepSafe(w, a);
    if a.Test? && w.owner != me {
      BusyListed(w, me);
      RunOne(w.s, Block(me));
      RunOne(Apply(w.s, Block(me)), Next(a.now));
      RunJoin(w.s, [Block(me)], [Next(a.now)]);
    } else if a == HandOff && w.waiting != [] {
      FirstBusy(w);
      BusyListed(w, w.waiting[0]);
      RunOne(w.s, Wake(w.waiting[0]));
    } else if a.Sys? {
      RunOne(w.s, a.op);
    }
    RunInv(w.s, Calls(w, a));
  }

  /** What the mutex does to the scheduler is a run of the scheduler. */
  lemma {:induction false} TraceRuns(w: World, acts: seq<Act>)
    requires Good(w) && Goes(w, acts)
    ensures Run(w.s, Trace(w, acts)) && After(w.s, Trace(w, acts)) == End(w, acts).s
    decreases |acts|
  {
    hide Safe, Inv, Do, Calls;
    if acts != [] {
      var w' := Do(w, acts[0]);
      CallsRun(w, acts[0]);
      TraceRuns(w', acts[1..]);
      RunJoin(w.s, Calls(w, acts[0]), Trace(w', acts[1..]));
    }
  }

  lemma {:induction false} NotBlocked(w: World, acts: seq<Act>, t: Tid)
    requires Goes(w, acts) && NoTestOf(w, acts, t) && Sys(Block(t)) !in acts
    ensures Block(t) !in Trace(w, acts)
    decreases |acts|
  {
    hide Do, Enabled, Calls;
    if acts != [] {
      assert acts[0] in acts;
      CallNotBlocked(w, acts[0], t);
      NotBlocked(Do(w, acts[0]), acts[1..], t);
    }
  }

  lemma CallNotBlocked(w: World, a: Act, t: Tid)
    requires Tabled(w) && Enabled(w, a) && !TestOf(w, a, t) && a != Sys(Block(t))
    ensures Block(t) !in Calls(w, a)
  {
  }

  /** A thread that was handed the mutex gets the CPU within as many rotations of the run queue as there are threads up
      to it; by HandedOver its test then succeeds. */
  lemma Served(w: World, acts: seq<Act>, t: Tid)
    requires Good(w) && Goes(w, acts) && Waits(w.s, t) && NoTestOf(w, acts, t) && Sys(Block(t)) !in acts
    requires Run(w.s, Trace(w, acts)) ==> Rotations(w.s, Trace(w, acts)) > Place(w.s.runnable, t)
    ensures Run(w.s, Trace(w, acts)) && Picked(w.s, Trace(w, acts), t)
  {
    hide Safe, Inv;
    TraceRuns(w, acts);
    NotBlocked(w, acts, t);
    PickedInTurn(w.s, Trace(w, acts), t);
  }

  // ----- the lost wake-up -----

  /** A test that finds the mutex free takes it and blocks all the same. It is the only kind that leaves its thread both
      owner and blocked. */
  lemma TestDecides(w: World, now: u32)
    requires Good(w) && Enabled(w, Test(now))
    ensures var me, w' := w.s.current, Do(w, Test(now));
      && (w'.pc[me] == Unqueue <==> w.owner == me)
      && (w'.owner == me && w'.s.state[me] == Blocked && w'.s.current != me <==> w.owner == 0)
  {
    var me := w.s.current;
    assert Ok(w, me);
    assert Placed(w.s, me);
    if w.owner != me {
      CanBlock(w.s, me);
      var b := MakeBlocked(w.s, me);
      BlockInv(w.s, me);
      assert Placed(b, me) && b.state[me] == Blocked && me !in b.runnable;
      SwitchInv(b, now);
    }
  }

  ghost predicate Stuck(w: World, t: Tid) {
    Good(w) && t in w.s.state && w.owner == t && w.pc[t] == Testing && w.s.state[t] == Blocked && w.s.current != t
  }

  lemma StuckStep(w: World, a: Act, t: Tid)
    requires Stuck(w, t) && Enabled(w, a) && a != Sys(Wake(t))
    ensures Stuck(Do(w, a), t)
  {
    hide Inv, Do;
    assert Ok(w, w.s.current) && Ok(w, t);
    OwnerStays(w, a);
    StillTesting(w, a, t);
    CallsRun(w, a);
    StaysBlocked(w.s, Calls(w, a), t);
  }

  lemma {:induction false} StaysBlocked(s: Sched, ops: seq<Op>, t: Tid)
    requires Inv(s) && Run(s, ops) && t in s.state && s.state[t] == Blocked && s.current != t && Wake(t) !in ops
    ensures var e := After(s, ops); t in e.state && e.state[t] == Blocked && e.current != t
    decreases |ops|
  {
    if ops != [] {
      assert Placed(s, t) && ops[0] in ops;
      var s' := Apply(s, ops[0]);
      StepInv(s, ops[0]);
      assert s'.state[t] == Blocked && s'.current != t;
      StaysBlocked(s', ops[1..], t);
    }
  }

  /** From there no step of any thread frees the mutex or wakes its owner: only a wake-up from elsewhere can. */
  lemma {:induction false} StuckForGood(w: World, acts: seq<Act>, t: Tid)
    requires Stuck(w, t) && Goes(w, acts) && Sys(Wake(t)) !in acts
    ensures Stuck(End(w, acts), t)
    decreases |acts|
  {
    if acts != [] {
      assert acts[0] in acts;
      StuckStep(w, acts[0], t);
      StuckForGood(Do(w, acts[0]), acts[1..], t);
    }
  }

  // A run of two threads, 2 and 3, that ends that way.

  ghost function Two(
    runnable: seq<Tid>, me: Tid, last: u32, owner: Tid, waiting: seq<Tid>, p2: Pc, p3: Pc, h2: nat): World
    requires me == 2 || me == 3
  {
    var state := map[1 := Runnable, 2 := if me == 2 then Running else Runnable,
                     3 := if me == 3 then Running else Runnable];
    var slice := map[1 := 0, 2 := if me == 2 then 1 else 0, 3 := if me == 3 || last == 0 then 1 else 0];
    World(Sched(runnable, [], state, slice, me, last, 1), owner, h2, waiting,
          map[1 := Idle, 2 := p2, 3 := p3], map[1 := 0, 2 := h2, 3 := 0])
  }

  /** A run queue of those two threads. */
  ghost predicate Both(r: seq<Tid>) {
    forall t :: t in r ==> t == 2 || t == 3
  }

  /** One of the steps below: from `w` to `w'`. */
  ghost predicate Leads(w: World, a: Act, w': World) {
    Tabled(w) && Enabled(w, a) && Do(w, a) == w'
  }

  lemma TwoTabled(r: seq<Tid>, me: Tid, last: u32, owner: Tid, waiting: seq<Tid>, p2: Pc, p3: Pc, h2: nat)
    requires Both(r) && (me == 2 || me == 3)
    ensures Tabled(Two(r, me, last, owner, waiting, p2, p3, h2))
  {
  }

  lemma Acquires2(r: seq<Tid>)
    requires Both(r)
    ensures Leads(Two(r, 2, 0, 0, [], Idle, Idle, 0), Cas, Two(r, 2, 0, 2, [], Enqueue, Idle, 0))
    ensures Leads(Two(r, 2, 0, 2, [], Enqueue, Idle, 0), Queue, Two(r, 2, 0, 2, [2], Testing, Idle, 0))
  {
    hide Tabled, Both;
    TwoTabled(r, 2, 0, 0, [], Idle, Idle, 0);
    TwoTabled(r, 2, 0, 2, [], Enqueue, Idle, 0);
  }

  lemma Passes2(r: seq<Tid>)
    requires Both(r)
    ensures Leads(Two(r, 2, 0, 2, [2], Testing, Idle, 0), Test(0), Two(r, 2, 0, 2, [2], Unqueue, Idle, 0))
  {
    hide Tabled, Both;
    TwoTabled(r, 2, 0, 2, [2], Testing, Idle, 0);
  }

  lemma Dequeues2(r: seq<Tid>)
    requires Both(r)
    ensures Leads(Two(r, 2, 0, 2, [2], Unqueue, Idle, 0), Dequeue, Two(r, 2, 0, 2, [], Nest, Idle, 0))
  {
    hide Tabled, Both;
    TwoTabled(r, 2, 0, 2, [2], Unqueue, Idle, 0);
    assert Remove([2], 2) == [];
  }

  lemma Counts2(r: seq<Tid>)
    requires Both(r)
    ensures Leads(Two(r, 2, 0, 2, [], Nest, Idle, 0), Count, Two(r, 2, 0, 2, [], Idle, Idle, 1))
  {
    hide Tabled, Both;
    TwoTabled(r, 2, 0, 2, [], Nest, Idle, 0);
  }

  /** Thread 2 has used up its slice and thread 3 takes over, and the other way round. */
  lemma Switch2(now: u32, owner: Tid, p3: Pc, h2: nat)
    requires 0 < now
    ensures var s := Two([3, 2], 2, now - 1, owner, [], Idle, p3, h2).s;
      CanSwitch(s, now) && Switch(s, now) == Two([2, 3], 3, now, owner, [], Idle, p3, h2).s
  {
    assert !Keeps(Two([3, 2], 2, now - 1, owner, [], Idle, p3, h2).s, now);
    assert [3, 2][1..] + [3] == [2, 3];
  }

  lemma Turn2(now: u32, owner: Tid, p3: Pc, h2: nat)
    requires 0 < now
    ensures Leads(Two([3, 2], 2, now - 1, owner, [], Idle, p3, h2), Sys(Next(now)),
      Two([2, 3], 3, now, owner, [], Idle, p3, h2))
  {
    hide Tabled, CanSwitch, Switch;
    TwoTabled([3, 2], 2, now - 1, owner, [], Idle, p3, h2);
    Switch2(now, owner, p3, h2);
  }

  lemma Switch3(now: u32, owner: Tid, p3: Pc, h2: nat)
    requires 1 < now
    ensures var s := Two([2, 3], 3, now - 1, owner, [], Idle, p3, h2).s;
      CanSwitch(s, now) && Switch(s, now) == Two([3, 2], 2, now, owner, [], Idle, p3, h2).s
  {
    assert !Keeps(Two([2, 3], 3, now - 1, owner, [], Idle, p3, h2).s, now);
    assert [2, 3][1..] + [2] == [3, 2];
  }

  lemma Turn3(now: u32, owner: Tid, p3: Pc, h2: nat)
    requires 1 < now
    ensures Leads(Two([2, 3], 3, now - 1, owner, [], Idle, p3, h2), Sys(Next(now)),
      Two([3, 2], 2, now, owner, [], Idle, p3, h2))
  {
    hide Tabled, CanSwitch, Switch;
    TwoTabled([2, 3], 3, now - 1, owner, [], Idle, p3, h2);
    Switch3(now, owner, p3, h2);
  }

  lemma Releases2(r: seq<Tid>)
    requires Both(r)
    ensures Leads(Two(r, 2, 2, 2, [], Idle, Enqueue, 1), Release, Two(r, 2, 2, 2, [], Leave, Enqueue, 0))
  {
    hide Tabled, Both;
    TwoTabled(r, 2, 2, 2, [], Idle, Enqueue, 1);
  }

  lemma Frees2(r: seq<Tid>)
    requires Both(r)
    ensures Leads(Two(r, 2, 2, 2, [], Leave, Enqueue, 0), HandOff, Two(r, 2, 2, 0, [], Idle, Enqueue, 0))
  {
    hide Tabled, Both;
    TwoTabled(r, 2, 2, 2, [], Leave, Enqueue, 0);
  }

  lemma Queues3(r: seq<Tid>)
    requires Both(r)
    ensures Leads(Two(r, 3, 1, 2, [], Idle, Idle, 1), Cas, Two(r, 3, 1, 2, [], Idle, Enqueue, 1))
    ensures Leads(Two(r, 3, 3, 0, [], Idle, Enqueue, 0), Queue, Two(r, 3, 3, 0, [3], Idle, Testing, 0))
  {
    hide Tabled, Both;
    TwoTabled(r, 3, 1, 2, [], Idle, Idle, 1);
    TwoTabled(r, 3, 3, 0, [], Idle, Enqueue, 0);
  }

  /** Thread 3 is queued, blocked and the owner of a mutex that nobody holds. */
  ghost function Lost(): World {
    World(Sched([2], [3], map[1 := Runnable, 2 := Running, 3 := Blocked], map[1 := 0, 2 := 1, 3 := 1], 2, 3, 1),
          3, 0, [3], map[1 := Idle, 2 := Idle, 3 := Testing], map[1 := 0, 2 := 0, 3 := 0])
  }

  /** The state between blocking thread 3 and switching away from it. */
  ghost function Blocking(): Sched {
    Sched([2], [3], map[1 := Runnable, 2 := Runnable, 3 := Blocked], map[1 := 0, 2 := 0, 3 := 1], 3, 3, 1)
  }

  lemma BlockThree()
    ensures MakeBlocked(Two([2, 3], 3, 3, 0, [3], Idle, Testing, 0).s, 3) == Blocking()
  {
    assert Remove([3], 3) == [] && [2, 3][1..] == [3] && [2] + Remove([3], 3) == [2];
  }

  lemma SwitchAway()
    ensures CanSwitch(Blocking(), 3) && Switch(Blocking(), 3) == Lost().s
  {
  }

  lemma Blocks3()
    ensures Leads(Two([2, 3], 3, 3, 0, [3], Idle, Testing, 0), Test(3), Lost())
  {
    hide Tabled, MakeBlocked, Switch, CanSwitch, Blocking;
    TwoTabled([2, 3], 3, 3, 0, [3], Idle, Testing, 0);
    BlockThree();
    SwitchAway();
  }

  lemma {:induction false} PathGoes(ws: seq<World>, acts: seq<Act>)
    requires |ws| == |acts| + 1 && forall i :: 0 <= i < |acts| ==> Leads(ws[i], acts[i], ws[i + 1])
    ensures Goes(ws[0], acts) && End(ws[0], acts) == ws[|acts|]
    decreases |acts|
  {
    hide Do, Enabled, Tabled;
    if acts != [] {
      assert Leads(ws[0], acts[0], ws[1]);
      PathGoes(ws[1..], acts[1..]);
    }
  }

  /** A waiter that queues after the release found the queue empty takes the free mutex and blocks:
      the mutex is lost. */
  lemma LostWakeUp() returns (w: World, acts: seq<Act>)
    ensures Fresh(w) && Inv(w.s) && Goes(w, acts) && Stuck(End(w, acts), 3) && End(w, acts).nested == 0
  {
    hide Leads;
    var a, b := [3, 2], [2, 3];
    var ws := [
      Two(a, 2, 0, 0, [], Idle, Idle, 0), Two(a, 2, 0, 2, [], Enqueue, Idle, 0), Two(a, 2, 0, 2, [2], Testing, Idle, 0),
      Two(a, 2, 0, 2, [2], Unqueue, Idle, 0), Two(a, 2, 0, 2, [], Nest, Idle, 0), Two(a, 2, 0, 2, [], Idle, Idle, 1),
      Two(b, 3, 1, 2, [], Idle, Idle, 1), Two(b, 3, 1, 2, [], Idle, Enqueue, 1), Two(a, 2, 2, 2, [], Idle, Enqueue, 1),
      Two(a, 2, 2, 2, [], Leave, Enqueue, 0), Two(a, 2, 2, 0, [], Idle, Enqueue, 0),
      Two(b, 3, 3, 0, [], Idle, Enqueue, 0), Two(b, 3, 3, 0, [3], Idle, Testing, 0), Lost()];
    acts := [Cas, Queue, Test(0), Dequeue, Count, Sys(Next(1)), Cas, Sys(Next(2)), Release, HandOff, Sys(Next(3)),
             Queue, Test(3)];
    Acquires2(a);
    Passes2(a);
    Dequeues2(a);
    Counts2(a);
    Turn2(1, 2, Idle, 1);
    Queues3(b);
    Turn3(2, 2, Enqueue, 1);
    Releases2(a);
    Frees2(a);
    Turn2(3, 0, Enqueue, 0);
    Blocks3();
    PathGoes(ws, acts);
    w := ws[0];
    StartsFresh();
    LostIsStuck();
  }

  lemma StartsFresh()
    ensures var w := Two([3, 2], 2, 0, 0, [], Idle, Idle, 0); Fresh(w) && Inv(w.s)
  {
    var s := Two([3, 2], 2, 0, 0, [], Idle, Idle, 0).s;
    forall t | t in s.state ensures t in s.slice && Placed(s, t) { assert t == 1 || t == 2 || t == 3; }
    forall t | Listed(s, t) ensures t in s.state { assert t == 2 || t == 3; }
  }

  lemma LostIsStuck()
    ensures Stuck(Lost(), 3)
  {
    var w := Lost();
    var s := w.s;
    forall t | t in s.state ensures t in s.slice && Placed(s, t) { assert t == 1 || t == 2 || t == 3; }
    forall t | Listed(s, t) ensures t in s.state { assert t == 2 || t == 3; }
    assert Inv(s);
    forall t | t in s.state ensures Ok(w, t) { assert t == 1 || t == 2 || t == 3; }
  }
}
