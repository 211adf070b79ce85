/** The round-robin scheduler (kernel/kern/scheduler.c). Threads are named by their ids, which are nonzero and distinct;
    the two lists are sequences, as the list operations of utlist keep them. Threads never exit. */
module Scheduler {
  import opened Range

  type Tid = nat

  datatype State = Created | Running | Runnable | Blocked

  const TIME_SLICE := 1

  /** The scheduler's globals and the fields it keeps in each thread. `boot` is the thread that thread_system_init sets
      up; it is never added to the lists. */
  datatype Sched = Sched(runnable: seq<Tid>, blocked: seq<Tid>, state: map<Tid, State>, slice: map<Tid, u32>,
    current: Tid, last: u32, boot: Tid)

  // ----- lists -----

  ghost predicate Distinct(q: seq<Tid>) {
    forall i, j :: 0 <= i < j < |q| ==> q[i] != q[j]
  }

  /** `q` without `t`. */
  function Remove(q: seq<Tid>, t: Tid): seq<Tid> {
    if q == [] then [] else if q[0] == t then q[1..] else [q[0]] + Remove(q[1..], t)
  }

  /** How many elements stand before `t`, or the length if it is not there. */
  function Place(q: seq<Tid>, t: Tid): nat {
    if q == [] || q[0] == t then 0 else 1 + Place(q[1..], t)
  }

  lemma {:induction false} RemoveHas(q: seq<Tid>, t: Tid)
    requires Distinct(q)
    ensures Distinct(Remove(q, t)) && forall u :: u in Remove(q, t) <==> u in q && u != t
  {
    if q != [] {
      RemoveHas(q[1..], t);
      var r := Remove(q[1..], t);
      if q[0] != t {
        forall j | 0 < j < |[q[0]] + r| ensures ([q[0]] + r)[j] != q[0] { assert r[j - 1] in r; }
      }
    }
  }

  lemma {:induction false} PlaceAppend(q: seq<Tid>, u: Tid, t: Tid)
    requires t in q
    ensures Place(q + [u], t) == Place(q, t) < |q|
  {
    if q[0] != t {
      PlaceAppend(q[1..], u, t);
      assert (q + [u])[1..] == q[1..] + [u];
    }
  }

  /** Taking another thread out never moves `t` back, and brings it forward when the other was first. */
  lemma {:induction false} PlaceRemove(q: seq<Tid>, u: Tid, t: Tid)
    requires t in q && t != u
    ensures t in Remove(q, u) && Place(Remove(q, u), t) <= Place(q, t)
    ensures q[0] == u ==> Place(Remove(q, u), t) == Place(q, t) - 1
  {
    if q[0] != u && q[0] != t { PlaceRemove(q[1..], u, t); }
  }

  // ----- steps -----

  /** The time slice of the running thread after the ticks since the last call; it is unsigned and wraps. */
  function Charged(s: Sched, now: u32): u32
    requires s.current in s.slice
  {
    Sub32(s.slice[s.current], Sub32(now, s.last))
  }

  /** The current thread goes on running. */
  predicate Keeps(s: Sched, now: u32) {
    s.current in s.state && s.current in s.slice && s.state[s.current] == Running && Charged(s, now) > 0
  }

  /** scheduler_next_thread panics when it has to choose and nothing is runnable. */
  predicate CanSwitch(s: Sched, now: u32) {
    Keeps(s, now) || s.runnable != []
  }

  /** scheduler_next_thread and the switch to the thread it returns. */
  function Switch(s: Sched, now: u32): Sched
    requires CanSwitch(s, now)
  {
    var slice := if s.current in s.slice then s.slice[s.current := Charged(s, now)] else s.slice;
    if Keeps(s, now) then s.(slice := slice, last := now)
    else
      var t := s.runnable[0];
      var state := if s.current in s.state && s.state[s.current] == Running then s.state[s.current := Runnable]
        else s.state;
      s.(runnable := s.runnable[1..] + [t], state := state[t := Running], slice := slice[t := TIME_SLICE], current := t,
        last := now)
  }

  predicate Listed(s: Sched, t: Tid) {
    t in s.runnable || t in s.blocked
  }

  /** scheduler_make_runnable. */
  function MakeRunnable(s: Sched, t: Tid): Sched
    requires t in s.state
  {
    if s.state[t] == Runnable then s
    else
      var r := if s.state[t] == Running then Remove(s.runnable, t) else s.runnable;
      var b := if s.state[t] == Running then s.blocked else Remove(s.blocked, t);
      s.(runnable := r + [t], blocked := b, state := s.state[t := Runnable], slice := s.slice[t := TIME_SLICE])
  }

  /** scheduler_make_blocked. */
  function MakeBlocked(s: Sched, t: Tid): Sched
    requires t in s.state
  {
    if s.state[t] == Blocked then s
    else s.(runnable := Remove(s.runnable, t), blocked := s.blocked + [t], state := s.state[t := Blocked])
  }

  /** scheduler_add_thread for a thread in state `st`. */
  function AddThread(s: Sched, t: Tid, st: State): Sched {
    if st == Blocked then s.(blocked := s.blocked + [t], state := s.state[t := Blocked], slice := s.slice[t := 0])
    else s.(runnable := s.runnable + [t], state := s.state[t := Runnable], slice := s.slice[t := TIME_SLICE])
  }

  // ----- what each step does, field by field -----

  /** Taking out the thread at place `i` closes the gap and moves nothing else. */
  lemma {:induction false} RemoveIs(q: seq<Tid>, t: Tid, i: nat)
    requires i < |q| && q[i] == t && t !in q[..i]
    ensures Remove(q, t) == q[..i] + q[i + 1..]
  {
    if i > 0 {
      assert q[0] in q[..i] && q[1..][..i - 1] == q[..i][1..];
      RemoveIs(q[1..], t, i - 1);
      assert q[..i] == [q[0]] + q[1..][..i - 1] && q[i + 1..] == q[1..][i..];
    }
  }

  lemma {:induction false} RemoveNone(q: seq<Tid>, t: Tid)
    requires t !in q
    ensures Remove(q, t) == q
  {
    if q != [] { RemoveNone(q[1..], t); }
  }

  /** No thread but `t` differs between the two in state or time slice. */
  ghost predicate OthersSame(s: Sched, s': Sched, t: Tid) {
    && (forall u :: u != t ==> (u in s'.state <==> u in s.state) && (u in s.state ==> s'.state[u] == s.state[u]))
    && forall u :: u != t ==> (u in s'.slice <==> u in s.slice) && (u in s.slice ==> s'.slice[u] == s.slice[u])
  }

  /** scheduler_next_thread charges the ticks since the last call, modulo 2^32, to the thread that was current; if it
      was running and has slice left it goes on, otherwise the first runnable thread runs with a fresh slice and moves
      to the back. */
  lemma SwitchFields(s: Sched, now: u32)
    requires CanSwitch(s, now) && s.current in s.state && s.current in s.slice
    ensures var s', c := Switch(s, now), s.current;
      var left := (s.slice[c] - (now - s.last)) % W;
      && s'.last == now && s'.blocked == s.blocked && s'.boot == s.boot
      && (s.state[c] == Running && left > 0 ==>
           s'.current == c && s'.runnable == s.runnable && s'.state == s.state && s'.slice == s.slice[c := left])
      && (!(s.state[c] == Running && left > 0) ==>
           && s.runnable != [] && s'.current == s.runnable[0] && s'.runnable == s.runnable[1..] + [s.runnable[0]]
           && s'.current in s'.state && s'.state[s'.current] == Running
           && s'.current in s'.slice && s'.slice[s'.current] == 1
           && (c != s'.current ==> c in s'.state && c in s'.slice && s'.slice[c] == left)
           && (c != s'.current ==> s'.state[c] == if s.state[c] == Running then Runnable else s.state[c])
           && forall u :: u != c && u != s'.current ==>
                && (u in s'.state <==> u in s.state) && (u in s.state ==> s'.state[u] == s.state[u])
                && (u in s'.slice <==> u in s.slice) && (u in s.slice ==> s'.slice[u] == s.slice[u]))
  {
    ChargedIs(s.slice[s.current], now, s.last);
  }

  /** It panics exactly when the current thread has to give way and nothing is runnable. */
  lemma PanicsWhen(s: Sched, now: u32)
    requires s.current in s.state && s.current in s.slice
    ensures !CanSwitch(s, now) <==>
      s.runnable == [] && !(s.state[s.current] == Running && (s.slice[s.current] - (now - s.last)) % W > 0)
  {
    ChargedIs(s.slice[s.current], now, s.last);
  }

  lemma ChargedIs(slice: u32, now: u32, last: u32)
    ensures Sub32(slice, Sub32(now, last)) == (slice - (now - last)) % W
  {
  }

  /** scheduler_make_runnable: a runnable thread stays where it is; any other leaves its list for the end of the
      runnable ones, with a fresh slice. */
  lemma WakeFields(s: Sched, t: Tid)
    requires Inv(s) && Listed(s, t) && t in s.state
    ensures var s' := MakeRunnable(s, t);
      && s'.current == s.current && s'.last == s.last && s'.boot == s.boot
      && (s.state[t] == Runnable ==> s' == s)
      && (s.state[t] != Runnable ==>
           && OthersSame(s, s', t) && t in s'.state && s'.state[t] == Runnable && t in s'.slice && s'.slice[t] == 1
           && s'.runnable == Gone(s.runnable, t) + [t] && s'.blocked == Gone(s.blocked, t))
  {
    GoneIs(s, t);
  }

  /** `q` without `t`, whose place in it, if it has one, is `Place(q, t)`. */
  ghost function Gone(q: seq<Tid>, t: Tid): seq<Tid> {
    var i := Place(q, t);
    if t in q && i < |q| then q[..i] + q[i + 1..] else q
  }

  lemma {:induction false} PlaceIs(q: seq<Tid>, t: Tid)
    ensures if t in q then Place(q, t) < |q| && q[Place(q, t)] == t && t !in q[..Place(q, t)] else Place(q, t) == |q|
  {
    if q != [] && q[0] != t {
      PlaceIs(q[1..], t);
      assert q == [q[0]] + q[1..];
      if t in q { assert q[..Place(q, t)] == [q[0]] + q[1..][..Place(q[1..], t)]; }
    }
  }

  lemma GoneIs(s: Sched, t: Tid)
    requires Inv(s) && Listed(s, t) && t in s.state
    ensures Gone(s.runnable, t) == Remove(s.runnable, t) && Gone(s.blocked, t) == Remove(s.blocked, t)
    ensures s.state[t] == Running || s.state[t] == Runnable ==> t in s.runnable && Remove(s.blocked, t) == s.blocked
    ensures s.state[t] == Blocked ==> t in s.blocked && Remove(s.runnable, t) == s.runnable
    ensures s.state[t] != Created
  {
    assert Placed(s, t);
    PlaceIs(s.runnable, t);
    PlaceIs(s.blocked, t);
    if t in s.runnable { RemoveIs(s.runnable, t, Place(s.runnable, t)); } else { RemoveNone(s.runnable, t); }
    if t in s.blocked { RemoveIs(s.blocked, t, Place(s.blocked, t)); } else { RemoveNone(s.blocked, t); }
  }

  /** scheduler_make_blocked: likewise for the blocked list; the slice stays. */
  lemma BlockFields(s: Sched, t: Tid)
    requires Inv(s) && Listed(s, t) && t in s.state
    ensures var s' := MakeBlocked(s, t);
      && s'.current == s.current && s'.last == s.last && s'.boot == s.boot && s'.slice == s.slice
      && (s.state[t] == Blocked ==> s' == s)
      && (s.state[t] != Blocked ==>
           && OthersSame(s, s', t) && t in s'.state && s'.state[t] == Blocked
           && s'.runnable == Gone(s.runnable, t) && s'.blocked == s.blocked + [t])
  {
    GoneIs(s, t);
  }

  /** scheduler_add_thread: a created or runnable thread waits at the end of the runnable list with a fresh slice, a
      blocked one at the end of the blocked list. */
  lemma AddFields(s: Sched, t: Tid, st: State)
    requires Inv(s) && t !in s.state && st != Running
    ensures var s' := AddThread(s, t, st);
      && OthersSame(s, s', t) && s'.current == s.current && s'.last == s.last && s'.boot == s.boot
      && (st == Created || st == Runnable ==>
           && Waits(s', t) && s'.runnable == s.runnable + [t] && s'.blocked == s.blocked
           && t in s'.slice && s'.slice[t] == 1)
      && (st == Blocked ==>
           && t in s'.state && s'.state[t] == Blocked && s'.blocked == s.blocked + [t] && s'.runnable == s.runnable)
  {
  }

  // ----- what every step keeps -----

  /** The lists are well formed and disjoint, membership matches state, and only the current thread can be running. */
  ghost predicate Inv(s: Sched) {
    && Distinct(s.runnable) && Distinct(s.blocked) && s.boot !in s.runnable && s.boot !in s.blocked
    && s.current in s.state && s.boot in s.state && (s.state[s.boot] == Running || s.state[s.boot] == Runnable)
    && (forall t :: t in s.state ==> t in s.slice && Placed(s, t))
    && forall t :: Listed(s, t) ==> t in s.state
  }

  ghost predicate Placed(s: Sched, t: Tid)
    requires t in s.state
  {
    && (t != s.boot ==> (t in s.runnable <==> s.state[t] == Running || s.state[t] == Runnable))
    && (t in s.blocked <==> s.state[t] == Blocked)
    && (s.state[t] == Running ==> t == s.current) && s.state[t] != Created
  }

  /** The state that thread_system_init leaves. */
  function Boot(tid: Tid, slice: u32): Sched {
    Sched([], [], map[tid := Running], map[tid := slice], tid, 0, tid)
  }

  lemma BootInv(tid: Tid, slice: u32)
    ensures Inv(Boot(tid, slice))
  {
  }

  /** A call of the scheduler; a thread that is woken or blocked has been added, and one that is added is new. */
  datatype Op = Next(now: u32) | Wake(t: Tid) | Block(t: Tid) | Add(t: Tid, st: State)

  ghost predicate Allowed(s: Sched, op: Op) {
    match op
    case Next(now) => CanSwitch(s, now)
    case Wake(t) => Listed(s, t) && t in s.state
    case Block(t) => Listed(s, t) && t in s.state
    case Add(t, st) => t !in s.state && st != Running
  }

  ghost function Apply(s: Sched, op: Op): Sched
    requires Allowed(s, op)
  {
    match op
    case Next(now) => Switch(s, now)
    case Wake(t) => MakeRunnable(s, t)
    case Block(t) => MakeBlocked(s, t)
    case Add(t, st) => AddThread(s, t, st)
  }

  lemma {:induction false} Rotated(q: seq<Tid>)
    requires q != [] && Distinct(q)
    ensures Distinct(q[1..] + [q[0]]) && forall t :: t in q[1..] + [q[0]] <==> t in q
  {
    forall t | t in q ensures t in q[1..] + [q[0]] {
      var i :| 0 <= i < |q| && q[i] == t;
      assert i > 0 ==> t == q[1..][i - 1];
    }
  }

  lemma SwitchInv(s: Sched, now: u32)
    requires Inv(s) && CanSwitch(s, now)
    ensures Inv(Switch(s, now)) && (Switch(s, now).current == s.current || !Keeps(s, now))
  {
    var s' := Switch(s, now);
    if !Keeps(s, now) {
      var head := s.runnable[0];
      Rotated(s.runnable);
      assert Placed(s, s.current) && Listed(s, head) && Placed(s, head);
      forall t | t in s'.state ensures t in s'.slice && Placed(s', t) { assert Placed(s, t); }
    } else {
      forall t | t in s'.state ensures t in s'.slice && Placed(s', t) { assert Placed(s, t); }
    }
  }

  lemma WakeInv(s: Sched, t: Tid)
    requires Inv(s) && Listed(s, t) && t in s.state
    ensures Inv(MakeRunnable(s, t)) && MakeRunnable(s, t).state[t] == Runnable
  {
    var s' := MakeRunnable(s, t);
    RemoveHas(s.runnable, t);
    RemoveHas(s.blocked, t);
    assert Placed(s, t);
    forall u | u in s'.state ensures u in s'.slice && Placed(s', u) { assert Placed(s, u); }
  }

  lemma BlockInv(s: Sched, t: Tid)
    requires Inv(s) && Listed(s, t) && t in s.state
    ensures Inv(MakeBlocked(s, t)) && MakeBlocked(s, t).state[t] == Blocked
  {
    var s' := MakeBlocked(s, t);
    RemoveHas(s.runnable, t);
    assert Placed(s, t);
    forall u | u in s'.state ensures u in s'.slice && Placed(s', u) { assert Placed(s, u); }
  }

  lemma AddInv(s: Sched, t: Tid, st: State)
    requires Inv(s) && t !in s.state && st != Running
    ensures Inv(AddThread(s, t, st))
  {
    var s' := AddThread(s, t, st);
    forall u | u in s'.state ensures u in s'.slice && Placed(s', u) { if u != t { assert Placed(s, u); } }
  }

  lemma StepInv(s: Sched, op: Op)
    requires Inv(s) && Allowed(s, op)
    ensures Inv(Apply(s, op))
  {
    match op
    case Next(now) => SwitchInv(s, now);
    case Wake(t) => WakeInv(s, t);
    case Block(t) => BlockInv(s, t);
    case Add(t, st) => AddInv(s, t, st);
  }

  // ----- runs -----

  ghost predicate Run(s: Sched, ops: seq<Op>)
    decreases |ops|
  {
    ops == [] || (Allowed(s, ops[0]) && Run(Apply(s, ops[0]), ops[1..]))
  }

  ghost function After(s: Sched, ops: seq<Op>): Sched
    requires Run(s, ops)
    decreases |ops|
  {
    if ops == [] then s else After(Apply(s, ops[0]), ops[1..])
  }

  /** Every run keeps the invariant; in particular at most one thread is running, and it is the current one. */
  lemma {:induction false} RunInv(s: Sched, ops: seq<Op>)
    requires Inv(s) && Run(s, ops)
    ensures Inv(After(s, ops))
    ensures var e := After(s, ops);
      forall t, u :: t in e.state && u in e.state && e.state[t] == e.state[u] == Running ==> t == u
    decreases |ops|
  {
    if ops != [] {
      StepInv(s, ops[0]);
      RunInv(Apply(s, ops[0]), ops[1..]);
    } else {
      forall t | t in s.state && s.state[t] == Running ensures t == s.current { assert Placed(s, t); }
    }
  }

  /** The step takes a thread from the queue, that is, rotates it. */
  ghost predicate Rotates(s: Sched, op: Op) {
    op.Next? && !Keeps(s, op.now)
  }

  /** `t` waits for its turn. */
  ghost predicate Waits(s: Sched, t: Tid) {
    t in s.state && t in s.runnable && s.state[t] == Runnable
  }

  /** One step: unless `t` is blocked or its turn has come, it goes on waiting, never further back, and one place
      further on with every rotation. */
  lemma WaitStep(s: Sched, op: Op, t: Tid)
    requires Inv(s) && Allowed(s, op) && Waits(s, t) && op != Block(t)
    ensures Rotates(s, op) && Place(s.runnable, t) == 0 ==>
      Apply(s, op).current == t && Apply(s, op).state[t] == Running
    ensures !(Rotates(s, op) && Place(s.runnable, t) == 0) ==>
      && Waits(Apply(s, op), t)
      && Place(Apply(s, op).runnable, t) <= Place(s.runnable, t) - if Rotates(s, op) then 1 else 0
  {
    assert Placed(s, t);
    match op
    case Next(now) =>
      if Rotates(s, op) {
        var head := s.runnable[0];
        if head != t {
          PlaceRemove(s.runnable, head, t);
          PlaceAppend(s.runnable[1..], head, t);
          assert t != s.current || s.state[t] == Runnable;
        }
      }
    case Wake(u) =>
      assert Placed(s, u);
      if s.state[u] == Running { PlaceRemove(s.runnable, u, t); PlaceAppend(Remove(s.runnable, u), u, t); }
      else { PlaceAppend(s.runnable, u, t); }
    case Block(u) => PlaceRemove(s.runnable, u, t);
    case Add(u, st) => PlaceAppend(s.runnable, u, t);
  }

  ghost function Rotations(s: Sched, ops: seq<Op>): nat
    requires Run(s, ops)
    decreases |ops|
  {
    if ops == [] then 0 else (if Rotates(s, ops[0]) then 1 else 0) + Rotations(Apply(s, ops[0]), ops[1..])
  }

  /** Somewhere in the run `t` is taken from the queue. */
  ghost predicate Picked(s: Sched, ops: seq<Op>, t: Tid)
    requires Run(s, ops)
    decreases |ops|
  {
    ops != [] && ((Rotates(s, ops[0]) && Apply(s, ops[0]).current == t) || Picked(Apply(s, ops[0]), ops[1..], t))
  }

  /** Fairness: a waiting thread that nobody blocks is picked within as many rotations as there are threads up to it. */
  lemma {:induction false} PickedInTurn(s: Sched, ops: seq<Op>, t: Tid)
    requires Inv(s) && Run(s, ops) && Waits(s, t) && Block(t) !in ops && Rotations(s, ops) > Place(s.runnable, t)
    ensures Picked(s, ops, t)
    decreases |ops|
  {
    if !Picked(s, ops, t) {
      WaitStep(s, ops[0], t);
      StepInv(s, ops[0]);
      PickedInTurn(Apply(s, ops[0]), ops[1..], t);
    }
  }

  lemma {:induction false} PlaceLast(q: seq<Tid>, t: Tid)
    requires t !in q
    ensures Place(q + [t], t) == |q|
  {
    if q != [] {
      PlaceLast(q[1..], t);
      assert (q + [t])[1..] == q[1..] + [t];
    }
  }

  /** A thread that is created, or added runnable, is picked within as many rotations as there were runnable threads,
      and one more. */
  lemma NewThreadRuns(s: Sched, t: Tid, st: State, ops: seq<Op>)
    requires Inv(s) && t !in s.state && (st == Created || st == Runnable)
    requires Run(AddThread(s, t, st), ops) && Block(t) !in ops && Rotations(AddThread(s, t, st), ops) > |s.runnable|
    ensures Picked(AddThread(s, t, st), ops, t)
  {
    AddFields(s, t, st);
    AddInv(s, t, st);
    assert t !in s.runnable by { assert Listed(s, t) ==> t in s.state; }
    PlaceLast(s.runnable, t);
    PickedInTurn(AddThread(s, t, st), ops, t);
  }

  /** So is a thread that is woken from the blocked list. */
  lemma WokenThreadRuns(s: Sched, t: Tid, ops: seq<Op>)
    requires Inv(s) && t in s.blocked && t in s.state
    requires Run(MakeRunnable(s, t), ops) && Block(t) !in ops && Rotations(MakeRunnable(s, t), ops) > |s.runnable|
    ensures Picked(MakeRunnable(s, t), ops, t)
  {
    assert Placed(s, t);
    WakeFields(s, t);
    WakeInv(s, t);
    GoneIs(s, t);
    assert t != s.boot && t !in s.runnable;
    PlaceLast(s.runnable, t);
    PickedInTurn(MakeRunnable(s, t), ops, t);
  }

  lemma Known(s: Sched, t: Tid)
    requires Inv(s) && Listed(s, t)
    ensures t in s.state && (t in s.runnable <==> s.state[t] == Running || s.state[t] == Runnable)
    ensures t in s.blocked <==> s.state[t] == Blocked
    ensures t !in Remove(s.runnable, t) && t !in Remove(s.blocked, t)
  {
    assert Placed(s, t);
    RemoveHas(s.runnable, t);
    RemoveHas(s.blocked, t);
  }

  // ----- the scheduler's globals -----

  class Globals {
    var runnable: seq<Tid>
    var blocked: seq<Tid>
    var state: map<Tid, State>
    var slice: map<Tid, u32>
    var current: Tid
    var last: u32
    const boot: Tid

    ghost function View(): Sched
      reads this
    {
      Sched(runnable, blocked, state, slice, current, last, boot)
    }

    constructor (tid: Tid, timeSlice: u32)
      ensures View() == Boot(tid, timeSlice) && Inv(View())
    {
      runnable, blocked, state, slice := [], [], map[tid := Running], map[tid := timeSlice];
      current, last, boot := tid, 0, tid;
      new;
      BootInv(tid, timeSlice);
    }

    /** scheduler_add_runnable_thread: its assertion cannot fail. */
    method AddRunnable(t: Tid)
      requires t !in runnable
      modifies this`runnable, this`slice
      ensures runnable == old(runnable) + [t] && slice == old(slice)[t := TIME_SLICE]
    {
      assert runnable == [] || t != runnable[0];
      slice := slice[t := TIME_SLICE];
      runnable := runnable + [t];
    }

    /** scheduler_add_blocked_thread: its assertion cannot fail. */
    method AddBlocked(t: Tid)
      requires t !in blocked
      modifies this`blocked
      ensures blocked == old(blocked) + [t]
    {
      assert blocked == [] || t != blocked[0];
      blocked := blocked + [t];
    }

    /** scheduler_remove_thread: the thread is in the list it is taken from. */
    method RemoveThread(t: Tid)
      requires t in state && (t in runnable <==> state[t] == Running || state[t] == Runnable)
      requires t in blocked || t in runnable
      modifies this`runnable, this`blocked
      ensures runnable == (if t in old(runnable) then Remove(old(runnable), t) else old(runnable))
      ensures blocked == (if t in old(runnable) then old(blocked) else Remove(old(blocked), t))
    {
      if state[t] == Running || state[t] == Runnable {
        assert t in runnable;
        runnable := Remove(runnable, t);
      } else {
        assert t in blocked;
        blocked := Remove(blocked, t);
      }
    }

    /** scheduler_make_runnable. */
    method Wake(t: Tid)
      requires Inv(View()) && Listed(View(), t)
      modifies this
      ensures View() == MakeRunnable(old(View()), t) && Inv(View())
    {
      hide Inv, Remove;
      ghost var s := View();
      Known(s, t);
      WakeInv(s, t);
      if state[t] != Runnable {
        RemoveThread(t);
        state := state[t := Runnable];
        AddRunnable(t);
      }
    }

    /** scheduler_make_blocked. */
    method Block(t: Tid)
      requires Inv(View()) && Listed(View(), t)
      modifies this
      ensures View() == MakeBlocked(old(View()), t) && Inv(View())
    {
      hide Inv, Remove;
      ghost var s := View();
      Known(s, t);
      BlockInv(s, t);
      if state[t] != Blocked {
        RemoveThread(t);
        state := state[t := Blocked];
        AddBlocked(t);
      }
    }

    /** scheduler_add_thread. */
    method Add(t: Tid, st: State)
      requires Inv(View()) && t !in state && st != Running
      modifies this
      ensures View() == AddThread(old(View()), t, st) && Inv(View())
    {
      ghost var s := View();
      assert !Listed(s, t);
      AddInv(s, t, st);
      state := state[t := if st == Created then Runnable else st];
      slice := slice[t := 0];
      if state[t] == Runnable {
        AddRunnable(t);
      } else {
        AddBlocked(t);
      }
    }

    /** scheduler_next_thread and the switch to the thread it returns; `ok` is false where the source panics. */
    method Next(now: u32) returns (ok: bool)
      requires Inv(View())
      modifies this
      ensures ok == CanSwitch(old(View()), now) && Inv(View())
      ensures if ok then View() == Switch(old(View()), now) else runnable == []
    {
      ghost var s := View();
      ghost var ready := CanSwitch(s, now);
      if ready { SwitchInv(s, now); }
      assert Placed(s, current);
      var elapsed := Sub32(now, last);
      last := now;
      slice := slice[current := Sub32(slice[current], elapsed)];
      if state[current] == Running {
        if slice[current] > 0 {
          return true;
        }
        state := state[current := Runnable];
      }
      if runnable == [] {
        Idle(s, View());
        return false;
      }
      var t := runnable[0];
      assert Listed(s, t);
      Rotated(runnable);
      runnable := Remove(runnable, t);
      AddRunnable(t);
      state := state[t := Running];
      current := t;
      return true;
    }

    /** Where next_thread finds no thread it has at most taken the current thread out of the running state. */
    lemma Idle(s: Sched, s': Sched)
      requires Inv(s) && s'.runnable == s.runnable && s'.blocked == s.blocked && s'.current == s.current
      requires s'.boot == s.boot
      requires s'.state == (if s.state[s.current] == Running then s.state[s.current := Runnable] else s.state)
      requires s'.slice.Keys == s.slice.Keys
      ensures Inv(s')
    {
      forall t | t in s'.state ensures t in s'.slice && Placed(s', t) { assert Placed(s, t); }
      assert Placed(s, s.current);
    }
  }
}
