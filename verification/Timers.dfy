/** Kernel timers (kernel/kern/timer.c, kernel/ia32/ticks.c). Near timers hold a delay relative to the clock, far
    timers an absolute time. Locking is not modelled: every operation runs with interrupts off. The lists are
    sequences, sorted by insertion, which is what DL_SORT makes of the linked lists (EnterNear, EnterFar); timer ids do
    not run out. */
module Timers {
  import opened Range
  import opened Time
  import opened Insertion
  import ListShape
  import List

  datatype Near = Near(id: int, delay: i32)

  datatype Far = Far(id: int, time: Timeval)

  // ----- sorting -----

  /** timer_near_timers_cmp. */
  function NearCmp(a: int, b: int): int {
    if a < b then -1 else if a > b then 1 else 0
  }

  /** It meets what DL_SORT needs of a comparison. */
  lemma NearCmpOrder()
    ensures ListShape.TotalPreorder(NearCmp)
  {
  }

  predicate NearLe(a: Near, b: Near) {
    NearCmp(a.delay, b.delay) <= 0
  }

  /** timer_far_timers_cmp. */
  predicate FarLe(a: Far, b: Far) {
    TimeCmp(a.time, b.time) <= 0
  }

  function SortNear(s: seq<Near>): seq<Near> {
    InsertionSorted(NearLe, s)
  }

  function SortFar(s: seq<Far>): seq<Far> {
    InsertionSorted(FarLe, s)
  }

  ghost predicate NearSorted(s: seq<Near>) {
    forall i, j :: 0 <= i < j < |s| ==> s[i].delay <= s[j].delay
  }

  ghost predicate NearApart(s: seq<Near>) {
    forall i, j :: 0 <= i < j < |s| ==> s[i].id != s[j].id
  }

  ghost predicate FarSorted(s: seq<Far>) {
    forall i, j :: 0 <= i < j < |s| ==> Value(s[i].time) <= Value(s[j].time)
  }

  ghost predicate FarApart(s: seq<Far>) {
    forall i, j :: 0 <= i < j < |s| ==> s[i].id != s[j].id
  }

  lemma NearCons(a: Near, s: seq<Near>)
    requires NearSorted(s) && forall n :: n in s ==> a.delay <= n.delay
    ensures NearSorted([a] + s) && (NearApart(s) && (forall n :: n in s ==> n.id != a.id) ==> NearApart([a] + s))
  {
    forall j | 0 <= j < |s| ensures s[j] in s { }
  }

  lemma NearRest(s: seq<Near>)
    requires NearSorted(s) && s != []
    ensures NearSorted(s[1..]) && (NearApart(s) ==> NearApart(s[1..]))
    ensures forall n :: n in s[1..] ==> n in s && s[0].delay <= n.delay && (NearApart(s) ==> n.id != s[0].id)
  {
    forall j | 0 <= j < |s[1..]| ensures s[1..][j] == s[j + 1] { }
  }

  lemma {:induction false} InsertNearOk(x: Near, s: seq<Near>)
    requires NearSorted(s)
    ensures NearSorted(Inserted(NearLe, x, s)) && forall n :: n in Inserted(NearLe, x, s) <==> n in s || n == x
    ensures NearApart(s) && (forall n :: n in s ==> n.id != x.id) ==> NearApart(Inserted(NearLe, x, s))
  {
    hide NearSorted, NearApart;
    forall n ensures n in Inserted(NearLe, x, s) <==> n in s || n == x { InsertedHas(NearLe, x, s, n); }
    if s == [] {
      NoNear();
      NearCons(x, s);
    } else {
      NearRest(s);
      if x.delay <= s[0].delay {
        forall n | n in s ensures x.delay <= n.delay { assert n == s[0] || n in s[1..]; }
        NearCons(x, s);
      } else {
        InsertNearOk(x, s[1..]);
        NearCons(s[0], Inserted(NearLe, x, s[1..]));
      }
    }
  }

  lemma NoNear()
    ensures NearSorted([]) && NearApart([])
  {
  }

  lemma {:induction false} SortNearOk(s: seq<Near>)
    ensures NearSorted(SortNear(s)) && (forall n :: n in SortNear(s) <==> n in s)
    ensures NearApart(s) ==> NearApart(SortNear(s))
  {
    if s != [] {
      SortNearOk(s[1..]);
      InsertNearOk(s[0], SortNear(s[1..]));
    }
  }

  lemma FarCons(a: Far, s: seq<Far>)
    requires FarSorted(s) && forall f :: f in s ==> Value(a.time) <= Value(f.time)
    ensures FarSorted([a] + s) && (FarApart(s) && (forall f :: f in s ==> f.id != a.id) ==> FarApart([a] + s))
  {
    hide Value;
    forall j | 0 <= j < |s| ensures s[j] in s { }
  }

  lemma FarRest(s: seq<Far>)
    requires FarSorted(s) && s != []
    ensures FarSorted(s[1..]) && (FarApart(s) ==> FarApart(s[1..]))
    ensures forall f :: f in s[1..] ==> f in s && Value(s[0].time) <= Value(f.time) && (FarApart(s) ==> f.id != s[0].id)
  {
    hide Value;
    forall j | 0 <= j < |s[1..]| ensures s[1..][j] == s[j + 1] { }
  }

  lemma NoFar()
    ensures FarSorted([]) && FarApart([])
  {
  }

  lemma {:induction false} InsertFarOk(x: Far, s: seq<Far>)
    requires FarSorted(s) && Normal(x.time) && forall f :: f in s ==> Normal(f.time)
    ensures FarSorted(Inserted(FarLe, x, s)) && forall f :: f in Inserted(FarLe, x, s) <==> f in s || f == x
    ensures FarApart(s) && (forall f :: f in s ==> f.id != x.id) ==> FarApart(Inserted(FarLe, x, s))
  {
    hide FarSorted, FarApart, TimeCmp, Value, Normal;
    forall f ensures f in Inserted(FarLe, x, s) <==> f in s || f == x { InsertedHas(FarLe, x, s, f); }
    if s == [] {
      NoFar();
      FarCons(x, s);
    } else {
      FarRest(s);
      TimeCmpOrder(x.time, s[0].time);
      if FarLe(x, s[0]) {
        forall f | f in s ensures Value(x.time) <= Value(f.time) { assert f == s[0] || f in s[1..]; }
        FarCons(x, s);
      } else {
        InsertFarOk(x, s[1..]);
        FarCons(s[0], Inserted(FarLe, x, s[1..]));
      }
    }
  }

  lemma {:induction false} InsertFarApart(x: Far, s: seq<Far>)
    requires FarApart(s) && forall f :: f in s ==> f.id != x.id
    ensures FarApart(Inserted(FarLe, x, s))
  {
    hide TimeCmp;
    if s != [] && !FarLe(x, s[0]) {
      InsertFarApart(x, s[1..]);
      var t := Inserted(FarLe, x, s[1..]);
      forall j | 0 <= j < |t| ensures t[j].id != s[0].id {
        InsertedHas(FarLe, x, s[1..], t[j]);
        if t[j] in s[1..] { var k :| 0 <= k < |s[1..]| && s[1..][k] == t[j]; }
      }
    }
  }

  lemma {:induction false} SortFarApart(s: seq<Far>)
    requires FarApart(s)
    ensures FarApart(SortFar(s))
  {
    if s != [] {
      SortFarApart(s[1..]);
      forall f | f in SortFar(s[1..]) ensures f.id != s[0].id {
        InsertionSortedHas(FarLe, s[1..], f);
        var k :| 0 <= k < |s[1..]| && s[1..][k] == f;
      }
      InsertFarApart(s[0], SortFar(s[1..]));
    }
  }

  lemma {:induction false} SortFarOk(s: seq<Far>)
    requires forall f :: f in s ==> Normal(f.time)
    ensures FarSorted(SortFar(s)) && (forall f :: f in SortFar(s) <==> f in s) && (FarApart(s) ==> FarApart(SortFar(s)))
  {
    if s != [] {
      SortFarOk(s[1..]);
      InsertFarOk(s[0], SortFar(s[1..]));
    }
  }

  /** DL_PREPEND and DL_SORT on the linked list of near timers, whose elements hold the timers `val`: the new timer is
      entered as the model enters it. The keys only have to order the elements as their delays do (NearByDue). */
  method EnterNear(list: List.DList, e: ListShape.Elem, ghost val: map<ListShape.Elem, Near>)
    requires list.Valid() && e !in list.nodes && e in val && (forall x :: x in list.elems ==> x in val)
    requires Agree(NearCmp, NearLe, val, [e] + list.elems)
    modifies list, list.nodes, e
    ensures list.Valid() && (forall x :: x in list.elems ==> x in val)
    ensures Held(val, list.elems) == SortNear([val[e]] + Held(val, old(list.elems)))
  {
    hide List.DList.TiedIn, ListShape.Linked, ListShape.TotalPreorder, ListShape.Sorted, ListShape.Stable, Agree,
      InsertionSorted;
    ghost var s := list.elems;
    NearCmpOrder();
    list.Prepend(e);
    list.Apart();
    list.Sort(NearCmp);
    list.Apart();
    EntersLikeInsertion(NearCmp, NearLe, val, s, e, list.elems);
  }

  /** The same for far timers (FarAgree). */
  method EnterFar(list: List.DList, e: ListShape.Elem, ghost val: map<ListShape.Elem, Far>)
    requires list.Valid() && e !in list.nodes && e in val && (forall x :: x in list.elems ==> x in val)
    requires Agree(NearCmp, FarLe, val, [e] + list.elems)
    modifies list, list.nodes, e
    ensures list.Valid() && (forall x :: x in list.elems ==> x in val)
    ensures Held(val, list.elems) == SortFar([val[e]] + Held(val, old(list.elems)))
  {
    hide List.DList.TiedIn, ListShape.Linked, ListShape.TotalPreorder, ListShape.Sorted, ListShape.Stable, Agree,
      InsertionSorted;
    ghost var s := list.elems;
    NearCmpOrder();
    list.Prepend(e);
    list.Apart();
    list.Sort(NearCmp);
    list.Apart();
    EntersLikeInsertion(NearCmp, FarLe, val, s, e, list.elems);
  }

  /** The key of an element is the instant of its timer, whose time is normalised. */
  ghost predicate FarKey(f: Far, key: int) {
    Normal(f.time) && Value(f.time) == key
  }

  /** Comparing the instants of normalised times decides as time_cmp does. */
  lemma FarAgree(val: map<ListShape.Elem, Far>, s: seq<ListShape.Elem>)
    requires forall x :: x in s ==> x in val && FarKey(val[x], x.key)
    ensures Agree(NearCmp, FarLe, val, s)
  {
    forall x, y | x in s && y in s ensures FarLe(val[x], val[y]) <==> NearCmp(x.key, y.key) <= 0 {
      assert FarKey(val[x], x.key) && FarKey(val[y], y.key);
      TimeCmpOrder(val[x].time, val[y].time);
    }
  }

  // ----- when a far timer becomes a near one -----

  const NEAR_THRESHOLD_SECS := 10

  const THRESHOLD: int := NEAR_THRESHOLD_SECS * MICROS

  /** At the clock `now` timers_update_far_timers finds that the time is within the threshold. */
  ghost predicate Leaves(t: Timeval, now: Timeval) {
    && Nameable(Value(now)) && Nameable(Value(now) + THRESHOLD)
    && TimeCmp(t, TimeAdd(now, Timeval(NEAR_THRESHOLD_SECS, 0))) <= 0
  }

  /** The timer is converted then, to one that is due although its time has not come. */
  ghost predicate FiresEarly(t: Timeval, now: Timeval) {
    Leaves(t, now) && Delay(t, now) <= 0 && Value(now) < Value(t)
  }

  /** From this instant on, if the clock is at `c` now, the seconds of the time are within the threshold. */
  function Departure(t: Timeval, c: int): int {
    var d := (t.sec - NEAR_THRESHOLD_SECS + 1) * MICROS;
    if c < d then d else c
  }

  /** The time is less than 2^31 microseconds away by then. */
  predicate Timely(t: Timeval, c: int) {
    Nameable(Departure(t, c) + THRESHOLD) ==> Value(t) - Departure(t, c) < HALF
  }

  lemma ThresholdIs(now: Timeval)
    requires Nameable(Value(now)) && Nameable(Value(now) + THRESHOLD)
    ensures var v, a := Value(now), TimeAdd(now, Timeval(NEAR_THRESHOLD_SECS, 0));
      Value(a) == v + THRESHOLD && Normal(a) && a.sec == v / MICROS + NEAR_THRESHOLD_SECS && a.usec == v % MICROS
  {
    hide TimeAdd, Normalise;
    TimeAddValue(now, Timeval(NEAR_THRESHOLD_SECS, 0));
    NormaliseValue(now);
  }

  /** A time that leaves is past its departure, or no more than the threshold away. */
  lemma LeavesWhen(t: Timeval, now: Timeval)
    requires Leaves(t, now)
    ensures Departure(t, Value(now)) == Value(now) || Value(t) - Value(now) <= THRESHOLD
  {
    hide TimeAdd, Nameable;
    ThresholdIs(now);
    var v := Value(now);
    assert v == v / MICROS * MICROS + v % MICROS;
  }

  lemma EarlyIs(t: Timeval, now: Timeval)
    requires Leaves(t, now)
    ensures FiresEarly(t, now) <==> Value(t) - Value(now) >= HALF
  {
    hide Leaves, Delay;
    LeavesWhen(t, now);
    DelayValue(t, now);
  }

  /** From the clock `c` on a time can be converted early exactly when it is not timely. */
  lemma EarlyExact(t: Timeval, c: int)
    requires 0 <= c
    ensures (exists now :: c <= Value(now) && FiresEarly(t, now)) <==> !Timely(t, c)
  {
    if now :| c <= Value(now) && FiresEarly(t, now) {
      EarlyIs(t, now);
      LeavesWhen(t, now);
    }
    if !Timely(t, c) {
      var now := LeavesAtDeparture(t, c);
      EarlyIs(t, now);
      assert c <= Value(now) && FiresEarly(t, now);
    }
  }

  lemma LeavesAtDeparture(t: Timeval, c: int) returns (now: Timeval)
    requires 0 <= c && Nameable(Departure(t, c) + THRESHOLD)
    ensures Value(now) == Departure(t, c) && Leaves(t, now)
  {
    hide TimeAdd;
    var d := Departure(t, c);
    now := Timeval(d / MICROS, d % MICROS);
    ThresholdIs(now);
  }

  lemma TimelySafe(t: Timeval, now: Timeval)
    requires Timely(t, Value(now)) && Leaves(t, now)
    ensures Value(t) - Value(now) < HALF
  {
    LeavesWhen(t, now);
  }

  lemma TimelyLater(t: Timeval, c: int, d: int)
    requires Timely(t, c) && 0 <= c <= d
    ensures Timely(t, d)
  {
  }

  /** Normalised times are timely, but not they alone. */
  lemma TimelyNormal(t: Timeval, c: int)
    ensures Normal(t) ==> Timely(t, c)
    ensures !Normal(Timeval(9, 2_000_000)) && (0 <= c ==> Timely(Timeval(9, 2_000_000), c))
  {
  }

  /** More than half an hour ahead, the time is converted to a due timer at once. */
  lemma UnnormalisedEarly()
    ensures exists now :: FiresEarly(Timeval(9, HALF - 1), now) && Value(now) == 0
    ensures Value(Timeval(9, HALF - 1)) > 2_000 * MICROS
  {
    var t := Timeval(9, HALF - 1);
    var now := LeavesAtDeparture(t, 0);
    EarlyIs(t, now);
  }

  // ----- what every operation keeps -----

  /** The due instant of every timer ever made, by id. */
  type Dues = map<int, int>

  /** A near timer's delay is the distance to its due instant, as 32 bits hold it; that instant is never 2^31 or more
      microseconds away. */
  ghost predicate NearOk(n: Near, clock: int, due: Dues) {
    n.id in due && due[n.id] - clock < HALF && n.delay == S32(due[n.id] - clock)
  }

  /** A far timer will not be converted early. */
  ghost predicate FarOk(f: Far, clock: int, due: Dues) {
    f.id in due && Value(f.time) == due[f.id] && Timely(f.time, clock)
  }

  /** The timer is not overdue by more than 2^31 microseconds, so that its delay is exact. */
  ghost predicate InRange(n: Near, clock: int, due: Dues) {
    n.id in due && -HALF <= due[n.id] - clock
  }

  /** Among timers in range the list is in order of delay. */
  ghost predicate Ordered(s: seq<Near>, clock: int, due: Dues) {
    forall i, j :: 0 <= i < j < |s| && InRange(s[i], clock, due) && InRange(s[j], clock, due) ==>
      s[i].delay <= s[j].delay
  }

  ghost predicate NearList(s: seq<Near>, clock: int, due: Dues) {
    NearApart(s) && Ordered(s, clock, due) && forall n :: n in s ==> NearOk(n, clock, due)
  }

  ghost predicate Neat(s: seq<Far>) {
    forall f :: f in s ==> Normal(f.time)
  }

  /** An orderly list has normalised times only, in order. */
  ghost predicate FarList(s: seq<Far>, clock: int, due: Dues, orderly: bool) {
    FarApart(s) && (orderly ==> Neat(s) && FarSorted(s)) && forall f :: f in s ==> FarOk(f, clock, due)
  }

  /** No timer is both near and far, ids are below `next`, and no timer that has fired, except `firing`, is still in a
      list. */
  ghost predicate Apart(near: seq<Near>, far: seq<Far>, due: Dues, fired: set<int>, next: int, firing: int) {
    && (forall n, f :: n in near && f in far ==> n.id != f.id)
    && (forall id :: id in due ==> 0 < id <= next) && fired <= due.Keys
    && (forall n :: n in near && n.id in fired ==> n.id == firing)
    && forall f :: f in far && f.id in fired ==> f.id == firing
  }

  /** A timer whose delay is not positive is due, so none fires early; and the delay is exact precisely in range. */
  lemma NotEarly(n: Near, clock: int, due: Dues)
    requires NearOk(n, clock, due)
    ensures n.delay <= 0 ==> due[n.id] <= clock
    ensures n.delay == due[n.id] - clock <==> InRange(n, clock, due)
  {
    S32Id(due[n.id] - clock);
  }

  /** A timer overdue by just over 2^31 microseconds looks as if it were far from due. */
  lemma OverdueWraps(clock: int)
    ensures var n, due := Near(1, HALF - 1), map[1 := clock - HALF - 1];
      NearList([n], clock, due) && NearOk(n, clock, due) && due[n.id] < clock && n.delay > 0
  {
  }

  lemma NearMore(s: seq<Near>, clock: int, due: Dues, x: Near)
    requires NearList(s, clock, due) && NearOk(x, clock, due) && forall n :: n in s ==> n.id != x.id
    ensures NearList(SortNear([x] + s), clock, due) && forall n :: n in SortNear([x] + s) <==> n in s || n == x
  {
    SortNearOk([x] + s);
    assert NearApart([x] + s);
  }

  lemma FarMore(s: seq<Far>, clock: int, due: Dues, orderly: bool, x: Far)
    requires FarList(s, clock, due, orderly) && FarOk(x, clock, due) && forall f :: f in s ==> f.id != x.id
    ensures FarList(SortFar([x] + s), clock, due, Neat([x] + s))
    ensures forall f :: f in SortFar([x] + s) <==> f in s || f == x
  {
    hide FarOk;
    assert FarApart([x] + s);
    SortFarApart([x] + s);
    forall f ensures f in SortFar([x] + s) <==> f in [x] + s { InsertionSortedHas(FarLe, [x] + s, f); }
    if Neat([x] + s) { SortFarOk([x] + s); }
  }

  /** A clock that moves on leaves the far timers as they are. */
  lemma FarLater(s: seq<Far>, clock: int, due: Dues, orderly: bool, later: int)
    requires FarList(s, clock, due, orderly) && 0 <= clock <= later
    ensures FarList(s, later, due, orderly)
  {
    forall f | f in s ensures FarOk(f, later, due) {
      assert FarOk(f, clock, due);
      TimelyLater(f.time, clock, later);
    }
  }

  /** Recording the due instant of a new timer changes nothing for the others. */
  lemma NewDue(near: seq<Near>, far: seq<Far>, clock: int, due: Dues, orderly: bool, id: int, at: int)
    requires NearList(near, clock, due) && FarList(far, clock, due, orderly) && id !in due
    ensures NearList(near, clock, due[id := at]) && FarList(far, clock, due[id := at], orderly)
    ensures (forall n :: n in near ==> n.id != id) && forall f :: f in far ==> f.id != id
  {
    forall n | n in near ensures n.id != id { assert NearOk(n, clock, due); }
    forall f | f in far ensures f.id != id { assert FarOk(f, clock, due); }
    var d := due[id := at];
    forall n | n in near ensures NearOk(n, clock, d) { assert NearOk(n, clock, due); }
    forall i, j | 0 <= i < j < |near| && InRange(near[i], clock, d) && InRange(near[j], clock, d)
      ensures near[i].delay <= near[j].delay
    {
      assert near[i] in near && near[j] in near;
      assert NearOk(near[i], clock, due) && NearOk(near[j], clock, due);
      assert InRange(near[i], clock, due) && InRange(near[j], clock, due);
    }
    forall f | f in far ensures FarOk(f, clock, d) { assert FarOk(f, clock, due); }
  }

  /** The elements of a near list keyed by due instant are ordered as the delays of the timers they hold, whatever the
      clock, while these are in range; so their constant keys serve across ticks. */
  lemma NearByDue(val: map<ListShape.Elem, Near>, s: seq<ListShape.Elem>, clock: int, due: Dues)
    requires forall x :: x in s ==> x in val && NearOk(val[x], clock, due) && InRange(val[x], clock, due)
    requires forall x :: x in s && x in val && val[x].id in due ==> x.key == due[val[x].id]
    ensures Agree(NearCmp, NearLe, val, s)
  {
    forall x, y | x in s && y in s ensures NearLe(val[x], val[y]) <==> NearCmp(x.key, y.key) <= 0 {
      NotEarly(val[x], clock, due);
      NotEarly(val[y], clock, due);
    }
  }

  /** The near timers once `usecs` have passed. */
  function Later(s: seq<Near>, usecs: u32): (r: seq<Near>)
    ensures |r| == |s| && forall i :: 0 <= i < |s| ==> r[i] == Near(s[i].id, S32(s[i].delay - usecs))
  {
    seq(|s|, i requires 0 <= i < |s| => Near(s[i].id, S32(s[i].delay - usecs)))
  }

  /** The clock and the delays move together. */
  lemma LaterOk(s: seq<Near>, clock: int, due: Dues, usecs: u32)
    requires NearList(s, clock, due)
    ensures NearList(Later(s, usecs), clock + usecs, due)
  {
    var r, c := Later(s, usecs), clock + usecs;
    forall i | 0 <= i < |s|
      ensures NearOk(r[i], c, due)
      ensures InRange(r[i], c, due) ==> InRange(s[i], clock, due) && r[i].delay == s[i].delay - usecs
    {
      assert s[i] in s && NearOk(s[i], clock, due);
      S32Sum(due[s[i].id] - clock, 0 - usecs);
      S32Id(due[s[i].id] - clock);
      S32Id(due[s[i].id] - c);
    }
    forall n | n in r ensures NearOk(n, c, due) { var i :| 0 <= i < |r| && r[i] == n; }
  }

  /** The handler has stopped: no timer with a delay that is not positive is at the head of the list. */
  ghost predicate Stopped(s: seq<Near>) {
    s == [] || s[0].delay > 0
  }

  /** After a drain no near timer in range is due, if the first one is in range. */
  lemma Drained(s: seq<Near>, clock: int, due: Dues)
    requires NearList(s, clock, due) && Stopped(s) && (s != [] ==> InRange(s[0], clock, due))
    ensures forall n :: n in s && InRange(n, clock, due) ==> due[n.id] > clock
  {
    forall n | n in s && InRange(n, clock, due) ensures due[n.id] > clock {
      var i :| 0 <= i < |s| && s[i] == n;
      NotEarly(n, clock, due);
    }
  }

  /** A drain leaves no due timer exactly when none is out of range. */
  lemma DrainedExact(s: seq<Near>, clock: int, due: Dues)
    requires NearList(s, clock, due) && Stopped(s)
    ensures (forall n :: n in s ==> due[n.id] > clock) <==> forall n :: n in s ==> InRange(n, clock, due)
  {
    if forall n :: n in s ==> InRange(n, clock, due) {
      assert s != [] ==> s[0] in s;
      Drained(s, clock, due);
    }
    forall n | n in s ensures NearOk(n, clock, due) { }
  }

  // ----- removal -----

  function DropNear(s: seq<Near>, id: int): seq<Near> {
    if s == [] then [] else if s[0].id == id then s[1..] else [s[0]] + DropNear(s[1..], id)
  }

  function DropFar(s: seq<Far>, id: int): seq<Far> {
    if s == [] then [] else if s[0].id == id then s[1..] else [s[0]] + DropFar(s[1..], id)
  }

  lemma NearListRest(s: seq<Near>, clock: int, due: Dues)
    requires NearList(s, clock, due) && s != []
    ensures NearList(s[1..], clock, due) && NearOk(s[0], clock, due) && s == [s[0]] + s[1..]
    ensures forall n :: n in s[1..] ==> n.id != s[0].id && NotBefore(s[0], n, clock, due)
  {
    hide NearOk, InRange;
    assert s[0] in s;
    forall i | 0 <= i < |s[1..]| ensures s[1..][i] == s[i + 1] && s[1..][i] in s { }
  }

  ghost predicate NotBefore(a: Near, n: Near, clock: int, due: Dues) {
    InRange(a, clock, due) && InRange(n, clock, due) ==> a.delay <= n.delay
  }

  lemma NearListCons(a: Near, t: seq<Near>, clock: int, due: Dues)
    requires NearList(t, clock, due) && NearOk(a, clock, due)
    requires forall n :: n in t ==> n.id != a.id && NotBefore(a, n, clock, due)
    ensures NearList([a] + t, clock, due)
  {
    hide NearOk, InRange;
    forall j | 0 <= j < |t| ensures t[j].id != a.id && NotBefore(a, t[j], clock, due) { assert t[j] in t; }
  }

  lemma {:induction false} DropNearOk(s: seq<Near>, clock: int, due: Dues, id: int)
    requires NearList(s, clock, due)
    ensures NearList(DropNear(s, id), clock, due) && forall n :: n in DropNear(s, id) <==> n in s && n.id != id
  {
    hide NearList, NearOk, NotBefore;
    if s != [] {
      NearListRest(s, clock, due);
      DropNearOk(s[1..], clock, due, id);
      NearListCons(s[0], DropNear(s[1..], id), clock, due);
    }
  }

  lemma FarListCons(a: Far, t: seq<Far>, clock: int, due: Dues, orderly: bool)
    requires FarList(t, clock, due, orderly) && FarOk(a, clock, due) && (orderly ==> Normal(a.time))
    requires forall f :: f in t ==> f.id != a.id && (orderly ==> Value(a.time) <= Value(f.time))
    ensures FarList([a] + t, clock, due, orderly)
  {
    hide FarOk, Value, Normal;
    forall j | 0 <= j < |t| ensures t[j].id != a.id && (orderly ==> Value(a.time) <= Value(t[j].time)) {
      assert t[j] in t;
    }
  }

  lemma FirstFar(s: seq<Far>, clock: int, due: Dues, orderly: bool)
    requires FarList(s, clock, due, orderly) && s != []
    ensures FarOk(s[0], clock, due) && FarList(s[1..], clock, due, orderly) && (orderly ==> Normal(s[0].time))
    ensures s == [s[0]] + s[1..]
    ensures forall f :: f in s[1..] ==> f in s && f.id != s[0].id && (orderly ==> Value(s[0].time) <= Value(f.time))
  {
    hide FarOk, Value, Normal;
    assert s[0] in s;
    forall i | 0 <= i < |s[1..]| ensures s[1..][i] == s[i + 1] && s[1..][i] in s { }
  }

  lemma {:induction false} DropFarOk(s: seq<Far>, clock: int, due: Dues, orderly: bool, id: int)
    requires FarList(s, clock, due, orderly)
    ensures FarList(DropFar(s, id), clock, due, orderly)
    ensures forall f :: f in DropFar(s, id) <==> f in s && f.id != id
  {
    hide FarList, FarOk, Value, Normal;
    if s != [] {
      FirstFar(s, clock, due, orderly);
      DropFarOk(s[1..], clock, due, orderly, id);
      FarListCons(s[0], DropFar(s[1..], id), clock, due, orderly);
    }
  }

  /** What a callback may do to the timers while its own one fires. */
  datatype Call = After(usecs: i32, memory: bool) | At(time: Timeval, memory: bool) | Stop(id: int)

  /** The ids of the timers in the two lists. */
  ghost function Ids(near: seq<Near>, far: seq<Far>): set<int> {
    (set n | n in near :: n.id) + set f | f in far :: f.id
  }

  lemma IdsNear(near: seq<Near>, far: seq<Far>, near': seq<Near>, x: Near, memory: bool)
    requires forall n :: n in near' <==> n in near || (memory && n == x)
    ensures Ids(near', far) == Ids(near, far) + if memory then {x.id} else {}
  {
  }

  lemma IdsFar(near: seq<Near>, far: seq<Far>, far': seq<Far>, x: Far, memory: bool)
    requires forall f :: f in far' <==> f in far || (memory && f == x)
    ensures Ids(near, far') == Ids(near, far) + if memory then {x.id} else {}
  {
  }

  lemma IdsLess(near: seq<Near>, far: seq<Far>, near': seq<Near>, far': seq<Far>, id: int)
    requires (forall n :: n in near' <==> n in near && n.id != id) && forall f :: f in far' <==> f in far && f.id != id
    ensures Ids(near', far') == Ids(near, far) - {id}
  {
  }

  /** The timers that wait, the last id given out and all due instants; a waiting timer is determined by its id and
      these. */
  datatype Book = Book(ids: set<int>, last: int, due: Dues)

  /** What a callback's calls do to the book at the clock `clock`. */
  ghost function Called(b: Book, clock: int, call: Call): Book {
    match call
    case After(usecs, memory) =>
      if memory then Book(b.ids + {b.last + 1}, b.last + 1, b.due[b.last + 1 := clock + usecs])
        else b.(last := b.last + 1)
    case At(time, memory) =>
      if memory then Book(b.ids + {b.last + 1}, b.last + 1, b.due[b.last + 1 := Value(time)]) else b
    case Stop(id) => b.(ids := b.ids - {id})
  }

  ghost function Played(b: Book, clock: int, calls: seq<Call>): Book {
    if calls == [] then b else Called(Played(b, clock, calls[..|calls| - 1]), clock, calls[|calls| - 1])
  }

  class Service {
    var near: seq<Near>
    var far: seq<Far>
    var now: Timeval
    var lastId: int
    var ticks: u32
    const quantum: u32

    /** The due instants of all timers ever made, and the timers that have fired. */
    ghost var due: Dues
    ghost var fired: set<int>

    /** All far times are normalised and in order. */
    ghost var orderly: bool

    ghost function Clock(): int
      reads this
    {
      Value(now)
    }

    ghost function Books(): Book
      reads this
    {
      Book(Ids(near, far), lastId, due)
    }

    /** `firing` is the timer whose callback is running, or 0. */
    ghost predicate Good(firing: int)
      reads this
    {
      && NearList(near, Clock(), due) && FarList(far, Clock(), due, orderly)
      && Apart(near, far, due, fired, lastId, firing)
      && Nameable(Clock()) && 0 <= lastId && 0 < quantum < MICROS
    }

    constructor (q: u32)
      requires 0 < q < MICROS
      ensures Good(0) && near == [] && far == [] && Clock() == 0 && due == map[] && fired == {} && quantum == q
      ensures orderly
    {
      near, far, now, lastId, ticks, quantum := [], [], Timeval(0, 0), 0, 0, q;
      due, fired, orderly := map[], {}, true;
    }

    /** timer_next_id: counts up, and starts again at 1 after the largest id. */
    method NextId() returns (id: int)
      requires 0 <= lastId < HALF
      modifies this`lastId
      ensures id == lastId == if old(lastId) == HALF - 1 then 1 else old(lastId) + 1
    {
      lastId := S32(lastId + 1);
      if lastId < 0 {
        lastId := 1;
      }
      id := lastId;
    }

    /** timer_schedule_delay: the timer is due `usecs` from now. */
    method ScheduleDelay(usecs: i32, memory: bool, ghost firing: int) returns (id: int)
      requires Good(firing) && lastId < HALF - 1
      modifies this`near, this`lastId, this`due
      ensures Good(firing) && now == old(now) && far == old(far) && fired == old(fired) && lastId == old(lastId) + 1
      ensures ticks == old(ticks)
      ensures if memory then id == lastId && id !in old(due) && due == old(due)[id := Clock() + usecs]
        else id == -1 && due == old(due)
      ensures forall n :: n in near <==> n in old(near) || (memory && n == Near(id, usecs))
    {
      hide NearList, FarList, Nameable;
      id := NextId();
      if memory {
        ghost var c, d, s := Clock(), due, near;
        NewDue(s, far, c, d, orderly, id, c + usecs);
        S32Id(usecs);
        NearMore(s, c, d[id := c + usecs], Near(id, usecs));
        due := d[id := c + usecs];
        near := SortNear([Near(id, usecs)] + near);
        Entered(s, far, near, far, d, fired, id, firing, c + usecs);
      } else {
        id := -1;
      }
    }

    /** timer_schedule_at: the timer is due at `time`. It keeps the promise that no timer fires early exactly if the
        time is timely, and the order of the far list if all times are normalised. The source returns with its lock
        held, which is not modelled. */
    method ScheduleAt(time: Timeval, memory: bool, ghost firing: int) returns (id: int)
      requires Good(firing) && lastId < HALF - 1
      modifies this`far, this`lastId, this`due, this`orderly
      ensures now == old(now) && near == old(near) && fired == old(fired) && ticks == old(ticks)
      ensures Good(firing) <==> !memory || Timely(time, Clock())
      ensures Good(firing) <==> !(memory && exists t :: Clock() <= Value(t) && FiresEarly(time, t))
      ensures orderly == if memory then Normal(time) && Neat(old(far)) else old(orderly)
      ensures if memory then id == lastId == old(lastId) + 1 && id !in old(due) && due == old(due)[id := Value(time)]
              else id == -1 && due == old(due) && lastId == old(lastId)
      ensures forall f :: f in far <==> f in old(far) || (memory && f == Far(id, time))
    {
      hide NearList, FarList, Nameable, FiresEarly, Timely;
      ClockPositive();
      EarlyExact(time, Clock());
      if memory {
        id := NextId();
        var x := Far(id, time);
        ghost var c, d, s := Clock(), due, far;
        NewDue(near, s, c, d, orderly, id, Value(time));
        due := d[id := Value(time)];
        far := SortFar([x] + far);
        forall f ensures f in far <==> f in s || f == x { InsertionSortedHas(FarLe, [x] + s, f); }
        if Timely(time, c) {
          FarMore(s, c, due, orderly, x);
          Entered(near, s, near, far, d, fired, id, firing, Value(time));
        } else {
          NotFar(far, c, due, Neat([x] + s), x);
        }
        orderly := Neat([x] + s);
      } else {
        id := -1;
      }
    }

    lemma ClockPositive()
      requires Nameable(Clock())
      ensures 0 <= Clock()
    {
    }

    /** timer_cancel. */
    method Cancel(id: int, ghost firing: int) returns (found: bool)
      requires Good(firing)
      modifies this`near, this`far
      ensures Good(firing) && (firing == id ==> Good(0))
      ensures found <==> (exists n :: n in old(near) && n.id == id) || exists f :: f in old(far) && f.id == id
      ensures forall n :: n in near <==> n in old(near) && n.id != id
      ensures forall f :: f in far <==> f in old(far) && f.id != id
    {
      hide NearList, FarList, Apart, Nameable;
      var i := 0;
      while i < |near|
        invariant 0 <= i <= |near| && near == old(near) && far == old(far)
        invariant forall j :: 0 <= j < i ==> near[j].id != id
      {
        if near[i].id == id {
          ghost var n, s := near[i], near;
          assert n in s;
          DropNearOk(near, Clock(), due, id);
          DropAt(near, i);
          near := near[..i] + near[i + 1..];
          Dropped(s, far, near, far, due, fired, lastId, firing, id);
          return true;
        }
        i := i + 1;
      }
      i := 0;
      while i < |far|
        invariant 0 <= i <= |far| && near == old(near) && far == old(far) && forall j :: 0 <= j < i ==> far[j].id != id
      {
        if far[i].id == id {
          ghost var f, s := far[i], far;
          assert f in s;
          DropFarOk(far, Clock(), due, orderly, id);
          DropFarAt(far, i);
          far := far[..i] + far[i + 1..];
          Dropped(near, s, near, far, due, fired, lastId, firing, id);
          return true;
        }
        i := i + 1;
      }
      Dropped(near, far, near, far, due, fired, lastId, firing, id);
      return false;
    }

    /** timers_convert_far_to_near for the first far timer; it is lost if there is no memory for its near form. */
    method Convert(memory: bool)
      requires Good(0) && far != [] && Value(far[0].time) - Clock() < HALF
      modifies this`near, this`far
      ensures Good(0) && far == old(far)[1..]
      ensures forall n :: n in near <==>
        n in old(near) || (memory && n == Near(old(far)[0].id, Delay(old(far)[0].time, now)))
    {
      hide NearList, FarList, Nameable, Delay;
      ghost var s := far;
      var ft := far[0];
      var usecs := Delay(ft.time, now);
      FirstFar(s, Clock(), due, orderly);
      DelayValue(ft.time, now);
      far := far[1..];
      if memory {
        forall n | n in near ensures n.id != ft.id { assert ft in s; }
        NearMore(near, Clock(), due, Near(ft.id, usecs));
        near := SortNear([Near(ft.id, usecs)] + near);
      }
    }

    /** timers_update_far_timers: converts the timers within ten seconds, up to the first that is not; `memory` says for
        which ids there is memory. In an orderly list these are exactly the timers due within ten seconds. */
    method UpdateFar(memory: int -> bool) returns (ghost k: int)
      requires Good(0) && Nameable(Clock() + THRESHOLD)
      modifies this`near, this`far
      ensures Good(0) && 0 <= k <= |old(far)| && far == old(far)[k..]
      ensures (forall i :: 0 <= i < k ==> Leaves(old(far)[i].time, now)) && (far != [] ==> !Leaves(far[0].time, now))
      ensures orderly ==> forall f :: f in far ==> Value(f.time) > Clock() + THRESHOLD
      ensures orderly ==> forall i :: 0 <= i < k ==> Value(old(far)[i].time) <= Clock() + THRESHOLD
      ensures forall n :: n in near <==> n in old(near) || Converted(old(far), k, now, memory, n)
    {
      hide NearList, Nameable, Apart, Delay, TimeAdd, TimeCmp, Timely, Value;
      ghost var f0 := far;
      var threshold := TimeAdd(now, Timeval(NEAR_THRESHOLD_SECS, 0));
      ThresholdIs(now);
      k := 0;
      while far != [] && TimeCmp(far[0].time, threshold) <= 0
        invariant Good(0) && 0 <= k <= |f0| && far == f0[k..]
        invariant forall i :: 0 <= i < k ==> Leaves(f0[i].time, now)
        invariant forall n :: n in near <==> n in old(near) || Converted(f0, k, now, memory, n)
        decreases |far|
      {
        assert far[0] in far && FarOk(far[0], Clock(), due);
        TimelySafe(far[0].time, now);
        Convert(memory(far[0].id));
        k := k + 1;
      }
      if orderly { InOrder(f0, k, Clock(), due, now); }
    }

    /** timers_advance_clock, with the clock already advanced: the delays follow it. */
    method AdvanceClock(usecs: u32, memory: int -> bool) returns (ghost k: int)
      requires NearList(near, Clock() - usecs, due) && FarList(far, Clock(), due, orderly)
      requires Apart(near, far, due, fired, lastId, 0)
      requires Nameable(Clock() + THRESHOLD) && Nameable(Clock()) && 0 <= lastId && 0 < quantum < MICROS
      modifies this`near, this`far
      ensures Good(0) && 0 <= k <= |old(far)| && far == old(far)[k..]
      ensures (forall i :: 0 <= i < k ==> Leaves(old(far)[i].time, now)) && (far != [] ==> !Leaves(far[0].time, now))
      ensures orderly ==> forall f :: f in far ==> Value(f.time) > Clock() + THRESHOLD
      ensures orderly ==> forall i :: 0 <= i < k ==> Value(old(far)[i].time) <= Clock() + THRESHOLD
      ensures forall n :: n in near <==> n in Later(old(near), usecs) || Converted(old(far), k, now, memory, n)
    {
      hide NearList, FarList, Nameable, Apart, Leaves;
      ghost var s := near;
      var i := 0;
      while i < |near|
        invariant 0 <= i <= |near| == |s| && far == old(far)
        invariant forall j :: 0 <= j < |s| ==> near[j] == if j < i then Later(s, usecs)[j] else s[j]
      {
        near := near[i := near[i].(delay := S32(near[i].delay - usecs))];
        i := i + 1;
      }
      assert near == Later(s, usecs);
      LaterOk(s, Clock() - usecs, due, usecs);
      LaterApart(s, far, due, fired, lastId, usecs);
      k := UpdateFar(memory);
    }

    /** The part of ticks_irq_handler that runs on every 50th tick: the clock and all delays move by one quantum, and
        the far timers due within ten seconds become near ones. */
    method Pulse(memory: int -> bool)
      requires Good(0) && Nameable(Clock() + quantum + THRESHOLD)
      modifies this`near, this`far, this`now
      ensures Good(0) && Clock() == old(Clock()) + quantum
      ensures Moved(old(far), far, Clock(), orderly)
      ensures forall f :: f in old(far) && f !in far && memory(f.id) ==> Near(f.id, S32(due[f.id] - Clock())) in near
      ensures forall n :: n in Later(old(near), quantum) ==> n in near
      ensures forall n :: n in near ==> Known(n.id, old(near), old(far), memory)
    {
      hide NearList, FarList, Apart, Delay, S32, TimeAdd, Later, Converted, Known, Leaves;
      var diff := Timeval(0, quantum);
      TimeAddValue(now, diff);
      FarLater(far, Clock(), due, orderly, Clock() + quantum);
      now := TimeAdd(now, diff);
      ghost var f0, n0 := far, near;
      ghost var k := AdvanceClock(quantum, memory);
      Partition(f0, far, k, Clock(), orderly);
      forall f | f in f0 && f !in far && memory(f.id)
        ensures f.id in due && Near(f.id, S32(due[f.id] - Clock())) in near
      {
        MovedNear(f0, k, Clock(), due, orderly, now, memory, f);
      }
      forall n | n in near ensures Known(n.id, n0, f0, memory) {
        Origin(n0, quantum, f0, k, now, memory, n);
      }
    }

    /** ticks_irq_handler. `wake` says that the timer thread is woken. */
    method Tick(memory: int -> bool) returns (wake: bool)
      requires Good(0) && Nameable(Clock() + quantum + THRESHOLD)
      modifies this`near, this`far, this`now, this`ticks
      ensures Good(0) && ticks == Add32(old(ticks), 1)
      ensures Clock() == old(Clock()) + (if ticks % 50 == 0 then quantum else 0)
      ensures ticks % 50 != 0 ==> near == old(near) && far == old(far) && now == old(now) && !wake
      ensures ticks % 50 == 0 ==> Moved(old(far), far, Clock(), orderly)
      ensures ticks % 50 == 0 ==>
        forall f :: f in old(far) && f !in far && memory(f.id) ==> Near(f.id, S32(due[f.id] - Clock())) in near
      ensures ticks % 50 == 0 ==> forall n :: n in Later(old(near), quantum) ==> n in near
      ensures ticks % 50 == 0 ==> forall n :: n in near ==> Known(n.id, old(near), old(far), memory)
      ensures ticks % 50 == 0 ==> (wake <==> near != [] && near[0].delay <= 0)
    {
      hide NearList, FarList, Apart, Nameable, Later, Known, Moved;
      ticks := Add32(ticks, 1);
      if ticks % 50 != 0 {
        return false;
      }
      Pulse(memory);
      var next := NextDelay();
      wake := next == 0;
    }

    /** timers_next_delay: -1 without timers, 0 if the first is due, its delay otherwise. If the first timer is in
        range, that is how long until a timer is due: 0 means one is, and before a positive delay is over none in range
        will be. */
    method NextDelay() returns (usecs: i32)
      requires Good(0)
      ensures (usecs == -1 <==> near == []) && usecs >= -1 && (usecs == 0 <==> near != [] && near[0].delay <= 0)
      ensures usecs > 0 ==> usecs == near[0].delay
      ensures near != [] && InRange(near[0], Clock(), due) ==> (usecs == 0 <==> due[near[0].id] <= Clock())
      ensures near != [] && InRange(near[0], Clock(), due) && usecs > 0 ==>
        && due[near[0].id] == Clock() + usecs
        && forall n :: n in near && InRange(n, Clock(), due) ==> due[n.id] >= Clock() + usecs
    {
      if near == [] {
        return -1;
      }
      assert near[0] in near;
      NotEarly(near[0], Clock(), due);
      usecs := if near[0].delay < 0 then 0 else near[0].delay;
      forall n | n in near && InRange(n, Clock(), due) && InRange(near[0], Clock(), due)
        ensures due[n.id] - Clock() >= near[0].delay
      {
        var i :| 0 <= i < |near| && near[i] == n;
        NotEarly(n, Clock(), due);
      }
    }

    /** The timers that survive the call are all but the one it stops, and a new one joins the list it is meant for. */
    method Perform(call: Call, ghost firing: int)
      requires Good(firing) && lastId < HALF - 1 && (call.At? ==> Timely(call.time, Clock()))
      modifies this`near, this`far, this`lastId, this`due, this`orderly
      ensures Good(firing) && lastId <= old(lastId) + 1 && Books() == Called(old(Books()), Clock(), call)
      ensures forall id :: id in old(due) ==> id in due && due[id] == old(due)[id]
      ensures forall n :: n in old(near) && call != Stop(n.id) ==> n in near
      ensures forall f :: f in old(far) && call != Stop(f.id) ==> f in far
      ensures call.After? && call.memory ==> Near(lastId, call.usecs) in near
      ensures call.At? && call.memory ==> Far(lastId, call.time) in far
    {
      hide NearList, FarList, Apart, Nameable, Timely, FiresEarly, Ids;
      ghost var n0, f0 := near, far;
      match call {
        case After(usecs, memory) =>
          var id := ScheduleDelay(usecs, memory, firing);
          IdsNear(n0, f0, near, Near(id, usecs), memory);
        case At(time, memory) =>
          var id := ScheduleAt(time, memory, firing);
          IdsFar(n0, f0, far, Far(id, time), memory);
        case Stop(id) =>
          var _ := Cancel(id, firing);
          IdsLess(n0, f0, near, far, id);
      }
    }

    /** timers_handle_near_timers: fires the first timer if it is due, runs its callback, which may make the timer calls
        `calls`, and removes it. No timer fires early, none fires twice, and none but that one and those the callback
        stops is lost. */
    method HandleNear(calls: seq<Call>) returns (more: bool)
      requires Good(0) && lastId + |calls| < HALF && forall c :: c in calls && c.At? ==> Timely(c.time, Clock())
      modifies this`near, this`far, this`lastId, this`due, this`fired, this`orderly
      ensures Good(0) && (more <==> old(near) != [] && old(near)[0].delay <= 0)
      ensures !more ==> near == old(near) && far == old(far) && fired == old(fired) && Books() == old(Books())
      ensures more ==> var id := old(near)[0].id;
        id in old(due) && old(due)[id] <= Clock() && id !in old(fired) && fired == old(fired) + {id}
      ensures more ==> var id := old(near)[0].id;
        (forall n :: n in near ==> n.id != id) && forall f :: f in far ==> f.id != id
      ensures more ==> var b := Played(old(Books()), Clock(), calls);
        Books() == b.(ids := b.ids - {old(near)[0].id})
      ensures more ==> forall n :: n in old(near) && n.id != old(near)[0].id && Stop(n.id) !in calls ==> n in near
      ensures more ==> forall f :: f in old(far) && Stop(f.id) !in calls ==> f in far
      ensures forall id :: id in old(due) ==> id in due && due[id] == old(due)[id]
    {
      hide FarList, Timely, Ids, Played;
      if near == [] || near[0].delay > 0 {
        return false;
      }
      var id := near[0].id;
      Fires(near, far, Clock(), due, fired, lastId);
      assert near[0] in near && forall f :: f in far ==> f.id != id;
      fired := fired + {id};
      more := Complete(id, calls);
    }

    method Complete(id: int, calls: seq<Call>) returns (more: bool)
      requires Good(id) && lastId + |calls| < HALF && forall c :: c in calls && c.At? ==> Timely(c.time, Clock())
      modifies this`near, this`far, this`lastId, this`due, this`orderly
      ensures Good(0) && more && (forall n :: n in near ==> n.id != id) && forall f :: f in far ==> f.id != id
      ensures var b := Played(old(Books()), Clock(), calls); Books() == b.(ids := b.ids - {id})
      ensures forall x :: x in old(due) ==> x in due && due[x] == old(due)[x]
      ensures forall n :: n in old(near) && n.id != id && Stop(n.id) !in calls ==> n in near
      ensures forall f :: f in old(far) && f.id != id && Stop(f.id) !in calls ==> f in far
    {
      hide NearList, FarList, Apart, Nameable, Timely, Ids, Called;
      ghost var b := Books();
      for i := 0 to |calls|
        invariant Good(id) && lastId + |calls| - i < HALF && Books() == Played(b, Clock(), calls[..i])
        invariant forall x :: x in old(due) ==> x in due && due[x] == old(due)[x]
        invariant forall n :: n in old(near) && Stop(n.id) !in calls ==> n in near
        invariant forall f :: f in old(far) && Stop(f.id) !in calls ==> f in far
      {
        assert calls[i] in calls && calls[..i + 1][..i] == calls[..i];
        Perform(calls[i], id);
      }
      assert calls[..|calls|] == calls;
      ghost var n0, f0 := near, far;
      var _ := Cancel(id, id);
      IdsLess(n0, f0, near, far, id);
      return true;
    }
  }

  lemma NotFar(far: seq<Far>, clock: int, due: Dues, orderly: bool, f: Far)
    requires f in far && !Timely(f.time, clock)
    ensures !FarList(far, clock, due, orderly)
  {
    assert !FarOk(f, clock, due);
  }

  /** Of an orderly far list exactly the timers due later than the threshold stay; of any list only timers go. */
  ghost predicate Moved(far: seq<Far>, far': seq<Far>, clock: int, orderly: bool) {
    && (forall f :: f in far' ==> f in far)
    && (orderly ==> forall f :: f in far' <==> f in far && Value(f.time) > clock + THRESHOLD)
  }

  /** In an orderly list the timers before the first that is not within the threshold are those due by it. */
  lemma InOrder(f0: seq<Far>, k: int, clock: int, due: Dues, now: Timeval)
    requires FarList(f0, clock, due, true) && clock == Value(now) && 0 <= k <= |f0|
    requires Nameable(clock) && Nameable(clock + THRESHOLD)
    requires (forall i :: 0 <= i < k ==> Leaves(f0[i].time, now)) && (k < |f0| ==> !Leaves(f0[k].time, now))
    ensures forall i :: 0 <= i < k ==> Value(f0[i].time) <= clock + THRESHOLD
    ensures forall f :: f in f0[k..] ==> Value(f.time) > clock + THRESHOLD
  {
    hide TimeAdd, TimeCmp, FarOk;
    ThresholdIs(now);
    var a := TimeAdd(now, Timeval(NEAR_THRESHOLD_SECS, 0));
    forall i | 0 <= i < |f0| ensures Leaves(f0[i].time, now) <==> Value(f0[i].time) <= clock + THRESHOLD {
      assert f0[i] in f0;
      TimeCmpOrder(f0[i].time, a);
    }
    forall f | f in f0[k..] ensures Value(f.time) > clock + THRESHOLD {
      var j :| 0 <= j < |f0[k..]| && f0[k..][j] == f;
      assert f == f0[k + j];
    }
  }

  /** The first timer, when its delay is not positive, is due and has not fired before. */
  lemma Fires(near: seq<Near>, far: seq<Far>, clock: int, due: Dues, fired: set<int>, next: int)
    requires NearList(near, clock, due) && Apart(near, far, due, fired, next, 0) && near != [] && near[0].delay <= 0
    ensures var id := near[0].id;
      id in due && due[id] <= clock && id !in fired && Apart(near, far, due, fired + {id}, next, id)
  {
    assert near[0] in near;
    NotEarly(near[0], clock, due);
  }

  ghost predicate Converted(far: seq<Far>, k: int, now: Timeval, memory: int -> bool, n: Near) {
    0 <= k <= |far| && exists i :: 0 <= i < k && memory(far[i].id) && n == Near(far[i].id, Delay(far[i].time, now))
  }

  lemma MovedNear(f0: seq<Far>, k: int, clock: int, due: Dues, orderly: bool, now: Timeval, memory: int -> bool, f: Far)
    requires FarList(f0, clock, due, orderly) && 0 <= k <= |f0| && memory(f.id) && exists i :: 0 <= i < k && f0[i] == f
    ensures f.id in due && Converted(f0, k, now, memory, Near(f.id, S32(due[f.id] - Value(now))))
  {
    hide Timely;
    assert FarOk(f, clock, due);
    DelayValue(f.time, now);
  }

  /** `id` was a timer of these lists, with memory for its near form if it was a far one. */
  ghost predicate Known(id: int, near: seq<Near>, far: seq<Far>, memory: int -> bool) {
    (exists m :: m in near && m.id == id) || exists f :: f in far && f.id == id && memory(id)
  }

  lemma Origin(n0: seq<Near>, usecs: u32, f0: seq<Far>, k: int, now: Timeval, memory: int -> bool, n: Near)
    requires n in Later(n0, usecs) || Converted(f0, k, now, memory, n)
    ensures Known(n.id, n0, f0, memory)
  {
    var r := Later(n0, usecs);
    if n in r {
      var i :| 0 <= i < |r| && r[i] == n;
      assert n0[i] in n0;
    } else {
      var i :| 0 <= i < k && memory(f0[i].id) && n == Near(f0[i].id, Delay(f0[i].time, now));
      assert f0[i] in f0;
    }
  }

  lemma LaterApart(s: seq<Near>, far: seq<Far>, due: Dues, fired: set<int>, next: int, usecs: u32)
    requires Apart(s, far, due, fired, next, 0)
    ensures Apart(Later(s, usecs), far, due, fired, next, 0)
  {
    var r := Later(s, usecs);
    forall n | n in r ensures exists m :: m in s && m.id == n.id {
      var i :| 0 <= i < |r| && r[i] == n;
      assert s[i] in s;
    }
  }

  lemma Partition(f0: seq<Far>, far: seq<Far>, k: int, clock: int, orderly: bool)
    requires 0 <= k <= |f0| && far == f0[k..]
    requires orderly ==> forall f :: f in far ==> Value(f.time) > clock + THRESHOLD
    requires orderly ==> forall i :: 0 <= i < k ==> Value(f0[i].time) <= clock + THRESHOLD
    ensures Moved(f0, far, clock, orderly)
    ensures forall f :: f in f0 && f !in far ==> exists i :: 0 <= i < k && f0[i] == f
  {
    forall i | k <= i < |f0| ensures f0[i] in far { assert far[i - k] == f0[i]; }
  }

  /** Removing the timers with an id, of which there are some in at most one list. */
  lemma Dropped(near: seq<Near>, far: seq<Far>, near': seq<Near>, far': seq<Far>, due: Dues, fired: set<int>, next: int,
      firing: int, id: int)
    requires Apart(near, far, due, fired, next, firing)
    requires (near' == near && forall n :: n in near ==> n.id != id) ||
      (forall n :: n in near' <==> n in near && n.id != id)
    requires
      || (far' == far && exists n :: n in near && n.id == id)
      || (far' == far && forall f :: f in far ==> f.id != id)
      || forall f :: f in far' <==> f in far && f.id != id
    ensures Apart(near', far', due, fired, next, firing) && (firing == id ==> Apart(near', far', due, fired, next, 0))
    ensures (forall n :: n in near' <==> n in near && n.id != id) && forall f :: f in far' <==> f in far && f.id != id
  {
  }

  /** A new id belongs to no timer. */
  lemma Entered(near: seq<Near>, far: seq<Far>, near': seq<Near>, far': seq<Far>, due: Dues, fired: set<int>, id: int,
      firing: int, at: int)
    requires Apart(near, far, due, fired, id - 1, firing) && 0 < id
    requires (forall n :: n in near ==> n.id != id) && forall f :: f in far ==> f.id != id
    requires (near' == near && forall f :: f in far' ==> f in far || f.id == id) ||
      (far' == far && forall n :: n in near' ==> n in near || n.id == id)
    ensures Apart(near', far', due[id := at], fired, id, firing)
  {
    assert id !in due && id !in fired;
  }

  lemma {:induction false} DropAt(s: seq<Near>, i: nat)
    requires i < |s| && forall j :: 0 <= j < i ==> s[j].id != s[i].id
    ensures DropNear(s, s[i].id) == s[..i] + s[i + 1..]
  {
    if i > 0 { DropAt(s[1..], i - 1); }
  }

  lemma {:induction false} DropFarAt(s: seq<Far>, i: nat)
    requires i < |s| && forall j :: 0 <= j < i ==> s[j].id != s[i].id
    ensures DropFar(s, s[i].id) == s[..i] + s[i + 1..]
  {
    if i > 0 { DropFarAt(s[1..], i - 1); }
  }
}
