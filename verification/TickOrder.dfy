/**
 What one tick does: which handlers it calls, in which order and with what, and what
 becomes of the calls they make.
 */
module TickOrder {
  import opened TimerModel
  import opened TimerRefinement
  import Naive = NaiveClock
  import opened NaiveClock

  // ---------- which timers fire ----------

  /** The active timers from i on whose deadline is now, in index order. */
  function DueFrom(slots: seq<Timer>, i: nat, now: nat): seq<nat>
    decreases |slots| - i
  {
    if i >= |slots| then []
    else (if slots[i].active && slots[i].timeToFire == now then [i] else []) + DueFrom(slots, i + 1, now)
  }

  predicate Increasing(ids: seq<nat>) {
    forall j, k :: 0 <= j < k < |ids| ==> ids[j] < ids[k]
  }

  lemma InFront(i: nat, rest: seq<nat>)
    requires Increasing(rest) && forall id :: id in rest ==> i < id
    ensures Increasing([i] + rest) && forall id :: id in [i] + rest <==> id == i || id in rest
  {
    var ids := [i] + rest;
    forall j, k | 0 <= j < k < |ids|
      ensures ids[j] < ids[k]
    {
      assert ids[k] == rest[k - 1] && rest[k - 1] in rest;
    }
  }

  /** They are in increasing order, each once and none left out. */
  lemma {:induction false} DueExactly(slots: seq<Timer>, i: nat, now: nat)
    ensures var ids := DueFrom(slots, i, now);
      && (forall id :: id in ids <==> i <= id < |slots| && slots[id].active && slots[id].timeToFire == now)
      && Increasing(ids)
    decreases |slots| - i
  {
    if i < |slots| {
      DueExactly(slots, i + 1, now);
      InFront(i, DueFrom(slots, i + 1, now));
    }
  }

  function Stamp(ids: seq<nat>, now: nat): seq<Firing> {
    if ids == [] then [] else [Firing(now, ids[0])] + Stamp(ids[1..], now)
  }

  // ---------- what the handlers do ----------

  ghost predicate InRange(ids: seq<nat>, n: nat) {
    forall k :: 0 <= k < |ids| ==> ids[k] < n
  }

  /** The device state after the handlers of these timers, each called with its own
      function, its number and the time. */
  ghost function DevAfter<D(!new)>(d: D, h: Handlers<D>, slots: seq<Timer>, ids: seq<nat>, now: nat): D
    requires InRange(ids, |slots|)
    decreases |ids|
  {
    if ids == [] then d
    else DevAfter(h(d, slots[ids[0]].funct, ids[0], now).0, h, slots, ids[1..], now)
  }

  /** All the scheduler calls they make, in order. */
  ghost function CallsMade<D(!new)>(d: D, h: Handlers<D>, slots: seq<Timer>, ids: seq<nat>, now: nat): seq<Call>
    requires InRange(ids, |slots|)
    decreases |ids|
  {
    if ids == [] then []
    else
      var (dev, calls) := h(d, slots[ids[0]].funct, ids[0], now);
      calls + CallsMade(dev, h, slots, ids[1..], now)
  }

  // ---------- sequences of calls ----------

  ghost predicate SameFuncts(a: seq<Timer>, b: seq<Timer>) {
    |a| == |b| && forall i :: 0 <= i < |a| ==> a[i].funct == b[i].funct
  }

  lemma {:induction false} PerformAllKeeps<D>(a: Clock<D>, calls: seq<Call>)
    requires CallsInTable(calls, |a.slots|)
    ensures var r := Naive.PerformAll(a, calls);
      r.now == a.now && r.dev == a.dev && r.trace == a.trace && SameFuncts(r.slots, a.slots)
    decreases |calls|
  {
    if calls != [] {
      PerformAllKeeps(Naive.Perform(a, calls[0]), calls[1..]);
    }
  }

  /** The table depends on the table, the time and the calls only. */
  lemma {:induction false} PerformAllSlots<D>(a: Clock<D>, b: Clock<D>, calls: seq<Call>)
    requires CallsInTable(calls, |a.slots|) && a.slots == b.slots && a.now == b.now
    ensures Naive.PerformAll(a, calls).slots == Naive.PerformAll(b, calls).slots
    decreases |calls|
  {
    if calls != [] {
      PerformAllSlots(Naive.Perform(a, calls[0]), Naive.Perform(b, calls[0]), calls[1..]);
    }
  }

  lemma {:induction false} PerformAllJoin<D>(a: Clock<D>, x: seq<Call>, y: seq<Call>)
    requires CallsInTable(x, |a.slots|) && CallsInTable(y, |a.slots|)
    ensures CallsInTable(x + y, |a.slots|)
    ensures Naive.PerformAll(Naive.PerformAll(a, x), y) == Naive.PerformAll(a, x + y)
    decreases |x|
  {
    if x == [] {
      assert x + y == y;
    } else {
      PerformAllJoin(Naive.Perform(a, x[0]), x[1..], y);
      assert (x + y)[1..] == x[1..] + y;
    }
  }

  lemma {:induction false} PerformAllOthers<D>(a: Clock<D>, calls: seq<Call>, id: nat)
    requires CallsInTable(calls, |a.slots|) && id < |a.slots|
    requires forall k :: 0 <= k < |calls| ==> calls[k].id != id
    ensures Naive.PerformAll(a, calls).slots[id] == a.slots[id]
    decreases |calls|
  {
    if calls != [] {
      PerformAllOthers(Naive.Perform(a, calls[0]), calls[1..], id);
    }
  }

  /** What a call leaves its timer in: armed from now for the ticks given, one at least,
      or off. */
  predicate Obeys(t: Timer, c: Call, now: nat) {
    match c
    case Activate(_, ticks, continuous) =>
      t.active && t.continuous == continuous
      && (if ticks == 0 then t.period == 1 && t.timeToFire == now + 1
          else t.period == ticks && t.timeToFire == now + ticks)
    case Deactivate(_) => !t.active
  }

  /** The last call that names a timer decides. */
  lemma {:induction false} LastCallWins<D>(a: Clock<D>, calls: seq<Call>, j: nat)
    requires CallsInTable(calls, |a.slots|) && j < |calls|
    requires forall k :: j < k < |calls| ==> calls[k].id != calls[j].id
    ensures Obeys(Naive.PerformAll(a, calls).slots[calls[j].id], calls[j], a.now)
    decreases |calls|
  {
    var b := Naive.Perform(a, calls[0]);
    if j == 0 {
      PerformAllOthers(b, calls[1..], calls[0].id);
    } else {
      LastCallWins(b, calls[1..], j - 1);
    }
  }

  // ---------- one tick ----------

  /** r is what a becomes when the handlers of these timers are called in this order. */
  ghost predicate Fired<D(!new)>(a: Clock<D>, h: Handlers<D>, was: seq<Timer>, ids: seq<nat>, r: Clock<D>)
    requires InRange(ids, |was|)
  {
    && CallsInTable(CallsMade(a.dev, h, was, ids, a.now), |a.slots|)
    && r.trace == a.trace + Stamp(ids, a.now)
    && r.dev == DevAfter(a.dev, h, was, ids, a.now)
    && r.slots == Naive.PerformAll(a, CallsMade(a.dev, h, was, ids, a.now)).slots
  }

  lemma {:induction false} FireInOrder<D(!new)>(a: Clock<D>, h: Handlers<D>, flags: seq<bool>, was: seq<Timer>, i: nat)
    requires i <= |flags| == |a.slots| && Fits(h, |a.slots|) && SameFuncts(a.slots, was)
    requires forall k :: 0 <= k < |flags| ==> (flags[k] <==> was[k].active && was[k].timeToFire == a.now)
    ensures InRange(DueFrom(was, i, a.now), |was|)
    ensures Fired(a, h, was, DueFrom(was, i, a.now), Naive.FireFrom(a, h, flags, i))
    decreases |flags| - i
  {
    if i < |flags| {
      if flags[i] {
        FireOne(a, h, was, i);
        FireInOrder(Naive.Invoke(a, h, i), h, flags, was, i + 1);
        FireFirst(a, h, was, i, DueFrom(was, i + 1, a.now), Naive.FireFrom(a, h, flags, i));
      } else {
        FireInOrder(a, h, flags, was, i + 1);
        assert DueFrom(was, i, a.now) == DueFrom(was, i + 1, a.now);
      }
    }
  }

  /** One handler, and then those of the others. */
  lemma FireFirst<D(!new)>(a: Clock<D>, h: Handlers<D>, was: seq<Timer>, i: nat, rest: seq<nat>, r: Clock<D>)
    requires i < |a.slots| && Fits(h, |a.slots|) && SameFuncts(a.slots, was) && InRange(rest, |was|)
    requires Fired(Naive.Invoke(a, h, i), h, was, rest, r)
    ensures InRange([i] + rest, |was|) && Fired(a, h, was, [i] + rest, r)
  {
    FireOne(a, h, was, i);
    JoinCalls(a, h, was, i, rest);
    assert ([i] + rest)[1..] == rest;
  }

  lemma FireOne<D(!new)>(a: Clock<D>, h: Handlers<D>, was: seq<Timer>, i: nat)
    requires i < |a.slots| && Fits(h, |a.slots|) && SameFuncts(a.slots, was)
    ensures var (dev, calls) := h(a.dev, was[i].funct, i, a.now);
      var r := Naive.Invoke(a, h, i);
      && CallsInTable(calls, |a.slots|) && r.now == a.now && r.dev == dev
      && r.trace == a.trace + [Firing(a.now, i)] && SameFuncts(r.slots, was)
      && r.slots == Naive.PerformAll(a, calls).slots
  {
    var (dev, calls) := h(a.dev, a.slots[i].funct, i, a.now);
    var b := a.(dev := dev, trace := a.trace + [Firing(a.now, i)]);
    PerformAllKeeps(b, calls);
    PerformAllSlots(a, b, calls);
  }

  /** The calls of the first handler and of the others behind it. */
  lemma JoinCalls<D(!new)>(a: Clock<D>, h: Handlers<D>, was: seq<Timer>, i: nat, rest: seq<nat>)
    requires i < |a.slots| && Fits(h, |a.slots|) && SameFuncts(a.slots, was) && InRange(rest, |was|)
    requires var (dev, calls) := h(a.dev, was[i].funct, i, a.now);
      CallsInTable(CallsMade(dev, h, was, rest, a.now), |a.slots|)
    ensures var (dev, calls) := h(a.dev, was[i].funct, i, a.now);
      var more := CallsMade(dev, h, was, rest, a.now);
      && CallsInTable(calls + more, |a.slots|)
      && Naive.PerformAll(Naive.Invoke(a, h, i), more).slots == Naive.PerformAll(a, calls + more).slots
  {
    var (dev, calls) := h(a.dev, was[i].funct, i, a.now);
    var more := CallsMade(dev, h, was, rest, a.now);
    FireOne(a, h, was, i);
    PerformAllKeeps(a, calls);
    PerformAllJoin(a, calls, more);
    PerformAllSlots(Naive.Invoke(a, h, i), Naive.PerformAll(a, calls), more);
  }

  /** One tick of the naive clock: the timers due fire in index order, each handler gets its
      own function and what the one before left, and their calls are applied in order
      to the table in which what was due is settled. */
  lemma TickOnClock<D(!new)>(a: Clock<D>, h: Handlers<D>)
    requires Fits(h, |a.slots|)
    ensures var now := a.now + 1;
      var ids := DueFrom(a.slots, 0, now);
      && InRange(ids, |a.slots|)
      && Tick(a, h).trace == a.trace + Stamp(ids, now)
      && Tick(a, h).dev == DevAfter(a.dev, h, a.slots, ids, now)
    ensures var now := a.now + 1;
      var calls := CallsMade(a.dev, h, a.slots, DueFrom(a.slots, 0, now), now);
      && CallsInTable(calls, |a.slots|)
      && Tick(a, h).slots == Naive.PerformAll(a.(now := now, slots := SettleAll(a.slots, now)), calls).slots
  {
    var b := a.(now := a.now + 1, slots := SettleAll(a.slots, a.now + 1));
    FireInOrder(b, h, DueFlags(a.slots, |a.slots|, b.now), a.slots, 0);
  }

  /** So does one tick of the countdown scheduler. */
  lemma TickFires<D(!new)>(s: Sched<D>, h: Handlers<D>, ids: set<nat>)
    requires Ready(s, h, ids, 1)
    ensures InTable(h)
    ensures var now := Now(s) + 1;
      var table := s.timer[..s.numTimers];
      var due := DueFrom(table, 0, now);
      && InRange(due, |table|)
      && Tick1(s, h).trace == s.trace + Stamp(due, now)
      && Tick1(s, h).dev == DevAfter(s.dev, h, table, due, now)
    ensures var now := Now(s) + 1;
      var table := s.timer[..s.numTimers];
      var calls := CallsMade(s.dev, h, table, DueFrom(table, 0, now), now);
      var settled := Abs(s).(now := now, slots := SettleAll(table, now));
      && CallsInTable(calls, |table|)
      && Tick1(s, h).timer[..s.numTimers] == Naive.PerformAll(settled, calls).slots
  {
    Tick1Refines(s, h, ids);
    TickOnClock(Abs(s), h);
  }
}
