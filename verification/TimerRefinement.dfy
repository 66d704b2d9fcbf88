/**
 The countdown scheduler agrees with the naive clock: after every operation of
 every run, and for the batched tick.
 */
module TimerRefinement {
  import opened Words
  import opened TimerModel
  import Naive = NaiveClock
  import opened NaiveClock

  function Abs<D>(s: Sched<D>): Clock<D>
    requires s.numTimers <= |s.timer|
  {
    Clock(Now(s), s.timer[..s.numTimers], s.dev, s.trace)
  }

  predicate SlotOk(t: Timer) {
    t.active ==> t.inUse && 1 <= t.period < HORIZON
  }

  predicate NullTimerOk(t: Timer) {
    t.inUse && t.active && t.continuous && t.period == NULL_INTERVAL
  }

  /** Table facts that hold in the middle of a tick as well. */
  ghost predicate TableOk<D>(s: Sched<D>) {
    && |s.timer| == MAX_TIMERS && 1 <= s.numTimers <= MAX_TIMERS
    && NullTimerOk(s.timer[0]) && s.timer[0].timeToFire <= s.ticksTotal + NULL_INTERVAL
    && (forall i :: 0 <= i < s.numTimers ==> SlotOk(s.timer[i]))
    && s.period <= NULL_INTERVAL
    // no active timer is due before the end of the current countdown period
    && (forall i :: 0 <= i < s.numTimers && s.timer[i].active ==>
          s.ticksTotal + s.period <= s.timer[i].timeToFire < TWO_64)
  }

  /** The scheduler's invariant between operations. */
  ghost predicate Inv<D>(s: Sched<D>) {
    && TableOk(s)
    && 0 < s.countdown <= s.period
    && s.ticksTotal + s.period - s.countdown <= HORIZON
  }

  /** The state in which the event method is entered. */
  ghost predicate EventReady<D>(s: Sched<D>) {
    && TableOk(s)
    && s.countdown == 0 < s.period
    && s.ticksTotal + s.period <= HORIZON
  }

  ghost predicate Covers<D>(s: Sched<D>, ids: set<nat>) {
    s.numTimers <= |s.timer| && Registered(s.timer[..s.numTimers], ids)
  }

  /** Ready for n more ticks with handlers that stay within ids. */
  ghost predicate Ready<D(!new)>(s: Sched<D>, h: Handlers<D>, ids: set<nat>, n: nat) {
    Inv(s) && WellBehaved(h, ids) && Covers(s, ids) && Now(s) + n <= HORIZON
  }

  lemma HandlersFit<D(!new)>(h: Handlers<D>, ids: set<nat>, n: nat)
    requires n <= MAX_TIMERS && WellBehaved(h, ids) && forall i :: i in ids ==> i < n
    ensures InTable(h) && Fits(h, n)
  {
    forall d, f, i, t
      ensures CallsInTable(h(d, f, i, t).1, n) && CallsInTable(h(d, f, i, t).1, MAX_TIMERS)
    {
      assert CallsOk(h(d, f, i, t).1, ids);
      forall k | 0 <= k < |h(d, f, i, t).1|
        ensures h(d, f, i, t).1[k].id < n
      {
        assert CallOk(h(d, f, i, t).1[k], ids);
      }
    }
  }

  lemma NowExact<D>(s: Sched<D>)
    requires Inv(s) || EventReady(s)
    ensures Now(s) == s.ticksTotal + s.period - s.countdown
  {
  }

  // ---------- arming and disarming ----------

  /** Skewing by n keeps the time and restores the invariant of a table whose
      active timers are due in n ticks or at the end of the countdown at the earliest. */
  lemma SkewKeeps<D>(s: Sched<D>, n: nat)
    requires TableOk(s.(period := 0)) && 1 <= n
    requires 0 < s.countdown <= s.period <= NULL_INTERVAL
    requires s.ticksTotal + s.period - s.countdown <= HORIZON
    requires forall i :: 0 <= i < s.numTimers && s.timer[i].active ==>
               s.ticksTotal + s.period - s.countdown + (if n < s.countdown then n else s.countdown)
                 <= s.timer[i].timeToFire
    ensures Inv(Skew(s, n)) && Now(Skew(s, n)) == s.ticksTotal + s.period - s.countdown
    ensures Skew(s, n).timer == s.timer && Skew(s, n).numTimers == s.numTimers
  {
    var r := Skew(s, n);
    if n < s.countdown {
      assert r.countdown == n && r.period == s.period - s.countdown + n;
    }
    assert Inv(r);
    NowExact(r);
  }

  lemma ActivateRefines<D>(s: Sched<D>, id: nat, ticks: nat, continuous: bool)
    requires Inv(s) && 1 <= id < s.numTimers && s.timer[id].inUse && ticks < HORIZON
    ensures var r := ActivateTicks(s, id, ticks, continuous);
      Inv(r) && r.numTimers == s.numTimers && Abs(r) == Naive.Perform(Abs(s), Activate(id, ticks, continuous))
  {
    NowExact(s);
    var r := ActivateTicks(s, id, ticks, continuous);
    var t := Arm(s.timer[id], Now(s), ticks, continuous);
    SkewKeeps(s.(timer := s.timer[id := t]), AtLeastOne(ticks));
    assert r.timer[..r.numTimers] == s.timer[..s.numTimers][id := t];
  }

  lemma DeactivateRefines<D>(s: Sched<D>, id: nat)
    requires Inv(s) && 1 <= id < s.numTimers
    ensures var r := DeactivateTimer(s, id);
      Inv(r) && r.numTimers == s.numTimers && Abs(r) == Naive.Perform(Abs(s), Deactivate(id))
  {
    var r := DeactivateTimer(s, id);
    assert r.timer[..r.numTimers] == s.timer[..s.numTimers][id := s.timer[id].(active := false)];
  }

  /** One call keeps the invariant, the time and the set of registered slots. */
  lemma PerformRefines<D>(s: Sched<D>, c: Call, ids: set<nat>)
    requires Inv(s) && Covers(s, ids) && CallOk(c, ids)
    ensures var r := TimerModel.Perform(s, c);
      Inv(r) && Abs(r) == Naive.Perform(Abs(s), c) && r.numTimers == s.numTimers
      && Now(r) == Now(s) && Covers(r, ids)
  {
    var r := TimerModel.Perform(s, c);
    match c
    case Activate(id, ticks, continuous) =>
      ActivateRefines(s, id, ticks, continuous);
      assert Now(r) == Abs(r).now == Abs(s).now;
    case Deactivate(id) =>
      DeactivateRefines(s, id);
      assert Now(r) == Abs(r).now == Abs(s).now;
  }

  lemma {:induction false} PerformAllRefines<D>(s: Sched<D>, calls: seq<Call>, ids: set<nat>)
    requires Inv(s) && Covers(s, ids) && CallsOk(calls, ids)
    ensures CallsInTable(calls, s.numTimers)
    ensures var r := TimerModel.PerformAll(s, calls);
      Inv(r) && Abs(r) == Naive.PerformAll(Abs(s), calls) && r.numTimers == s.numTimers
      && Now(r) == Now(s) && Covers(r, ids)
    decreases |calls|
  {
    forall k | 0 <= k < |calls|
      ensures calls[k].id < s.numTimers
    {
      assert CallOk(calls[k], ids);
    }
    if calls != [] {
      assert CallOk(calls[0], ids);
      PerformRefines(s, calls[0], ids);
      PerformAllRefines(TimerModel.Perform(s, calls[0]), calls[1..], ids);
    }
  }

  lemma FilledTable<D>(s: Sched<D>, i: nat, t: Timer)
    requires TableOk(s) && 1 <= i <= s.numTimers && i < |s.timer| && SlotOk(t)
    requires s.ticksTotal <= t.timeToFire < TWO_64
    ensures TableOk(s.(timer := s.timer[i := t], period := 0,
                       numTimers := if i == s.numTimers then s.numTimers + 1 else s.numTimers))
  {
    var s1 := s.(timer := s.timer[i := t],
                 numTimers := if i == s.numTimers then s.numTimers + 1 else s.numTimers);
    assert forall k :: 0 <= k < s1.numTimers ==> k == i || s1.timer[k] == s.timer[k];
  }

  lemma RegisterKeeps<D>(s: Sched<D>, funct: nat, ticks: nat, continuous: bool, active: bool)
    requires Inv(s) && ticks < HORIZON && RegisterSlot(s) < MAX_TIMERS
    ensures var r := RegisterTicks(s, funct, ticks, continuous, active);
      var i := RegisterSlot(s);
      var p := if ticks == 0 then 1 else ticks;
      && Inv(r) && Now(r) == Now(s)
      && r.timer == s.timer[i := Timer(true, p, Now(s) + p, active, continuous, funct)]
      && r.numTimers == (if i == s.numTimers then s.numTimers + 1 else s.numTimers)
  {
    NowExact(s);
    var n := AtLeastOne(ticks);
    var i := RegisterSlot(s);
    var t := Timer(true, n, Now(s) + n, active, continuous, funct);
    var s1 := s.(timer := s.timer[i := t],
                 numTimers := if i == s.numTimers then s.numTimers + 1 else s.numTimers);
    FilledTable(s, i, t);
    if active {
      SkewKeeps(s1, n);
    } else {
      NowExact(s1);
    }
  }

  lemma RegisterRefines<D>(s: Sched<D>, funct: nat, ticks: nat, continuous: bool, active: bool)
    requires Inv(s) && ticks < HORIZON && RegisterSlot(s) < MAX_TIMERS
    ensures var r := RegisterTicks(s, funct, ticks, continuous, active);
      Inv(r) && Abs(r) == Naive.Register(Abs(s), funct, ticks, continuous, active)
  {
    RegisterKeeps(s, funct, ticks, continuous, active);
    var r := RegisterTicks(s, funct, ticks, continuous, active);
    FilledSlice(s.timer, s.numTimers, RegisterSlot(s), r.timer[RegisterSlot(s)]);
    assert Abs(r).slots == Naive.Register(Abs(s), funct, ticks, continuous, active).slots;
  }

  lemma FilledSlice(timer: seq<Timer>, n: nat, i: nat, t: Timer)
    requires i <= n <= |timer| && i < |timer|
    ensures timer[i := t][..if i == n then n + 1 else n]
         == timer[..n][..i] + [t] + (if i < n then timer[..n][i + 1..] else [])
  {
  }

  lemma UnregisterRefines<D>(s: Sched<D>, id: nat)
    requires Inv(s) && 1 <= id < s.numTimers
    ensures var (r, ok) := UnregisterTimer(s, id);
      Inv(r) && ok == !s.timer[id].active && Abs(r) == Naive.Unregister(Abs(s), id)
  {
    var (r, _) := UnregisterTimer(s, id);
    assert Abs(r).slots == Naive.Unregister(Abs(s), id).slots;
  }

  // ---------- the event ----------

  lemma {:induction false} MinDeadlineIsLeast(timer: seq<Timer>, n: nat)
    requires n <= |timer|
    ensures var m := MinDeadline(timer, n);
      && (forall i :: 0 <= i < n && timer[i].active ==> m <= timer[i].timeToFire)
      && (m == TWO_64 - 1 || exists i :: 0 <= i < n && timer[i].active && timer[i].timeToFire == m)
  {
    if n > 0 {
      MinDeadlineIsLeast(timer, n - 1);
    }
  }

  /** The first half of the event restarts the countdown exactly at the next
      deadline: at least one tick away, and small enough for 32 bits. */
  lemma AdvanceRestarts<D>(s: Sched<D>)
    requires EventReady(s)
    ensures var r := Advance(s);
      && Inv(r) && Now(r) == s.ticksTotal + s.period && r.numTimers == s.numTimers
      && r.timer[..r.numTimers] == SettleAll(s.timer[..s.numTimers], Now(r))
      && 1 <= r.countdown == MinDeadline(r.timer, r.numTimers) - Now(r) <= NULL_INTERVAL
  {
    var r := Advance(s);
    var now := s.ticksTotal + s.period;
    var n := s.numTimers;
    forall i | 0 <= i < n
      ensures r.timer[i] == Settle(s.timer[i], now)
      ensures r.timer[i].active ==> now < r.timer[i].timeToFire < TWO_64
    {
      assert SlotOk(s.timer[i]);
    }
    MinDeadlineIsLeast(r.timer, n);
    var m := MinDeadline(r.timer, n);
    assert r.timer[0].active && r.timer[0].timeToFire <= now + NULL_INTERVAL;
    assert now < m <= now + NULL_INTERVAL;
    assert r.countdown == m - now;
    assert TableOk(r) by {
      forall i | 0 <= i < n
        ensures SlotOk(r.timer[i])
      {
        assert SlotOk(s.timer[i]);
      }
    }
    NowExact(r);
    assert r.timer[..n] == SettleAll(s.timer[..n], now);
  }

  lemma InvokeRefines<D(!new)>(s: Sched<D>, h: Handlers<D>, ids: set<nat>, id: nat)
    requires Inv(s) && WellBehaved(h, ids) && Covers(s, ids) && id < s.numTimers
    ensures InTable(h) && Fits(h, s.numTimers)
    ensures var r := TimerModel.Invoke(s, h, id);
      Inv(r) && r.numTimers == s.numTimers && Abs(r) == Naive.Invoke(Abs(s), h, id)
      && Now(r) == Now(s) && Covers(r, ids)
  {
    HandlersFit(h, ids, s.numTimers);
    var (dev, calls) := h(s.dev, s.timer[id].funct, id, Now(s));
    var s1 := s.(dev := dev, trace := s.trace + [Firing(Now(s), id)]);
    PerformAllRefines(s1, calls, ids);
  }

  lemma {:induction false} FireRefines<D(!new)>(s: Sched<D>, h: Handlers<D>, ids: set<nat>, flags: seq<bool>, i: nat)
    requires Inv(s) && WellBehaved(h, ids) && Covers(s, ids) && i <= |flags| == s.numTimers
    ensures InTable(h) && Fits(h, s.numTimers)
    ensures var r := TimerModel.FireFrom(s, h, flags, i);
      Inv(r) && r.numTimers == s.numTimers && Abs(r) == Naive.FireFrom(Abs(s), h, flags, i)
      && Now(r) == Now(s) && Covers(r, ids)
    decreases |flags| - i
  {
    HandlersFit(h, ids, s.numTimers);
    if i < |flags| {
      if flags[i] {
        InvokeRefines(s, h, ids, i);
        FireRefines(TimerModel.Invoke(s, h, i), h, ids, flags, i + 1);
      } else {
        FireRefines(s, h, ids, flags, i + 1);
      }
    }
  }

  /** The event is the sweep of the naive clock at the time it is entered, and
      leaves a countdown of at least one tick. */
  lemma EventRefines<D(!new)>(s: Sched<D>, h: Handlers<D>, ids: set<nat>)
    requires EventReady(s) && WellBehaved(h, ids) && Covers(s, ids)
    ensures InTable(h) && Fits(h, s.numTimers)
    ensures var r := CountdownEvent(s, h);
      Inv(r) && r.numTimers == s.numTimers && Abs(r) == Sweep(Abs(s), h)
      && Now(r) == Now(s) && r.countdown >= 1
      && Covers(r, ids)
  {
    HandlersFit(h, ids, s.numTimers);
    NowExact(s);
    AdvanceRestarts(s);
    var flags := DueFlags(s.timer, s.numTimers, Now(s));
    assert flags == DueFlags(s.timer[..s.numTimers], s.numTimers, Now(s));
    FireRefines(Advance(s), h, ids, flags, 0);
  }

  // ---------- ticking ----------

  /** A tick at which nothing is due changes nothing but the time. */
  lemma {:induction false} QuietFire<D(!new)>(a: Clock<D>, h: Handlers<D>, flags: seq<bool>, i: nat)
    requires i <= |flags| <= |a.slots| && Fits(h, |a.slots|)
    requires forall j :: 0 <= j < |flags| ==> !flags[j]
    ensures Naive.FireFrom(a, h, flags, i) == a
    decreases |flags| - i
  {
    if i < |flags| {
      QuietFire(a, h, flags, i + 1);
    }
  }

  lemma QuietSweep<D(!new)>(a: Clock<D>, h: Handlers<D>)
    requires Fits(h, |a.slots|)
    requires forall i :: 0 <= i < |a.slots| ==> !Due(a.slots[i], a.now)
    ensures Sweep(a, h) == a
  {
    assert SettleAll(a.slots, a.now) == a.slots;
    QuietFire(a, h, DueFlags(a.slots, |a.slots|, a.now), 0);
  }

  /** One tick of the countdown is one tick of the naive clock. */
  lemma Tick1Refines<D(!new)>(s: Sched<D>, h: Handlers<D>, ids: set<nat>)
    requires Ready(s, h, ids, 1)
    ensures InTable(h) && Fits(h, s.numTimers)
    ensures var r := Tick1(s, h);
      Inv(r) && r.numTimers == s.numTimers && Abs(r) == Tick(Abs(s), h)
      && Now(r) == Now(s) + 1
      && Covers(r, ids)
  {
    HandlersFit(h, ids, s.numTimers);
    NowExact(s);
    var s1 := s.(countdown := s.countdown - 1);
    var a1 := Abs(s).(now := Now(s) + 1);
    if s1.countdown == 0 {
      EventRefines(s1, h, ids);
      assert Abs(s1) == a1;
    } else {
      NowExact(s1);
      assert Abs(s1) == a1;
      forall i | 0 <= i < |a1.slots|
        ensures !Due(a1.slots[i], a1.now)
      {
      }
      QuietSweep(a1, h);
    }
  }

  /** Any number of single ticks agrees with the naive clock. */
  lemma {:induction false} Tick1sRefine<D(!new)>(s: Sched<D>, h: Handlers<D>, ids: set<nat>, n: nat)
    requires Ready(s, h, ids, n)
    ensures InTable(h) && Fits(h, s.numTimers)
    ensures var r := Tick1s(s, h, n);
      Ready(r, h, ids, 0) && Now(r) == Now(s) + n && Abs(r) == Ticks(Abs(s), h, n)
    decreases n
  {
    HandlersFit(h, ids, s.numTimers);
    if n > 0 {
      Tick1Refines(s, h, ids);
      Tick1sRefine(Tick1(s, h), h, ids, n - 1);
    }
  }

  /** The batched tick: run whole countdowns while they fit, then the rest. */
  ghost function TickN<D(!new)>(s: Sched<D>, h: Handlers<D>, ids: set<nat>, n: nat): (r: Sched<D>)
    requires Ready(s, h, ids, n)
    ensures Ready(r, h, ids, 0) && r.numTimers == s.numTimers && Now(r) == Now(s) + n
    decreases n
  {
    NowExact(s);
    if n < s.countdown then
      var r := s.(countdown := s.countdown - n);
      NowExact(r);
      r
    else
      EventRefines(s.(countdown := 0), h, ids);
      TickN(CountdownEvent(s.(countdown := 0), h), h, ids, n - s.countdown)
  }

  /** A batched tick that reaches the end of the countdown goes on behind the event. */
  lemma CountdownOver<D(!new)>(s: Sched<D>, h: Handlers<D>, ids: set<nat>, n: nat)
    requires Ready(s, h, ids, n) && n >= s.countdown
    ensures EventReady(s.(countdown := 0)) && Covers(s.(countdown := 0), ids) && InTable(h)
    ensures var t := CountdownEvent(s.(countdown := 0), h);
      Ready(t, h, ids, n - s.countdown) && TickN(t, h, ids, n - s.countdown) == TickN(s, h, ids, n)
  {
    NowExact(s);
    EventRefines(s.(countdown := 0), h, ids);
  }

  /** Below the end of the countdown single ticks only count down. */
  lemma {:induction false} QuietTicks<D(!new)>(s: Sched<D>, h: Handlers<D>, ids: set<nat>, n: nat)
    requires Ready(s, h, ids, n) && n < s.countdown
    ensures InTable(h) && Tick1s(s, h, n) == s.(countdown := s.countdown - n)
    decreases n
  {
    HandlersFit(h, ids, s.numTimers);
    if n > 0 {
      Tick1Refines(s, h, ids);
      assert Tick1(s, h) == s.(countdown := s.countdown - 1);
      QuietTicks(Tick1(s, h), h, ids, n - 1);
    }
  }

  /** The last tick of a countdown is the event. */
  lemma WholeCountdown<D(!new)>(s: Sched<D>, h: Handlers<D>, ids: set<nat>)
    requires Ready(s, h, ids, s.countdown)
    ensures InTable(h)
    ensures Tick1s(s, h, s.countdown) == CountdownEvent(s.(countdown := 0), h)
  {
    HandlersFit(h, ids, s.numTimers);
    var c, last := s.countdown, 1;
    QuietTicks(s, h, ids, c - last);
    LastOfTicks(s, h, c - last, last, c);
  }

  lemma LastOfTicks<D(!new)>(s: Sched<D>, h: Handlers<D>, m: nat, last: nat, n: nat)
    requires s.numTimers <= |s.timer| == MAX_TIMERS && InTable(h) && last == 1 && n == m + last
    requires Tick1s(s, h, m) == s.(countdown := last)
    ensures Tick1s(s, h, n) == CountdownEvent(s.(countdown := 0), h)
  {
    LastTick(s.(countdown := last), h, last);
    SingleTicksCompose(s, h, m, last);
  }

  lemma LastTick<D(!new)>(s: Sched<D>, h: Handlers<D>, last: nat)
    requires s.numTimers <= |s.timer| == MAX_TIMERS && InTable(h) && s.countdown == 1 == last
    ensures Tick1s(s, h, last) == CountdownEvent(s.(countdown := 0), h)
  {
    assert Tick1s(s, h, last) == Tick1s(Tick1(s, h), h, last - 1);
  }

  /** The batched tick reaches the very state, trace included, of n single ticks. */
  lemma {:induction false} TickNIsTick1s<D(!new)>(s: Sched<D>, h: Handlers<D>, ids: set<nat>, n: nat)
    requires Ready(s, h, ids, n)
    ensures InTable(h) && TickN(s, h, ids, n) == Tick1s(s, h, n)
    decreases n
  {
    if n < s.countdown {
      QuietTicks(s, h, ids, n);
    } else {
      var t, rest := BehindEvent(s, h, ids, n);
      TickNIsTick1s(t, h, ids, rest);
    }
  }

  /** Both go on behind the event in the same way. */
  lemma BehindEvent<D(!new)>(s: Sched<D>, h: Handlers<D>, ids: set<nat>, n: nat) returns (t: Sched<D>, rest: nat)
    requires Ready(s, h, ids, n) && n >= s.countdown
    ensures Ready(t, h, ids, rest) && rest < n && InTable(h)
    ensures TickN(t, h, ids, rest) == TickN(s, h, ids, n)
    ensures Tick1s(t, h, rest) == Tick1s(s, h, n)
  {
    CountdownOver(s, h, ids, n);
    Tick1sOver(s, h, ids, n);
    t, rest := CountdownEvent(s.(countdown := 0), h), n - s.countdown;
  }

  /** So do single ticks. */
  lemma Tick1sOver<D(!new)>(s: Sched<D>, h: Handlers<D>, ids: set<nat>, n: nat)
    requires Ready(s, h, ids, n) && n >= s.countdown
    ensures InTable(h)
    ensures s.numTimers <= |s.timer| == MAX_TIMERS
    ensures Tick1s(CountdownEvent(s.(countdown := 0), h), h, n - s.countdown) == Tick1s(s, h, n)
  {
    WholeCountdown(s, h, ids);
    SingleTicksCompose(s, h, s.countdown, n - s.countdown);
  }

  /** The batched tick agrees with the naive clock. */
  lemma TickNRefines<D(!new)>(s: Sched<D>, h: Handlers<D>, ids: set<nat>, n: nat)
    requires Ready(s, h, ids, n)
    ensures Fits(h, s.numTimers)
    ensures var r := TickN(s, h, ids, n);
      Inv(r) && Abs(r) == Ticks(Abs(s), h, n) && Now(r) == Now(s) + n
      && Covers(r, ids)
  {
    TickNIsTick1s(s, h, ids, n);
    Tick1sRefine(s, h, ids, n);
  }
}
