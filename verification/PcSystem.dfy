/**
 The PC system object: the scheduler's fields updated in place.
 */
module PcSystem {
  import opened Words
  import opened TimerModel
  import opened TimerRefinement
  import opened NaiveClock

  function Max(a: nat, b: nat): nat { if a < b then b else a }

  class System<D(!new)> {
    const timer: array<Timer>
    var numTimers: nat
    var triggeredTimer: nat
    var currCountdown: nat
    var currCountdownPeriod: nat
    var ticksTotal: nat
    var lastTimeUsec: nat
    var usecSinceLast: nat
    // the rest of the emulator, which the handlers read and change
    var dev: D
    ghost var trace: seq<Firing>

    ghost function State(): Sched<D>
      reads this, timer
    {
      Sched(timer[..], numTimers, currCountdown, currCountdownPeriod, ticksTotal, dev, trace)
    }

    ghost predicate Valid()
      reads this, timer
    {
      Inv(State()) && triggeredTimer == 0
    }

    /** An id a client may use: a registered timer other than the null timer. */
    ghost predicate ClientId(id: nat)
      reads this, timer
    {
      1 <= id < numTimers && id < timer.Length && timer[id].inUse
    }

    constructor (dev: D)
      ensures fresh(timer) && timer.Length == MAX_TIMERS && numTimers == 1
      ensures NullTimerOk(timer[0]) && trace == [] && this.dev == dev
    {
      timer := new Timer[MAX_TIMERS](i => FREE_SLOT);
      numTimers := 1;
      triggeredTimer, currCountdown, currCountdownPeriod, ticksTotal := 0, 0, 0, 0;
      lastTimeUsec, usecSinceLast := 0, 0;
      this.dev := dev;
      trace := [];
      new;
      timer[0] := Timer(true, NULL_INTERVAL, 0, true, true, 0);
    }

    /** Starts the clock at zero, with the null timer alone. */
    method Initialize()
      requires timer.Length == MAX_TIMERS && numTimers == 1 && NullTimerOk(timer[0])
      modifies this, timer
      ensures Valid() && Now(State()) == 0 && numTimers == 1
      ensures currCountdown == timer[0].timeToFire == timer[0].period == 0xffff_ffff
      ensures dev == old(dev) && trace == old(trace) && lastTimeUsec == usecSinceLast == 0
    {
      ticksTotal := 0;
      timer[0] := timer[0].(timeToFire := NULL_INTERVAL);
      currCountdown := NULL_INTERVAL;
      currCountdownPeriod := NULL_INTERVAL;
      lastTimeUsec := 0;
      usecSinceLast := 0;
      triggeredTimer := 0;
    }

    /** The time in ticks.  Between operations nothing wraps around, and every active timer
        is due no earlier than the end of the countdown. */
    method TimeTicks() returns (t: nat)
      ensures t == Now(State())
      ensures Valid() ==> t == ticksTotal + currCountdownPeriod - currCountdown <= HORIZON
      ensures Valid() ==> forall i :: 0 <= i < numTimers && timer[i].active ==> t + currCountdown <= timer[i].timeToFire
    {
      t := U64(ticksTotal + U32(currCountdownPeriod - currCountdown));
      if Valid() {
        NowExact(State());
        assert timer[..] == State().timer;
      }
    }

    // ---------- arming and disarming ----------

    /** The first slot not in use, or the one behind the table in use. */
    method FreeSlot() returns (id: nat)
      requires Valid()
      ensures id == RegisterSlot(State())
    {
      ghost var s := State();
      id := 1;
      while id < numTimers && timer[id].inUse
        invariant 1 <= id <= numTimers
        invariant FreeFrom(s.timer[..s.numTimers], 1) == FreeFrom(s.timer[..s.numTimers], id)
      {
        id := id + 1;
      }
    }

    method RegisterTimerTicks(funct: nat, ticks: nat, continuous: bool, active: bool) returns (id: nat)
      requires Valid() && ticks < HORIZON && RegisterSlot(State()) < MAX_TIMERS
      modifies this, timer
      ensures Valid() && id == RegisterSlot(old(State()))
      ensures State() == RegisterTicks(old(State()), funct, ticks, continuous, active)
      ensures var p := if ticks == 0 then 1 else ticks;
        timer[id] == Timer(true, p, Now(old(State())) + p, active, continuous, funct)
      ensures lastTimeUsec == old(lastTimeUsec) && usecSinceLast == old(usecSinceLast)
    {
      ghost var s := State();
      RegisterKeeps(s, funct, ticks, continuous, active);
      id := FreeSlot();
      FillSlot(id, funct, ticks, continuous, active);
    }

    /** Shortens the countdown for a timer that is due before it ends. */
    method SkewCountdown(n: nat)
      modifies this`currCountdown, this`currCountdownPeriod
      ensures State() == Skew(old(State()), n)
    {
      if n < currCountdown {
        currCountdownPeriod := U32(currCountdownPeriod - (currCountdown - U32(n)));
        currCountdown := U32(n);
      }
    }

    /** The rest of register_timer_ticks. */
    method FillSlot(id: nat, funct: nat, ticks: nat, continuous: bool, active: bool)
      requires timer.Length == MAX_TIMERS && 1 <= numTimers <= MAX_TIMERS
      requires id == RegisterSlot(State()) < MAX_TIMERS
      modifies this, timer
      ensures State() == RegisterTicks(old(State()), funct, ticks, continuous, active)
      ensures triggeredTimer == old(triggeredTimer)
      ensures lastTimeUsec == old(lastTimeUsec) && usecSinceLast == old(usecSinceLast)
    {
      ghost var s := State();
      var n := if ticks < 1 then 1 else ticks;
      var now := TimeTicks();
      timer[id] := Timer(true, n, U64(now + n), active, continuous, funct);
      if active {
        SkewCountdown(n);
      }
      if id == numTimers {
        numTimers := numTimers + 1;
      }
      assert timer[..] == RegisterTicks(s, funct, ticks, continuous, active).timer;
    }

    method ActivateTimerTicks(id: nat, ticks: nat, continuous: bool)
      requires timer.Length == MAX_TIMERS && id < MAX_TIMERS
      modifies this, timer
      ensures State() == ActivateTicks(old(State()), id, ticks, continuous)
      ensures old(Valid() && ClientId(id)) && ticks < HORIZON ==> Valid() && ClientId(id)
      ensures old(Valid() && ClientId(id)) && ticks < HORIZON ==>
                var p := if ticks == 0 then 1 else ticks;
                && timer[id].active && timer[id].continuous == continuous
                && timer[id].period == p && timer[id].timeToFire == Now(old(State())) + p
      ensures triggeredTimer == old(triggeredTimer)
      ensures lastTimeUsec == old(lastTimeUsec) && usecSinceLast == old(usecSinceLast)
    {
      if Valid() && ClientId(id) && ticks < HORIZON {
        ActivateRefines(State(), id, ticks, continuous);
        assert Abs(ActivateTicks(State(), id, ticks, continuous)).slots[id]
            == Arm(timer[id], Now(State()), ticks, continuous);
      }
      ArmSlot(id, ticks, continuous);
    }

    /** The body of activate_timer_ticks. */
    method ArmSlot(id: nat, ticks: nat, continuous: bool)
      requires timer.Length == MAX_TIMERS && id < MAX_TIMERS
      modifies this, timer
      ensures State() == ActivateTicks(old(State()), id, ticks, continuous)
      ensures triggeredTimer == old(triggeredTimer)
      ensures lastTimeUsec == old(lastTimeUsec) && usecSinceLast == old(usecSinceLast)
    {
      ghost var s := State();
      var n := if ticks < 1 then 1 else ticks;
      var now := TimeTicks();
      timer[id] := timer[id].(period := n, timeToFire := U64(now + n), active := true, continuous := continuous);
      SkewCountdown(n);
      assert timer[..] == ActivateTicks(s, id, ticks, continuous).timer;
    }

    method DeactivateTimerSlot(id: nat)
      requires timer.Length == MAX_TIMERS && id < MAX_TIMERS
      modifies timer
      ensures State() == DeactivateTimer(old(State()), id)
      ensures old(Valid() && ClientId(id)) ==> Valid() && ClientId(id)
    {
      if Valid() && ClientId(id) {
        DeactivateRefines(State(), id);
      }
      timer[id] := timer[id].(active := false);
    }

    method Unregister(id: nat) returns (ok: bool)
      requires Valid() && 1 <= id < numTimers
      modifies this, timer
      ensures Valid() && (State(), ok) == UnregisterTimer(old(State()), id)
      ensures lastTimeUsec == old(lastTimeUsec) && usecSinceLast == old(usecSinceLast)
    {
      UnregisterRefines(State(), id);
      if timer[id].active {
        return false;
      }
      timer[id] := FREE_SLOT;
      if id == numTimers - 1 {
        numTimers := numTimers - 1;
      }
      return true;
    }

    method Request(c: Call)
      requires timer.Length == MAX_TIMERS && c.id < MAX_TIMERS
      modifies this, timer
      ensures State() == TimerModel.Perform(old(State()), c)
      ensures triggeredTimer == old(triggeredTimer)
      ensures lastTimeUsec == old(lastTimeUsec) && usecSinceLast == old(usecSinceLast)
    {
      match c
      case Activate(id, ticks, continuous) => ActivateTimerTicks(id, ticks, continuous);
      case Deactivate(id) => DeactivateTimerSlot(id);
    }

    method RequestAll(calls: seq<Call>)
      requires timer.Length == MAX_TIMERS && CallsInTable(calls, MAX_TIMERS)
      modifies this, timer
      ensures State() == TimerModel.PerformAll(old(State()), calls)
      ensures triggeredTimer == old(triggeredTimer)
      ensures lastTimeUsec == old(lastTimeUsec) && usecSinceLast == old(usecSinceLast)
    {
      for k := 0 to |calls|
        invariant TimerModel.PerformAll(State(), calls[k..]) == TimerModel.PerformAll(old(State()), calls)
        invariant triggeredTimer == old(triggeredTimer)
        invariant lastTimeUsec == old(lastTimeUsec) && usecSinceLast == old(usecSinceLast)
      {
        assert calls[k..][0] == calls[k] && calls[k..][1..] == calls[k + 1..];
        Request(calls[k]);
      }
    }

    // ---------- the event ----------

    /** One pass of the expiry loop: settle slot i and lower the minimum. */
    method SettleSlot(i: nat, min: nat) returns (due: bool, newMin: nat)
      requires i < timer.Length
      modifies timer
      ensures due == Due(old(timer[i]), ticksTotal)
      ensures timer[..] == old(timer[..])[i := Expire(old(timer[i]), ticksTotal)]
      ensures newMin == if timer[i].active && timer[i].timeToFire < min then timer[i].timeToFire else min
    {
      due, newMin := false, min;
      if timer[i].active {
        if ticksTotal == timer[i].timeToFire {
          due := true;
          if !timer[i].continuous {
            timer[i] := timer[i].(active := false);
          } else {
            timer[i] := timer[i].(timeToFire := U64(timer[i].timeToFire + timer[i].period));
            if timer[i].timeToFire < newMin {
              newMin := timer[i].timeToFire;
            }
          }
        } else {
          if timer[i].timeToFire < newMin {
            newMin := timer[i].timeToFire;
          }
        }
      }
    }

    /** The expiry loop, with its record of what fired and the least deadline left. */
    method SettleSlots() returns (triggered: array<bool>, minTimeToFire: nat)
      requires timer.Length == MAX_TIMERS && numTimers <= MAX_TIMERS
      modifies timer
      ensures timer[..] == ExpireAll(old(timer[..]), numTimers, ticksTotal)
      ensures fresh(triggered) && triggered.Length == MAX_TIMERS
      ensures triggered[..numTimers] == DueFlags(old(timer[..]), numTimers, ticksTotal)
      ensures minTimeToFire == MinDeadline(timer[..], numTimers)
    {
      ghost var was := timer[..];
      triggered := new bool[MAX_TIMERS](i => false);
      minTimeToFire := TWO_64 - 1;
      SettledStart(triggered[..], minTimeToFire);
      for i := 0 to numTimers
        modifies timer, triggered
        invariant Settled(was, triggered[..], minTimeToFire, i)
      {
        minTimeToFire := SettleNext(was, triggered, i, minTimeToFire);
      }
      SettledAll(was, triggered[..], minTimeToFire);
    }

    lemma SettledStart(triggered: seq<bool>, min: nat)
      requires timer.Length == MAX_TIMERS && numTimers <= MAX_TIMERS && |triggered| == MAX_TIMERS && min == TWO_64 - 1
      ensures Settled(timer[..], triggered, min, 0)
    {
    }

    lemma SettledAll(was: seq<Timer>, triggered: seq<bool>, min: nat)
      requires Settled(was, triggered, min, numTimers)
      ensures timer[..] == ExpireAll(was, numTimers, ticksTotal)
      ensures triggered[..numTimers] == DueFlags(was, numTimers, ticksTotal)
      ensures min == MinDeadline(timer[..], numTimers)
    {
    }

    /** What the expiry loop has done when the first i slots are settled. */
    ghost predicate Settled(was: seq<Timer>, triggered: seq<bool>, min: nat, i: nat)
      reads this, timer
    {
      && i <= numTimers <= |was| == |triggered| == timer.Length
      && timer[..] == ExpireAll(was, numTimers, ticksTotal)[..i] + was[i..]
      && triggered[..i] == DueFlags(was, numTimers, ticksTotal)[..i]
      && min == MinDeadline(ExpireAll(was, numTimers, ticksTotal), i)
    }

    /** One turn of the expiry loop. */
    method SettleNext(ghost was: seq<Timer>, triggered: array<bool>, i: nat, min: nat) returns (newMin: nat)
      requires i < numTimers && Settled(was, triggered[..], min, i)
      modifies timer, triggered
      ensures Settled(was, triggered[..], newMin, i + 1)
    {
      ghost var expired := ExpireAll(was, numTimers, ticksTotal);
      ghost var flags := DueFlags(was, numTimers, ticksTotal);
      assert timer[i] == timer[..][i] == was[i];
      triggered[i], newMin := SettleSlot(i, min);
      assert timer[..][i] == expired[i];
      assert timer[..] == expired[..i + 1] + was[i + 1..];
      assert triggered[..][..i + 1] == flags[..i] + [flags[i]];
    }

    /** The first half of the event: settle the table and restart the countdown. */
    method ExpireDue() returns (triggered: array<bool>)
      requires timer.Length == MAX_TIMERS && numTimers <= MAX_TIMERS
      modifies this, timer
      ensures State() == Advance(old(State()))
      ensures fresh(triggered) && triggered.Length == MAX_TIMERS
      ensures triggered[..numTimers] == DueFlags(old(State()).timer, numTimers, ticksTotal)
      ensures triggeredTimer == old(triggeredTimer)
      ensures lastTimeUsec == old(lastTimeUsec) && usecSinceLast == old(usecSinceLast)
    {
      var minTimeToFire;
      ticksTotal := U64(ticksTotal + currCountdownPeriod);
      triggered, minTimeToFire := SettleSlots();
      currCountdownPeriod := U32(minTimeToFire - ticksTotal);
      currCountdown := currCountdownPeriod;
    }

    method CallHandler(id: nat, h: Handlers<D>)
      requires timer.Length == MAX_TIMERS && id < MAX_TIMERS && InTable(h)
      modifies this, timer
      ensures State() == TimerModel.Invoke(old(State()), h, id)
      ensures triggeredTimer == 0
      ensures lastTimeUsec == old(lastTimeUsec) && usecSinceLast == old(usecSinceLast)
    {
      triggeredTimer := id;
      var now := TimeTicks();
      var (d, calls) := h(dev, timer[id].funct, id, now);
      dev := d;
      trace := trace + [Firing(now, id)];
      RequestAll(calls);
      triggeredTimer := 0;
    }

    method RunCountdownEvent(h: Handlers<D>, ghost ids: set<nat>)
      requires EventReady(State()) && triggeredTimer == 0 && WellBehaved(h, ids) && Covers(State(), ids)
      modifies this, timer
      ensures InTable(h) && State() == CountdownEvent(old(State()), h)
      ensures Valid() && Covers(State(), ids) && currCountdown >= 1
      ensures lastTimeUsec == old(lastTimeUsec) && usecSinceLast == old(usecSinceLast)
    {
      ghost var s := State();
      EventRefines(s, h, ids);
      var triggered := ExpireDue();
      ghost var flags := triggered[..numTimers];
      for i := 0 to numTimers
        invariant numTimers == |flags| == s.numTimers && triggeredTimer == 0
        invariant triggered[..numTimers] == flags
        invariant TimerModel.FireFrom(State(), h, flags, i) == CountdownEvent(s, h)
        invariant lastTimeUsec == old(lastTimeUsec) && usecSinceLast == old(usecSinceLast)
      {
        assert triggered[i] == flags[i];
        if triggered[i] {
          CallHandler(i, h);
        }
      }
    }

    // ---------- ticking ----------

    method TickOnce(h: Handlers<D>, ghost ids: set<nat>)
      requires Valid() && Ready(State(), h, ids, 1)
      modifies this, timer
      ensures Valid() && Covers(State(), ids)
      ensures InTable(h) && State() == Tick1(old(State()), h)
      ensures lastTimeUsec == old(lastTimeUsec) && usecSinceLast == old(usecSinceLast)
    {
      Tick1Refines(State(), h, ids);
      NowExact(State());
      currCountdown := U32(currCountdown - 1);
      if currCountdown == 0 {
        RunCountdownEvent(h, ids);
      }
    }

    method Tickn(ticks: nat, h: Handlers<D>, ghost ids: set<nat>)
      requires Valid() && Ready(State(), h, ids, ticks)
      modifies this, timer
      ensures Valid() && Ready(State(), h, ids, 0)
      ensures State() == TickN(old(State()), h, ids, ticks)
      ensures lastTimeUsec == old(lastTimeUsec) && usecSinceLast == old(usecSinceLast)
    {
      var n: nat := ticks;
      while n >= currCountdown
        invariant Valid() && Ready(State(), h, ids, n)
        invariant TickN(State(), h, ids, n) == TickN(old(State()), h, ids, ticks)
        invariant lastTimeUsec == old(lastTimeUsec) && usecSinceLast == old(usecSinceLast)
        decreases n
      {
        n := RunDown(n, h, ids);
      }
      NowExact(State());
      currCountdown := U32(currCountdown - n);
    }

    /** One turn of tickn: the rest of the countdown and its event. */
    method RunDown(n: nat, h: Handlers<D>, ghost ids: set<nat>) returns (left: nat)
      requires Valid() && Ready(State(), h, ids, n) && n >= currCountdown
      modifies this, timer
      ensures left == n - old(currCountdown)
      ensures Valid() && Ready(State(), h, ids, left)
      ensures TickN(State(), h, ids, left) == TickN(old(State()), h, ids, n)
      ensures lastTimeUsec == old(lastTimeUsec) && usecSinceLast == old(usecSinceLast)
    {
      ghost var s := State();
      CountdownOver(s, h, ids, n);
      left := n - currCountdown;
      currCountdown := 0;
      assert State() == s.(countdown := 0);
      RunCountdownEvent(h, ids);
    }

    // ---------- the sequential microsecond clock ----------

    /** The last value handed out by the sequential clock. */
    ghost function LastUsec(): nat
      reads this
    {
      lastTimeUsec + usecSinceLast
    }

    /** `usec` is the emulated time in microseconds at the call. */
    method TimeUsecSequential(usec: nat) returns (t: nat)
      requires lastTimeUsec <= usec && LastUsec() + 1 < TWO_64 && usec + 1 < TWO_64
      modifies this`lastTimeUsec, this`usecSinceLast
      ensures t == (if old(LastUsec()) < usec then usec else old(LastUsec())) + 1
      ensures LastUsec() == t && lastTimeUsec == usec
    {
      if usec != lastTimeUsec {
        var diff := U64(usec - lastTimeUsec);
        lastTimeUsec := usec;
        if diff >= usecSinceLast {
          usecSinceLast := 0;
        } else {
          usecSinceLast := usecSinceLast - diff;
        }
      }
      usecSinceLast := U64(usecSinceLast + 1);
      t := U64(usec + usecSinceLast);
    }

    /** A run of calls, at the times `usecs`. */
    method TimeUsecRun(usecs: seq<nat>) returns (results: seq<nat>)
      requires UsecsOk(lastTimeUsec, LastUsec(), usecs)
      modifies this`lastTimeUsec, this`usecSinceLast
      ensures results == UsecRun(old(LastUsec()), usecs)
    {
      results := [];
      ghost var last := LastUsec();
      assert usecs[0..] == usecs;
      for i := 0 to |usecs|
        invariant UsecsOk(lastTimeUsec, LastUsec(), usecs[i..])
        invariant results + UsecRun(LastUsec(), usecs[i..]) == UsecRun(last, usecs)
      {
        UsecRunNext(lastTimeUsec, LastUsec(), usecs, i);
        var t := TimeUsecSequential(usecs[i]);
        results := results + [t];
      }
    }
  }

  /** The values handed out by a run of the sequential clock started at `last`. */
  function UsecRun(last: nat, usecs: seq<nat>): (r: seq<nat>)
    ensures |r| == |usecs|
    decreases |usecs|
  {
    if usecs == [] then []
    else
      var t := Max(last, usecs[0]) + 1;
      [t] + UsecRun(t, usecs[1..])
  }

  /** The clock does not run backwards, and no value reaches 2^64. */
  predicate UsecsOk(clock: nat, last: nat, usecs: seq<nat>)
    decreases |usecs|
  {
    usecs == [] ||
    (clock <= usecs[0] && Max(last, usecs[0]) + 1 < TWO_64
     && UsecsOk(usecs[0], Max(last, usecs[0]) + 1, usecs[1..]))
  }

  lemma UsecRunNext(clock: nat, last: nat, usecs: seq<nat>, i: nat)
    requires i < |usecs| && UsecsOk(clock, last, usecs[i..])
    ensures var t := Max(last, usecs[i]) + 1;
      && clock <= usecs[i] && t < TWO_64 && UsecsOk(usecs[i], t, usecs[i + 1..])
      && UsecRun(last, usecs[i..]) == [t] + UsecRun(t, usecs[i + 1..])
  {
    assert usecs[i..][0] == usecs[i] && usecs[i..][1..] == usecs[i + 1..];
  }

  /** Every call is ahead of the clock and of every earlier call. */
  lemma {:induction false} UsecRunIncreases(last: nat, usecs: seq<nat>)
    ensures forall i :: 0 <= i < |usecs| ==> UsecRun(last, usecs)[i] > usecs[i]
    ensures forall i :: 0 <= i < |usecs| ==> UsecRun(last, usecs)[i] > last
    ensures forall i, j :: 0 <= i < j < |usecs| ==> UsecRun(last, usecs)[i] < UsecRun(last, usecs)[j]
    ensures forall i :: 0 <= i < |usecs| ==>
              UsecRun(last, usecs)[i] == usecs[i] + 1 ||
              UsecRun(last, usecs)[i] == (if i == 0 then last else UsecRun(last, usecs)[i - 1]) + 1
    decreases |usecs|
  {
    if usecs != [] {
      UsecRunIncreases(Max(last, usecs[0]) + 1, usecs[1..]);
    }
  }
}
