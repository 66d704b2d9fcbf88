/**
 When an armed timer fires in the course of a run in which client code leaves it alone:
 other timers may be registered, armed, disarmed and unregistered, the handlers may
 change, and ticks may come in batches of any size.
 */
module ArmedTimers {
  import opened TimerModel
  import opened TimerRefinement
  import opened TimerRuns
  import Naive = NaiveClock
  import opened NaiveClock

  /** The operation has nothing to do with timer id. */
  ghost predicate Spares<D(!new)>(op: Op<D>, id: nat) {
    match op
    case Client(call) => call.id != id
    case Unregister(i) => i != id
    case TickBy(_, h) => LeavesAlone(h, id)
    case Register(_, _, _, _) => true
    case Poke(_) => true
  }

  ghost predicate AllSpare<D(!new)>(ops: seq<Op<D>>, id: nat) {
    forall i :: 0 <= i < |ops| ==> Spares(ops[i], id)
  }

  // ---------- operations on other timers ----------

  /** They leave slot, time and trace as they are. */
  lemma SparedStep<D(!new)>(a: Clock<D>, op: Op<D>, id: nat)
    requires 1 <= |a.slots| <= MAX_TIMERS && OpOk(a, op) && Spares(op, id) && !op.TickBy?
    requires id < |a.slots| && a.slots[id].inUse
    ensures var r := NaiveStep(a, op).0;
      id < |r.slots| && r.slots[id] == a.slots[id] && r.now == a.now && r.trace == a.trace
  {
  }

  // ---------- series of deadlines ----------

  lemma {:induction false} DeadlineJoin(first: nat, p: nat, j: nat, k: nat)
    ensures Deadline(Deadline(first, p, j), p, k) == Deadline(first, p, j + k)
    decreases j
  {
    if j > 0 {
      DeadlineJoin(first + p, p, j - 1, k);
    }
  }

  lemma {:induction false} SeriesJoin(first: nat, p: nat, j: nat, k: nat)
    ensures Series(first, p, j) + Series(Deadline(first, p, j), p, k) == Series(first, p, j + k)
    decreases j
  {
    if j > 0 {
      SeriesJoin(first + p, p, j - 1, k);
    }
  }

  /** The first k deadlines and no more have been reached. */
  predicate Reached(now: nat, first: nat, p: nat, k: nat) {
    now < Deadline(first, p, k) && (k > 0 ==> Deadline(first, p, k - 1) <= now)
  }

  lemma ReachedLater(was: nat, now: nat, first: nat, p: nat, j: nat, k: nat)
    requires was <= now && Reached(was, first, p, j) && Reached(now, Deadline(first, p, j), p, k)
    ensures Reached(now, first, p, j + k)
  {
    DeadlineJoin(first, p, j, k);
    if k > 0 {
      LastReached(now, first, p, j, k);
    }
  }

  lemma LastReached(now: nat, first: nat, p: nat, j: nat, k: nat)
    requires k > 0 && Deadline(Deadline(first, p, j), p, k - 1) <= now
    ensures Deadline(first, p, j + k - 1) <= now
  {
    DeadlineJoin(first, p, j, k - 1);
  }

  /** What a run adds behind an earlier one. */
  lemma TimesJoin(times: seq<nat>, was: nat, now: nat, first: nat, p: nat, j: nat, k: nat)
    requires was <= now && Reached(was, first, p, j) && Reached(now, Deadline(first, p, j), p, k)
    ensures times + Series(first, p, j) + Series(Deadline(first, p, j), p, k) == times + Series(first, p, j + k)
    ensures Reached(now, first, p, j + k)
  {
    Regroup(times, Series(first, p, j), Series(Deadline(first, p, j), p, k));
    SeriesJoin(first, p, j, k);
    ReachedLater(was, now, first, p, j, k);
  }

  lemma Regroup(a: seq<nat>, b: seq<nat>, c: seq<nat>)
    ensures a + b + c == a + (b + c)
  {
  }

  // ---------- runs of the naive clock ----------

  predicate Ticking(t: Timer, now: nat) {
    t.inUse && t.active && t.continuous && t.period >= 1 && now < t.timeToFire
  }

  /** One operation, whatever it is: a tick fires the deadlines it reaches. */
  lemma StepSpared<D(!new)>(a: Clock<D>, op: Op<D>, id: nat) returns (k: nat)
    requires 1 <= |a.slots| <= MAX_TIMERS && OpOk(a, op) && Spares(op, id)
    requires id < |a.slots| && Ticking(a.slots[id], a.now)
    ensures var r := NaiveStep(a, op).0;
      var (first, p) := (a.slots[id].timeToFire, a.slots[id].period);
      && FiringTimes(r.trace, id) == FiringTimes(a.trace, id) + Series(first, p, k)
      && id < |r.slots| && r.slots[id] == a.slots[id].(timeToFire := Deadline(first, p, k))
      && r.now == a.now + Delivered([op]) && Reached(r.now, first, p, k)
  {
    k := 0;
    if op.TickBy? {
      HandlersFit(op.h, RegisteredIds(a.slots), |a.slots|);
      k := ContinuousFires(a, op.h, op.n, id);
    } else {
      SparedStep(a, op, id);
    }
  }

  lemma {:induction false} NaiveContinuous<D(!new)>(a: Clock<D>, ops: seq<Op<D>>, id: nat) returns (k: nat)
    requires RunOk(a, ops) && AllSpare(ops, id)
    requires id < |a.slots| && Ticking(a.slots[id], a.now)
    ensures var r := NaiveRun(a, ops).0;
      var (first, p) := (a.slots[id].timeToFire, a.slots[id].period);
      && FiringTimes(r.trace, id) == FiringTimes(a.trace, id) + Series(first, p, k)
      && r.now == a.now + Delivered(ops) && Reached(r.now, first, p, k)
    decreases |ops|
  {
    if ops == [] {
      k := 0;
    } else {
      assert Spares(ops[0], id);
      var j := StepSpared(a, ops[0], id);
      var b := NaiveStep(a, ops[0]).0;
      k := NaiveContinuous(b, ops[1..], id);
      var r := NaiveRun(b, ops[1..]).0;
      assert r == NaiveRun(a, ops).0;
      TimesJoin(FiringTimes(a.trace, id), b.now, r.now, a.slots[id].timeToFire, a.slots[id].period, j, k);
      k := j + k;
    }
  }

  predicate OneShot(t: Timer, now: nat) {
    t.inUse && t.active && !t.continuous && now < t.timeToFire
  }

  /** A timer that is not armed stays silent. */
  lemma {:induction false} NaiveQuiet<D(!new)>(a: Clock<D>, ops: seq<Op<D>>, id: nat)
    requires RunOk(a, ops) && AllSpare(ops, id)
    requires id < |a.slots| && a.slots[id].inUse && !a.slots[id].active
    ensures FiringTimes(NaiveRun(a, ops).0.trace, id) == FiringTimes(a.trace, id)
    decreases |ops|
  {
    if ops != [] {
      assert Spares(ops[0], id);
      if ops[0].TickBy? {
        HandlersFit(ops[0].h, RegisteredIds(a.slots), |a.slots|);
        InactiveStaysQuiet(a, ops[0].h, ops[0].n, id);
      } else {
        SparedStep(a, ops[0], id);
      }
      NaiveQuiet(NaiveStep(a, ops[0]).0, ops[1..], id);
    }
  }

  lemma {:induction false} NaiveOneShot<D(!new)>(a: Clock<D>, ops: seq<Op<D>>, id: nat)
    requires RunOk(a, ops) && AllSpare(ops, id)
    requires id < |a.slots| && OneShot(a.slots[id], a.now)
    ensures var first := a.slots[id].timeToFire;
      FiringTimes(NaiveRun(a, ops).0.trace, id)
        == FiringTimes(a.trace, id) + Once(first, a.now + Delivered(ops))
    decreases |ops|
  {
    if ops != [] {
      var b := NaiveStep(a, ops[0]).0;
      assert Spares(ops[0], id);
      if ops[0].TickBy? {
        HandlersFit(ops[0].h, RegisteredIds(a.slots), |a.slots|);
        OneShotFires(a, ops[0].h, ops[0].n, id);
      } else {
        SparedStep(a, ops[0], id);
      }
      if b.slots[id].active {
        NaiveOneShot(b, ops[1..], id);
      } else {
        NaiveQuiet(b, ops[1..], id);
      }
    }
  }

  // ---------- armed by the first operation of a run ----------

  /** A timer is armed for one tick at least. */
  function Period(ticks: nat): nat { if ticks == 0 then 1 else ticks }

  function Arming<D>(id: nat, ticks: nat, continuous: bool): Op<D> { Client(Activate(id, ticks, continuous)) }

  /** Slot id of b was armed when the clock stood at a. */
  ghost predicate ArmedAt<D(!new)>(a: Clock<D>, b: Clock<D>, id: nat, p: nat, continuous: bool) {
    && id < |b.slots| && b.now == a.now && b.trace == a.trace
    && b.slots[id].inUse && b.slots[id].active && b.slots[id].continuous == continuous
    && b.slots[id].timeToFire == a.now + p && b.slots[id].period == p >= 1
  }

  lemma ActivateArms<D(!new)>(a: Clock<D>, id: nat, ticks: nat, continuous: bool)
    requires 1 <= |a.slots| <= MAX_TIMERS && OpOk(a, Arming(id, ticks, continuous))
    ensures ArmedAt(a, NaiveStep(a, Arming(id, ticks, continuous)).0, id, Period(ticks), continuous)
  {
  }

  lemma RegisterArms<D(!new)>(a: Clock<D>, funct: nat, ticks: nat, continuous: bool)
    requires 1 <= |a.slots| <= MAX_TIMERS && OpOk(a, Register(funct, ticks, continuous, true))
    ensures ArmedAt(a, NaiveStep(a, Register(funct, ticks, continuous, true)).0,
                    FreeFrom(a.slots, 1), Period(ticks), continuous)
  {
  }

  /** The clock behind the first operation of a run, and the rest of the run. */
  lemma Tail<D(!new)>(a: Clock<D>, run: seq<Op<D>>) returns (b: Clock<D>)
    requires run != [] && RunOk(a, run) && !run[0].TickBy?
    ensures 1 <= |a.slots| <= MAX_TIMERS && OpOk(a, run[0]) && b == NaiveStep(a, run[0]).0
    ensures RunOk(b, run[1..]) && NaiveRun(a, run).0 == NaiveRun(b, run[1..]).0
    ensures Delivered(run) == Delivered(run[1..])
  {
    b := NaiveStep(a, run[0]).0;
  }

  /** The two operations that arm a timer, as the first of a run. */
  lemma ActivatedFirst<D(!new)>(a: Clock<D>, id: nat, ticks: nat, continuous: bool, run: seq<Op<D>>)
    returns (b: Clock<D>)
    requires run != [] && RunOk(a, run) && run[0] == Arming(id, ticks, continuous)
    ensures ArmedAt(a, b, id, Period(ticks), continuous)
    ensures RunOk(b, run[1..]) && NaiveRun(a, run).0 == NaiveRun(b, run[1..]).0
    ensures Delivered(run) == Delivered(run[1..])
  {
    b := Tail(a, run);
    ActivateArms(a, id, ticks, continuous);
  }

  lemma RegisteredFirst<D(!new)>(a: Clock<D>, funct: nat, ticks: nat, continuous: bool, run: seq<Op<D>>)
    returns (b: Clock<D>)
    requires run != [] && RunOk(a, run) && run[0] == Register(funct, ticks, continuous, true)
    ensures |a.slots| >= 1 && ArmedAt(a, b, FreeFrom(a.slots, 1), Period(ticks), continuous)
    ensures RunOk(b, run[1..]) && NaiveRun(a, run).0 == NaiveRun(b, run[1..]).0
    ensures Delivered(run) == Delivered(run[1..])
  {
    b := Tail(a, run);
    RegisterArms(a, funct, ticks, continuous);
  }

  lemma NaiveArmed<D(!new)>(a: Clock<D>, b: Clock<D>, ops: seq<Op<D>>, id: nat, p: nat) returns (k: nat)
    requires ArmedAt(a, b, id, p, true) && RunOk(b, ops) && AllSpare(ops, id)
    ensures FiringTimes(NaiveRun(b, ops).0.trace, id) == FiringTimes(a.trace, id) + Series(a.now + p, p, k)
    ensures k * p <= Delivered(ops) < (k + 1) * p
  {
    k := NaiveContinuous(b, ops, id);
    HowManyPeriods(a.now, p, k, Delivered(ops));
  }

  lemma NaiveArmedOnce<D(!new)>(a: Clock<D>, b: Clock<D>, ops: seq<Op<D>>, id: nat, p: nat)
    returns (times: seq<nat>)
    requires ArmedAt(a, b, id, p, false) && RunOk(b, ops) && AllSpare(ops, id)
    ensures FiringTimes(NaiveRun(b, ops).0.trace, id) == FiringTimes(a.trace, id) + times
    ensures times == Once(a.now + p, a.now + Delivered(ops))
  {
    NaiveOneShot(b, ops, id);
    times := Once(a.now + p, a.now + Delivered(ops));
  }

  lemma ContinuousOnClock<D(!new)>(a: Clock<D>, id: nat, ticks: nat, run: seq<Op<D>>) returns (k: nat)
    requires RunOk(a, run) && run != [] && run[0] == Arming(id, ticks, true) && AllSpare(run[1..], id)
    ensures var p := Period(ticks);
      && FiringTimes(NaiveRun(a, run).0.trace, id) == FiringTimes(a.trace, id) + Series(a.now + p, p, k)
      && k * p <= Delivered(run) < (k + 1) * p
  {
    var b := ActivatedFirst(a, id, ticks, true, run);
    k := NaiveArmed(a, b, run[1..], id, Period(ticks));
  }

  lemma OnceOnClock<D(!new)>(a: Clock<D>, id: nat, ticks: nat, run: seq<Op<D>>) returns (times: seq<nat>)
    requires RunOk(a, run) && run != [] && run[0] == Arming(id, ticks, false) && AllSpare(run[1..], id)
    ensures FiringTimes(NaiveRun(a, run).0.trace, id) == FiringTimes(a.trace, id) + times
    ensures times == Once(a.now + Period(ticks), a.now + Delivered(run))
  {
    var b := ActivatedFirst(a, id, ticks, false, run);
    times := NaiveArmedOnce(a, b, run[1..], id, Period(ticks));
  }

  // ---------- runs of the scheduler ----------

  lemma SameTrace<D(!new)>(s: Sched<D>, ops: seq<Op<D>>)
    requires Inv(s) && RunOk(Abs(s), ops)
    ensures Run(s, ops).0.trace == NaiveRun(Abs(s), ops).0.trace && s.trace == Abs(s).trace && Now(s) == Abs(s).now
  {
    RunRefines(s, ops);
  }

  lemma DueLater<D>(s: Sched<D>, id: nat)
    requires Inv(s) && id < s.numTimers && s.timer[id].active
    ensures s.timer[id].inUse && s.timer[id].period >= 1 && Now(s) < s.timer[id].timeToFire
    ensures Abs(s).slots[id] == s.timer[id]
  {
    NowExact(s);
  }

  /** A continuous timer left alone fires at its deadline and then once every period, and
      at no other time: k times, where the next deadline lies in the future. */
  lemma ContinuousInRun<D(!new)>(s: Sched<D>, ops: seq<Op<D>>, id: nat) returns (k: nat)
    requires Inv(s) && RunOk(Abs(s), ops) && AllSpare(ops, id)
    requires id < s.numTimers && s.timer[id].active && s.timer[id].continuous
    ensures var (first, p) := (s.timer[id].timeToFire, s.timer[id].period);
      && FiringTimes(Run(s, ops).0.trace, id) == FiringTimes(s.trace, id) + Series(first, p, k)
      && Now(s) + Delivered(ops) < Deadline(first, p, k)
      && (k > 0 ==> Deadline(first, p, k - 1) <= Now(s) + Delivered(ops))
  {
    DueLater(s, id);
    SameTrace(s, ops);
    k := NaiveContinuous(Abs(s), ops, id);
  }

  /** A one-shot left alone fires once, at its deadline, when the time gets there. */
  lemma OneShotInRun<D(!new)>(s: Sched<D>, ops: seq<Op<D>>, id: nat)
    requires Inv(s) && RunOk(Abs(s), ops) && AllSpare(ops, id)
    requires id < s.numTimers && s.timer[id].active && !s.timer[id].continuous
    ensures FiringTimes(Run(s, ops).0.trace, id)
         == FiringTimes(s.trace, id) + Once(s.timer[id].timeToFire, Now(s) + Delivered(ops))
  {
    SameTrace(s, ops);
    OneShotOnClock(s, ops, id);
  }

  lemma OneShotOnClock<D(!new)>(s: Sched<D>, ops: seq<Op<D>>, id: nat)
    requires Inv(s) && RunOk(Abs(s), ops) && AllSpare(ops, id)
    requires id < s.numTimers && s.timer[id].active && !s.timer[id].continuous
    ensures FiringTimes(NaiveRun(Abs(s), ops).0.trace, id)
         == FiringTimes(s.trace, id) + Once(s.timer[id].timeToFire, Now(s) + Delivered(ops))
  {
    DueLater(s, id);
    NaiveOneShot(Abs(s), ops, id);
  }

  /** Armed for `ticks` and then left alone: it fires that many ticks later, and again
      after as many, once for every `ticks` ticks delivered. */
  lemma ArmedContinuous<D(!new)>(s: Sched<D>, id: nat, ticks: nat, run: seq<Op<D>>) returns (k: nat)
    requires Inv(s) && RunOk(Abs(s), run)
    requires run != [] && run[0] == Arming(id, ticks, true) && AllSpare(run[1..], id)
    ensures var p := if ticks == 0 then 1 else ticks;
      && FiringTimes(Run(s, run).0.trace, id) == FiringTimes(s.trace, id) + Series(Now(s) + p, p, k)
      && k * p <= Delivered(run) < (k + 1) * p
  {
    SameTrace(s, run);
    k := ContinuousOnClock(Abs(s), id, ticks, run);
  }

  /** Armed as a one-shot it fires once, if that many ticks are delivered. */
  lemma ArmedOneShot<D(!new)>(s: Sched<D>, id: nat, ticks: nat, run: seq<Op<D>>) returns (times: seq<nat>)
    requires Inv(s) && RunOk(Abs(s), run)
    requires run != [] && run[0] == Arming(id, ticks, false) && AllSpare(run[1..], id)
    ensures FiringTimes(Run(s, run).0.trace, id) == FiringTimes(s.trace, id) + times
    ensures var p := if ticks == 0 then 1 else ticks;
      times == if p <= Delivered(run) then [Now(s) + p] else []
  {
    SameTrace(s, run);
    times := OnceOnClock(Abs(s), id, ticks, run);
  }

  /** The same for a timer armed when it is registered. */
  lemma RegisteredContinuous<D(!new)>(s: Sched<D>, funct: nat, ticks: nat, run: seq<Op<D>>) returns (k: nat)
    requires Inv(s) && RunOk(Abs(s), run)
    requires run != [] && run[0] == Register(funct, ticks, true, true) && AllSpare(run[1..], RegisterSlot(s))
    ensures var (id, p) := (RegisterSlot(s), if ticks == 0 then 1 else ticks);
      && FiringTimes(Run(s, run).0.trace, id) == FiringTimes(s.trace, id) + Series(Now(s) + p, p, k)
      && k * p <= Delivered(run) < (k + 1) * p
  {
    SameTrace(s, run);
    var b := RegisteredFirst(Abs(s), funct, ticks, true, run);
    k := NaiveArmed(Abs(s), b, run[1..], RegisterSlot(s), Period(ticks));
  }

  lemma RegisteredOneShot<D(!new)>(s: Sched<D>, funct: nat, ticks: nat, run: seq<Op<D>>) returns (times: seq<nat>)
    requires Inv(s) && RunOk(Abs(s), run)
    requires run != [] && run[0] == Register(funct, ticks, false, true) && AllSpare(run[1..], RegisterSlot(s))
    ensures FiringTimes(Run(s, run).0.trace, RegisterSlot(s)) == FiringTimes(s.trace, RegisterSlot(s)) + times
    ensures var p := if ticks == 0 then 1 else ticks;
      times == if p <= Delivered(run) then [Now(s) + p] else []
  {
    SameTrace(s, run);
    var b := RegisteredFirst(Abs(s), funct, ticks, false, run);
    times := NaiveArmedOnce(Abs(s), b, run[1..], RegisterSlot(s), Period(ticks));
  }

  // ---------- not armed ----------

  lemma QuietOnClock<D(!new)>(a: Clock<D>, id: nat, run: seq<Op<D>>)
    requires run != [] && RunOk(a, run) && AllSpare(run[1..], id)
    requires run[0] == Client(Deactivate(id))
          || (run[0].Register? && !run[0].active && |a.slots| >= 1 && FreeFrom(a.slots, 1) == id)
    ensures FiringTimes(NaiveRun(a, run).0.trace, id) == FiringTimes(a.trace, id)
  {
    var b := Tail(a, run);
    NaiveQuiet(b, run[1..], id);
  }

  /** Disarmed and then left alone a timer does not fire. */
  lemma Disarmed<D(!new)>(s: Sched<D>, id: nat, run: seq<Op<D>>)
    requires Inv(s) && RunOk(Abs(s), run)
    requires run != [] && run[0] == Client(Deactivate(id)) && AllSpare(run[1..], id)
    ensures FiringTimes(Run(s, run).0.trace, id) == FiringTimes(s.trace, id)
  {
    SameTrace(s, run);
    QuietOnClock(Abs(s), id, run);
  }

  /** Nor does one that is registered without being armed. */
  lemma RegisteredIdle<D(!new)>(s: Sched<D>, run: seq<Op<D>>)
    requires Inv(s) && RunOk(Abs(s), run)
    requires run != [] && run[0].Register? && !run[0].active && AllSpare(run[1..], RegisterSlot(s))
    ensures FiringTimes(Run(s, run).0.trace, RegisterSlot(s)) == FiringTimes(s.trace, RegisterSlot(s))
  {
    SameTrace(s, run);
    QuietOnClock(Abs(s), RegisterSlot(s), run);
  }

  lemma {:induction false} FreeFromIs(slots: seq<Timer>, i: nat, r: nat)
    requires i <= r <= |slots| && (forall j :: i <= j < r ==> slots[j].inUse) && (r < |slots| ==> !slots[r].inUse)
    ensures FreeFrom(slots, i) == r
    decreases r - i
  {
    if i < r {
      FreeFromIs(slots, i + 1, r);
    }
  }

  /** A slot given up is free again: the next registration takes it, unless one before it is
      free as well. */
  lemma UnregisterFrees<D>(s: Sched<D>, id: nat)
    requires Inv(s) && 1 <= id < s.numTimers && !s.timer[id].active && s.timer[id].inUse
    ensures var (r, ok) := UnregisterTimer(s, id);
      ok && Inv(r) && RegisterSlot(r) == if RegisterSlot(s) < id then RegisterSlot(s) else id
  {
    UnregisterRefines(s, id);
    var r := UnregisterTimer(s, id).0;
    var free := RegisterSlot(s);
    FreeFromIs(r.timer[..r.numTimers], 1, if free < id then free else id);
  }
}
