/**
 Whole runs of the scheduler, and when an armed timer fires.
 */
module TimerRuns {
  import opened TimerModel
  import opened TimerRefinement
  import Naive = NaiveClock
  import opened NaiveClock

  /** One step of client code.  `Poke` is anything the rest of the emulator does
      to its own state between scheduler calls. */
  datatype Op<!D> =
    | Register(funct: nat, ticks: nat, continuous: bool, active: bool)
    | Client(call: Call)
    | Unregister(id: nat)
    | TickBy(n: nat, h: Handlers<D>)
    | Poke(dev: D)

  datatype Reply = Id(id: nat) | Done(ok: bool) | Nothing

  function RegisteredIds(slots: seq<Timer>): set<nat> {
    set i | 1 <= i < |slots| && slots[i].inUse :: i
  }

  /** What the scheduler demands of its caller, read off the naive clock. */
  ghost predicate OpOk<D(!new)>(a: Clock<D>, op: Op<D>)
    requires |a.slots| >= 1
  {
    match op
    case Register(_, ticks, _, _) => ticks < HORIZON && FreeFrom(a.slots, 1) < MAX_TIMERS
    case Client(call) => CallOk(call, RegisteredIds(a.slots))
    case Unregister(id) => 1 <= id < |a.slots|
    case TickBy(n, h) => WellBehaved(h, RegisteredIds(a.slots)) && a.now + n <= HORIZON
    case Poke(_) => true
  }

  ghost function Step<D(!new)>(s: Sched<D>, op: Op<D>): (Sched<D>, Reply)
    requires Inv(s) && OpOk(Abs(s), op)
  {
    match op
    case Register(funct, ticks, continuous, active) =>
      (RegisterTicks(s, funct, ticks, continuous, active), Id(RegisterSlot(s)))
    case Client(call) => (TimerModel.Perform(s, call), Nothing)
    case Unregister(id) => var (r, ok) := UnregisterTimer(s, id); (r, Done(ok))
    case TickBy(n, h) => (TickN(s, h, RegisteredIds(s.timer[..s.numTimers]), n), Nothing)
    case Poke(dev) => (s.(dev := dev), Nothing)
  }

  ghost function NaiveStep<D(!new)>(a: Clock<D>, op: Op<D>): (Clock<D>, Reply)
    requires 1 <= |a.slots| <= MAX_TIMERS && OpOk(a, op)
  {
    match op
    case Register(funct, ticks, continuous, active) =>
      (Naive.Register(a, funct, ticks, continuous, active), Id(FreeFrom(a.slots, 1)))
    case Client(call) => (Naive.Perform(a, call), Nothing)
    case Unregister(id) => (Naive.Unregister(a, id), Done(!a.slots[id].active))
    case TickBy(n, h) => HandlersFit(h, RegisteredIds(a.slots), |a.slots|); (Ticks(a, h, n), Nothing)
    case Poke(dev) => (a.(dev := dev), Nothing)
  }

  /** One operation keeps the invariant, gives the naive clock's answer and
      leaves the naive clock's state. */
  lemma StepRefines<D(!new)>(s: Sched<D>, op: Op<D>)
    requires Inv(s) && OpOk(Abs(s), op)
    ensures Inv(Step(s, op).0)
    ensures (Abs(Step(s, op).0), Step(s, op).1) == NaiveStep(Abs(s), op)
  {
    var ids := RegisteredIds(s.timer[..s.numTimers]);
    match op
    case Register(funct, ticks, continuous, active) => RegisterRefines(s, funct, ticks, continuous, active);
    case Client(call) => PerformRefines(s, call, ids);
    case Unregister(id) => UnregisterRefines(s, id);
    case TickBy(n, h) => TickNRefines(s, h, ids, n);
    case Poke(_) =>
  }

  /** Every operation of the run is one its caller may make. */
  ghost predicate RunOk<D(!new)>(a: Clock<D>, ops: seq<Op<D>>)
    decreases |ops|
  {
    match |ops|
    case 0 => true
    case _ => 1 <= |a.slots| <= MAX_TIMERS && OpOk(a, ops[0]) && RunOk(NaiveStep(a, ops[0]).0, ops[1..])
  }

  ghost function NaiveRun<D(!new)>(a: Clock<D>, ops: seq<Op<D>>): (Clock<D>, seq<Reply>)
    requires RunOk(a, ops)
    decreases |ops|
  {
    if ops == [] then (a, [])
    else
      var (b, reply) := NaiveStep(a, ops[0]);
      var (c, replies) := NaiveRun(b, ops[1..]);
      (c, [reply] + replies)
  }

  ghost function Run<D(!new)>(s: Sched<D>, ops: seq<Op<D>>): (Sched<D>, seq<Reply>)
    requires Inv(s) && RunOk(Abs(s), ops)
    decreases |ops|
  {
    if ops == [] then (s, [])
    else
      StepRefines(s, ops[0]);
      var (t, reply) := Step(s, ops[0]);
      var (u, replies) := Run(t, ops[1..]);
      (u, [reply] + replies)
  }

  /** Every run of register, activate, deactivate, unregister and tick keeps the
      invariant, answers as the naive clock does and fires exactly what it fires. */
  lemma {:induction false} RunRefines<D(!new)>(s: Sched<D>, ops: seq<Op<D>>)
    requires Inv(s) && RunOk(Abs(s), ops)
    ensures Inv(Run(s, ops).0)
    ensures (Abs(Run(s, ops).0), Run(s, ops).1) == NaiveRun(Abs(s), ops)
    decreases |ops|
  {
    if ops != [] {
      StepRefines(s, ops[0]);
      RunRefines(Step(s, ops[0]).0, ops[1..]);
    }
  }

  // ---------- time ----------

  /** The ticks delivered in a run. */
  function Delivered<D>(ops: seq<Op<D>>): nat {
    if ops == [] then 0 else (if ops[0].TickBy? then ops[0].n else 0) + Delivered(ops[1..])
  }

  /** Only ticks take time. */
  lemma StepTime<D(!new)>(s: Sched<D>, op: Op<D>)
    requires Inv(s) && OpOk(Abs(s), op)
    ensures Now(Step(s, op).0) == Now(s) + if op.TickBy? then op.n else 0
  {
    StepRefines(s, op);
  }

  /** Over every run the time advances by exactly the ticks delivered, whatever is armed,
      disarmed or fires meanwhile. */
  lemma {:induction false} RunTime<D(!new)>(s: Sched<D>, ops: seq<Op<D>>)
    requires Inv(s) && RunOk(Abs(s), ops)
    ensures Now(Run(s, ops).0) == Now(s) + Delivered(ops)
    decreases |ops|
  {
    if ops != [] {
      StepRefines(s, ops[0]);
      StepTime(s, ops[0]);
      RunTime(Step(s, ops[0]).0, ops[1..]);
    }
  }

  // ---------- when a timer that is left alone fires ----------

  ghost predicate LeavesAlone<D(!new)>(h: Handlers<D>, id: nat) {
    forall d, f, i, t, k :: 0 <= k < |h(d, f, i, t).1| ==> h(d, f, i, t).1[k].id != id
  }

  /** The times at which one timer fired, in order. */
  function FiringTimes(trace: seq<Firing>, id: nat): seq<nat> {
    if trace == [] then []
    else
      var last := trace[|trace| - 1];
      FiringTimes(trace[..|trace| - 1], id) + (if last.id == id then [last.time] else [])
  }

  lemma {:induction false} PerformAllElsewhere<D>(a: Clock<D>, calls: seq<Call>, id: nat)
    requires CallsInTable(calls, |a.slots|) && id < |a.slots|
    requires forall k :: 0 <= k < |calls| ==> calls[k].id != id
    ensures var r := Naive.PerformAll(a, calls);
      r.slots[id] == a.slots[id] && r.trace == a.trace && r.now == a.now
    decreases |calls|
  {
    if calls != [] {
      PerformAllElsewhere(Naive.Perform(a, calls[0]), calls[1..], id);
    }
  }

  lemma InvokeElsewhere<D(!new)>(a: Clock<D>, h: Handlers<D>, i: nat, id: nat)
    requires i < |a.slots| && id < |a.slots| && Fits(h, |a.slots|) && LeavesAlone(h, id)
    ensures var r := Naive.Invoke(a, h, i);
      r.slots[id] == a.slots[id] && r.now == a.now
      && FiringTimes(r.trace, id) == FiringTimes(a.trace, id) + (if i == id then [a.now] else [])
  {
    var (dev, calls) := h(a.dev, a.slots[i].funct, i, a.now);
    var b := a.(dev := dev, trace := a.trace + [Firing(a.now, i)]);
    PerformAllElsewhere(b, calls, id);
    assert b.trace[..|b.trace| - 1] == a.trace;
  }

  lemma {:induction false} FireElsewhere<D(!new)>(a: Clock<D>, h: Handlers<D>, flags: seq<bool>, i: nat, id: nat)
    requires i <= |flags| <= |a.slots| && id < |a.slots| && Fits(h, |a.slots|) && LeavesAlone(h, id)
    ensures var r := Naive.FireFrom(a, h, flags, i);
      r.slots[id] == a.slots[id] && r.now == a.now
      && FiringTimes(r.trace, id)
           == FiringTimes(a.trace, id) + (if i <= id < |flags| && flags[id] then [a.now] else [])
    decreases |flags| - i
  {
    if i < |flags| {
      if flags[i] {
        InvokeElsewhere(a, h, i, id);
        FireElsewhere(Naive.Invoke(a, h, i), h, flags, i + 1, id);
      } else {
        FireElsewhere(a, h, flags, i + 1, id);
      }
    }
  }

  /** One tick settles the timer and fires it if it is due then. */
  lemma TickElsewhere<D(!new)>(a: Clock<D>, h: Handlers<D>, id: nat)
    requires id < |a.slots| && Fits(h, |a.slots|) && LeavesAlone(h, id)
    ensures var r := Tick(a, h);
      r.slots[id] == Settle(a.slots[id], a.now + 1) && r.now == a.now + 1
      && FiringTimes(r.trace, id)
           == FiringTimes(a.trace, id) + (if Due(a.slots[id], a.now + 1) then [a.now + 1] else [])
  {
    var b := a.(now := a.now + 1);
    FireElsewhere(b.(slots := SettleAll(b.slots, b.now)), h, DueFlags(b.slots, |b.slots|, b.now), 0, id);
  }

  /** The deadline after k periods. */
  function Deadline(first: nat, p: nat, k: nat): nat
    decreases k
  {
    if k == 0 then first else Deadline(first + p, p, k - 1)
  }

  /** The first k deadlines. */
  function Series(first: nat, p: nat, k: nat): seq<nat>
    decreases k
  {
    if k == 0 then [] else [first] + Series(first + p, p, k - 1)
  }

  lemma {:induction false} SeriesExact(first: nat, p: nat, k: nat)
    ensures Deadline(first, p, k) == first + k * p
    ensures |Series(first, p, k)| == k
    ensures forall j :: 0 <= j < k ==> Series(first, p, k)[j] == first + j * p
    decreases k
  {
    if k > 0 {
      SeriesExact(first + p, p, k - 1);
      OneMore(p, k - 1);
      forall j | 0 <= j < k
        ensures Series(first, p, k)[j] == first + j * p
      {
        if j > 0 {
          OneMore(p, j - 1);
          assert Series(first, p, k)[j] == Series(first + p, p, k - 1)[j - 1];
        }
      }
    }
  }

  lemma OneMore(p: nat, j: nat)
    ensures (j + 1) * p == p + j * p
  {
  }

  lemma SeriesPrepend(times: seq<nat>, first: nat, p: nat, k: nat)
    ensures times + [first] + Series(first + p, p, k) == times + Series(first, p, k + 1)
  {
  }

  /** The number of deadlines passed n ticks after arming is n / p. */
  lemma HowManyPeriods(now: nat, p: nat, k: nat, n: nat)
    requires now + n < Deadline(now + p, p, k)
    requires k > 0 ==> Deadline(now + p, p, k - 1) <= now + n
    ensures k * p <= n < (k + 1) * p
  {
    SeriesExact(now + p, p, k);
    if k > 0 {
      SeriesExact(now + p, p, k - 1);
    }
  }

  /** A continuous timer fires at its deadline and then once every period: k
      times, where the (k+1)st firing would lie in the future. */
  lemma {:induction false} ContinuousFires<D(!new)>(a: Clock<D>, h: Handlers<D>, n: nat, id: nat) returns (k: nat)
    requires id < |a.slots| && Fits(h, |a.slots|) && LeavesAlone(h, id)
    requires a.slots[id].active && a.slots[id].continuous && a.slots[id].period >= 1
    requires a.now < a.slots[id].timeToFire
    ensures var r := Ticks(a, h, n);
      var (first, p) := (a.slots[id].timeToFire, a.slots[id].period);
      && FiringTimes(r.trace, id) == FiringTimes(a.trace, id) + Series(first, p, k)
      && r.now == a.now + n < Deadline(first, p, k)
      && (k > 0 ==> Deadline(first, p, k - 1) <= a.now + n)
      && r.slots[id] == a.slots[id].(timeToFire := Deadline(first, p, k))
    decreases n
  {
    if n == 0 {
      k := 0;
    } else {
      TickElsewhere(a, h, id);
      var b := Tick(a, h);
      var j := ContinuousFires(b, h, n - 1, id);
      var r := Ticks(b, h, n - 1);
      assert r == Ticks(a, h, n);
      var (first, p) := (a.slots[id].timeToFire, a.slots[id].period);
      if Due(a.slots[id], a.now + 1) {
        k := j + 1;
        assert Deadline(first, p, k) == Deadline(first + p, p, j);
        assert j > 0 ==> Deadline(first, p, j) == Deadline(first + p, p, j - 1);
        SeriesPrepend(FiringTimes(a.trace, id), first, p, j);
      } else {
        k := j;
      }
    }
  }

  lemma {:induction false} InactiveStaysQuiet<D(!new)>(a: Clock<D>, h: Handlers<D>, n: nat, id: nat)
    requires id < |a.slots| && Fits(h, |a.slots|) && LeavesAlone(h, id) && !a.slots[id].active
    ensures var r := Ticks(a, h, n);
      FiringTimes(r.trace, id) == FiringTimes(a.trace, id) && r.slots[id] == a.slots[id] && r.now == a.now + n
    decreases n
  {
    if n > 0 {
      TickElsewhere(a, h, id);
      InactiveStaysQuiet(Tick(a, h), h, n - 1, id);
    }
  }

  function Once(first: nat, now: nat): seq<nat> { if first <= now then [first] else [] }

  /** A one-shot fires once, at its deadline, if the clock gets that far. */
  lemma {:induction false} OneShotFires<D(!new)>(a: Clock<D>, h: Handlers<D>, n: nat, id: nat)
    requires id < |a.slots| && Fits(h, |a.slots|) && LeavesAlone(h, id)
    requires a.slots[id].active && !a.slots[id].continuous && a.now < a.slots[id].timeToFire
    ensures var r := Ticks(a, h, n);
      var first := a.slots[id].timeToFire;
      && FiringTimes(r.trace, id) == FiringTimes(a.trace, id) + Once(first, a.now + n)
      && r.slots[id] == (if first <= a.now + n then a.slots[id].(active := false) else a.slots[id])
      && r.now == a.now + n
    decreases n
  {
    if n > 0 {
      TickElsewhere(a, h, id);
      if Due(a.slots[id], a.now + 1) {
        InactiveStaysQuiet(Tick(a, h), h, n - 1, id);
      } else {
        OneShotFires(Tick(a, h), h, n - 1, id);
      }
    }
  }
}
