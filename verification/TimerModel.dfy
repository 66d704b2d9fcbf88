/**
 The timer scheduler of the PC system object, as a function of its state.

 `Sched` holds the fields of the object: the slot table, the 32-bit countdown,
 the length of the current countdown period and the 64-bit tick total.  The
 functions below are the operations on those fields, with the widths of the
 original arithmetic written out (`U32`, `U64`).
 */
module TimerModel {
  import opened Words

  const MAX_TIMERS := 64
  const NULL_INTERVAL := 0xffff_ffff
  // Half of the 64-bit range: the bound on total time and on each period
  const HORIZON := 0x8000_0000_0000_0000
  // BX_MAX_BIT64S, the "invalid" period and deadline of an unregistered slot
  const MAX_BIT64S := 0x7fff_ffff_ffff_ffff

  datatype Timer = Timer(
    inUse: bool,
    period: nat,
    timeToFire: nat,
    active: bool,
    continuous: bool,
    funct: nat
  )

  const FREE_SLOT := Timer(false, MAX_BIT64S, MAX_BIT64S, false, false, 0)

  /** What client code, and a handler in particular, asks of the scheduler. */
  datatype Call =
    | Activate(id: nat, ticks: nat, continuous: bool)
    | Deactivate(id: nat)

  datatype Firing = Firing(time: nat, id: nat)

  /** A handler sees the state of the rest of the emulator, its own function
      pointer, the identity of the triggered timer and the current time.  It
      leaves a new state and a list of scheduler calls. */
  type Handlers<!D> = (D, nat, nat, nat) -> (D, seq<Call>)

  datatype Sched<D> = Sched(
    timer: seq<Timer>,
    numTimers: nat,
    countdown: nat,
    period: nat,
    ticksTotal: nat,
    dev: D,
    trace: seq<Firing>
  )

  // ---------- queries ----------

  function Now<D>(s: Sched<D>): nat {
    U64(s.ticksTotal + U32(s.period - s.countdown))
  }

  predicate Due(t: Timer, now: nat) {
    t.active && t.timeToFire == now
  }

  function AtLeastOne(ticks: nat): nat {
    if ticks < 1 then 1 else ticks
  }

  /** First free slot from index i on, or the length when there is none. */
  function FreeFrom(slots: seq<Timer>, i: nat): (r: nat)
    requires i <= |slots|
    ensures i <= r <= |slots|
    ensures forall j :: i <= j < r ==> slots[j].inUse
    ensures r < |slots| ==> !slots[r].inUse
    decreases |slots| - i
  {
    if i == |slots| || !slots[i].inUse then i else FreeFrom(slots, i + 1)
  }

  // ---------- arming and disarming ----------

  /** A timer `ticks` away may have to fire before the current countdown. */
  function Skew<D>(s: Sched<D>, ticks: nat): Sched<D> {
    if ticks < s.countdown then
      s.(period := U32(s.period - (s.countdown - U32(ticks))), countdown := U32(ticks))
    else
      s
  }

  function ActivateTicks<D>(s: Sched<D>, id: nat, ticks: nat, continuous: bool): Sched<D>
    requires id < |s.timer|
  {
    var n := AtLeastOne(ticks);
    var t := s.timer[id].(period := n, timeToFire := U64(Now(s) + n),
                          active := true, continuous := continuous);
    Skew(s.(timer := s.timer[id := t]), n)
  }

  function DeactivateTimer<D>(s: Sched<D>, id: nat): Sched<D>
    requires id < |s.timer|
  {
    s.(timer := s.timer[id := s.timer[id].(active := false)])
  }

  function Perform<D>(s: Sched<D>, c: Call): (r: Sched<D>)
    requires c.id < |s.timer|
    ensures |r.timer| == |s.timer| && r.numTimers == s.numTimers
  {
    match c
    case Activate(id, ticks, continuous) => ActivateTicks(s, id, ticks, continuous)
    case Deactivate(id) => DeactivateTimer(s, id)
  }

  predicate CallsInTable(calls: seq<Call>, n: nat) {
    forall k :: 0 <= k < |calls| ==> calls[k].id < n
  }

  function PerformAll<D>(s: Sched<D>, calls: seq<Call>): (r: Sched<D>)
    requires CallsInTable(calls, |s.timer|)
    ensures |r.timer| == |s.timer| && r.numTimers == s.numTimers
    decreases |calls|
  {
    if calls == [] then s else PerformAll(Perform(s, calls[0]), calls[1..])
  }

  function RegisterSlot<D>(s: Sched<D>): nat
    requires 1 <= s.numTimers <= |s.timer|
  {
    FreeFrom(s.timer[..s.numTimers], 1)
  }

  function RegisterTicks<D>(s: Sched<D>, funct: nat, ticks: nat, continuous: bool, active: bool): Sched<D>
    requires 1 <= s.numTimers <= |s.timer| && RegisterSlot(s) < |s.timer|
  {
    var n := AtLeastOne(ticks);
    var i := RegisterSlot(s);
    var t := Timer(true, n, U64(Now(s) + n), active, continuous, funct);
    var s1 := s.(timer := s.timer[i := t]);
    var s2 := if active then Skew(s1, n) else s1;
    s2.(numTimers := if i == s.numTimers then s.numTimers + 1 else s.numTimers)
  }

  function UnregisterTimer<D>(s: Sched<D>, id: nat): (Sched<D>, bool)
    requires id < s.numTimers <= |s.timer|
  {
    if s.timer[id].active then
      (s, false)
    else
      (s.(timer := s.timer[id := FREE_SLOT],
          numTimers := if id == s.numTimers - 1 then s.numTimers - 1 else s.numTimers), true)
  }

  // ---------- the event ----------

  function Expire(t: Timer, now: nat): Timer {
    if !Due(t, now) then t
    else if t.continuous then t.(timeToFire := U64(t.timeToFire + t.period))
    else t.(active := false)
  }

  function ExpireAll(timer: seq<Timer>, n: nat, now: nat): (r: seq<Timer>)
    ensures |r| == |timer|
  {
    seq(|timer|, i requires 0 <= i < |timer| => if i < n then Expire(timer[i], now) else timer[i])
  }

  function DueFlags(timer: seq<Timer>, n: nat, now: nat): (r: seq<bool>)
    requires n <= |timer|
    ensures |r| == n
  {
    seq(n, i requires 0 <= i < n => Due(timer[i], now))
  }

  /** The earliest deadline among the active slots below n. */
  function MinDeadline(timer: seq<Timer>, n: nat): nat
    requires n <= |timer|
  {
    if n == 0 then TWO_64 - 1
    else
      var m := MinDeadline(timer, n - 1);
      if timer[n - 1].active && timer[n - 1].timeToFire < m then timer[n - 1].timeToFire else m
  }

  /** The first half of the event: expire what is due, restart the countdown. */
  function Advance<D>(s: Sched<D>): Sched<D>
    requires s.numTimers <= |s.timer|
  {
    var now := U64(s.ticksTotal + s.period);
    var expired := ExpireAll(s.timer, s.numTimers, now);
    var left := U32(MinDeadline(expired, s.numTimers) - now);
    s.(timer := expired, ticksTotal := now, countdown := left, period := left)
  }

  /** No scheduler call of a handler leaves the slot table. */
  ghost predicate InTable<D(!new)>(h: Handlers<D>) {
    forall d, f, i, t :: CallsInTable(h(d, f, i, t).1, MAX_TIMERS)
  }

  function Invoke<D(!new)>(s: Sched<D>, h: Handlers<D>, id: nat): (r: Sched<D>)
    requires id < |s.timer| == MAX_TIMERS
    requires CallsInTable(h(s.dev, s.timer[id].funct, id, Now(s)).1, MAX_TIMERS)
    ensures |r.timer| == |s.timer| && r.numTimers == s.numTimers
  {
    var (dev, calls) := h(s.dev, s.timer[id].funct, id, Now(s));
    PerformAll(s.(dev := dev, trace := s.trace + [Firing(Now(s), id)]), calls)
  }

  /** The second half of the event: call the handlers of the flagged slots from i on. */
  ghost function FireFrom<D(!new)>(s: Sched<D>, h: Handlers<D>, flags: seq<bool>, i: nat): (r: Sched<D>)
    requires i <= |flags| <= |s.timer| == MAX_TIMERS && InTable(h)
    ensures |r.timer| == |s.timer| && r.numTimers == s.numTimers
    decreases |flags| - i
  {
    if i == |flags| then s
    else FireFrom(if flags[i] then Invoke(s, h, i) else s, h, flags, i + 1)
  }

  ghost function CountdownEvent<D(!new)>(s: Sched<D>, h: Handlers<D>): (r: Sched<D>)
    requires s.numTimers <= |s.timer| == MAX_TIMERS && InTable(h)
    ensures |r.timer| == |s.timer| && r.numTimers == s.numTimers
  {
    var flags := DueFlags(s.timer, s.numTimers, U64(s.ticksTotal + s.period));
    FireFrom(Advance(s), h, flags, 0)
  }

  ghost function Tick1<D(!new)>(s: Sched<D>, h: Handlers<D>): (r: Sched<D>)
    requires s.numTimers <= |s.timer| == MAX_TIMERS && InTable(h)
    ensures |r.timer| == |s.timer| && r.numTimers == s.numTimers
  {
    var s1 := s.(countdown := U32(s.countdown - 1));
    if s1.countdown == 0 then CountdownEvent(s1, h) else s1
  }

  /** n single ticks. */
  ghost function Tick1s<D(!new)>(s: Sched<D>, h: Handlers<D>, n: nat): (r: Sched<D>)
    requires s.numTimers <= |s.timer| == MAX_TIMERS && InTable(h)
    ensures |r.timer| == |s.timer| && r.numTimers == s.numTimers
    decreases n
  {
    if n == 0 then s else Tick1s(Tick1(s, h), h, n - 1)
  }

  lemma {:induction false} SingleTicksCompose<D(!new)>(s: Sched<D>, h: Handlers<D>, m: nat, n: nat)
    requires s.numTimers <= |s.timer| == MAX_TIMERS && InTable(h)
    ensures Tick1s(Tick1s(s, h, m), h, n) == Tick1s(s, h, m + n)
    decreases m
  {
    if m > 0 {
      SingleTicksCompose(Tick1(s, h), h, m - 1, n);
    }
  }
}
