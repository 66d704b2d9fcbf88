/**
 The reference the scheduler is measured against: a clock that keeps the
 absolute time as an unbounded number and, on every tick, looks at every slot.
 It has no countdown and no notion of a next event.
 */
module NaiveClock {
  import opened TimerModel

  datatype Clock<D> = Clock(now: nat, slots: seq<Timer>, dev: D, trace: seq<Firing>)

  /** Every id of the set is a registered slot other than the null timer. */
  ghost predicate Registered(slots: seq<Timer>, ids: set<nat>) {
    forall i :: i in ids ==> 1 <= i < |slots| && slots[i].inUse
  }

  predicate CallOk(c: Call, ids: set<nat>) {
    c.id in ids && (c.Activate? ==> c.ticks < HORIZON)
  }

  predicate CallsOk(calls: seq<Call>, ids: set<nat>) {
    forall k :: 0 <= k < |calls| ==> CallOk(calls[k], ids)
  }

  /** Handlers arm and disarm the timers of the given set only. */
  ghost predicate WellBehaved<D(!new)>(h: Handlers<D>, ids: set<nat>) {
    forall d, f, i, t :: CallsOk(h(d, f, i, t).1, ids)
  }

  function Arm(t: Timer, now: nat, ticks: nat, continuous: bool): Timer {
    var p := if ticks == 0 then 1 else ticks;
    t.(period := p, timeToFire := now + p, active := true, continuous := continuous)
  }

  function Perform<D>(a: Clock<D>, c: Call): (r: Clock<D>)
    requires c.id < |a.slots|
    ensures |r.slots| == |a.slots|
  {
    var t := a.slots[c.id];
    match c
    case Activate(id, ticks, continuous) => a.(slots := a.slots[id := Arm(t, a.now, ticks, continuous)])
    case Deactivate(id) => a.(slots := a.slots[id := t.(active := false)])
  }

  function PerformAll<D>(a: Clock<D>, calls: seq<Call>): (r: Clock<D>)
    requires CallsInTable(calls, |a.slots|)
    ensures |r.slots| == |a.slots|
    decreases |calls|
  {
    if calls == [] then a else PerformAll(Perform(a, calls[0]), calls[1..])
  }

  function Register<D>(a: Clock<D>, funct: nat, ticks: nat, continuous: bool, active: bool): Clock<D>
    requires |a.slots| >= 1
  {
    var i := FreeFrom(a.slots, 1);
    var p := if ticks == 0 then 1 else ticks;
    var t := Timer(true, p, a.now + p, active, continuous, funct);
    a.(slots := a.slots[..i] + [t] + (if i < |a.slots| then a.slots[i + 1..] else []))
  }

  function Unregister<D>(a: Clock<D>, id: nat): Clock<D>
    requires id < |a.slots|
  {
    if a.slots[id].active then a
    else if id == |a.slots| - 1 then a.(slots := a.slots[..id])
    else a.(slots := a.slots[id := FREE_SLOT])
  }

  // ---------- one tick ----------

  /** After firing, a continuous timer is due one period later, a one-shot is off. */
  function Settle(t: Timer, now: nat): Timer {
    if !Due(t, now) then t
    else if t.continuous then t.(timeToFire := t.timeToFire + t.period)
    else t.(active := false)
  }

  function SettleAll(slots: seq<Timer>, now: nat): (r: seq<Timer>)
    ensures |r| == |slots|
  {
    seq(|slots|, i requires 0 <= i < |slots| => Settle(slots[i], now))
  }

  ghost predicate Fits<D(!new)>(h: Handlers<D>, n: nat) {
    forall d, f, i, t :: CallsInTable(h(d, f, i, t).1, n)
  }

  ghost function Invoke<D(!new)>(a: Clock<D>, h: Handlers<D>, id: nat): (r: Clock<D>)
    requires id < |a.slots| && Fits(h, |a.slots|)
    ensures |r.slots| == |a.slots|
  {
    var (dev, calls) := h(a.dev, a.slots[id].funct, id, a.now);
    PerformAll(a.(dev := dev, trace := a.trace + [Firing(a.now, id)]), calls)
  }

  ghost function FireFrom<D(!new)>(a: Clock<D>, h: Handlers<D>, flags: seq<bool>, i: nat): (r: Clock<D>)
    requires i <= |flags| <= |a.slots| && Fits(h, |a.slots|)
    ensures |r.slots| == |a.slots|
    decreases |flags| - i
  {
    if i == |flags| then a
    else FireFrom(if flags[i] then Invoke(a, h, i) else a, h, flags, i + 1)
  }

  /** Fire, in index order, every active timer whose deadline is now. */
  ghost function Sweep<D(!new)>(a: Clock<D>, h: Handlers<D>): (r: Clock<D>)
    requires Fits(h, |a.slots|)
    ensures |r.slots| == |a.slots|
  {
    FireFrom(a.(slots := SettleAll(a.slots, a.now)), h, DueFlags(a.slots, |a.slots|, a.now), 0)
  }

  ghost function Tick<D(!new)>(a: Clock<D>, h: Handlers<D>): (r: Clock<D>)
    requires Fits(h, |a.slots|)
    ensures |r.slots| == |a.slots|
  {
    Sweep(a.(now := a.now + 1), h)
  }

  ghost function Ticks<D(!new)>(a: Clock<D>, h: Handlers<D>, n: nat): (r: Clock<D>)
    requires Fits(h, |a.slots|)
    ensures |r.slots| == |a.slots|
    decreases n
  {
    if n == 0 then a else Ticks(Tick(a, h), h, n - 1)
  }
}
