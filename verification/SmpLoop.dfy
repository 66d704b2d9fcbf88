/**
 The simulation loop for several processors, which feeds the scheduler.
 */
module SmpLoop {
  import opened Words
  import opened TimerModel
  import opened TimerRefinement
  import opened NaiveClock
  import opened PcSystem
  import opened Arith

  /** One turn of one processor: the instructions it retired (0 when halted) and
      the scheduler calls its devices made meanwhile. */
  datatype Turn = Turn(icount: nat, calls: seq<Call>)

  function Credit(turn: Turn, quantum: nat): nat {
    if turn.icount == 0 then quantum else turn.icount
  }

  /** Instructions credited to all processors together. */
  function Credited(turns: seq<Turn>, quantum: nat): nat {
    if turns == [] then 0
    else Credited(turns[..|turns| - 1], quantum) + Credit(turns[|turns| - 1], quantum)
  }

  /** Every turn credits what its processor retired, or the quantum if that is nothing. */
  lemma CreditedNext(turns: seq<Turn>, turn: Turn, quantum: nat)
    ensures Credited([], quantum) == 0
    ensures Credited(turns + [turn], quantum)
         == Credited(turns, quantum) + if turn.icount == 0 then quantum else turn.icount
  {
    assert (turns + [turn])[..|turns|] == turns;
  }

  /** No turn credits more than m, and its scheduler calls stay within ids. */
  ghost predicate TurnsOk(turns: seq<Turn>, quantum: nat, m: nat, ids: set<nat>) {
    forall k :: 0 <= k < |turns| ==> Credit(turns[k], quantum) <= m && CallsOk(turns[k].calls, ids)
  }

  lemma ClientCallsKeepReady<D(!new)>(s: Sched<D>, h: Handlers<D>, ids: set<nat>, n: nat, calls: seq<Call>)
    requires Ready(s, h, ids, n) && CallsOk(calls, ids)
    ensures CallsInTable(calls, s.numTimers)
    ensures Ready(TimerModel.PerformAll(s, calls), h, ids, n)
    ensures Now(TimerModel.PerformAll(s, calls)) == Now(s)
  {
    PerformAllRefines(s, calls, ids);
  }

  lemma {:induction false} CreditedPrefix(turns: seq<Turn>, quantum: nat, k: nat)
    requires k <= |turns|
    ensures Credited(turns[..k], quantum) <= Credited(turns, quantum)
    decreases |turns|
  {
    if k < |turns| {
      assert turns[..|turns| - 1][..k] == turns[..k];
      CreditedPrefix(turns[..|turns| - 1], quantum, k);
    } else {
      assert turns[..k] == turns;
    }
  }

  /** The accumulator of a round stays below 2^32. */
  lemma Accumulate(p: nat, i: nat, m: nat, executed: nat, n: nat)
    requires i < p && n <= m && p * m + p <= TWO_32
    requires executed <= p - 1 + i * m
    ensures executed + n <= p - 1 + (i + 1) * m < TWO_32
  {
    Distribute(m, i, 1);
    MulMono(i + 1, p, m);
  }

  /** At the end of a round the whole ticks are delivered, the rest is kept. */
  lemma EndOfRound(p: nat, elapsed: nat, executed: nat)
    requires p >= 1
    ensures p * elapsed + executed == p * (elapsed + executed / p) + executed % p
    ensures elapsed + executed / p <= p * elapsed + executed
  {
    Distribute(p, elapsed, executed / p);
    DivLess(executed, p);
    MulMono(1, p, elapsed);
  }

  /** Delivers the whole ticks of a round. */
  method Deliver<D(!new)>(sys: System<D>, processors: nat, executed: nat, h: Handlers<D>, ghost ids: set<nat>)
    returns (left: nat)
    requires 1 <= processors && executed < TWO_32
    requires sys.Valid() && Ready(sys.State(), h, ids, executed)
    modifies sys, sys.timer
    ensures sys.Valid() && Ready(sys.State(), h, ids, 0)
    ensures Now(sys.State()) >= old(Now(sys.State()))
    ensures processors * (Now(sys.State()) - old(Now(sys.State()))) + left == executed && left < processors
  {
    EndOfRound(processors, 0, executed);
    sys.Tickn(executed / processors, h, ids);
    left := executed % processors;
  }

  /** The scheduler calls devices make during a turn take no time. */
  method DeviceCalls<D(!new)>(sys: System<D>, calls: seq<Call>, h: Handlers<D>, ghost ids: set<nat>, ghost n: nat)
    requires sys.Valid() && Ready(sys.State(), h, ids, n) && CallsOk(calls, ids)
    modifies sys, sys.timer
    ensures sys.Valid() && Ready(sys.State(), h, ids, n) && Now(sys.State()) == old(Now(sys.State()))
  {
    ClientCallsKeepReady(sys.State(), h, ids, n, calls);
    sys.RequestAll(calls);
  }

  /** One turn, and the ticks delivered when it ends a round. */
  method RunTurn<D(!new)>(sys: System<D>, processors: nat, quantum: nat, turn: Turn, executed: nat,
                          processor: nat, h: Handlers<D>, ghost ids: set<nat>)
    returns (left: nat, next: nat)
    requires 1 <= processors && processor < processors && CallsOk(turn.calls, ids)
    requires executed + Credit(turn, quantum) < TWO_32
    requires sys.Valid() && Ready(sys.State(), h, ids, executed + Credit(turn, quantum))
    modifies sys, sys.timer
    ensures sys.Valid() && Ready(sys.State(), h, ids, 0)
    ensures Now(sys.State()) >= old(Now(sys.State()))
    ensures var credit := if turn.icount == 0 then quantum else turn.icount;
      processors * (Now(sys.State()) - old(Now(sys.State()))) + left == executed + credit
    ensures next == (if processor + 1 == processors then 0 else processor + 1)
    ensures next == 0 ==> left < processors
    ensures next != 0 ==> left == executed + Credit(turn, quantum)
  {
    DeviceCalls(sys, turn.calls, h, ids, executed + Credit(turn, quantum));
    var n := if turn.icount == 0 then quantum else turn.icount;
    left := U32(executed + n);
    next := processor + 1;
    if next == processors {
      next := 0;
      left := Deliver(sys, processors, left, h, ids);
    }
  }

  /** Between two turns: what has been credited, the ticks delivered for it, what is left
      of it and the processor whose turn it is. */
  predicate Balance(p: nat, m: nat, credited: nat, elapsed: nat, executed: nat, processor: nat) {
    && credited == p * elapsed + executed && processor < p && executed <= p - 1 + processor * m
    && (processor == 0 ==> executed < p)
  }

  /** Time passed is covered by instructions, and another turn does not overflow. */
  lemma TurnFits(p: nat, m: nat, credited: nat, elapsed: nat, executed: nat, processor: nat, credit: nat)
    requires Balance(p, m, credited, elapsed, executed, processor) && credit <= m && p * m + p <= TWO_32
    ensures elapsed + executed <= credited && executed + credit < TWO_32
  {
    MulMono(1, p, elapsed);
    Accumulate(p, processor, m, executed, credit);
  }

  lemma NextBalance(p: nat, m: nat, credited: nat, elapsed: nat, executed: nat, processor: nat,
                    credit: nat, ticks: nat, left: nat, next: nat)
    requires Balance(p, m, credited, elapsed, executed, processor) && credit <= m && p * m + p <= TWO_32
    requires p * ticks + left == executed + credit && next == (if processor + 1 == p then 0 else processor + 1)
    requires if next == 0 then left < p else left == executed + credit
    ensures Balance(p, m, credited + credit, elapsed + ticks, left, next)
  {
    Distribute(p, elapsed, ticks);
    Accumulate(p, processor, m, executed, credit);
  }

  /** A turn keeps the balance. */
  method BalancedTurn<D(!new)>(sys: System<D>, processors: nat, quantum: nat, turn: Turn, executed: nat,
                               processor: nat, h: Handlers<D>, ghost ids: set<nat>, ghost m: nat, ghost t0: nat,
                               ghost credited: nat)
    returns (left: nat, next: nat)
    requires processors * m + processors <= TWO_32 && CallsOk(turn.calls, ids) && Credit(turn, quantum) <= m
    requires sys.Valid() && Ready(sys.State(), h, ids, 0) && t0 <= Now(sys.State())
    requires Balance(processors, m, credited, Now(sys.State()) - t0, executed, processor)
    requires t0 + credited + Credit(turn, quantum) <= HORIZON
    modifies sys, sys.timer
    ensures sys.Valid() && Ready(sys.State(), h, ids, 0) && t0 <= Now(sys.State())
    ensures Balance(processors, m, credited + Credit(turn, quantum), Now(sys.State()) - t0, left, next)
    ensures next == (if processor + 1 == processors then 0 else processor + 1)
  {
    ghost var now, credit := Now(sys.State()), Credit(turn, quantum);
    TurnFits(processors, m, credited, now - t0, executed, processor, credit);
    left, next := RunTurn(sys, processors, quantum, turn, executed, processor, h, ids);
    NextBalance(processors, m, credited, now - t0, executed, processor, credit, Now(sys.State()) - now, left, next);
  }

  /** Every instruction credited is either delivered, one tick for each round of
      `processors`, or still in `executed`, less than a tick at a round boundary. */
  method RunProcessors<D(!new)>(sys: System<D>, processors: nat, quantum: nat, turns: seq<Turn>,
                                h: Handlers<D>, ghost ids: set<nat>, ghost m: nat)
    returns (executed: nat, processor: nat)
    requires 2 <= processors && processors * m + processors <= TWO_32
    requires TurnsOk(turns, quantum, m, ids)
    requires sys.Valid() && Ready(sys.State(), h, ids, Credited(turns, quantum))
    modifies sys, sys.timer
    ensures sys.Valid() && Now(sys.State()) >= old(Now(sys.State()))
    ensures Credited(turns, quantum) == processors * (Now(sys.State()) - old(Now(sys.State()))) + executed
    ensures processor == |turns| % processors
    ensures processor == 0 ==>
              executed < processors &&
              Now(sys.State()) == old(Now(sys.State())) + Credited(turns, quantum) / processors
  {
    executed, processor := 0, 0;
    ghost var t0 := Now(sys.State());
    ghost var rounds: nat := 0;
    for k := 0 to |turns|
      invariant sys.Valid() && Ready(sys.State(), h, ids, 0) && Now(sys.State()) >= t0
      invariant Balance(processors, m, Credited(turns[..k], quantum), Now(sys.State()) - t0, executed, processor)
      invariant k == processors * rounds + processor
    {
      assert turns[..k + 1][..k] == turns[..k];
      CreditedPrefix(turns, quantum, k + 1);
      executed, processor := BalancedTurn(sys, processors, quantum, turns[k], executed, processor, h, ids,
                                          m, t0, Credited(turns[..k], quantum));
      Distribute(processors, rounds, 1);
      rounds := if processor == 0 then rounds + 1 else rounds;
    }
    assert turns[..|turns|] == turns;
    DivUnique(|turns|, processors, rounds, processor);
    if processor == 0 {
      DivUnique(Credited(turns, quantum), processors, Now(sys.State()) - t0, executed);
    }
  }
}
