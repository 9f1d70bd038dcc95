// The greedy bound needs that no gate is skipped: a run that skips one and exceeds it.
module GateSkipping {
  import opened Options
  import opened Selections
  import opened Digraphs
  import opened GateGraph
  import opened GateMachine
  import opened GateLiveness
  import opened GateTiming

  // `broken` fails after 1; `slow` takes 3; `held` needs `broken` and is skipped, but only once
  // `slow` is done; `last` waits for `held` and takes 3. Two slots.
  const BROKEN: Gate := Gate("broken", [], [])
  const SLOW: Gate := Gate("slow", [], [])
  const HELD: Gate := Gate("held", ["broken"], [])
  const LAST: Gate := Gate("last", [], ["held"])
  const GATES: seq<Gate> := [BROKEN, SLOW, HELD, LAST]

  function Outcome(gate: Gate): GateResult {
    GateResult(gate, if gate == BROKEN then Failed else Passed, "", [])
  }

  function Lasts(gate: Gate): nat {
    if gate == BROKEN then 1 else if gate == HELD then 0 else 3
  }

  function InStates(broken: GateState, slow: GateState, held: GateState, last: GateState): States {
    map["broken" := broken, "slow" := slow, "held" := held, "last" := last]
  }

  const BROKEN_DONE: map<string, GateResult> := map["broken" := Outcome(BROKEN)]
  const SLOW_DONE: map<string, GateResult> := BROKEN_DONE["slow" := Outcome(SLOW)]
  const HELD_DONE: map<string, GateResult> :=
    SLOW_DONE["held" := GateResult(HELD, Skipped, "dependency failed or skipped", ["broken"])]

  // The run, moment by moment.
  function Moment(k: nat): Timed {
    match k
    case 0 => Timed(Machine(InStates(Pending, Pending, Pending, Pending), [], map[]), 0, map[])
    case 1 => Timed(Machine(InStates(Running, Pending, Pending, Pending), [BROKEN], map[]), 0, map["broken" := 1])
    case 2 => Timed(Machine(InStates(Running, Running, Pending, Pending), [BROKEN, SLOW], map[]), 0,
                    map["broken" := 1, "slow" := 3])
    case 3 => Timed(Machine(InStates(Settled(Failed), Running, Pending, Pending), [SLOW], BROKEN_DONE), 1,
                    map["broken" := 1, "slow" := 3])
    case 4 => Timed(Machine(InStates(Settled(Failed), Settled(Passed), Pending, Pending), [], SLOW_DONE), 3,
                    map["broken" := 1, "slow" := 3])
    case 5 => Timed(Machine(InStates(Settled(Failed), Settled(Passed), Settled(Skipped), Pending), [], HELD_DONE), 3,
                    map["broken" := 1, "slow" := 3])
    case 6 => Timed(Machine(InStates(Settled(Failed), Settled(Passed), Settled(Skipped), Running), [LAST], HELD_DONE),
                    3, map["broken" := 1, "slow" := 3, "last" := 6])
    case _ => Timed(Machine(InStates(Settled(Failed), Settled(Passed), Settled(Skipped), Settled(Passed)), [],
                            HELD_DONE["last" := Outcome(LAST)]), 6, map["broken" := 1, "slow" := 3, "last" := 6])
  }

  ghost predicate Steps(t: Timed, u: Timed) {
    TimedNext(GATES, 2, Outcome, Lasts, t, u)
  }

  lemma {:induction false} FirstAt<T>(items: seq<T>, p: T -> bool, from: nat, k: nat)
    requires from <= k < |items| && p(items[k]) && forall j :: from <= j < k ==> !p(items[j])
    ensures IndexWhere(items, p, from) == k
    decreases k - from
  {
    if from < k { FirstAt(items, p, from + 1, k); }
  }

  lemma {:induction false} NoneAt<T>(items: seq<T>, p: T -> bool)
    requires forall x :: x in items ==> !p(x)
    ensures FirstWhere(items, p).None?
  {
  }

  lemma InitialStates()
    ensures Initial(GATES) == Moment(0).m && UniqueIds(GATES)
  {
    forall id ensures id in ById(GATES) <==> id in {"broken", "slow", "held", "last"} {
      ByIdKeys(GATES, id);
      assert GATES[0].id == "broken" && GATES[1].id == "slow" && GATES[2].id == "held" && GATES[3].id == "last";
    }
  }

  lemma BrokenStarts()
    ensures Steps(Moment(0), Moment(1))
  {
    FirstAt(GATES, (gate: Gate) => Ready(gate, Moment(0).m.states), 0, 0);
    assert Moment(1).m == StartGate(Moment(0).m, BROKEN);
    assert TimedStart(GATES, 2, Lasts, Moment(0), Moment(1));
  }

  lemma SlowStarts()
    ensures Steps(Moment(1), Moment(2))
  {
    FirstAt(GATES, (gate: Gate) => Ready(gate, Moment(1).m.states), 0, 1);
    assert Moment(2).m == StartGate(Moment(1).m, SLOW);
    assert TimedStart(GATES, 2, Lasts, Moment(1), Moment(2));
  }

  lemma BrokenSettles()
    ensures Steps(Moment(2), Moment(3))
  {
    assert Moment(3).m == SettleGate(Moment(2).m, 0, Outcome);
    assert TimedSettle(GATES, 2, Outcome, Moment(2), Moment(3), 0);
  }

  lemma SlowSettles()
    ensures Steps(Moment(3), Moment(4))
  {
    assert "broken" in HELD.needs && "held" in LAST.after;
    NoneAt(GATES, (gate: Gate) => Ready(gate, Moment(3).m.states));
    assert Moment(4).m == SettleGate(Moment(3).m, 0, Outcome);
    assert TimedSettle(GATES, 2, Outcome, Moment(3), Moment(4), 0);
  }

  lemma HeldIsSkipped()
    ensures Steps(Moment(4), Moment(5))
  {
    HeldIsBlocked();
    HeldResult();
    assert Skips(GATES, 2, Moment(4).m, Moment(5).m);
  }

  lemma HeldIsBlocked()
    ensures FirstReady(GATES, Moment(4).m.states).None? && FirstBlocked(GATES, Moment(4).m.states) == Some(HELD)
  {
    var states := Moment(4).m.states;
    assert "broken" in HELD.needs && "held" in LAST.after;
    NoneAt(GATES, (gate: Gate) => Ready(gate, states));
    assert HasFailed(states, "broken");
    FirstAt(GATES, (gate: Gate) => Blocked(gate, states), 0, 2);
  }

  lemma HeldResult()
    ensures Moment(5).m == SkipGate(Moment(4).m, HELD)
  {
    assert HasFailed(Moment(4).m.states, "broken");
    var failed := (d: string) => HasFailed(Moment(4).m.states, d);
    assert Select(["broken"], failed) == ["broken"] by { assert ["broken"][1..] == []; }
  }

  lemma LastStarts()
    ensures Steps(Moment(5), Moment(6))
  {
    FirstAt(GATES, (gate: Gate) => Ready(gate, Moment(5).m.states), 0, 3);
    assert Moment(6).m == StartGate(Moment(5).m, LAST);
    assert TimedStart(GATES, 2, Lasts, Moment(5), Moment(6));
  }

  lemma LastSettles()
    ensures Steps(Moment(6), Moment(7))
  {
    var states := Moment(6).m.states;
    NoneAt(GATES, (gate: Gate) => Ready(gate, states));
    LastResult();
    assert TimedSettle(GATES, 2, Outcome, Moment(6), Moment(7), 0);
  }

  lemma LastResult()
    ensures Moment(7).m == SettleGate(Moment(6).m, 0, Outcome)
  {
  }

  lemma StepAt(k: nat)
    requires k < 7
    ensures Steps(Moment(k), Moment(k + 1))
  {
    match k
    case 0 => BrokenStarts();
    case 1 => SlowStarts();
    case 2 => BrokenSettles();
    case 3 => SlowSettles();
    case 4 => HeldIsSkipped();
    case 5 => LastStarts();
    case 6 => LastSettles();
  }

  lemma RunThrough(gates: seq<Gate>, maxActive: nat, execute: Executor, dur: Duration, at: nat -> Timed, n: nat)
    returns (run: seq<Timed>)
    requires at(0) == Timed(Initial(gates), 0, map[])
    requires forall k: nat :: k < n ==> TimedNext(gates, maxActive, execute, dur, at(k), at(k + 1))
    ensures IsTimedRun(gates, maxActive, execute, dur, run) && run[|run| - 1] == at(n)
  {
    run := seq(n + 1, (k: nat) => at(k));
    forall k: nat | k + 1 < |run| ensures TimedStepAt(gates, maxActive, execute, dur, run, k) {
      assert run[k] == at(k) && run[k + 1] == at(k + 1);
    }
  }

  lemma WholeRun() returns (run: seq<Timed>)
    ensures IsTimedRun(GATES, 2, Outcome, Lasts, run) && run[|run| - 1] == Moment(7)
  {
    InitialStates();
    forall k: nat | k < 7 ensures TimedNext(GATES, 2, Outcome, Lasts, Moment(k), Moment(k + 1)) { StepAt(k); }
    run := RunThrough(GATES, 2, Outcome, Lasts, Moment, 7);
  }

  function Cap(id: string): nat {
    if id == "last" then 4 else if id == "slow" then 3 else 1
  }

  lemma GatesById()
    ensures ById(GATES) == map["broken" := BROKEN, "slow" := SLOW, "held" := HELD, "last" := LAST]
  {
    InitialStates();
    ByIdOfGate(GATES, 0);
    ByIdOfGate(GATES, 1);
    ByIdOfGate(GATES, 2);
    ByIdOfGate(GATES, 3);
    forall id ensures id in ById(GATES) <==> id in {"broken", "slow", "held", "last"} {
      ByIdKeys(GATES, id);
      assert GATES[0].id == "broken" && GATES[1].id == "slow" && GATES[2].id == "held" && GATES[3].id == "last";
    }
  }

  // No chain is longer than last, held, broken.
  lemma {:induction false} ChainsAreShort(chain: seq<string>)
    requires IsWalk(GraphOf(GATES), chain)
    ensures Weight(GATES, Lasts, chain) <= Cap(chain[0])
  {
    GatesById();
    if |chain| > 1 {
      var rest := chain[1..];
      assert EdgeAt(GraphOf(GATES), chain, 0);
      forall i: nat | i + 1 < |rest| ensures EdgeAt(GraphOf(GATES), rest, i) {
        assert EdgeAt(GraphOf(GATES), chain, i + 1);
      }
      ChainsAreShort(rest);
      assert chain[1] in Predecessors(ById(GATES)[chain[0]]);
      assert Predecessors(HELD) == ["broken"] && Predecessors(LAST) == ["held"];
    } else {
      assert Weight(GATES, Lasts, chain[1..]) == 0;
    }
  }

  // The whole run takes 6 on 2 slots, for 7 of work and chains of at most 4: a skip comes only
  // when nothing runs, and what waits for it waits for gates it does not depend on.
  lemma SkippingExceedsBound() returns (run: seq<Timed>)
    ensures IsTimedRun(GATES, 2, Outcome, Lasts, run) && AllSettled(run[|run| - 1].m)
    ensures forall chain :: IsWalk(GraphOf(GATES), chain) ==>
              2 * run[|run| - 1].now > TotalWork(GATES, Lasts) + (2 - 1) * Weight(GATES, Lasts, chain)
  {
    run := WholeRun();
    WorkOfGates();
    assert run[|run| - 1].now == 6;
    forall chain | IsWalk(GraphOf(GATES), chain)
      ensures 2 * run[|run| - 1].now > TotalWork(GATES, Lasts) + (2 - 1) * Weight(GATES, Lasts, chain)
    {
      ChainsAreShort(chain);
    }
  }

  lemma WorkOfGates()
    ensures TotalWork(GATES, Lasts) == 7
  {
    WorkCons(BROKEN, [SLOW, HELD, LAST]);
    WorkCons(SLOW, [HELD, LAST]);
    WorkCons(HELD, [LAST]);
    WorkCons(LAST, []);
    assert GATES == [BROKEN] + [SLOW, HELD, LAST] && [SLOW, HELD, LAST] == [SLOW] + [HELD, LAST];
    assert [HELD, LAST] == [HELD] + [LAST] && [LAST] == [LAST] + [];
    assert SLOW != BROKEN && SLOW != HELD && LAST != BROKEN && LAST != HELD && HELD != BROKEN;
  }

  lemma WorkCons(gate: Gate, rest: seq<Gate>)
    ensures TotalWork([gate] + rest, Lasts) == Lasts(gate) + TotalWork(rest, Lasts)
  {
    assert ([gate] + rest)[1..] == rest;
  }
}
