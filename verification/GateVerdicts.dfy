// The outcome of an aggregate does not depend on scheduling. A recursive specification gives
// each gate's verdict, a second one gives the whole result table with its skip messages, and
// every complete run, whatever its concurrency bound and completion order, produces both.
module GateVerdicts {
  import opened Digraphs
  import opened GateGraph
  import opened GateMachine
  import opened GateLiveness

  ghost function Depth(gates: seq<Gate>, id: string): nat
    requires ValidGraph(gates) && id in ById(gates)
  {
    RankOf(GraphOf(gates))[id]
  }

  lemma PredecessorIsShallower(gates: seq<Gate>, id: string, d: string)
    requires ValidGraph(gates) && id in ById(gates) && d in Predecessors(ById(gates)[id])
    ensures d in ById(gates) && Depth(gates, d) < Depth(gates, id)
  {
    var gate := GateOfId(gates, id);
    KnownPredecessor(gates, gate, d);
    assert IsEdge(GraphOf(gates), id, d);
  }

  lemma PredecessorsAreShallower(gates: seq<Gate>, id: string)
    requires ValidGraph(gates) && id in ById(gates)
    ensures forall d :: d in ById(gates)[id].needs ==> d in ById(gates) && Depth(gates, d) < Depth(gates, id)
    ensures forall d :: d in ById(gates)[id].after ==> d in ById(gates) && Depth(gates, d) < Depth(gates, id)
  {
    var gate := ById(gates)[id];
    forall d | d in gate.needs || d in gate.after
      ensures d in ById(gates) && Depth(gates, d) < Depth(gates, id)
    {
      assert d in Predecessors(gate);
      PredecessorIsShallower(gates, id, d);
    }
  }

  lemma IdOfGate(gates: seq<Gate>, gate: Gate)
    requires UniqueIds(gates) && gate in gates
    ensures gate.id in ById(gates) && ById(gates)[gate.id] == gate
  {
    var i :| 0 <= i < |gates| && gates[i] == gate;
    ByIdOfGate(gates, i);
  }

  // ---- The verdict of one gate ----

  // Skipped if some need did not pass, else what its executor reports.
  ghost function Verdict(gates: seq<Gate>, execute: Executor, id: string): Status
    requires ValidGraph(gates) && id in ById(gates)
    decreases Depth(gates, id)
  {
    PredecessorsAreShallower(gates, id);
    var gate := ById(gates)[id];
    if forall d :: d in gate.needs ==> Verdict(gates, execute, d) == Passed then execute(gate).status else Skipped
  }

  lemma {:induction false} FinalStateIsVerdict(gates: seq<Gate>, maxActive: nat, execute: Executor, m: Machine,
                                               id: string)
    requires ValidGraph(gates) && Consistent(gates, maxActive, execute, m) && AllSettled(m)
    requires id in ById(gates)
    ensures m.states[id] == Settled(Verdict(gates, execute, id))
    decreases Depth(gates, id)
  {
    PredecessorsAreShallower(gates, id);
    var gate := GateOfId(gates, id);
    IdOfGate(gates, gate);
    assert Explained(gate, execute, m);
    forall d | d in gate.needs
      ensures m.states[d] == Settled(Verdict(gates, execute, d))
    {
      FinalStateIsVerdict(gates, maxActive, execute, m, d);
    }
    if !Executed(gate, execute, m) {
      var d :| d in gate.needs && HasFailed(m.states, d);
      assert Verdict(gates, execute, d) != Passed;
    }
  }

  // ---- The whole result table ----

  // Between two skips the scheduler runs every gate it can. This is the state of a gate once
  // nothing runs and nothing is ready, starting from states in which nothing runs.
  ghost function QuiescentState(gates: seq<Gate>, execute: Executor, base: States, id: string): GateState
    requires ValidGraph(gates) && base.Keys == ById(gates).Keys && id in base
    decreases Depth(gates, id)
  {
    PredecessorsAreShallower(gates, id);
    var gate := ById(gates)[id];
    if base[id] != Pending then base[id]
    else if (forall d :: d in gate.needs ==> QuiescentState(gates, execute, base, d) == Settled(Passed))
         && (forall d :: d in gate.after ==> QuiescentState(gates, execute, base, d).Settled?)
    then Settled(execute(gate).status)
    else Pending
  }

  ghost function Quiescent(gates: seq<Gate>, execute: Executor, base: States): States
    requires ValidGraph(gates) && base.Keys == ById(gates).Keys
  {
    map id | id in base :: QuiescentState(gates, execute, base, id)
  }

  ghost function QuiescentResults(gates: seq<Gate>, execute: Executor, base: States, results: map<string, GateResult>)
    : map<string, GateResult>
    requires ValidGraph(gates) && base.Keys == ById(gates).Keys
  {
    map id | id in base && QuiescentState(gates, execute, base, id).Settled? ::
      if id in results then results[id] else execute(ById(gates)[id])
  }

  // Runs all that can run, then skips the first blocked gate, until no gate is blocked.
  ghost function FinishFrom(gates: seq<Gate>, execute: Executor, base: States, results: map<string, GateResult>)
    : map<string, GateResult>
    requires ValidGraph(gates) && base.Keys == ById(gates).Keys
    decreases |PendingIds(base)|
  {
    var states := Quiescent(gates, execute, base);
    var settled := QuiescentResults(gates, execute, base, results);
    var blocked := FirstBlocked(gates, states);
    if blocked.None? then settled
    else
      var gate := blocked.value;
      assert Blocked(gate, states);
      assert PendingIds(states) <= PendingIds(base);
      var next := states[gate.id := Settled(Skipped)];
      SkipLosesPending(states, base, gate.id);
      FinishFrom(gates, execute, next, settled[gate.id := SkipResult(gate, states)])
  }

  lemma SkipLosesPending(states: States, base: States, id: string)
    requires PendingIds(states) <= PendingIds(base) && id in states && states[id] == Pending
    ensures |PendingIds(states[id := Settled(Skipped)])| < |PendingIds(base)|
  {
    LosesPending(states, id, Settled(Skipped));
    var smaller := PendingIds(states[id := Settled(Skipped)]);
    assert id in PendingIds(base) && id !in smaller && smaller <= PendingIds(base);
    assert smaller < PendingIds(base);
    SubsetSmaller(smaller, PendingIds(base));
  }

  lemma {:induction false} SubsetSmaller<T>(a: set<T>, b: set<T>)
    requires a < b
    ensures |a| < |b|
  {
    assert b == a + (b - a) && b - a != {};
  }

  ghost function ExpectedResults(gates: seq<Gate>, execute: Executor): map<string, GateResult>
    requires ValidGraph(gates)
  {
    FinishFrom(gates, execute, Initial(gates).states, map[])
  }

  // What has happened since the base states: base settlements stand, and every gate that left
  // the pending state did so because its predecessors allowed it to run.
  ghost predicate RanSince(gate: Gate, execute: Executor, base: States, m: Machine) {
    && gate.id in base && gate.id in m.states
    && (base[gate.id] == Pending && m.states[gate.id] != Pending ==> PredecessorsReady(gate, m.states))
    && (base[gate.id] == Pending && m.states[gate.id].Settled? ==>
          gate.id in m.results && m.results[gate.id] == execute(gate)
          && m.states[gate.id].status == execute(gate).status)
  }

  ghost predicate Since(gates: seq<Gate>, execute: Executor, base: States, results: map<string, GateResult>,
                        m: Machine) {
    match m
    case Machine(states, _, settled) =>
      && base.Keys == ById(gates).Keys
      && (forall id :: id in base ==> base[id] != Running)
      && (forall id :: HasSettled(base, id) ==> id in states && states[id] == base[id])
      && (forall id :: id in results <==> HasSettled(base, id))
      && (forall id :: id in results ==> id in settled && settled[id] == results[id])
      && (forall gate :: gate in gates ==> RanSince(gate, execute, base, m))
  }

  lemma {:induction false} QuiescenceReached(gates: seq<Gate>, maxActive: nat, execute: Executor, base: States,
                                             results: map<string, GateResult>, m: Machine, id: string)
    requires ValidGraph(gates) && Consistent(gates, maxActive, execute, m) && Since(gates, execute, base, results, m)
    requires m.running == [] && FirstReady(gates, m.states).None? && id in base
    ensures m.states[id] == QuiescentState(gates, execute, base, id)
    decreases Depth(gates, id)
  {
    PredecessorsAreShallower(gates, id);
    var gate := GateOfId(gates, id);
    IdOfGate(gates, gate);
    assert gate !in m.running;
    assert RanSince(gate, execute, base, m);
    if base[id] == Pending {
      assert !Ready(gate, m.states);
      forall d | d in gate.needs ensures m.states[d] == QuiescentState(gates, execute, base, d) {
        QuiescenceReached(gates, maxActive, execute, base, results, m, d);
      }
      forall d | d in gate.after ensures m.states[d] == QuiescentState(gates, execute, base, d) {
        QuiescenceReached(gates, maxActive, execute, base, results, m, d);
      }
    }
  }

  lemma RanSinceAdvances(gate: Gate, execute: Executor, base: States, m: Machine, n: Machine)
    requires RanSince(gate, execute, base, m) && Advances(m, n) && n.states[gate.id] == m.states[gate.id]
    ensures RanSince(gate, execute, base, n)
  {
  }

  // A start or a settlement keeps the phase going.
  lemma MovedGateKeepsSince(gates: seq<Gate>, execute: Executor, base: States, results: map<string, GateResult>,
                            gate: Gate, m: Machine, n: Machine)
    requires UniqueIds(gates) && gate in gates && Since(gates, execute, base, results, m) && Advances(m, n)
    requires forall id :: id in m.states && id != gate.id ==> n.states[id] == m.states[id]
    requires RanSince(gate, execute, base, n)
    ensures Since(gates, execute, base, results, n)
  {
    forall h | h in gates ensures RanSince(h, execute, base, n) {
      if h.id == gate.id { SameGate(gates, gate, h); } else { RanSinceAdvances(h, execute, base, m, n); }
    }
    forall id | HasSettled(base, id) ensures id in n.states && n.states[id] == base[id] {
      assert HasSettled(m.states, id);
    }
  }

  lemma StartKeepsSince(gates: seq<Gate>, maxActive: nat, execute: Executor, base: States,
                        results: map<string, GateResult>, m: Machine, n: Machine)
    requires UniqueIds(gates) && Consistent(gates, maxActive, execute, m) && Starts(gates, maxActive, m, n)
    requires Since(gates, execute, base, results, m)
    ensures Since(gates, execute, base, results, n)
  {
    StartStep(gates, maxActive, execute, m, n);
    var gate := FirstReady(gates, m.states).value;
    assert Ready(gate, m.states);
    assert RanSince(gate, execute, base, m);
    MovedGateKeepsSince(gates, execute, base, results, gate, m, n);
  }

  lemma SettleKeepsSince(gates: seq<Gate>, maxActive: nat, execute: Executor, base: States,
                         results: map<string, GateResult>, m: Machine, n: Machine, i: nat)
    requires UniqueIds(gates) && Consistent(gates, maxActive, execute, m)
    requires Settles(gates, maxActive, execute, m, n, i)
    requires Since(gates, execute, base, results, m)
    ensures Since(gates, execute, base, results, n)
  {
    SettleStep(gates, maxActive, execute, m, n, i);
    var gate := m.running[i];
    assert gate in gates && Explained(gate, execute, m);
    assert RanSince(gate, execute, base, m);
    MovedGateKeepsSince(gates, execute, base, results, gate, m, n);
  }

  // When nothing runs and nothing is ready, states and results are the quiescent ones.
  lemma PhaseEnds(gates: seq<Gate>, maxActive: nat, execute: Executor, base: States,
                  results: map<string, GateResult>, m: Machine)
    requires ValidGraph(gates) && Consistent(gates, maxActive, execute, m)
    requires Since(gates, execute, base, results, m)
    requires m.running == [] && FirstReady(gates, m.states).None?
    ensures m.states == Quiescent(gates, execute, base)
    ensures m.results == QuiescentResults(gates, execute, base, results)
  {
    assert m.states.Keys == base.Keys;
    forall id | id in base ensures m.states[id] == QuiescentState(gates, execute, base, id) {
      QuiescenceReached(gates, maxActive, execute, base, results, m, id);
    }
    ResultsSince(gates, maxActive, execute, base, results, m);
    assert forall id :: id in m.results <==> HasSettled(m.states, id);
    QuietResults(gates, execute, base, results, m);
  }

  lemma QuietResults(gates: seq<Gate>, execute: Executor, base: States, results: map<string, GateResult>, m: Machine)
    requires ValidGraph(gates) && base.Keys == ById(gates).Keys && m.states == Quiescent(gates, execute, base)
    requires forall id :: id in m.results <==> HasSettled(m.states, id)
    requires forall id :: HasSettled(m.states, id) ==>
               id in m.results && m.results[id] == (if id in results then results[id] else execute(ById(gates)[id]))
    ensures m.results == QuiescentResults(gates, execute, base, results)
  {
  }

  lemma ResultsSince(gates: seq<Gate>, maxActive: nat, execute: Executor, base: States,
                     results: map<string, GateResult>, m: Machine)
    requires UniqueIds(gates) && Consistent(gates, maxActive, execute, m) && Since(gates, execute, base, results, m)
    ensures forall id :: HasSettled(m.states, id) ==>
              id in m.results && m.results[id] == (if id in results then results[id] else execute(ById(gates)[id]))
  {
    forall id | HasSettled(m.states, id)
      ensures m.results[id] == if id in results then results[id] else execute(ById(gates)[id])
    {
      var gate := GateOfId(gates, id);
      assert RanSince(gate, execute, base, m);
    }
  }

  // A run that has been in one phase since a skip starts another after the next skip, with
  // the same expected end.
  lemma SkipStartsPhase(gates: seq<Gate>, maxActive: nat, execute: Executor, base: States,
                        results: map<string, GateResult>, m: Machine, n: Machine)
    requires ValidGraph(gates) && maxActive > 0 && Consistent(gates, maxActive, execute, m)
    requires Since(gates, execute, base, results, m) && Skips(gates, maxActive, m, n)
    ensures Since(gates, execute, n.states, n.results, n)
    ensures FinishFrom(gates, execute, n.states, n.results) == FinishFrom(gates, execute, base, results)
  {
    SkipStep(gates, maxActive, execute, m, n);
    PhaseEnds(gates, maxActive, execute, base, results, m);
    NothingRuns(gates, maxActive, execute, n);
    forall gate | gate in gates ensures RanSince(gate, execute, n.states, n) {
      IdOfGate(gates, gate);
    }
  }

  lemma NothingRuns(gates: seq<Gate>, maxActive: nat, execute: Executor, m: Machine)
    requires ValidGraph(gates) && Consistent(gates, maxActive, execute, m) && m.running == []
    ensures forall id :: id in m.states ==> m.states[id] != Running
  {
    forall id | id in m.states ensures m.states[id] != Running {
      var gate := GateOfId(gates, id);
      assert gate !in m.running;
    }
  }

  // The phase the machine is in leads to the expected results.
  ghost predicate OnCourse(gates: seq<Gate>, execute: Executor, m: Machine)
    requires ValidGraph(gates)
  {
    exists base, results :: Since(gates, execute, base, results, m)
      && FinishFrom(gates, execute, base, results) == ExpectedResults(gates, execute)
  }

  lemma InitialOnCourse(gates: seq<Gate>, execute: Executor)
    requires ValidGraph(gates)
    ensures OnCourse(gates, execute, Initial(gates))
  {
    var m := Initial(gates);
    forall gate | gate in gates ensures RanSince(gate, execute, m.states, m) {
      IdOfGate(gates, gate);
    }
    assert Since(gates, execute, m.states, map[], m);
  }

  lemma StepStaysOnCourse(gates: seq<Gate>, maxActive: nat, execute: Executor, m: Machine, n: Machine)
    requires ValidGraph(gates) && maxActive > 0 && Consistent(gates, maxActive, execute, m)
    requires OnCourse(gates, execute, m) && Next(gates, maxActive, execute, m, n)
    ensures OnCourse(gates, execute, n)
  {
    var base, results :| Since(gates, execute, base, results, m)
      && FinishFrom(gates, execute, base, results) == ExpectedResults(gates, execute);
    if Starts(gates, maxActive, m, n) {
      StartKeepsSince(gates, maxActive, execute, base, results, m, n);
    } else if Skips(gates, maxActive, m, n) {
      SkipStartsPhase(gates, maxActive, execute, base, results, m, n);
    } else {
      var i: nat :| Settles(gates, maxActive, execute, m, n, i);
      SettleKeepsSince(gates, maxActive, execute, base, results, m, n, i);
    }
  }

  lemma ArrivedOnCourse(gates: seq<Gate>, maxActive: nat, execute: Executor, m: Machine)
    requires ValidGraph(gates) && Consistent(gates, maxActive, execute, m) && AllSettled(m)
    requires OnCourse(gates, execute, m)
    ensures m.results == ExpectedResults(gates, execute)
  {
    var base, results :| Since(gates, execute, base, results, m)
      && FinishFrom(gates, execute, base, results) == ExpectedResults(gates, execute);
    SettledIsQuiet(gates, maxActive, execute, m);
    PhaseEnds(gates, maxActive, execute, base, results, m);
  }

  lemma FinalResultsAreVerdicts(gates: seq<Gate>, maxActive: nat, execute: Executor, m: Machine)
    requires ValidGraph(gates) && Consistent(gates, maxActive, execute, m) && AllSettled(m)
    ensures forall id :: id in ById(gates) ==>
      id in m.results && m.results[id].status == Verdict(gates, execute, id)
  {
    forall id | id in ById(gates)
      ensures id in m.results && m.results[id].status == Verdict(gates, execute, id)
    {
      FinalStateIsVerdict(gates, maxActive, execute, m, id);
      var gate := GateOfId(gates, id);
      assert Explained(gate, execute, m);
    }
  }

  lemma SettledIsQuiet(gates: seq<Gate>, maxActive: nat, execute: Executor, m: Machine)
    requires ValidGraph(gates) && Consistent(gates, maxActive, execute, m) && AllSettled(m)
    ensures m.running == [] && FirstReady(gates, m.states).None? && FirstBlocked(gates, m.states).None?
  {
    forall gate: Gate ensures gate !in m.running {
      assert gate in m.running ==> Explained(gate, execute, m);
    }
    FirstIsMember(m.running);
  }
}
