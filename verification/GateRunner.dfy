// runGates: validation, then the scheduling loop over `states`, `running` and `results`.
module GateRunner {
  import opened GateGraph
  import opened GateMachine
  import opened GateLiveness
  import opened GateVerdicts
  import opened GateConfluence
  import opened GateReports

  const MAX_SAFE_INTEGER: int := 9007199254740991

  // The two internal errors of the loop, a stall and a missing result, have no outcome here:
  // RunGates proves that it never reaches them.
  datatype RunOutcome =
    | InvalidGraph(error: GraphError)
    | InvalidConcurrency
    | Finished(results: seq<GateResult>)

  ghost predicate Tracks(gates: seq<Gate>, maxActive: nat, execute: Executor, trace: seq<Machine>, m: Machine) {
    IsRun(gates, maxActive, execute, trace) && trace[|trace| - 1] == m
  }

  lemma TraceStep(gates: seq<Gate>, maxActive: nat, execute: Executor, trace: seq<Machine>, m: Machine, n: Machine)
    requires UniqueIds(gates) && Tracks(gates, maxActive, execute, trace, m) && Next(gates, maxActive, execute, m, n)
    ensures Tracks(gates, maxActive, execute, trace + [n], n) && Budget(n) < Budget(m)
  {
    var longer := trace + [n];
    forall k: nat | k + 1 < |longer|
      ensures StepAt(gates, maxActive, execute, longer, k)
    {
      if k + 1 < |trace| { assert StepAt(gates, maxActive, execute, trace, k); }
    }
    RunIsConsistent(gates, maxActive, execute, trace, |trace| - 1);
    StepSpendsBudget(gates, maxActive, execute, m, n);
  }

  lemma TracedNeverStalls(gates: seq<Gate>, maxActive: nat, execute: Executor, trace: seq<Machine>, m: Machine)
    requires ValidGraph(gates) && Tracks(gates, maxActive, execute, trace, m)
    requires m.running == [] && FirstReady(gates, m.states).None? && FirstPending(gates, m.states).Some?
    ensures FirstBlocked(gates, m.states).Some?
  {
    RunIsConsistent(gates, maxActive, execute, trace, |trace| - 1);
    var gate := FirstPending(gates, m.states).value;
    assert gate.id in PendingIds(m.states);
    NeverStalls(gates, maxActive, execute, m);
  }

  ghost predicate FinalAsJudged(gates: seq<Gate>, execute: Executor, results: map<string, GateResult>, gate: Gate)
    requires ValidGraph(gates)
  {
    gate.id in ById(gates) && gate.id in results && results[gate.id].status == Verdict(gates, execute, gate.id)
  }

  lemma NothingLeft(gates: seq<Gate>, maxActive: nat, execute: Executor, m: Machine)
    requires ValidGraph(gates) && Consistent(gates, maxActive, execute, m)
    requires m.running == [] && FirstPending(gates, m.states).None?
    ensures AllSettled(m)
  {
    NothingRuns(gates, maxActive, execute, m);
    forall id | id in m.states ensures m.states[id].Settled? {
      var gate := GateOfId(gates, id);
      assert !IsPending(m.states, gate);
    }
  }

  lemma TracedFinish(gates: seq<Gate>, maxActive: nat, execute: Executor, trace: seq<Machine>, m: Machine)
    requires ValidGraph(gates) && maxActive > 0 && Tracks(gates, maxActive, execute, trace, m)
    requires m.running == [] && FirstPending(gates, m.states).None?
    ensures AllSettled(m) && m.results == ExpectedResults(gates, execute)
    ensures forall gate :: gate in gates ==> FinalAsJudged(gates, execute, m.results, gate)
  {
    RunIsConsistent(gates, maxActive, execute, trace, |trace| - 1);
    NothingLeft(gates, maxActive, execute, m);
    CompleteRunResults(gates, maxActive, execute, trace);
    FinalResultsAreVerdicts(gates, maxActive, execute, m);
    forall gate | gate in gates ensures FinalAsJudged(gates, execute, m.results, gate) {
      IdOfGate(gates, gate);
    }
  }

  // The mutable part of the loop.
  class Scheduler {
    const gates: seq<Gate>
    const maxActive: nat
    const execute: Executor
    var states: States
    var running: seq<Gate>
    var results: map<string, GateResult>
    ghost var trace: seq<Machine>

    constructor (gates: seq<Gate>, maxActive: nat, execute: Executor)
      requires ValidGraph(gates) && maxActive > 0
      ensures this.gates == gates && this.maxActive == maxActive && this.execute == execute && Valid()
    {
      this.gates, this.maxActive, this.execute := gates, maxActive, execute;
      var start := Initial(gates);
      states, running, results := start.states, start.running, start.results;
      trace := [start];
    }

    ghost function Current(): Machine
      reads this
    {
      Machine(states, running, results)
    }

    ghost predicate Valid()
      reads this
    {
      && ValidGraph(gates) && maxActive > 0
      && Tracks(gates, maxActive, execute, trace, Current())
    }

    // Starts ready gates in aggregate order until no slot or no ready gate is left.
    method StartReady() returns (madeProgress: bool)
      requires Valid()
      modifies this
      ensures Valid() && !CanStart(gates, maxActive, Current())
      ensures if madeProgress then Budget(Current()) < Budget(old(Current())) else Current() == old(Current())
    {
      madeProgress := false;
      while |running| < maxActive
        invariant Valid()
        invariant if madeProgress then Budget(Current()) < Budget(old(Current())) else Current() == old(Current())
        decreases Budget(Current())
      {
        var ready := FirstReady(gates, states);
        if ready.None? { break; }
        ghost var m := Current();
        states := states[ready.value.id := Running];
        running := running + [ready.value];
        TraceStep(gates, maxActive, execute, trace, m, Current());
        trace := trace + [Current()];
        madeProgress := true;
      }
    }

    // Settles whichever running gate finishes first: any of them may.
    method SettleOne()
      requires Valid() && running != [] && !CanStart(gates, maxActive, Current())
      modifies this
      ensures Valid() && Budget(Current()) < Budget(old(Current()))
    {
      ghost var m := Current();
      var i: nat :| i < |running|;
      var gate := running[i];
      var result := execute(gate);
      running := running[..i] + running[i + 1..];
      states := states[gate.id := Settled(result.status)];
      results := results[gate.id := result];
      assert Settles(gates, maxActive, execute, m, Current(), i);
      TraceStep(gates, maxActive, execute, trace, m, Current());
      trace := trace + [Current()];
    }

    // Skips the first pending gate with a failed or skipped need; there always is one.
    method SkipBlocked()
      requires Valid() && running == [] && !CanStart(gates, maxActive, Current())
      requires FirstPending(gates, states).Some?
      modifies this
      ensures Valid() && Budget(Current()) < Budget(old(Current()))
    {
      ghost var m := Current();
      TracedNeverStalls(gates, maxActive, execute, trace, m);
      var gate := FirstBlocked(gates, states).value;
      var result := SkipResult(gate, states);
      states := states[gate.id := Settled(Skipped)];
      results := results[gate.id := result];
      assert Skips(gates, maxActive, m, Current());
      TraceStep(gates, maxActive, execute, trace, m, Current());
      trace := trace + [Current()];
    }

    // The scheduling loop: for every completion order it ends with the results of the
    // specification, one for each gate.
    method Run()
      requires Valid()
      modifies this
      ensures Valid() && AllSettled(Current()) && results == ExpectedResults(gates, execute)
      ensures forall gate :: gate in gates ==> FinalAsJudged(gates, execute, results, gate)
    {
      while true
        invariant Valid()
        decreases Budget(Current())
      {
        var madeProgress := StartReady();
        if |running| == 0 {
          if FirstPending(gates, states).None? { break; }
          SkipBlocked();
        } else if !madeProgress {
          SettleOne();
        }
      }
      TracedFinish(gates, maxActive, execute, trace, Current());
    }
  }

  function InOrder(gates: seq<Gate>, results: map<string, GateResult>): (r: seq<GateResult>)
    requires forall gate :: gate in gates ==> gate.id in results
    ensures |r| == |gates| && forall i :: 0 <= i < |gates| ==> r[i] == results[gates[i].id]
  {
    seq(|gates|, i requires 0 <= i < |gates| => results[gates[i].id])
  }

  ghost predicate JudgedInOrder(gates: seq<Gate>, execute: Executor, r: seq<GateResult>)
    requires ValidGraph(gates)
  {
    && |r| == |gates|
    && forall i :: 0 <= i < |gates| ==>
         gates[i].id in ById(gates) && r[i].status == Verdict(gates, execute, gates[i].id)
  }

  lemma InOrderIsJudged(gates: seq<Gate>, execute: Executor, results: map<string, GateResult>)
    requires ValidGraph(gates) && forall gate :: gate in gates ==> FinalAsJudged(gates, execute, results, gate)
    ensures forall gate :: gate in gates ==> gate.id in results
    ensures JudgedInOrder(gates, execute, InOrder(gates, results))
  {
    forall gate | gate in gates ensures gate.id in results {
      assert FinalAsJudged(gates, execute, results, gate);
    }
    var r := InOrder(gates, results);
    forall i | 0 <= i < |gates|
      ensures gates[i].id in ById(gates) && r[i].status == Verdict(gates, execute, gates[i].id)
    {
      assert FinalAsJudged(gates, execute, results, gates[i]);
    }
  }

  // What is returned for the i-th gate is its result in some complete run.
  ghost predicate FromCompleteRun(gates: seq<Gate>, maxActive: nat, execute: Executor, r: seq<GateResult>) {
    exists run :: IsComplete(gates, maxActive, execute, run) && ReadsOff(gates, run[|run| - 1], r)
  }

  ghost predicate ReadsOff(gates: seq<Gate>, m: Machine, r: seq<GateResult>) {
    && |r| == |gates|
    && forall i :: 0 <= i < |gates| ==> gates[i].id in m.results && r[i] == m.results[gates[i].id]
  }

  // Rejects an invalid graph or bound before anything starts; otherwise returns the expected
  // results in aggregate order.
  method RunGates(gates: seq<Gate>, maxActive: int, execute: Executor) returns (outcome: RunOutcome)
    ensures outcome.InvalidGraph? <==> !ValidGraph(gates)
    ensures outcome.InvalidGraph? ==> Complaint(gates, outcome.error)
    ensures outcome.InvalidConcurrency? <==> ValidGraph(gates) && !(1 <= maxActive <= MAX_SAFE_INTEGER)
    ensures outcome.Finished? ==> forall gate :: gate in gates ==> gate.id in ExpectedResults(gates, execute)
    ensures outcome.Finished? ==> outcome.results == InOrder(gates, ExpectedResults(gates, execute))
    ensures outcome.Finished? ==> JudgedInOrder(gates, execute, outcome.results)
    ensures outcome.Finished? ==> FromCompleteRun(gates, maxActive, execute, outcome.results)
  {
    var error := ValidateGateGraph(gates);
    if error.Some? { return InvalidGraph(error.value); }
    if !(1 <= maxActive <= MAX_SAFE_INTEGER) { return InvalidConcurrency; }
    var scheduler := new Scheduler(gates, maxActive, execute);
    scheduler.Run();
    InOrderIsJudged(gates, execute, scheduler.results);
    outcome := Finished(InOrder(gates, scheduler.results));
    assert ReadsOff(gates, scheduler.Current(), outcome.results);
    assert IsComplete(gates, maxActive, execute, scheduler.trace);
  }
}
