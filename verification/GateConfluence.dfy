// Confluence of the scheduler over whole runs.
module GateConfluence {
  import opened GateGraph
  import opened GateMachine
  import opened GateLiveness
  import opened GateVerdicts

  // What holds initially and survives every step from a consistent machine holds all along a run.
  lemma {:induction false} RunInvariant(gates: seq<Gate>, maxActive: nat, execute: Executor, run: seq<Machine>, k: nat,
                                        inv: Machine -> bool)
    requires UniqueIds(gates) && IsRun(gates, maxActive, execute, run) && k < |run|
    requires inv(Initial(gates))
    requires forall m, n :: Consistent(gates, maxActive, execute, m) && inv(m) && Next(gates, maxActive, execute, m, n)
               ==> inv(n)
    ensures inv(run[k])
  {
    if k > 0 {
      RunInvariant(gates, maxActive, execute, run, k - 1, inv);
      RunIsConsistent(gates, maxActive, execute, run, k - 1);
      assert StepAt(gates, maxActive, execute, run, k - 1);
    }
  }

  // What follows from such an invariant in every consistent machine holds all along a run.
  lemma RunConclusion(gates: seq<Gate>, maxActive: nat, execute: Executor, run: seq<Machine>, k: nat,
                      inv: Machine -> bool, post: Machine -> bool)
    requires UniqueIds(gates) && IsRun(gates, maxActive, execute, run) && k < |run|
    requires forall m :: m == Initial(gates) ==> inv(m)
    requires forall m, n :: Consistent(gates, maxActive, execute, m) && inv(m) && Next(gates, maxActive, execute, m, n)
               ==> inv(n)
    requires forall m :: Consistent(gates, maxActive, execute, m) && inv(m) ==> post(m)
    ensures post(run[k])
  {
    RunInvariant(gates, maxActive, execute, run, k, inv);
    RunIsConsistent(gates, maxActive, execute, run, k);
  }

  lemma CourseStarts(gates: seq<Gate>, execute: Executor, inv: Machine -> bool)
    requires ValidGraph(gates) && forall m :: inv(m) <==> OnCourse(gates, execute, m)
    ensures forall m :: m == Initial(gates) ==> inv(m)
  {
    InitialOnCourse(gates, execute);
  }

  lemma CourseIsKept(gates: seq<Gate>, maxActive: nat, execute: Executor, inv: Machine -> bool)
    requires ValidGraph(gates) && maxActive > 0
    requires forall m :: inv(m) <==> OnCourse(gates, execute, m)
    ensures forall m, n :: Consistent(gates, maxActive, execute, m) && inv(m) && Next(gates, maxActive, execute, m, n)
              ==> inv(n)
  {
    forall m, n | Consistent(gates, maxActive, execute, m) && inv(m) && Next(gates, maxActive, execute, m, n)
      ensures inv(n)
    {
      StepStaysOnCourse(gates, maxActive, execute, m, n);
    }
  }

  ghost predicate Arrived(gates: seq<Gate>, execute: Executor, m: Machine)
    requires ValidGraph(gates)
  {
    AllSettled(m) ==> m.results == ExpectedResults(gates, execute)
  }

  lemma CourseArrives(gates: seq<Gate>, maxActive: nat, execute: Executor, inv: Machine -> bool, post: Machine -> bool)
    requires ValidGraph(gates)
    requires forall m :: inv(m) <==> OnCourse(gates, execute, m)
    requires forall m :: post(m) <==> Arrived(gates, execute, m)
    ensures forall m :: Consistent(gates, maxActive, execute, m) && inv(m) ==> post(m)
  {
    forall m | Consistent(gates, maxActive, execute, m) && inv(m) ensures post(m) {
      if AllSettled(m) { ArrivedOnCourse(gates, maxActive, execute, m); }
    }
  }

  lemma RunArrives(gates: seq<Gate>, maxActive: nat, execute: Executor, run: seq<Machine>, inv: Machine -> bool,
                   post: Machine -> bool)
    requires ValidGraph(gates) && maxActive > 0 && IsRun(gates, maxActive, execute, run)
    requires forall m :: inv(m) <==> OnCourse(gates, execute, m)
    requires forall m :: post(m) <==> Arrived(gates, execute, m)
    ensures Arrived(gates, execute, run[|run| - 1])
  {
    CourseStarts(gates, execute, inv);
    CourseIsKept(gates, maxActive, execute, inv);
    CourseArrives(gates, maxActive, execute, inv, post);
    RunConclusion(gates, maxActive, execute, run, |run| - 1, inv, post);
  }

  // The results of a complete run, skip messages included, are those of the specification,
  // which mentions neither the concurrency bound nor the completion order.
  lemma CompleteRunResults(gates: seq<Gate>, maxActive: nat, execute: Executor, run: seq<Machine>)
    requires ValidGraph(gates) && maxActive > 0 && IsRun(gates, maxActive, execute, run)
    requires AllSettled(run[|run| - 1])
    ensures run[|run| - 1].results == ExpectedResults(gates, execute)
  {
    RunArrives(gates, maxActive, execute, run, m => OnCourse(gates, execute, m), m => Arrived(gates, execute, m));
  }

  // Their statuses are the recursive verdicts.
  lemma CompleteRunStatuses(gates: seq<Gate>, maxActive: nat, execute: Executor, run: seq<Machine>)
    requires ValidGraph(gates) && maxActive > 0 && IsRun(gates, maxActive, execute, run)
    requires AllSettled(run[|run| - 1])
    ensures forall id :: id in ById(gates) ==>
      id in run[|run| - 1].results && run[|run| - 1].results[id].status == Verdict(gates, execute, id)
  {
    RunIsConsistent(gates, maxActive, execute, run, |run| - 1);
    FinalResultsAreVerdicts(gates, maxActive, execute, run[|run| - 1]);
  }

  // Confluence: two complete runs of one aggregate, under any concurrency bounds and completion
  // orders, end with the same results.
  lemma Confluence(gates: seq<Gate>, execute: Executor, maxA: nat, runA: seq<Machine>, maxB: nat, runB: seq<Machine>)
    requires ValidGraph(gates) && maxA > 0 && maxB > 0
    requires IsRun(gates, maxA, execute, runA) && IsRun(gates, maxB, execute, runB)
    requires AllSettled(runA[|runA| - 1]) && AllSettled(runB[|runB| - 1])
    ensures runA[|runA| - 1].results == runB[|runB| - 1].results
  {
    CompleteRunResults(gates, maxA, execute, runA);
    CompleteRunResults(gates, maxB, execute, runB);
  }
}
