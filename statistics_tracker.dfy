/** The statistics counter (simulator/statistics_tracker.py): the recorded step
    results and how many of them were hits and how many faults. */
module Statistics {
  import opened EngineSpec

  /** How many of the results are hits. */
  function CountHits(steps: seq<SimulationStepResult>): (n: nat)
    ensures n <= |steps|
    ensures (forall i :: 0 <= i < |steps| ==> !steps[i].hit) ==> n == 0
  {
    if |steps| == 0 then 0
    else CountHits(steps[..|steps| - 1]) + (if steps[|steps| - 1].hit then 1 else 0)
  }

  /** How many of the results are not hits. */
  function CountFaults(steps: seq<SimulationStepResult>): (n: nat)
    ensures n <= |steps|
    ensures (forall i :: 0 <= i < |steps| ==> steps[i].hit) ==> n == 0
  {
    if |steps| == 0 then 0
    else CountFaults(steps[..|steps| - 1]) + (if steps[|steps| - 1].hit then 0 else 1)
  }

  /** Every recorded result is counted exactly once, as a hit or as a fault. */
  lemma {:induction false} HitsPlusFaults(steps: seq<SimulationStepResult>)
    ensures CountHits(steps) + CountFaults(steps) == |steps|
  {
    if |steps| > 0 {
      HitsPlusFaults(steps[..|steps| - 1]);
    }
  }

  class StatisticsTracker {
    var hits: nat
    var faults: nat
    var steps: seq<SimulationStepResult>

    /** The counters agree with the recorded results. */
    ghost predicate Valid()
      reads this
    {
      hits == CountHits(steps) && faults == CountFaults(steps)
    }

    constructor ()
      ensures Valid() && hits == 0 && faults == 0 && steps == []
    {
      hits := 0;
      faults := 0;
      steps := [];
    }

    /** `record_step`: append the result and count it as a hit or as a fault. */
    method RecordStep(stepResult: SimulationStepResult)
      requires Valid()
      modifies this
      ensures Valid()
      ensures steps == old(steps) + [stepResult]
      ensures stepResult.hit ==> hits == old(hits) + 1 && faults == old(faults)
      ensures !stepResult.hit ==> faults == old(faults) + 1 && hits == old(hits)
    {
      assert (steps + [stepResult])[..|steps|] == steps;
      steps := steps + [stepResult];
      if stepResult.hit {
        hits := hits + 1;
      } else {
        faults := faults + 1;
      }
    }

    /** `total_accesses`: with the counters in step, the number of recorded results. */
    function TotalAccesses(): (n: nat)
      reads this
      ensures Valid() ==> n == |steps|
    {
      HitsPlusFaults(steps);
      hits + faults
    }

    /** `reset`: zero counters and no results. */
    method Reset()
      modifies this
      ensures Valid() && hits == 0 && faults == 0 && steps == []
    {
      hits := 0;
      faults := 0;
      steps := [];
    }
  }
}
