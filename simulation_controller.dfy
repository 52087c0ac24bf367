/** The controller (simulator/simulation_controller.py): drives an engine step by
    step or to the end, feeds every result to the statistics, and can start over with
    a fresh engine over the same frames, reference string and policy object. */
module Controller {
  import opened Wrappers
  import opened Policies
  import opened EngineSpec
  import opened Engine
  import opened Statistics

  /** `run_all` from a given engine state: the results of the remaining steps, in
      order, or the error the first failing step raises, and the final state. */
  function RunSpec(s: EngineState, referenceString: seq<int>): (Result<seq<SimulationStepResult>, StepError>, EngineState)
    requires Coherent(s)
    decreases |referenceString| - s.currentStep
  {
    if s.currentStep >= |referenceString| then (Success([]), s)
    else
      StepAdvances(s, referenceString);
      StepKeepsCoherent(s, referenceString);
      var (r, s') := StepSpec(s, referenceString);
      if r.Failure? then (Failure(r.error), s')
      else Prepend([r.value], RunSpec(s', referenceString))
  }

  /** Earlier results in front of a run's outcome. */
  function Prepend(results: seq<SimulationStepResult>, run: (Result<seq<SimulationStepResult>, StepError>, EngineState))
    : (Result<seq<SimulationStepResult>, StepError>, EngineState)
  {
    (if run.0.Success? then Success(results + run.0.value) else run.0, run.1)
  }

  lemma PrependNothing(run: (Result<seq<SimulationStepResult>, StepError>, EngineState))
    ensures Prepend([], run) == run
  {
    if run.0.Success? {
      assert [] + run.0.value == run.0.value;
    }
  }

  lemma AppendAssoc<T>(a: seq<T>, b: seq<T>, c: seq<T>)
    ensures (a + b) + c == a + (b + c)
  {
  }

  /** The recorded results are the steps from the first, each asking for its reference. */
  ghost predicate Logged(steps: seq<SimulationStepResult>, referenceString: seq<int>)
  {
    forall i :: 0 <= i < |steps| ==>
      steps[i].stepIndex == i && i < |referenceString| && steps[i].requestedPage == referenceString[i]
  }

  /** Recording the result of the next step keeps the log in order. */
  lemma LoggedExtends(steps: seq<SimulationStepResult>, x: SimulationStepResult, referenceString: seq<int>)
    requires Logged(steps, referenceString)
    requires x.stepIndex == |steps| < |referenceString| && x.requestedPage == referenceString[|steps|]
    ensures Logged(steps + [x], referenceString)
  {
  }

  /** Unfolding one successful step of a run. */
  lemma PrependStep(results: seq<SimulationStepResult>, s: EngineState, referenceString: seq<int>)
    requires Coherent(s) && s.currentStep < |referenceString| && StepSpec(s, referenceString).0.Success?
    ensures Coherent(StepSpec(s, referenceString).1)
    ensures Prepend(results, RunSpec(s, referenceString))
         == Prepend(results + [StepSpec(s, referenceString).0.value], RunSpec(StepSpec(s, referenceString).1, referenceString))
  {
    StepKeepsCoherent(s, referenceString);
    var step := StepSpec(s, referenceString);
    assert RunSpec(s, referenceString) == Prepend([step.0.value], RunSpec(step.1, referenceString));
    PrependTwice(results, step.0.value, RunSpec(step.1, referenceString));
  }

  /** Prepending in two goes is prepending the concatenation. */
  lemma PrependTwice(results: seq<SimulationStepResult>, x: SimulationStepResult,
                     run: (Result<seq<SimulationStepResult>, StepError>, EngineState))
    ensures Prepend(results, Prepend([x], run)) == Prepend(results + [x], run)
  {
    if run.0.Success? {
      assert results + ([x] + run.0.value) == (results + [x]) + run.0.value;
    }
  }

  /** A run whose first step fails ends there, with that step's error and state. */
  lemma PrependFailure(results: seq<SimulationStepResult>, s: EngineState, referenceString: seq<int>)
    requires Coherent(s) && s.currentStep < |referenceString| && StepSpec(s, referenceString).0.Failure?
    ensures Prepend(results, RunSpec(s, referenceString))
         == (Failure(StepSpec(s, referenceString).0.error), StepSpec(s, referenceString).1)
  {
  }

  /** A run from a finished state returns no results and changes nothing. */
  lemma PrependFinished(results: seq<SimulationStepResult>, s: EngineState, referenceString: seq<int>)
    requires Coherent(s) && s.currentStep >= |referenceString|
    ensures Prepend(results, RunSpec(s, referenceString)) == (Success(results), s)
  {
    assert results + [] == results;
  }

  /** A run's outcome, when it succeeds, holds one result per reference from `start`
      on, in order (result i is step `start + i` and asks for that reference), and its
      final state is finished, at the end of the reference string when it started
      inside it. */
  ghost predicate Covers(run: (Result<seq<SimulationStepResult>, StepError>, EngineState), start: nat, referenceString: seq<int>)
  {
    run.0.Success? ==>
      && |run.0.value| == (if start <= |referenceString| then |referenceString| - start else 0)
      && (forall i :: 0 <= i < |run.0.value| ==>
            run.0.value[i].stepIndex == start + i && start + i < |referenceString|
            && run.0.value[i].requestedPage == referenceString[start + i])
      && run.1.currentStep >= |referenceString|
      && (start <= |referenceString| ==> run.1.currentStep == |referenceString|)
  }

  /** A complete run covers every remaining reference. */
  lemma {:induction false} RunCoversRest(s: EngineState, referenceString: seq<int>)
    requires Coherent(s)
    ensures Covers(RunSpec(s, referenceString), s.currentStep, referenceString)
    decreases |referenceString| - s.currentStep
  {
    if s.currentStep < |referenceString| {
      var step := StepSpec(s, referenceString);
      StepMoves(s, referenceString);
      RunUnfolds(s, referenceString);
      if step.0.Success? {
        RunCoversRest(step.1, referenceString);
        PrependCovers(step.0.value, RunSpec(step.1, referenceString), s.currentStep, referenceString);
      }
    }
  }

  /** A successful step reports the position it processed and advances the counter. */
  lemma StepMoves(s: EngineState, referenceString: seq<int>)
    requires Coherent(s) && s.currentStep < |referenceString|
    ensures var step := StepSpec(s, referenceString);
      step.0.Success? ==>
        && step.0.value.stepIndex == s.currentStep
        && step.0.value.requestedPage == referenceString[s.currentStep]
        && step.1.currentStep == s.currentStep + 1
  {
    StepAdvances(s, referenceString);
  }

  /** The result for position `start` in front of a run covering the positions after it. */
  lemma PrependCovers(x: SimulationStepResult, rest: (Result<seq<SimulationStepResult>, StepError>, EngineState), start: nat, referenceString: seq<int>)
    requires start < |referenceString|
    requires x.stepIndex == start && x.requestedPage == referenceString[start]
    requires Covers(rest, start + 1, referenceString)
    ensures Covers(Prepend([x], rest), start, referenceString)
  {
    if rest.0.Success? {
      var all := [x] + rest.0.value;
      forall i | 0 <= i < |all|
        ensures all[i].stepIndex == start + i && start + i < |referenceString|
        ensures all[i].requestedPage == referenceString[start + i]
      {
        if i > 0 {
          assert all[i] == rest.0.value[i - 1];
        }
      }
    }
  }

  /** One step of a run: a failing step ends it, a successful one is followed by the
      run from the state after it. */
  lemma RunUnfolds(s: EngineState, referenceString: seq<int>)
    requires Coherent(s) && s.currentStep < |referenceString|
    ensures Coherent(StepSpec(s, referenceString).1)
    ensures var step := StepSpec(s, referenceString);
      RunSpec(s, referenceString)
      == if step.0.Failure? then (Failure(step.0.error), step.1)
         else Prepend([step.0.value], RunSpec(step.1, referenceString))
  {
    StepKeepsCoherent(s, referenceString);
  }

  /** A loop that has collected `results` and reached the end has run the whole run:
      the results are one per remaining reference, step by step. */
  lemma RunEnds(s0: EngineState, results: seq<SimulationStepResult>, s: EngineState, referenceString: seq<int>)
    requires Coherent(s0) && Coherent(s) && s0.currentStep <= |referenceString| <= s.currentStep
    requires RunSpec(s0, referenceString) == Prepend(results, RunSpec(s, referenceString))
    ensures RunSpec(s0, referenceString) == (Success(results), s)
    ensures |results| == |referenceString| - s0.currentStep
    ensures forall i :: 0 <= i < |results| ==> results[i].stepIndex == s0.currentStep + i
  {
    PrependFinished(results, s, referenceString);
    RunCoversRest(s0, referenceString);
  }

  /** With at least one frame and a ready policy, a run never raises. */
  lemma {:induction false} RunSucceeds(s: EngineState, referenceString: seq<int>)
    requires Coherent(s) && PolicyReady(s) && |s.frames| > 0
    ensures RunSpec(s, referenceString).0.Success?
    decreases |referenceString| - s.currentStep
  {
    if s.currentStep < |referenceString| {
      StepAdvances(s, referenceString);
      StepKeepsCoherent(s, referenceString);
      StepNeverOutOfRange(s, referenceString);
      RunSucceeds(StepSpec(s, referenceString).1, referenceString);
    }
  }

  class SimulationController {
    const numFrames: int
    const referenceString: seq<int>
    const policy: Policy
    var engine: SimulationEngine
    const stats: StatisticsTracker

    /** The engine runs this controller's setting, and the statistics hold exactly one
        recorded result per step the engine has taken: result i is step i. */
    ghost predicate Valid()
      reads this, engine, engine.frames, engine.pageTable, policy.Repr(), stats
    {
      && engine.numFrames == numFrames && engine.referenceString == referenceString && engine.policy == policy
      && engine.Valid()
      && stats.Valid()
      && |stats.steps| == engine.currentStep
      && Logged(stats.steps, referenceString)
    }

    constructor (numFrames: int, referenceString: seq<int>, policy: Policy)
      ensures Valid()
      ensures this.numFrames == numFrames && this.referenceString == referenceString && this.policy == policy
      ensures fresh(engine) && fresh(engine.frames) && fresh(engine.pageTable) && fresh(stats)
      ensures engine.State() == Initial(numFrames, StateOf(policy))
      ensures stats.steps == []
    {
      this.numFrames := numFrames;
      this.referenceString := referenceString;
      this.policy := policy;
      engine := new SimulationEngine(numFrames, referenceString, policy);
      stats := new StatisticsTracker();
    }

    /** `is_finished` */
    function IsFinished(): (b: bool)
      reads this, engine, engine.frames, engine.pageTable, engine.policy.Repr()
      ensures b == engine.HasFinished()
    {
      engine.HasFinished()
    }

    /** `step`: nothing (and no change) once finished; otherwise one engine step, whose
        result is recorded. An error raised by the engine is passed on unrecorded. */
    method Step() returns (r: Result<Option<SimulationStepResult>, StepError>)
      requires Valid()
      modifies engine, engine.frames, engine.pageTable, policy.Repr(), stats
      ensures Valid() && engine == old(engine)
      ensures old(engine.currentStep) >= |referenceString| ==>
                r == Success(None) && engine.State() == old(engine.State()) && stats.steps == old(stats.steps)
      ensures old(engine.currentStep) < |referenceString| ==>
                var (er, s') := StepSpec(old(engine.State()), referenceString);
                && engine.State() == s'
                && (er.Success? ==> r == Success(Some(er.value)) && stats.steps == old(stats.steps) + [er.value])
                && (er.Failure? ==> r == Failure(er.error) && stats.steps == old(stats.steps))
    {
      if engine.HasFinished() {
        return Success(None);
      }
      assert this !in policy.Repr() && stats !in policy.Repr();
      ghost var s := engine.State();
      StepAdvances(s, referenceString);
      var stepResult := engine.Step();
      if stepResult.Failure? {
        return Failure(stepResult.error);
      }
      LoggedExtends(stats.steps, stepResult.value, referenceString);
      stats.RecordStep(stepResult.value);
      r := Success(Some(stepResult.value));
    }

    /** `run_all`: step until finished, collecting the results. */
    method RunAll() returns (r: Result<seq<SimulationStepResult>, StepError>)
      requires Valid()
      modifies engine, engine.frames, engine.pageTable, policy.Repr(), stats
      ensures Valid() && engine == old(engine)
      ensures (r, engine.State()) == RunSpec(old(engine.State()), referenceString)
      ensures r.Success? ==> stats.steps == old(stats.steps) + r.value && IsFinished()
      ensures r.Success? ==>
                && |r.value| == |referenceString| - old(engine.currentStep)
                && (forall i :: 0 <= i < |r.value| ==> r.value[i].stepIndex == old(engine.currentStep) + i)
                && stats.TotalAccesses() == |referenceString|
      ensures numFrames > 0 && Ready(old(StateOf(policy)), numFrames) ==> r.Success?
    {
      var results := [];
      ghost var s0 := engine.State();
      ghost var ready := numFrames > 0 && Ready(StateOf(policy), numFrames);
      if ready {
        RunSucceeds(s0, referenceString);
      }
      PrependNothing(RunSpec(s0, referenceString));
      while !engine.HasFinished()
        invariant Valid() && engine == old(engine)
        invariant stats.steps == old(stats.steps) + results
        invariant RunSpec(s0, referenceString) == Prepend(results, RunSpec(engine.State(), referenceString))
        decreases |referenceString| - engine.currentStep
      {
        var step := RunStep(s0, results);
        if step.Failure? {
          return Failure(step.error);
        }
        AppendAssoc(old(stats.steps), results, [step.value]);
        results := results + [step.value];
      }
      RunEnds(s0, results, engine.State(), referenceString);
      return Success(results);
    }

    /** One pass of the `run_all` loop, with what it means for the whole run. */
    method RunStep(ghost s0: EngineState, results: seq<SimulationStepResult>) returns (r: Result<SimulationStepResult, StepError>)
      requires Valid() && engine.currentStep < |referenceString| && Coherent(s0)
      requires RunSpec(s0, referenceString) == Prepend(results, RunSpec(engine.State(), referenceString))
      modifies engine, engine.frames, engine.pageTable, policy.Repr(), stats
      ensures Valid() && engine == old(engine)
      ensures r.Failure? ==> RunSpec(s0, referenceString) == (Failure(r.error), engine.State()) && stats.steps == old(stats.steps)
      ensures r.Success? ==> && RunSpec(s0, referenceString) == Prepend(results + [r.value], RunSpec(engine.State(), referenceString))
                             && stats.steps == old(stats.steps) + [r.value]
                             && engine.currentStep == old(engine.currentStep) + 1
    {
      ghost var s := engine.State();
      StepAdvances(s, referenceString);
      var step := Step();
      if step.Failure? {
        PrependFailure(results, s, referenceString);
        return Failure(step.error);
      }
      PrependStep(results, s, referenceString);
      r := Success(step.value.value);
    }

    /** `reset`: a fresh engine over the same setting and policy object, so a FIFO
        queue carries over; the statistics are cleared. */
    method Reset()
      requires Valid()
      modifies this, stats
      ensures Valid()
      ensures fresh(engine) && fresh(engine.frames) && fresh(engine.pageTable)
      ensures engine.State() == Initial(numFrames, old(StateOf(policy)))
      ensures stats.steps == [] && stats.hits == 0 && stats.faults == 0
    {
      engine := new SimulationEngine(numFrames, referenceString, policy);
      stats.Reset();
    }
  }
}
