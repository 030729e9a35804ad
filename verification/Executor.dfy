/**
 The plan executor (src/wolfpaw/agents/executor.py): contiguous parallel batches, one
 mid-run splice of a continuation plan, skipping of what is abandoned, and the success flag.
 What a step does and what the planner answers are arbitrary functions of what each is shown.
 */
module Executor {
  import opened Prelude

  const MAX_STEPS: nat := 50
  const MAX_REPLANS: nat := 1

  datatype StepKind = Functional | Reasoning | Evaluation | Subagent | ToolCreator

  datatype Step = Step(id: string, kind: StepKind, group: Option<int>)

  datatype StepStatus = Completed | Failed | Skipped

  datatype StepResult = StepResult(stepId: string, kind: StepKind, status: StepStatus, output: string, error: string)

  datatype Outcome = Done(output: string) | Raised(error: string)

  /** A step sees its snapshot of prior results; the index tells batch members apart. */
  type Runner = (Step, seq<StepResult>, nat) -> Outcome

  /** The planner sees the plan, the results so far, the failed step and its error; None is a planner error. */
  type Planner = (seq<Step>, seq<StepResult>, Step, string) -> Option<seq<Step>>

  datatype Env = Env(run: Runner, planner: Planner)

  function RunStep(run: Runner, step: Step, prior: seq<StepResult>, k: nat): StepResult {
    match run(step, prior, k)
    case Done(output) => StepResult(step.id, step.kind, Completed, output, "")
    case Raised(error) => StepResult(step.id, step.kind, Failed, "", error)
  }

  function SkipStep(step: Step): StepResult {
    StepResult(step.id, step.kind, Skipped, "", "")
  }

  /** End of the batch that starts at `i`: one step, or the contiguous run sharing its group. */
  function BatchEnd(steps: seq<Step>, i: nat): (j: nat)
    requires i < |steps|
    ensures i < j <= |steps|
    ensures forall k :: i <= k < j ==> steps[k].group == steps[i].group
    ensures steps[i].group.None? ==> j == i + 1
    ensures steps[i].group.Some? && j < |steps| ==> steps[j].group != steps[i].group
    decreases |steps| - i
  {
    if steps[i].group.Some? && i + 1 < |steps| && steps[i + 1].group == steps[i].group then BatchEnd(steps, i + 1)
    else i + 1
  }

  function RunBatch(run: Runner, batch: seq<Step>, prior: seq<StepResult>): (rs: seq<StepResult>)
    ensures |rs| == |batch|
    ensures forall k :: 0 <= k < |batch| ==> rs[k] == RunStep(run, batch[k], prior, k)
  {
    seq(|batch|, k requires 0 <= k < |batch| => RunStep(run, batch[k], prior, k))
  }

  predicate AnyFailed(rs: seq<StepResult>) {
    exists k :: 0 <= k < |rs| && rs[k].status == Failed
  }

  function FirstFailed(rs: seq<StepResult>): (r: Option<StepResult>)
    ensures r.None? <==> !AnyFailed(rs)
    ensures r.Some? ==> r.value.status == Failed && r.value in rs
  {
    if rs == [] then None
    else if rs[0].status == Failed then Some(rs[0])
    else
      assert forall k :: 0 < k < |rs| ==> rs[k] == rs[1..][k - 1];
      FirstFailed(rs[1..])
  }

  function StepById(steps: seq<Step>, id: string): (r: Option<Step>)
    ensures r.Some? <==> exists k :: 0 <= k < |steps| && steps[k].id == id
  {
    if steps == [] then None
    else if steps[0].id == id then Some(steps[0])
    else
      assert forall k :: 0 < k < |steps| ==> steps[k] == steps[1..][k - 1];
      StepById(steps[1..], id)
  }

  datatype Reply = Reply(asked: nat, continuation: Option<seq<Step>>)

  /** `_replan_after_failure`: the planner is asked only when the failed step is one of the plan's. */
  function Replan(env: Env, plan: seq<Step>, completed: seq<StepResult>, failed: StepResult): Reply {
    match StepById(plan, failed.stepId)
    case None => Reply(0, None)
    case Some(step) =>
      Reply(1, env.planner(plan, completed, step, if failed.error != "" then failed.error else "(no error message)"))
  }

  datatype Execution = Execution(results: seq<StepResult>, success: bool, error: Option<string>)

  predicate AnySkipped(rs: seq<StepResult>) {
    exists k :: 0 <= k < |rs| && rs[k].status == Skipped
  }

  predicate Succeeded(rs: seq<StepResult>) {
    rs != [] && !AnySkipped(rs) && rs[|rs| - 1].status == Completed
  }

  function Summarize(rs: seq<StepResult>): Execution {
    Execution(rs, Succeeded(rs),
      if Succeeded(rs) then None
      else match FirstFailed(rs)
        case Some(failed) => Some(failed.error)
        case None => Some("no steps completed"))
  }

  function SkipAll(steps: seq<Step>): (rs: seq<StepResult>)
    ensures |rs| == |steps| && forall k :: 0 <= k < |steps| ==> rs[k] == SkipStep(steps[k])
  {
    seq(|steps|, k requires 0 <= k < |steps| => SkipStep(steps[k]))
  }

  // ---- the simple form: one phase, at most one splice, one more phase ----

  /** Batches run from some index until one fails or the steps end; `start` is where the last one began. */
  datatype Phase = Phase(start: nat, end: nat, results: seq<StepResult>, failure: Option<StepResult>)

  function RunPhase(run: Runner, steps: seq<Step>, i: nat, results: seq<StepResult>): (p: Phase)
    requires i <= |steps|
    ensures i <= p.end <= |steps|
    decreases |steps| - i
  {
    if i == |steps| then Phase(i, i, results, None)
    else
      var j := BatchEnd(steps, i);
      var batch := RunBatch(run, steps[i..j], results);
      if AnyFailed(batch) || j == |steps| then Phase(i, j, results + batch, FirstFailed(batch))
      else RunPhase(run, steps, j, results + batch)
  }

  datatype Run = Run(steps: seq<Step>, results: seq<StepResult>, asked: nat)

  /** A phase that nothing follows: what it left over is skipped. */
  function Close(steps: seq<Step>, p: Phase): seq<StepResult>
    requires p.end <= |steps|
  {
    if p.failure.None? then p.results else p.results + SkipAll(steps[p.end..])
  }

  /** The effective plan, one result for each of its steps, and how often the planner was asked. */
  function Perform(env: Env, plan: seq<Step>): Run {
    AfterFirst(env, plan, RunPhase(env.run, plan, 0, []))
  }

  function AfterFirst(env: Env, plan: seq<Step>, first: Phase): Run
    requires first.end <= |plan|
  {
    if first.failure.None? then Run(plan, first.results, 0)
    else
      var reply := Replan(env, plan, first.results, first.failure.value);
      match reply.continuation
      case None => Run(plan, Close(plan, first), reply.asked)
      case Some(more) =>
        var steps := plan[..first.end] + more;
        Run(steps, Close(steps, RunPhase(env.run, steps, first.end, first.results)), reply.asked)
  }

  /** What `execute` returns: plans over the step cap are refused, all others performed and summarized. */
  function Executed(env: Env, plan: seq<Step>): Execution {
    if |plan| > MAX_STEPS then Execution([], false, Some("step_cap_exceeded")) else Summarize(Perform(env, plan).results)
  }

  function PlannerCalls(env: Env, plan: seq<Step>): nat {
    if |plan| > MAX_STEPS then 0 else Perform(env, plan).asked
  }

  predicate Matches(step: Step, r: StepResult) {
    r.stepId == step.id && r.kind == step.kind
  }

  /** Batch by batch from `lo` to `hi`, every member saw exactly the results from before its batch. */
  predicate RanInBatches(run: Runner, steps: seq<Step>, lo: nat, hi: nat, rs: seq<StepResult>)
    requires hi <= |steps| && hi <= |rs|
    decreases hi - lo
  {
    lo >= hi ||
    var j := BatchEnd(steps, lo);
    j <= hi &&
    (forall k :: lo <= k < j ==> rs[k] == RunStep(run, steps[k], rs[..lo], k - lo)) &&
    RanInBatches(run, steps, j, hi, rs)
  }

  predicate AllCompleted(rs: seq<StepResult>, lo: nat, hi: nat)
    requires hi <= |rs|
  {
    forall k :: lo <= k < hi ==> rs[k].status == Completed
  }

  predicate PhaseOk(run: Runner, steps: seq<Step>, i: nat, before: seq<StepResult>, p: Phase) {
    && i <= p.start <= p.end <= |steps| && |p.results| == p.end && before <= p.results
    && RanInBatches(run, steps, i, p.end, p.results)
    && AllCompleted(p.results, i, p.start)
    && (i < |steps| ==> p.start < p.end && p.end == BatchEnd(steps, p.start) && FirstFailed(p.results[p.start..]) == p.failure)
    && (p.failure.None? ==> p.end == |steps| && AllCompleted(p.results, i, p.end))
    && (p.failure.Some? ==> i < |steps|)
  }

  lemma {:induction false} PhaseShape(run: Runner, steps: seq<Step>, i: nat, results: seq<StepResult>)
    requires i <= |steps| && |results| == i
    ensures PhaseOk(run, steps, i, results, RunPhase(run, steps, i, results))
    decreases |steps| - i
  {
    hide RunStep, FirstFailed, RanInBatches, RunBatch;
    if i == |steps| {
      RanNothing(run, steps, i, results);
    } else {
      var j := BatchEnd(steps, i);
      var batch := RunBatch(run, steps[i..j], results);
      if AnyFailed(batch) || j == |steps| {
        LastBatch(run, steps, i, results);
      } else {
        var rs := results + batch;
        PhaseShape(run, steps, j, rs);
        EarlierBatch(run, steps, i, results, RunPhase(run, steps, j, rs));
      }
    }
  }

  lemma {:induction false} RanNothing(run: Runner, steps: seq<Step>, i: nat, rs: seq<StepResult>)
    requires i <= |steps| && i <= |rs|
    ensures RanInBatches(run, steps, i, i, rs)
  {}

  lemma {:induction false} LastBatch(run: Runner, steps: seq<Step>, i: nat, results: seq<StepResult>)
    requires i < |steps| && |results| == i
    requires var batch := RunBatch(run, steps[i..BatchEnd(steps, i)], results);
             AnyFailed(batch) || BatchEnd(steps, i) == |steps|
    ensures var j := BatchEnd(steps, i);
            var batch := RunBatch(run, steps[i..j], results);
            PhaseOk(run, steps, i, results, Phase(i, j, results + batch, FirstFailed(batch)))
  {
    hide RunStep, FirstFailed, RunBatch;
    var j := BatchEnd(steps, i);
    var batch := RunBatch(run, steps[i..j], results);
    var rs := results + batch;
    assert rs[i..] == batch;
    BatchRan(run, steps, i, results, rs);
    RanNothing(run, steps, j, rs);
    BatchStatuses(run, steps[i..j], results);
    if !AnyFailed(batch) {
      forall k | i <= k < j ensures rs[k].status == Completed { assert rs[k] == batch[k - i]; }
    }
  }

  lemma {:induction false} EarlierBatch(run: Runner, steps: seq<Step>, i: nat, results: seq<StepResult>, p: Phase)
    requires i < |steps| && |results| == i && BatchEnd(steps, i) < |steps|
    requires var batch := RunBatch(run, steps[i..BatchEnd(steps, i)], results);
             !AnyFailed(batch) && PhaseOk(run, steps, BatchEnd(steps, i), results + batch, p)
    ensures PhaseOk(run, steps, i, results, p)
  {
    hide RunStep, FirstFailed, RunBatch;
    var j := BatchEnd(steps, i);
    var batch := RunBatch(run, steps[i..j], results);
    var rs := results + batch;
    BatchRan(run, steps, i, results, p.results);
    BatchStatuses(run, steps[i..j], results);
    forall k | i <= k < j ensures p.results[k].status == Completed {
      assert p.results[k] == rs[k] == batch[k - i];
    }
    assert results <= p.results;
  }

  lemma {:induction false} BatchRan(run: Runner, steps: seq<Step>, i: nat, results: seq<StepResult>, rs: seq<StepResult>)
    requires i < |steps| && |results| == i
    requires results + RunBatch(run, steps[i..BatchEnd(steps, i)], results) <= rs
    ensures forall k :: i <= k < BatchEnd(steps, i) ==> rs[k] == RunStep(run, steps[k], rs[..i], k - i)
  {
    var j := BatchEnd(steps, i);
    var batch := RunBatch(run, steps[i..j], results);
    assert rs[..i] == results;
    forall k | i <= k < j ensures rs[k] == RunStep(run, steps[k], rs[..i], k - i) {
      assert rs[k] == (results + batch)[k] == batch[k - i];
      assert steps[i..j][k - i] == steps[k];
    }
  }

  lemma BatchStatuses(run: Runner, batch: seq<Step>, prior: seq<StepResult>)
    ensures var rs := RunBatch(run, batch, prior);
            forall k :: 0 <= k < |rs| ==> Matches(batch[k], rs[k]) && rs[k].status != Skipped &&
                                          (!AnyFailed(rs) ==> rs[k].status == Completed)
  {
    var rs := RunBatch(run, batch, prior);
    forall k | 0 <= k < |rs|
      ensures Matches(batch[k], rs[k]) && rs[k].status != Skipped && (!AnyFailed(rs) ==> rs[k].status == Completed)
    {
      assert rs[k] == RunStep(run, batch[k], prior, k);
    }
  }

  /** Every result the phase produced is its step's, and none is SKIPPED. */
  lemma {:induction false} RanMatches(run: Runner, steps: seq<Step>, lo: nat, hi: nat, rs: seq<StepResult>)
    requires hi <= |steps| && hi <= |rs| && RanInBatches(run, steps, lo, hi, rs)
    ensures forall k :: lo <= k < hi ==> Matches(steps[k], rs[k]) && rs[k].status != Skipped
    decreases hi - lo
  {
    if lo < hi {
      var j := BatchEnd(steps, lo);
      RanMatches(run, steps, j, hi, rs);
      forall k | lo <= k < j ensures Matches(steps[k], rs[k]) && rs[k].status != Skipped {
        assert rs[k] == RunStep(run, steps[k], rs[..lo], k - lo);
      }
    }
  }

  // ---- the loop ----

  /** The source's loop as a recursion: a replan budget, a spliced step list, an index. */
  function Resume(env: Env, plan: seq<Step>, steps: seq<Step>, i: nat, results: seq<StepResult>, budget: nat): Run
    requires i <= |steps|
    decreases budget, |steps| - i
  {
    if i == |steps| then Run(steps, results, 0)
    else
      var j := BatchEnd(steps, i);
      var batch := RunBatch(env.run, steps[i..j], results);
      var rs := results + batch;
      if !AnyFailed(batch) then Resume(env, plan, steps, j, rs, budget)
      else if budget == 0 then Run(steps, rs + SkipAll(steps[j..]), 0)
      else
        var reply := Replan(env, plan, rs, FirstFailed(batch).value);
        match reply.continuation
        case None => Run(steps, rs + SkipAll(steps[j..]), reply.asked)
        case Some(more) => Asked(reply.asked, Resume(env, plan, steps[..j] + more, j, rs, budget - 1))
  }

  function Asked(n: nat, run: Run): Run {
    Run(run.steps, run.results, run.asked + n)
  }

  lemma {:induction false} ResumeSpliced(env: Env, plan: seq<Step>, steps: seq<Step>, i: nat, results: seq<StepResult>)
    requires i <= |steps|
    ensures Resume(env, plan, steps, i, results, 0) == Run(steps, Close(steps, RunPhase(env.run, steps, i, results)), 0)
    decreases |steps| - i
  {
    hide FirstFailed, RunBatch;
    if i < |steps| {
      var j := BatchEnd(steps, i);
      var batch := RunBatch(env.run, steps[i..j], results);
      if !AnyFailed(batch) { ResumeSpliced(env, plan, steps, j, results + batch); }
    }
  }

  lemma {:induction false} ResumeFirst(env: Env, plan: seq<Step>, i: nat, results: seq<StepResult>)
    requires i <= |plan|
    ensures Resume(env, plan, plan, i, results, MAX_REPLANS) == AfterFirst(env, plan, RunPhase(env.run, plan, i, results))
    decreases |plan| - i
  {
    hide FirstFailed, RunBatch;
    if i < |plan| {
      var j := BatchEnd(plan, i);
      var batch := RunBatch(env.run, plan[i..j], results);
      var rs := results + batch;
      if !AnyFailed(batch) {
        ResumeFirst(env, plan, j, rs);
      } else {
        var reply := Replan(env, plan, rs, FirstFailed(batch).value);
        if reply.continuation.Some? {
          ResumeSpliced(env, plan, plan[..j] + reply.continuation.value, j, rs);
        }
      }
    }
  }

  method Execute(env: Env, plan: seq<Step>) returns (execution: Execution, asked: nat)
    ensures execution == Executed(env, plan)
    ensures asked == PlannerCalls(env, plan)
  {
    hide Summarize, Perform;
    asked := 0;
    var steps := plan;
    if |steps| > MAX_STEPS {
      return Execution([], false, Some("step_cap_exceeded")), 0;
    }
    var results: seq<StepResult> := [];
    var replanBudget := MAX_REPLANS;
    var i := 0;
    ghost var whole := Resume(env, plan, plan, 0, [], MAX_REPLANS);
    assert whole == Perform(env, plan) by { Resumed(env, plan); }
    while i < |steps|
      invariant i <= |steps|
      invariant Asked(asked, Resume(env, plan, steps, i, results, replanBudget)) == whole
      decreases replanBudget, |steps| - i
    {
      var j := i + 1;
      if steps[i].group.Some? {
        while j < |steps| && steps[j].group == steps[i].group
          invariant i < j <= |steps| && BatchEnd(steps, i) == BatchEnd(steps, j - 1)
          invariant steps[j - 1].group == steps[i].group
        {
          j := j + 1;
        }
      }
      assert j == BatchEnd(steps, i);
      var batchResults := RunBatch(env.run, steps[i..j], results);
      results := results + batchResults;
      i := j;
      if AnyFailed(batchResults) {
        var failed := FirstFailed(batchResults).value;
        if replanBudget > 0 {
          var reply := Replan(env, plan, results, failed);
          asked := asked + reply.asked;
          if reply.continuation.Some? {
            replanBudget := replanBudget - 1;
            steps := steps[..i] + reply.continuation.value;
            continue;
          }
        }
        results := results + SkipAll(steps[i..]);
        assert results == whole.results && asked == whole.asked;
        break;
      }
    }
    execution := Summarize(results);
  }

  lemma {:induction false} Resumed(env: Env, plan: seq<Step>)
    ensures Resume(env, plan, plan, 0, [], MAX_REPLANS) == Perform(env, plan)
  {
    ResumeFirst(env, plan, 0, []);
  }

  // ---- what every execution keeps ----

  function FirstPhase(env: Env, plan: seq<Step>): Phase {
    RunPhase(env.run, plan, 0, [])
  }

  /** The planner's answer to the first failed batch, if there was one and it gave one. */
  function Continuation(env: Env, plan: seq<Step>): Option<seq<Step>> {
    var first := FirstPhase(env, plan);
    if first.failure.None? then None else Replan(env, plan, first.results, first.failure.value).continuation
  }

  /** The effective plan: the original, or its prefix up to the failed batch and then the continuation. */
  function EffectivePlan(env: Env, plan: seq<Step>): seq<Step> {
    match Continuation(env, plan)
    case None => plan
    case Some(more) => plan[..FirstPhase(env, plan).end] + more
  }

  /** The last phase that ran: the only one, or the one after the splice. */
  function LastPhase(env: Env, plan: seq<Step>): Phase {
    var first := FirstPhase(env, plan);
    if Continuation(env, plan).None? then first
    else RunPhase(env.run, EffectivePlan(env, plan), first.end, first.results)
  }

  lemma PhasesOk(env: Env, plan: seq<Step>)
    ensures var first := FirstPhase(env, plan);
            PhaseOk(env.run, plan, 0, [], first) &&
            (Continuation(env, plan).Some? ==>
              PhaseOk(env.run, EffectivePlan(env, plan), first.end, first.results, LastPhase(env, plan)))
  {
    PhaseShape(env.run, plan, 0, []);
    var first := FirstPhase(env, plan);
    if Continuation(env, plan).Some? {
      PhaseShape(env.run, EffectivePlan(env, plan), first.end, first.results);
    }
  }

  lemma {:induction false} FailedStepIsFound(env: Env, plan: seq<Step>)
    requires FirstPhase(env, plan).failure.Some?
    ensures StepById(plan, FirstPhase(env, plan).failure.value.stepId).Some?
  {
    hide RunPhase, RunStep;
    PhasesOk(env, plan);
    var p := FirstPhase(env, plan);
    RanMatches(env.run, plan, 0, p.end, p.results);
    var k :| 0 <= k < |p.results[p.start..]| && p.results[p.start..][k] == p.failure.value;
    assert Matches(plan[p.start + k], p.results[p.start + k]);
  }

  lemma {:induction false} PerformFollowsPlan(env: Env, plan: seq<Step>)
    ensures var r := Perform(env, plan);
            var first, last := FirstPhase(env, plan), LastPhase(env, plan);
            && r.asked == (if first.failure.Some? then 1 else 0)
            && r.steps == EffectivePlan(env, plan) && first.end <= last.end <= |r.steps|
            && |r.results| == |r.steps|
            && (forall k :: 0 <= k < |r.steps| ==> Matches(r.steps[k], r.results[k]))
            && (forall k :: 0 <= k < |r.steps| ==> (r.results[k].status == Skipped <==> last.end <= k))
            && first.end <= |plan| && |first.results| == first.end && first.results <= r.results
            && RanInBatches(env.run, plan, 0, first.end, first.results)
            && |last.results| == last.end && last.results <= r.results
            && RanInBatches(env.run, r.steps, first.end, last.end, last.results)
  {
    hide RunPhase, RunStep, RanInBatches, FirstFailed, Perform, EffectivePlan, LastPhase, Matches, AllCompleted;
    PhasesOk(env, plan);
    LastPhaseOk(env, plan);
    var last := LastPhase(env, plan);
    PerformIs(env, plan);
    ClosedResults(EffectivePlan(env, plan), last);
  }

  /**
   For all plans, step outcomes and planner answers: a plan over the step cap gets no result and no planner
   call. Otherwise the planner is asked at most once, and exactly when a batch of the original plan failed;
   there is one result for each step of the effective plan, in order; SKIPPED results are exactly those past
   the last batch that ran; and before and after the splice every batch member saw exactly the results from
   before its batch.
   */
  lemma {:induction false} ResultsFollowPlan(env: Env, plan: seq<Step>)
    ensures |plan| > MAX_STEPS ==> Executed(env, plan).results == [] && PlannerCalls(env, plan) == 0
    ensures |plan| <= MAX_STEPS ==>
            var rs, steps := Executed(env, plan).results, EffectivePlan(env, plan);
            var first, last := FirstPhase(env, plan), LastPhase(env, plan);
            && PlannerCalls(env, plan) == (if first.failure.Some? then 1 else 0)
            && |rs| == |steps| && first.end <= last.end <= |steps|
            && (forall k :: 0 <= k < |steps| ==> Matches(steps[k], rs[k]))
            && (forall k :: 0 <= k < |steps| ==> (rs[k].status == Skipped <==> last.end <= k))
            && first.end <= |plan| && |first.results| == first.end && first.results <= rs
            && RanInBatches(env.run, plan, 0, first.end, first.results)
            && |last.results| == last.end && last.results <= rs
            && RanInBatches(env.run, steps, first.end, last.end, last.results)
  {
    hide RunPhase, RunStep, RanInBatches, Perform, EffectivePlan, FirstPhase, LastPhase, Matches;
    PerformFollowsPlan(env, plan);
  }

  lemma LastPhaseOk(env: Env, plan: seq<Step>)
    ensures var first, last, steps := FirstPhase(env, plan), LastPhase(env, plan), EffectivePlan(env, plan);
            && first.end <= last.end <= |steps| && |first.results| == first.end && |last.results| == last.end
            && first.results <= last.results
            && RanInBatches(env.run, steps, first.end, last.end, last.results)
            && (forall k :: 0 <= k < last.end ==> Matches(steps[k], last.results[k]) && last.results[k].status != Skipped)
            && (last.failure.None? ==> last.end == |steps|)
  {
    hide RunPhase, RunStep, RanInBatches, FirstFailed, Matches;
    PhasesOk(env, plan);
    var first, last, steps := FirstPhase(env, plan), LastPhase(env, plan), EffectivePlan(env, plan);
    RanMatches(env.run, plan, 0, first.end, first.results);
    if Continuation(env, plan).Some? {
      RanMatches(env.run, steps, first.end, last.end, last.results);
      assert forall k :: 0 <= k < first.end ==> steps[k] == plan[k] && last.results[k] == first.results[k];
    } else {
      RanNothing(env.run, steps, first.end, last.results);
    }
  }

  lemma ClosedResults(steps: seq<Step>, p: Phase)
    requires |p.results| == p.end <= |steps| && (p.failure.None? ==> p.end == |steps|)
    requires forall k :: 0 <= k < p.end ==> Matches(steps[k], p.results[k]) && p.results[k].status != Skipped
    ensures var rs := Close(steps, p);
            |rs| == |steps| && p.results <= rs &&
            (forall k :: 0 <= k < |steps| ==> Matches(steps[k], rs[k])) &&
            (forall k :: 0 <= k < |steps| ==> (rs[k].status == Skipped <==> p.end <= k))
  {
    var rs := Close(steps, p);
    forall k | 0 <= k < |steps| ensures Matches(steps[k], rs[k]) && (rs[k].status == Skipped <==> p.end <= k) {
      if k >= p.end {
        assert rs[k] == SkipAll(steps[p.end..])[k - p.end] == SkipStep(steps[p.end..][k - p.end]);
      }
    }
  }

  lemma PerformIs(env: Env, plan: seq<Step>)
    ensures var first, last := FirstPhase(env, plan), LastPhase(env, plan);
            var r := Perform(env, plan);
            && r.steps == EffectivePlan(env, plan)
            && last.end <= |r.steps|
            && r.results == Close(r.steps, last)
            && r.asked == (if first.failure.Some? then 1 else 0)
  {
    hide RunPhase;
    if FirstPhase(env, plan).failure.Some? { FailedStepIsFound(env, plan); }
  }

  // ---- the success flag ----

  /** No batch failed, or one failed and the continuation then completed in full. */
  predicate Recovered(env: Env, plan: seq<Step>) {
    FirstPhase(env, plan).failure.None? || (Continuation(env, plan).Some? && LastPhase(env, plan).failure.None?)
  }

  predicate Successful(env: Env, plan: seq<Step>) {
    Executed(env, plan).success
  }

  /** The last batch is a single step. */
  predicate SingleTail(steps: seq<Step>) {
    var n := |steps|;
    n > 0 && (n == 1 || steps[n - 1].group.None? || steps[n - 2].group != steps[n - 1].group)
  }

  /** What makes the flag reliable for a plan, given the planner's answer to its failure. */
  predicate FlagIsReliable(plan: seq<Step>, answer: Option<seq<Step>>) {
    0 < |plan| <= MAX_STEPS &&
    match answer
    case None => SingleTail(plan)
    case Some(more) => SingleTail(more)
  }

  lemma {:induction false} TailSingle(steps: seq<Step>, lo: nat, b: nat)
    requires lo <= b < |steps| && BatchEnd(steps, b) == |steps| && SingleTail(steps[lo..])
    ensures b == |steps| - 1
  {
    var n := |steps|;
    assert steps[n - 1] == steps[lo..][n - 1 - lo];
    if n - lo >= 2 {
      assert steps[n - 2] == steps[lo..][n - 2 - lo];
    }
  }

  /** After a failed last phase, nothing skipped and a completed last result need a longer last batch. */
  lemma FailedTail(run: Runner, steps: seq<Step>, lo: nat, before: seq<StepResult>, p: Phase)
    requires |before| == lo && PhaseOk(run, steps, lo, before, p) && p.failure.Some? && SingleTail(steps[lo..])
    ensures !Succeeded(Close(steps, p))
  {
    hide RanInBatches, RunStep;
    var rs := Close(steps, p);
    if p.end < |steps| {
      assert rs[p.end] == SkipAll(steps[p.end..])[0];
      assert rs[p.end].status == Skipped;
    } else {
      TailSingle(steps, lo, p.start);
      assert rs == p.results;
      assert p.failure.value in p.results[p.start..];
      assert p.results[p.start..] == [p.results[p.start]];
    }
  }

  /** Whatever steps and planner do, with the planner's actual answer: success is exactly recovery. */
  lemma SuccessIsRecovery(env: Env, plan: seq<Step>)
    requires 0 < |plan| <= MAX_STEPS
    requires FirstPhase(env, plan).failure.Some? ==> FlagIsReliable(plan, Continuation(env, plan))
    ensures Successful(env, plan) <==> Recovered(env, plan)
  {
    hide RunPhase, RunStep, RanInBatches, FirstFailed, SingleTail;
    PhasesOk(env, plan);
    PerformIs(env, plan);
    PerformFollowsPlan(env, plan);
    var first, last := FirstPhase(env, plan), LastPhase(env, plan);
    var r := Perform(env, plan);
    if first.failure.None? {
      assert r.results == first.results;
    } else if Continuation(env, plan).None? {
      assert plan[0..] == plan;
      FailedTail(env.run, plan, 0, [], first);
    } else {
      var more := Continuation(env, plan).value;
      assert r.steps[first.end..] == more;
      TailNonempty(more);
      if last.failure.Some? {
        FailedTail(env.run, r.steps, first.end, first.results, last);
      }
    }
  }

  lemma TailNonempty(steps: seq<Step>)
    requires SingleTail(steps)
    ensures steps != []
  {}

  lemma {:induction false} FirstFailedJoin(a: seq<StepResult>, b: seq<StepResult>)
    ensures FirstFailed(a + b) == if FirstFailed(a).Some? then FirstFailed(a) else FirstFailed(b)
  {
    if a == [] {
      assert a + b == b;
    } else {
      assert (a + b)[1..] == a[1..] + b;
      if a[0].status != Failed { FirstFailedJoin(a[1..], b); }
    }
  }

  /**
   Every error: the refusal, the empty plan, none on success, and otherwise the failure that came first, even
   when a continuation failed later.
   */
  lemma ErrorIsFirstFailure(env: Env, plan: seq<Step>)
    ensures |plan| > MAX_STEPS ==> Executed(env, plan).error == Some("step_cap_exceeded")
    ensures plan == [] ==> Executed(env, plan).error == Some("no steps completed")
    ensures Successful(env, plan) ==> Executed(env, plan).error.None?
    ensures 0 < |plan| <= MAX_STEPS && !Successful(env, plan) ==>
            FirstPhase(env, plan).failure.Some? && Executed(env, plan).error == Some(FirstPhase(env, plan).failure.value.error)
  {
    if 0 < |plan| <= MAX_STEPS && !Successful(env, plan) { FailureIsReported(env, plan); }
  }

  lemma FailureIsReported(env: Env, plan: seq<Step>)
    requires 0 < |plan| <= MAX_STEPS && !Successful(env, plan)
    ensures FirstPhase(env, plan).failure.Some?
    ensures Executed(env, plan).error == Some(FirstPhase(env, plan).failure.value.error)
  {
    hide FirstPhase, LastPhase, RanInBatches, FirstFailed, Matches, Perform, EffectivePlan, PhaseOk, Continuation;
    PhasesOk(env, plan);
    PerformFollowsPlan(env, plan);
    var p, rs := FirstPhase(env, plan), Perform(env, plan).results;
    if p.failure.None? { SuccessIsRecovery(env, plan); }
    FailureOfPhase(env.run, plan, p);
    assert rs == p.results + rs[p.end..];
    FirstFailedJoin(p.results, rs[p.end..]);
  }

  lemma FailureOfPhase(run: Runner, steps: seq<Step>, p: Phase)
    requires steps != [] && PhaseOk(run, steps, 0, [], p)
    ensures FirstFailed(p.results) == p.failure
  {
    hide RanInBatches, FirstFailed;
    var done := p.results[..p.start];
    assert p.results == done + p.results[p.start..];
    assert !AnyFailed(done);
    FirstFailedJoin(done, p.results[p.start..]);
  }

  // ---- the hypothesis is exact ----

  /** A planner that always gives the same answer. */
  function Always(answer: Option<seq<Step>>): Planner {
    (plan, completed, failed, error) => answer
  }

  /** Steps fail exactly at the given positions of the execution. */
  function FailAt(positions: set<int>): Runner {
    (step, prior, k) => if |prior| + k in positions then Raised("failed") else Done("")
  }

  lemma FailedAtOne(positions: set<int>, step: Step, prior: seq<StepResult>, k: nat)
    ensures var r := RunStep(FailAt(positions), step, prior, k);
            (r.status == Failed <==> |prior| + k in positions) && r.status != Skipped
  {}

  lemma {:induction false} FailedWhereAsked(positions: set<int>, steps: seq<Step>, lo: nat, hi: nat, rs: seq<StepResult>)
    requires hi <= |steps| && hi <= |rs| && RanInBatches(FailAt(positions), steps, lo, hi, rs)
    ensures forall k :: lo <= k < hi ==> (rs[k].status == Failed <==> k in positions) && rs[k].status != Skipped
    decreases hi - lo
  {
    hide RunStep, FailAt;
    if lo < hi {
      var run, j := FailAt(positions), BatchEnd(steps, lo);
      var prior := rs[..lo];
      FailedWhereAsked(positions, steps, j, hi, rs);
      forall k | lo <= k < j ensures (rs[k].status == Failed <==> k in positions) && rs[k].status != Skipped {
        assert rs[k] == RunStep(run, steps[k], prior, k - lo);
        FailedAtOne(positions, steps[k], prior, k - lo);
      }
    }
  }

  /** Failing first at `f` stops the phase at the end of the batch that holds `f`. */
  lemma {:induction false} StopsAt(positions: set<int>, steps: seq<Step>, i: nat, before: seq<StepResult>, f: nat)
    requires |before| == i <= f < |steps| && f in positions && forall g :: i <= g < f ==> g !in positions
    ensures var p := RunPhase(FailAt(positions), steps, i, before);
            && i <= p.start <= f < p.end <= |steps| && p.end == BatchEnd(steps, p.start)
            && |p.results| == p.end && before <= p.results && p.failure.Some?
            && forall k :: i <= k < p.end ==> (p.results[k].status == Failed <==> k in positions) && p.results[k].status != Skipped
  {
    hide RunPhase, RunStep, RanInBatches, FirstFailed, FailAt;
    var run := FailAt(positions);
    PhaseShape(run, steps, i, before);
    var p := RunPhase(run, steps, i, before);
    FailedWhereAsked(positions, steps, i, p.end, p.results);
    if p.failure.Some? {
      var k :| 0 <= k < |p.results[p.start..]| && p.results[p.start..][k] == p.failure.value;
      assert p.results[p.start + k].status == Failed;
    }
  }

  /** A batch holding the last step but one, of a longer tail, holds the last step too. */
  lemma {:induction false} LongTailEnds(steps: seq<Step>, lo: nat, b: nat)
    requires lo <= |steps| && steps[lo..] != [] && !SingleTail(steps[lo..])
    requires lo <= b <= |steps| - 2 < BatchEnd(steps, b)
    ensures BatchEnd(steps, b) == |steps|
  {
    var n := |steps|;
    assert steps[n - 1] == steps[lo..][n - 1 - lo] && steps[n - 2] == steps[lo..][n - 2 - lo];
    assert steps[n - 2].group == steps[b].group;
  }

  lemma {:induction false} LongJoinEnds(plan: seq<Step>, more: seq<Step>, b: nat)
    requires |more| >= 2 && !SingleTail(more)
    requires |plan| <= b <= |plan| + |more| - 2 < BatchEnd(plan + more, b)
    ensures BatchEnd(plan + more, b) == |plan| + |more|
  {
    assert (plan + more)[|plan|..] == more;
    hide SingleTail, BatchEnd;
    LongTailEnds(plan + more, |plan|, b);
  }

  predicate Agrees(plan: seq<Step>, answer: Option<seq<Step>>, run: Runner) {
    Successful(Env(run, Always(answer)), plan) <==> Recovered(Env(run, Always(answer)), plan)
  }

  ghost predicate AlwaysAgrees(plan: seq<Step>, answer: Option<seq<Step>>) {
    forall run: Runner :: Agrees(plan, answer, run)
  }

  lemma AlwaysContinues(plan: seq<Step>, answer: Option<seq<Step>>, run: Runner)
    requires FirstPhase(Env(run, Always(answer)), plan).failure.Some?
    ensures Continuation(Env(run, Always(answer)), plan) == answer
  {
    hide RunPhase;
    FailedStepIsFound(Env(run, Always(answer)), plan);
  }

  lemma CloseAll(steps: seq<Step>, p: Phase)
    requires p.end == |steps|
    ensures Close(steps, p) == p.results
  {
    assert p.results + SkipAll(steps[p.end..]) == p.results;
  }

  lemma NoAnswerLongTail(plan: seq<Step>)
    requires 0 < |plan| <= MAX_STEPS && !SingleTail(plan)
    ensures !Agrees(plan, None, FailAt({|plan| - 2}))
  {
    hide RunPhase, RunStep, RanInBatches, FirstFailed, FailAt, SingleTail, BatchEnd, Perform, Close;
    LongIsTwo(plan);
    var n := |plan|;
    var run := FailAt({n - 2});
    var env := Env(run, Always(None));
    StopsAt({n - 2}, plan, 0, [], n - 2);
    var p := FirstPhase(env, plan);
    assert plan[0..] == plan;
    LongTailEnds(plan, 0, p.start);
    AlwaysContinues(plan, None, run);
    PerformIs(env, plan);
    CloseAll(plan, p);
    assert p.results[n - 1].status == Completed;
  }

  lemma LongIsTwo(steps: seq<Step>)
    requires steps != [] && !SingleTail(steps)
    ensures |steps| >= 2
  {}

  lemma EmptyAnswer(plan: seq<Step>)
    requires 0 < |plan| <= MAX_STEPS
    ensures !Agrees(plan, Some([]), FailAt({|plan| - 1}))
  {
    hide RunPhase, RunStep, RanInBatches, FirstFailed, FailAt, BatchEnd, Perform;
    var n := |plan|;
    var run := FailAt({n - 1});
    var env := Env(run, Always(Some([])));
    StopsAt({n - 1}, plan, 0, [], n - 1);
    var p := FirstPhase(env, plan);
    AlwaysContinues(plan, Some([]), run);
    PerformIs(env, plan);
    assert plan[..n] + [] == plan;
    NothingMore(run, plan, p.results);
    assert p.results[n - 1].status == Failed;
  }

  lemma {:induction false} NothingMore(run: Runner, steps: seq<Step>, results: seq<StepResult>)
    ensures RunPhase(run, steps, |steps|, results) == Phase(|steps|, |steps|, results, None)
  {}

  /** The plan's last step fails, the planner answers `more`, and of that the step at `f` fails. */
  function FailTwice(plan: seq<Step>, more: seq<Step>, f: nat): Env {
    Env(FailAt({|plan| - 1, f}), Always(Some(more)))
  }

  /** Just the results at the given positions failed, and none is SKIPPED. */
  predicate FailedOnlyAt(rs: seq<StepResult>, positions: set<int>) {
    forall k :: 0 <= k < |rs| ==> (rs[k].status == Failed <==> k in positions) && rs[k].status != Skipped
  }

  lemma {:induction false} TwoPhases(plan: seq<Step>, more: seq<Step>, f: nat)
    requires plan != [] && |plan| <= f < |plan| + |more|
    ensures var env := FailTwice(plan, more, f);
            var last := LastPhase(env, plan);
            && FirstPhase(env, plan).failure.Some?
            && Continuation(env, plan) == Some(more)
            && EffectivePlan(env, plan) == plan + more
            && |plan| <= last.start <= f < last.end <= |plan| + |more|
            && last.end == BatchEnd(plan + more, last.start)
            && |last.results| == last.end && last.failure.Some? && FailedOnlyAt(last.results, {|plan| - 1, f})
  {
    hide RunPhase, RunStep, RanInBatches, FirstFailed, FailAt, SingleTail, BatchEnd, Perform, Close;
    var n, at := |plan|, {|plan| - 1, f};
    var env := FailTwice(plan, more, f);
    StopsAt(at, plan, 0, [], n - 1);
    var first := FirstPhase(env, plan);
    AlwaysContinues(plan, Some(more), FailAt(at));
    assert plan[..n] == plan;
    StopsAt(at, plan + more, n, first.results, f);
    assert forall k :: 0 <= k < n ==> LastPhase(env, plan).results[k] == first.results[k];
  }

  lemma LongRuns(plan: seq<Step>, more: seq<Step>)
    requires plan != [] && |more| >= 2 && !SingleTail(more)
    ensures var env := FailTwice(plan, more, |plan| + |more| - 2);
            LastPhase(env, plan).end == |plan| + |more| && Perform(env, plan).results == LastPhase(env, plan).results
  {
    hide *;
    var env := FailTwice(plan, more, |plan| + |more| - 2);
    TwoPhases(plan, more, |plan| + |more| - 2);
    LongJoinEnds(plan, more, LastPhase(env, plan).start);
    PerformIs(env, plan);
    CloseAll(plan + more, LastPhase(env, plan));
  }

  lemma LongAnswer(plan: seq<Step>, more: seq<Step>)
    requires 0 < |plan| <= MAX_STEPS && more != [] && !SingleTail(more)
    ensures |more| >= 2 && !Agrees(plan, Some(more), FailTwice(plan, more, |plan| + |more| - 2).run)
  {
    hide *;
    LongIsTwo(more);
    var f := |plan| + |more| - 2;
    var env := FailTwice(plan, more, f);
    TwoPhases(plan, more, f);
    LongRuns(plan, more);
    LastCompleted(env, plan, LastPhase(env, plan).results, f);
    NotRecovered(env, plan);
    TwiceDisagrees(plan, more, f);
  }

  lemma LastCompleted(env: Env, plan: seq<Step>, rs: seq<StepResult>, f: nat)
    requires 0 < |plan| <= MAX_STEPS && rs == Perform(env, plan).results
    requires |plan| < |rs| && f == |rs| - 2 && |plan| <= f && FailedOnlyAt(rs, {|plan| - 1, f})
    ensures Successful(env, plan)
  {
    hide Perform;
    assert rs[|rs| - 1].status == Completed;
  }

  lemma NotRecovered(env: Env, plan: seq<Step>)
    requires FirstPhase(env, plan).failure.Some? && LastPhase(env, plan).failure.Some?
    ensures !Recovered(env, plan)
  {
    hide FirstPhase, LastPhase;
  }

  lemma TwiceDisagrees(plan: seq<Step>, more: seq<Step>, f: nat)
    requires var env := FailTwice(plan, more, f); Successful(env, plan) != Recovered(env, plan)
    ensures !Agrees(plan, Some(more), FailTwice(plan, more, f).run)
  {
    hide Successful, Recovered, FailAt;
  }

  /**
   The success flag agrees with recovery, whatever the steps do, exactly for nonempty plans within the step
   cap where the last batch of what would run last is a single step: of the continuation when the planner gives one
   (which must not be empty), of the plan itself when it does not.
   */
  lemma FlagExactlyReliable(plan: seq<Step>, answer: Option<seq<Step>>)
    ensures AlwaysAgrees(plan, answer) <==> FlagIsReliable(plan, answer)
  {
    hide RunPhase, RunStep, RanInBatches, FirstFailed, FailAt, SingleTail, Successful, Recovered;
    if FlagIsReliable(plan, answer) {
      forall run: Runner ensures Agrees(plan, answer, run) {
        var env := Env(run, Always(answer));
        if FirstPhase(env, plan).failure.Some? { AlwaysContinues(plan, answer, run); }
        SuccessIsRecovery(env, plan);
      }
    } else if plan == [] {
      NothingToRun(answer);
    } else if |plan| > MAX_STEPS {
      NothingFails(plan, answer);
    } else {
      match answer
      case None => NoAnswerLongTail(plan);
      case Some(more) =>
        if more == [] { EmptyAnswer(plan); } else { LongAnswer(plan, more); }
    }
  }

  // ---- the step cap ----

  /**
   The cap holds for the results of every run of a plan if and only if the plan is refused or empty, the planner
   gives no continuation, or plan and continuation together are within it: a continuation is never counted.
   */
  lemma CapHoldsExactly(plan: seq<Step>, answer: Option<seq<Step>>)
    ensures (forall run: Runner :: WithinCap(plan, answer, run)) <==>
            |plan| > MAX_STEPS || plan == [] || answer.None? || |plan| + |answer.value| <= MAX_STEPS
  {
    hide Executed, WithinCap;
    if 0 < |plan| <= MAX_STEPS && answer.Some? && |plan| + |answer.value| > MAX_STEPS {
      LongerThanCap(plan, answer.value);
    } else {
      forall run: Runner ensures WithinCap(plan, answer, run) { CapKept(plan, answer, run); }
    }
  }

  predicate WithinCap(plan: seq<Step>, answer: Option<seq<Step>>, run: Runner) {
    |Executed(Env(run, Always(answer)), plan).results| <= MAX_STEPS
  }

  lemma LongerThanCap(plan: seq<Step>, more: seq<Step>)
    requires 0 < |plan| <= MAX_STEPS && more != []
    ensures |Executed(FailTwice(plan, more, |plan|), plan).results| == |plan| + |more|
    ensures |plan| + |more| > MAX_STEPS ==> !WithinCap(plan, Some(more), FailTwice(plan, more, |plan|).run)
  {
    hide FailAt, Executed, RunPhase, FirstPhase, LastPhase, Continuation, EffectivePlan, RanInBatches, Matches, BatchEnd, FailedOnlyAt;
    TwoPhases(plan, more, |plan|);
    ResultsFollowPlan(FailTwice(plan, more, |plan|), plan);
  }

  lemma CapKept(plan: seq<Step>, answer: Option<seq<Step>>, run: Runner)
    requires |plan| > MAX_STEPS || plan == [] || answer.None? || |plan| + |answer.value| <= MAX_STEPS
    ensures WithinCap(plan, answer, run)
  {
    var env := Env(run, Always(answer));
    hide RunPhase, Executed, RanInBatches, Matches;
    ResultsFollowPlan(env, plan);
    PhasesOk(env, plan);
    if FirstPhase(env, plan).failure.Some? { AlwaysContinues(plan, answer, run); }
  }

  /** Fifty ungrouped steps of which the last fails, and a continuation of one: fifty-one steps are run. */
  lemma FiftyOneStepsRun(step: Step)
    ensures var plan := seq(MAX_STEPS, _ => step);
            |Executed(FailTwice(plan, [step], MAX_STEPS), plan).results| == MAX_STEPS + 1
  {
    hide Executed, FailTwice;
    LongerThanCap(seq(MAX_STEPS, _ => step), [step]);
  }

  /** A plan over the cap is refused although none of its steps would fail. */
  lemma NothingFails(plan: seq<Step>, answer: Option<seq<Step>>)
    requires |plan| > MAX_STEPS
    ensures !Agrees(plan, answer, FailAt({}))
  {
    hide RunPhase, RunStep, RanInBatches, FirstFailed, FailAt;
    var run := FailAt({});
    PhaseShape(run, plan, 0, []);
    var p := FirstPhase(Env(run, Always(answer)), plan);
    FailedWhereAsked({}, plan, 0, p.end, p.results);
    forall k | 0 <= k < |p.results[p.start..]| ensures p.results[p.start..][k].status != Failed {
      assert p.results[p.start..][k] == p.results[p.start + k];
    }
  }

  lemma NothingToRun(answer: Option<seq<Step>>)
    ensures !Agrees([], answer, FailAt({}))
  {}
}
