/**
 * What a job goes through when the automation reports its steps in order:
 * for k = 1..n, first (k, active) and then (k, done). The lemmas follow the
 * record along every prefix of that trace: its shape, its percent, and what
 * finalisation makes of it at any point.
 */
module Trace {
  import opened Wrappers
  import opened StepCatalog
  import opened Progress
  import opened Finalize

  /** One call of the step callback. */
  datatype Report = Report(stepId: int, state: StepState)

  /** The reports of a run in which every step succeeds. */
  function AutomationTrace(n: nat): (t: seq<Report>)
    ensures |t| == 2 * n
  {
    seq(2 * n, i => Report(i / 2 + 1, if i % 2 == 0 then Active else Done))
  }

  /** The record after the given reports were applied in order. */
  function Run(j: Job, reports: seq<Report>): (r: Job)
    requires |j.steps| > 0
    ensures SameSteps(r.steps, j.steps)
    ensures r.done == j.done && r.downloadReady == j.downloadReady && r.error == j.error
    ensures r.fileName == j.fileName && r.filePath == j.filePath
    decreases |reports|
  {
    if reports == [] then j
    else
      var last := reports[|reports| - 1];
      Transition(Run(j, reports[..|reports| - 1]), last.stepId, last.state)
  }

  /** A record as it is created: numbered steps, all pending, nothing reported, not finalised. */
  ghost predicate Fresh(j: Job) {
    |j.steps| > 0 && Numbered(j.steps) &&
    (forall i :: 0 <= i < |j.steps| ==> j.steps[i].state == Pending) &&
    j.percent == 0 && j.currentStepId == 1 && !j.done && !j.downloadReady && j.error.None?
  }

  lemma BuildJobFresh()
    ensures Fresh(BuildJob())
  {
    CatalogStepsNumbered(BuildJob().steps);
  }

  /** The steps once step k is in state s: earlier ones done, later ones pending. */
  function Reached(steps: seq<Step>, k: int, s: StepState): (r: seq<Step>)
    ensures SameSteps(r, steps)
  {
    seq(|steps|, i requires 0 <= i < |steps| =>
      steps[i].(state := if i + 1 < k then Done else if i + 1 == k then s else Pending))
  }

  /** The step the p-th report of the trace is about, and the state it reports. */
  function StepOf(p: nat): nat { (p + 1) / 2 }
  function StateOf(p: nat): StepState { if p % 2 == 1 then Active else Done }

  /** Re-reporting step k, or reporting the step after a closed one, moves the pattern along. */
  lemma {:induction false} ReachedAdvance(steps: seq<Step>, k: int, s: StepState, k2: int, s2: StepState)
    requires Numbered(steps)
    requires k2 == k || (k2 == k + 1 && s != Error)
    ensures StepsAfter(Reached(steps, k, s), k2, s2) == Reached(steps, k2, s2)
  {
    var before := Reached(steps, k, s);
    var lhs := StepsAfter(before, k2, s2);
    var rhs := Reached(steps, k2, s2);
    forall i | 0 <= i < |steps|
      ensures lhs[i] == rhs[i]
    {
      assert lhs[i] == StepAfter(before[i], k2, s2);
    }
  }

  /** The i-th report of the trace is report number i + 1 in StepOf/StateOf terms. */
  lemma TraceAt(n: nat, i: nat)
    requires i < 2 * n
    ensures AutomationTrace(n)[i] == Report(StepOf(i + 1), StateOf(i + 1))
  {
  }

  /** Running a prefix of one more report is one more transition. */
  lemma RunSnoc(j: Job, t: seq<Report>, p: nat)
    requires |j.steps| > 0 && 1 <= p <= |t|
    ensures Run(j, t[..p]) == Transition(Run(j, t[..p - 1]), t[p - 1].stepId, t[p - 1].state)
  {
    assert t[..p][..p - 1] == t[..p - 1];
  }

  /** The record after the first p reports of the trace, for p >= 1. */
  ghost predicate ShowsReport(r: Job, j: Job, p: nat)
    requires |j.steps| > 0
  {
    r.steps == Reached(j.steps, StepOf(p), StateOf(p)) &&
    r.currentStepId == StepOf(p) &&
    r.percent == Percent(StepOf(p), StateOf(p), |j.steps|)
  }

  /** One transition of the trace takes the record from report p - 1 to report p. */
  lemma {:induction false} TraceStep(j: Job, before: Job, p: nat)
    requires Fresh(j) && 2 <= p <= 2 * |j.steps|
    requires ShowsReport(before, j, p - 1)
    ensures ShowsReport(Transition(before, StepOf(p), StateOf(p)), j, p)
  {
    ReachedAdvance(j.steps, StepOf(p - 1), StateOf(p - 1), StepOf(p), StateOf(p));
  }

  /** The p-th report of the trace, applied to the record after the first p - 1. */
  lemma RunTraceSnoc(j: Job, p: nat)
    requires |j.steps| > 0 && 1 <= p <= 2 * |j.steps|
    ensures Run(j, AutomationTrace(|j.steps|)[..p]) ==
            Transition(Run(j, AutomationTrace(|j.steps|)[..p - 1]), StepOf(p), StateOf(p))
  {
    RunSnoc(j, AutomationTrace(|j.steps|), p);
    TraceAt(|j.steps|, p - 1);
  }

  /** The first report activates step 1 of a fresh record. */
  lemma {:induction false} TraceFirst(j: Job)
    requires Fresh(j)
    ensures ShowsReport(Transition(j, 1, Active), j, 1)
  {
    assert j.steps == Reached(j.steps, 0, Pending);
    ReachedAdvance(j.steps, 0, Pending, 1, Active);
  }

  /** After the first p reports of the trace, the record shows step StepOf(p) in state StateOf(p). */
  lemma {:induction false} TraceState(j: Job, p: nat)
    requires Fresh(j) && 1 <= p <= 2 * |j.steps|
    ensures ShowsReport(Run(j, AutomationTrace(|j.steps|)[..p]), j, p)
  {
    var t := AutomationTrace(|j.steps|);
    var before := Run(j, t[..p - 1]);
    RunTraceSnoc(j, p);
    if p == 1 {
      assert t[..p - 1] == [];
      TraceFirst(j);
    } else {
      TraceState(j, p - 1);
      TraceStep(j, before, p);
    }
  }

  /** The percent after the first p reports of the trace. */
  lemma TracePercent(j: Job, p: nat)
    requires Fresh(j) && 1 <= p <= 2 * |j.steps|
    ensures Run(j, AutomationTrace(|j.steps|)[..p]).percent == Percent(StepOf(p), StateOf(p), |j.steps|)
  {
    TraceState(j, p);
  }

  /** The trace ends with every step done, the last step current, and percent 100. */
  lemma {:induction false} TraceEnd(j: Job)
    requires Fresh(j)
    ensures var r := Run(j, AutomationTrace(|j.steps|));
      r.percent == 100 && r.currentStepId == |j.steps| &&
      forall i :: 0 <= i < |r.steps| ==> r.steps[i].state == Done
  {
    var n := |j.steps|;
    var t := AutomationTrace(n);
    assert t[..2 * n] == t;
    TraceState(j, 2 * n);
    PercentFullIff(n, Done, n);
  }

  /** The first report leaves percent at or above the fresh record's 0. */
  lemma TraceStartMonotone(j: Job)
    requires Fresh(j)
    ensures Run(j, AutomationTrace(|j.steps|)[..0]).percent <= Run(j, AutomationTrace(|j.steps|)[..1]).percent
  {
    assert AutomationTrace(|j.steps|)[..0] == [];
  }

  /** Reporting step k done after its activation never lowers the percent. */
  lemma {:induction false} TraceDoneMonotone(j: Job, p: nat)
    requires Fresh(j) && p < 2 * |j.steps| && p % 2 == 1
    ensures Run(j, AutomationTrace(|j.steps|)[..p]).percent <= Run(j, AutomationTrace(|j.steps|)[..p + 1]).percent
  {
    var k := StepOf(p);
    TracePercent(j, p);
    TracePercent(j, p + 1);
    assert StepOf(p + 1) == k && StateOf(p) == Active && StateOf(p + 1) == Done;
    PercentActiveBelowDone(k, Active, |j.steps|);
  }

  /** Activating step k + 1 after step k is done never lowers the percent. */
  lemma {:induction false} TraceNextMonotone(j: Job, p: nat)
    requires Fresh(j) && 0 < p < 2 * |j.steps| && p % 2 == 0
    ensures Run(j, AutomationTrace(|j.steps|)[..p]).percent <= Run(j, AutomationTrace(|j.steps|)[..p + 1]).percent
  {
    var k := StepOf(p);
    TracePercent(j, p);
    TracePercent(j, p + 1);
    assert StepOf(p + 1) == k + 1 && StateOf(p) == Done && StateOf(p + 1) == Active;
    PercentDoneBelowNext(k, Active, |j.steps|);
  }

  /** Along the trace the percent never decreases. */
  lemma {:induction false} TraceMonotone(j: Job, p: nat, q: nat)
    requires Fresh(j) && p <= q <= 2 * |j.steps|
    ensures Run(j, AutomationTrace(|j.steps|)[..p]).percent <= Run(j, AutomationTrace(|j.steps|)[..q]).percent
    decreases q - p
  {
    if p < q {
      if p == 0 {
        TraceStartMonotone(j);
      } else if p % 2 == 1 {
        TraceDoneMonotone(j, p);
      } else {
        TraceNextMonotone(j, p);
      }
      TraceMonotone(j, p + 1, q);
    }
  }

  /** Failure capture on a record showing step k marks exactly step k as errored. */
  lemma {:induction false} CaptureOnReached(r: Job, steps: seq<Step>, k: int, s: StepState, message: string)
    requires Numbered(steps) && 1 <= k <= |steps| && s != Error
    requires r.steps == Reached(steps, k, s)
    requires s != Active ==> r.currentStepId == k
    ensures CaptureFailure(r, message).steps == Reached(steps, k, Error)
  {
    if s == Active {
      var f := FirstActive(r.steps);
      assert r.steps[k - 1].state == Active;
      assert f == Some(k - 1) by {
        assert forall i :: 0 <= i < |r.steps| && i != k - 1 ==> r.steps[i].state != Active;
      }
    } else {
      assert NoneActive(r.steps);
    }
    assert FailureTarget(r) == Some(k - 1);
    var c := CaptureFailure(r, message);
    assert c.steps == r.steps[k - 1 := r.steps[k - 1].(state := Error)];
    forall i | 0 <= i < |steps|
      ensures c.steps[i] == Reached(steps, k, Error)[i]
    {
    }
  }

  /**
   * A failure at any point of the trace is pinned on the most recently
   * reported step (step 1 before any report), whether it was still active or
   * had just been reported done: earlier steps stay done, later ones pending,
   * the record is terminal with the wrapped message and no download.
   */
  lemma {:induction false} TraceFailure(j: Job, p: nat, message: string)
    requires Fresh(j) && p <= 2 * |j.steps|
    ensures var k := if p == 0 then 1 else StepOf(p);
      var r := CaptureFailure(Run(j, AutomationTrace(|j.steps|)[..p]), message);
      r.steps == Reached(j.steps, k, Error) &&
      r.done && r.error == Some(FailureMessage(message)) && !r.downloadReady
  {
    var t := AutomationTrace(|j.steps|);
    var before := Run(j, t[..p]);
    if p == 0 {
      assert t[..0] == [];
      assert j.steps == Reached(j.steps, 1, Pending);
      CaptureOnReached(before, j.steps, 1, Pending, message);
    } else {
      TraceState(j, p);
      CaptureOnReached(before, j.steps, StepOf(p), StateOf(p), message);
    }
  }

  /**
   * Whatever the reports, a job ends in exactly one of two ways: success
   * makes it downloadable with no error, failure records an error and leaves
   * it not downloadable; only the first offers the file.
   */
  lemma {:induction false} ExclusiveOutcome(j: Job, reports: seq<Report>, fileName: string, filePath: string, message: string)
    requires Fresh(j)
    ensures var ran := Run(j, reports);
      var ok := ApplyPatch(ran, SuccessPatch(fileName, filePath));
      var failed := CaptureFailure(ran, message);
      ok.done && ok.downloadReady && ok.error.None? &&
      !failed.downloadReady && (failed.done <==> failed.error.Some?) &&
      (filePath != [] ==> DownloadFor(Some(ok), true).Offer?) &&
      DownloadFor(Some(failed), true) == NotReady
  {
    var ran := Run(j, reports);
    SuccessOutcome(ran, fileName, filePath);
  }
}
