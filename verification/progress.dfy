/**
 * The job record and the progress engine: how one reported step transition
 * changes the per-step states, the current step and the derived percent.
 * Job records are values here; the store that holds them is in store.dfy.
 */
module Progress {
  import opened Wrappers
  import opened StepCatalog

  /** One step of one job: a copy of a catalog entry annotated with its state. */
  datatype Step = Step(id: int, title: string, state: StepState)

  /** The job record, one per job id. */
  datatype Job = Job(
    percent: int,
    currentStepId: int,
    steps: seq<Step>,
    done: bool,
    downloadReady: bool,
    error: Option<string>,
    fileName: Option<string>,
    filePath: Option<string>)

  /** The step at list index i has id i + 1. */
  ghost predicate Numbered(steps: seq<Step>) {
    forall i :: 0 <= i < |steps| ==> steps[i].id == i + 1
  }

  /** The steps are a per-job copy of the catalog, in catalog order. */
  ghost predicate MatchesCatalog(steps: seq<Step>) {
    |steps| == N &&
    forall i :: 0 <= i < |steps| ==> steps[i].id == Catalog[i].id && steps[i].title == Catalog[i].title
  }

  ghost predicate AtMostOneActive(steps: seq<Step>) {
    forall i, k :: 0 <= i < |steps| && 0 <= k < |steps| && steps[i].state == Active && steps[k].state == Active ==> i == k
  }

  ghost predicate NoneActive(steps: seq<Step>) {
    forall i :: 0 <= i < |steps| ==> steps[i].state != Active
  }

  /** The same steps, in the same order, possibly in other states. */
  ghost predicate SameSteps(a: seq<Step>, b: seq<Step>) {
    |a| == |b| && forall i :: 0 <= i < |a| ==> a[i].id == b[i].id && a[i].title == b[i].title
  }

  /** What every record in the store satisfies between two operations. */
  ghost predicate WellFormed(j: Job) {
    MatchesCatalog(j.steps) &&
    AtMostOneActive(j.steps) &&
    0 <= j.percent <= 100 &&
    (j.error.Some? ==> j.done) &&
    (j.downloadReady ==> j.done)
  }

  lemma CatalogStepsNumbered(steps: seq<Step>)
    requires MatchesCatalog(steps)
    ensures Numbered(steps) && |steps| == 15
  {
    CatalogShape();
  }

  /** The steps of a new record: the catalog in order, every step pending. */
  function InitialSteps(): (r: seq<Step>)
    ensures MatchesCatalog(r)
    ensures forall i :: 0 <= i < |r| ==> r[i].state == Pending
  {
    seq(|Catalog|, i requires 0 <= i < |Catalog| => Step(Catalog[i].id, Catalog[i].title, Pending))
  }

  /** A new record: nothing started, nothing finished, no result and no error. */
  function BuildJob(): (j: Job)
    ensures j.percent == 0 && j.currentStepId == 1
    ensures MatchesCatalog(j.steps) && forall i :: 0 <= i < |j.steps| ==> j.steps[i].state == Pending
    ensures !j.done && !j.downloadReady
    ensures j.error.None? && j.fileName.None? && j.filePath.None?
  {
    Job(0, 1, InitialSteps(), false, false, None, None, None)
  }

  lemma {:induction false} BuildJobWellFormed()
    ensures WellFormed(BuildJob())
    ensures NoneActive(BuildJob().steps)
  {
    var j := BuildJob();
    assert forall i :: 0 <= i < |j.steps| ==> j.steps[i].state == Pending;
  }

  function Min(a: int, b: int): int { if a <= b then a else b }

  function Clamp(x: int): (r: int)
    ensures 0 <= r <= 100
    ensures 0 <= x <= 100 ==> r == x
  {
    if x < 0 then 0 else if x > 100 then 100 else x
  }

  /** Position-based percent: how many of the n - 1 gaps precede the step; 100 with a single step. */
  function PositionBase(stepId: int, n: nat): (r: int)
    requires n >= 1
    ensures n == 1 || stepId >= n ==> r == 100
    ensures stepId >= 1 ==> 0 <= r <= 100
  {
    if n - 1 != 0 then
      var k := Min(stepId - 1, n - 1);
      DivLeSame(k * 100, (n - 1) * 100, n - 1);
      DivExact(100, n - 1);
      k * 100 / (n - 1)
    else 100
  }

  /** Completion-based percent: how many of the n steps are finished once this one is. */
  function CompletionBase(stepId: int, n: nat): (r: int)
    requires n >= 1
    ensures stepId >= n ==> r == 100
    ensures stepId >= 0 ==> 0 <= r <= 100
  {
    var k := Min(stepId, n);
    DivLeSame(k * 100, n * 100, n);
    DivExact(100, n);
    k * 100 / n
  }

  /**
   * The derived percent for a report (stepId, state) on a job with n steps:
   * completion based when the step is reported done, position based
   * otherwise, floored and clamped to [0, 100].
   */
  function Percent(stepId: int, state: StepState, n: nat): (p: int)
    requires n >= 1
    ensures 0 <= p <= 100
  {
    Clamp(if state == Done then CompletionBase(stepId, n) else PositionBase(stepId, n))
  }

  /** How one step's state changes under the report (stepId, state). */
  function StepAfter(s: Step, stepId: int, state: StepState): (r: Step)
    ensures r.id == s.id && r.title == s.title
    ensures s.id == stepId ==> r.state == state
    ensures r.state == Active ==> s.id == stepId && state == Active
    ensures s.id != stepId && r.state != s.state ==> r.state == (if s.id < stepId then Done else Pending)
  {
    if s.id < stepId then
      (if s.state == Pending || s.state == Active then s.(state := Done) else s)
    else if s.id == stepId then s.(state := state)
    else if s.state == Active then s.(state := Pending)
    else s
  }

  function StepsAfter(steps: seq<Step>, stepId: int, state: StepState): (r: seq<Step>)
    ensures SameSteps(r, steps)
  {
    seq(|steps|, i requires 0 <= i < |steps| => StepAfter(steps[i], stepId, state))
  }

  /** The record after the report (stepId, state): steps, current step and percent. */
  function Transition(j: Job, stepId: int, state: StepState): (r: Job)
    requires |j.steps| > 0
    ensures SameSteps(r.steps, j.steps)
    ensures r.currentStepId == stepId && 0 <= r.percent <= 100
    ensures r.(steps := j.steps, currentStepId := j.currentStepId, percent := j.percent) == j
  {
    j.(steps := StepsAfter(j.steps, stepId, state),
       currentStepId := stepId,
       percent := Percent(stepId, state, |j.steps|))
  }

  /**
   * The per-step rule: the reported step takes the reported state; earlier
   * steps still pending or active are closed; later active steps go back to
   * pending; every other step keeps its state.
   */
  lemma TransitionStepStates(j: Job, stepId: int, state: StepState, i: int)
    requires |j.steps| > 0 && 0 <= i < |j.steps|
    ensures var before, after := j.steps[i].state, Transition(j, stepId, state).steps[i].state;
      (j.steps[i].id == stepId ==> after == state) &&
      (j.steps[i].id < stepId ==> after == if before in {Pending, Active} then Done else before) &&
      (j.steps[i].id > stepId ==> after == if before == Active then Pending else before)
  {
  }

  /** After any report, at most one step is active: only the reported one can be. */
  lemma {:induction false} TransitionAtMostOneActive(j: Job, stepId: int, state: StepState)
    requires |j.steps| > 0 && Numbered(j.steps)
    ensures AtMostOneActive(Transition(j, stepId, state).steps)
    ensures forall i :: 0 <= i < |j.steps| && Transition(j, stepId, state).steps[i].state == Active ==> i + 1 == stepId
  {
    var r := Transition(j, stepId, state).steps;
    forall i | 0 <= i < |r| && r[i].state == Active
      ensures i + 1 == stepId
    {
      assert r[i] == StepAfter(j.steps[i], stepId, state);
    }
  }

  /** Some step is active after the report exactly when an in-range step was reported active. */
  lemma {:induction false} TransitionActiveIff(j: Job, stepId: int, state: StepState)
    requires |j.steps| > 0 && Numbered(j.steps)
    ensures (exists i :: 0 <= i < |j.steps| && Transition(j, stepId, state).steps[i].state == Active)
        <==> state == Active && 1 <= stepId <= |j.steps|
  {
    var r := Transition(j, stepId, state).steps;
    TransitionAtMostOneActive(j, stepId, state);
    if state == Active && 1 <= stepId <= |j.steps| {
      assert r[stepId - 1] == StepAfter(j.steps[stepId - 1], stepId, state);
    }
  }

  /** Re-applying the same report leaves the record as the first application left it. */
  lemma {:induction false} TransitionIdempotent(j: Job, stepId: int, state: StepState)
    requires |j.steps| > 0
    ensures Transition(Transition(j, stepId, state), stepId, state) == Transition(j, stepId, state)
  {
    var once := Transition(j, stepId, state);
    var twice := Transition(once, stepId, state);
    forall i | 0 <= i < |j.steps|
      ensures twice.steps[i] == once.steps[i]
    {
      assert once.steps[i] == StepAfter(j.steps[i], stepId, state);
      assert twice.steps[i] == StepAfter(once.steps[i], stepId, state);
    }
    assert twice.steps == once.steps;
  }

  /** A report keeps a well-formed record well-formed. */
  lemma {:induction false} TransitionWellFormed(j: Job, stepId: int, state: StepState)
    requires WellFormed(j)
    ensures |j.steps| > 0
    ensures WellFormed(Transition(j, stepId, state))
  {
    CatalogStepsNumbered(j.steps);
    TransitionAtMostOneActive(j, stepId, state);
  }

  // ---------------------------------------------------------------------------
  // Arithmetic of the percent formula

  /** a/b <= c/d whenever the fractions compare that way. */
  lemma {:induction false} FloorDivMonotone(a: int, b: int, c: int, d: int)
    requires 0 <= a && 0 < b && 0 < d && a * d <= c * b
    ensures a / b <= c / d
  {
    var q := a / b;
    assert q * b <= a;
    MulLeMonotone(q * b, a, d);
    assert (q * d) * b <= c * b;
    MulCancelLe(q * d, c, b);
    LeDiv(q, c, d);
  }

  lemma MulLeMonotone(x: int, y: int, m: int)
    requires x <= y && 0 <= m
    ensures x * m <= y * m
  {
  }

  lemma MulCancelLe(x: int, y: int, m: int)
    requires 0 < m && x * m <= y * m
    ensures x <= y
  {
    if x > y {
      MulLeMonotone(y + 1, x, m);
    }
  }

  /** q * d <= c means q is at most the floor of c / d. */
  lemma LeDiv(q: int, c: int, d: int)
    requires 0 < d && q * d <= c
    ensures q <= c / d
  {
    assert c == (c / d) * d + c % d;
    assert q * d <= (c / d + 1) * d - 1;
    if q > c / d {
      MulLeMonotone(c / d + 1, q, d);
    }
  }

  /** a < m * b means the floor of a / b is below m. */
  lemma DivBelow(a: int, b: int, m: int)
    requires 0 < b && a < m * b
    ensures a / b < m
  {
    assert (a / b) * b <= a;
    if a / b >= m {
      MulLeMonotone(m, a / b, b);
    }
  }

  lemma DivLeSame(a: int, c: int, b: int)
    requires a <= c && 0 < b
    ensures a / b <= c / b
  {
    assert (a / b) * b <= a;
    LeDiv(a / b, c, b);
  }

  lemma DivExact(m: int, b: int)
    requires 0 < b
    ensures (m * b) / b == m
  {
    LeDiv(m, m * b, b);
    DivBelow(m * b, b, m + 1);
  }

  /** Percent reaches 100 exactly from the last step on; with a single step, also on any activation. */
  lemma {:induction false} PercentFullIff(stepId: int, state: StepState, n: nat)
    requires n >= 1
    ensures n >= 2 ==> (Percent(stepId, state, n) == 100 <==> stepId >= n)
    ensures n == 1 ==> (Percent(stepId, state, n) == 100 <==> state != Done || stepId >= 1)
  {
    if state == Done {
      var a := Min(stepId, n);
      if stepId >= n {
        DivExact(100, n);
      } else {
        DivBelow(a * 100, n, 100);
      }
    } else if n >= 2 {
      var a := Min(stepId - 1, n - 1);
      if stepId >= n {
        DivExact(100, n - 1);
      } else {
        DivBelow(a * 100, n - 1, 100);
      }
    }
  }

  /** For a fixed reported state, a later step never shows a smaller percent. */
  lemma {:induction false} PercentMonotoneInStep(s: int, t: int, state: StepState, n: nat)
    requires n >= 1 && s <= t
    ensures Percent(s, state, n) <= Percent(t, state, n)
  {
    if state == Done {
      DivLeSame(Min(s, n) * 100, Min(t, n) * 100, n);
    } else if n >= 2 {
      DivLeSame(Min(s - 1, n - 1) * 100, Min(t - 1, n - 1) * 100, n - 1);
    }
  }

  /** Finishing an in-range step never lowers the percent its activation showed. */
  lemma {:induction false} PercentActiveBelowDone(k: int, state: StepState, n: nat)
    requires n >= 1 && 1 <= k <= n && state != Done
    ensures Percent(k, state, n) <= Percent(k, Done, n)
  {
    if n >= 2 {
      assert (k - 1) * 100 * n == 100 * (k * n) - 100 * n;
      assert k * 100 * (n - 1) == 100 * (k * n) - 100 * k;
      FloorDivMonotone((k - 1) * 100, n - 1, k * 100, n);
    } else {
      DivExact(100, 1);
    }
  }

  /** Activating the next step never lowers the percent the finished one showed. */
  lemma {:induction false} PercentDoneBelowNext(k: int, state: StepState, n: nat)
    requires n >= 1 && 0 <= k < n && state != Done
    ensures Percent(k, Done, n) <= Percent(k + 1, state, n)
  {
    if n >= 2 {
      MulLeMonotone(n - 1, n, k * 100);
      FloorDivMonotone(k * 100, n, k * 100, n - 1);
    }
  }

  /**
   * Percent follows the latest report, not the furthest: reporting step 3
   * active after step 5 lowers it on a new record (from 28 to 14).
   */
  lemma {:induction false} OutOfOrderLowersPercent()
    ensures var j := BuildJob();
      |j.steps| > 0 &&
      Transition(Transition(j, 5, Active), 3, Active).percent < Transition(j, 5, Active).percent
  {
    var j := BuildJob();
    CatalogShape();
    assert |j.steps| == 15;
    assert Percent(5, Active, 15) == 28;
    assert Percent(3, Active, 15) == 14;
  }
}
