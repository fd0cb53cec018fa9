/**
 * The job store: the registry from job id to job record, and the operations
 * the request handlers and the worker apply to it. Each method is one
 * critical section of the registry's lock, applied atomically.
 */
module Store {
  import opened Wrappers
  import opened StepCatalog
  import opened Progress
  import opened Finalize
  import opened Validation

  /** What a request to start a job gets back; a rejection carries the messages sent to the client. */
  datatype SubmitOutcome =
    | Accepted(jobId: string)
    | Rejected(errors: seq<Problem>, messages: seq<string>)
    | DateParseCrash(date: string)

  /** Scans the steps for the first active one; |steps| when none is active. */
  method FindActive(steps: seq<Step>) returns (i: nat)
    ensures i <= |steps|
    ensures i < |steps| <==> FirstActive(steps).Some?
    ensures i < |steps| ==> FirstActive(steps) == Some(i)
  {
    i := 0;
    while i < |steps| && steps[i].state != Active
      invariant 0 <= i <= |steps|
      invariant forall k :: 0 <= k < i ==> steps[k].state != Active
    {
      i := i + 1;
    }
  }

  class JobStore {
    var jobs: map<string, Job>

    /** Every record is a well-formed copy of the catalog with at most one active step. */
    ghost predicate Valid()
      reads this
    {
      forall id :: id in jobs ==> WellFormed(jobs[id])
    }

    constructor ()
      ensures Valid() && jobs == map[]
    {
      jobs := map[];
    }

    /** Registers a new record under id, an id no record has yet. */
    method Insert(id: string)
      requires Valid() && id !in jobs
      modifies this
      ensures Valid()
      ensures jobs == old(jobs)[id := BuildJob()]
    {
      BuildJobWellFormed();
      jobs := jobs[id := BuildJob()];
    }

    /** A snapshot of the record under id, or None for an unknown id. */
    method Get(id: string) returns (snapshot: Option<Job>)
      ensures snapshot.Some? <==> id in jobs
      ensures snapshot.Some? ==> snapshot.value == jobs[id]
    {
      snapshot := if id in jobs then Some(jobs[id]) else None;
    }

    /**
     * Applies one step report to the record under id, step by step over its
     * list; an unknown id changes nothing.
     */
    method UpdateStep(id: string, stepId: int, state: StepState)
      requires Valid()
      modifies this
      ensures Valid()
      ensures id !in old(jobs) ==> jobs == old(jobs)
      ensures id in old(jobs) ==> jobs == old(jobs)[id := Transition(old(jobs)[id], stepId, state)]
    {
      if id !in jobs {
        return;
      }
      var job := jobs[id];
      var steps := job.steps;
      var i := 0;
      while i < |steps|
        invariant 0 <= i <= |steps| == |job.steps|
        invariant forall k :: 0 <= k < i ==> steps[k] == StepAfter(job.steps[k], stepId, state)
        invariant forall k :: i <= k < |steps| ==> steps[k] == job.steps[k]
      {
        var step := steps[i];
        if step.id < stepId && (step.state == Pending || step.state == Active) {
          step := step.(state := Done);
        }
        if step.id == stepId {
          step := step.(state := state);
        } else if step.id > stepId && step.state == Active {
          step := step.(state := Pending);
        }
        steps := steps[i := step];
        i := i + 1;
      }
      TransitionWellFormed(job, stepId, state);
      assert steps == StepsAfter(job.steps, stepId, state);
      jobs := jobs[id := job.(steps := steps, currentStepId := stepId, percent := Percent(stepId, state, |steps|))];
    }

    /** Overwrites the patched fields of the record under id; an unknown id changes nothing. */
    method UpdateJob(id: string, patch: Patch)
      requires Valid()
      modifies this
      ensures (id !in old(jobs) || WellFormed(ApplyPatch(old(jobs)[id], patch))) ==> Valid()
      ensures id !in old(jobs) ==> jobs == old(jobs)
      ensures id in old(jobs) ==> jobs == old(jobs)[id := ApplyPatch(old(jobs)[id], patch)]
    {
      if id in jobs {
        jobs := jobs[id := ApplyPatch(jobs[id], patch)];
      }
    }

    /** Finalises the record under id after the report file was saved. */
    method Complete(id: string, fileName: string, filePath: string)
      requires Valid()
      modifies this
      ensures Valid()
      ensures id !in old(jobs) ==> jobs == old(jobs)
      ensures id in old(jobs) ==> jobs == old(jobs)[id := ApplyPatch(old(jobs)[id], SuccessPatch(fileName, filePath))]
    {
      if id in jobs {
        SuccessWellFormed(jobs[id], fileName, filePath);
      }
      UpdateJob(id, SuccessPatch(fileName, filePath));
    }

    /**
     * Captures a failure of the automation into the record under id. The
     * result is true when the lookup of the step to mark raises (the index
     * lies past the last step); the record is then left as it was.
     */
    method Fail(id: string, message: string) returns (escaped: bool)
      requires Valid()
      modifies this
      ensures Valid()
      ensures escaped <==> id in old(jobs) && !CaptureSucceeds(old(jobs)[id])
      ensures id !in old(jobs) ==> jobs == old(jobs)
      ensures id in old(jobs) ==> jobs == old(jobs)[id := CaptureFailure(old(jobs)[id], message)]
    {
      escaped := false;
      if id !in jobs {
        return;
      }
      var job := jobs[id];
      var i := FindActive(job.steps);
      ghost var target := CaptureFailure(job, message);
      var steps := job.steps;
      if i < |steps| {
        steps := steps[i := steps[i].(state := Error)];
      } else if steps != [] {
        var index := FallbackIndex(steps, job.currentStepId);
        assert FailureTarget(job) == Some(index);
        if index >= |steps| {
          escaped := true;
          return;
        }
        steps := steps[index := steps[index].(state := Error)];
      }
      var updated := job.(steps := steps, done := true, error := Some(FailureMessage(message)));
      assert updated == target;
      CaptureWellFormed(job, message);
      jobs := jobs[id := updated];
    }

    /** What a download request for id gets, given whether the saved file still exists. */
    method Download(id: string, fileExists: bool) returns (outcome: DownloadOutcome)
      ensures outcome.Offer? <==> id in jobs && jobs[id].downloadReady && jobs[id].filePath.Some? &&
                                  jobs[id].filePath.value != [] && fileExists
      ensures outcome.NotFound? <==> id !in jobs
      ensures outcome == DownloadFor(if id in jobs then Some(jobs[id]) else None, fileExists)
    {
      var job := Get(id);
      outcome := DownloadFor(job, fileExists);
    }

    /**
     * Handles a request to start a job: a rejected payload creates nothing;
     * an accepted one gets a new record under newId, the id generated for it.
     */
    method Submit(newId: string, payload: Payload) returns (outcome: SubmitOutcome)
      requires Valid() && newId !in jobs
      modifies this
      ensures Valid()
      ensures outcome.Accepted? <==> ValidatePayload(payload) == Success([])
      ensures outcome.Accepted? ==> outcome.jobId == newId && jobs == old(jobs)[newId := BuildJob()]
      ensures !outcome.Accepted? ==> jobs == old(jobs)
      ensures outcome.Rejected? ==> ValidatePayload(payload) == Success(outcome.errors) && outcome.errors != []
      ensures outcome.Rejected? ==> outcome.messages == Messages(outcome.errors)
      ensures outcome.DateParseCrash? <==> ValidatePayload(payload).Failure?
    {
      var verdict := ValidatePayload(payload);
      if verdict.Failure? {
        return DateParseCrash(verdict.error.date);
      }
      if verdict.value != [] {
        return Rejected(verdict.value, Messages(verdict.value));
      }
      Insert(newId);
      outcome := Accepted(newId);
    }
  }
}
