/**
 * How a job's record is finalised: the generic field patch, the success
 * patch applied when the report was retrieved, and the failure capture
 * applied when retrieval raised.
 */
module Finalize {
  import opened Wrappers
  import opened StepCatalog
  import opened Progress

  /**
   * A keyword patch over the record's scalar fields: None leaves a field as
   * it is, Some(v) overwrites it with v (for the nullable fields v may itself
   * be None).
   */
  datatype Patch = Patch(
    percent: Option<int>,
    currentStepId: Option<int>,
    done: Option<bool>,
    downloadReady: Option<bool>,
    error: Option<Option<string>>,
    fileName: Option<Option<string>>,
    filePath: Option<Option<string>>)

  function Pick<T>(field: Option<T>, current: T): T {
    if field.Some? then field.value else current
  }

  /** The record with exactly the patched fields overwritten. */
  function ApplyPatch(j: Job, p: Patch): (r: Job)
    ensures r.steps == j.steps
    ensures p.percent.None? ==> r.percent == j.percent
    ensures p.currentStepId.None? ==> r.currentStepId == j.currentStepId
    ensures p.done.None? ==> r.done == j.done
    ensures p.downloadReady.None? ==> r.downloadReady == j.downloadReady
    ensures p.error.None? ==> r.error == j.error
    ensures p.fileName.None? ==> r.fileName == j.fileName
    ensures p.filePath.None? ==> r.filePath == j.filePath
    ensures p.percent.Some? ==> r.percent == p.percent.value
    ensures p.currentStepId.Some? ==> r.currentStepId == p.currentStepId.value
    ensures p.done.Some? ==> r.done == p.done.value
    ensures p.downloadReady.Some? ==> r.downloadReady == p.downloadReady.value
    ensures p.error.Some? ==> r.error == p.error.value
    ensures p.fileName.Some? ==> r.fileName == p.fileName.value
    ensures p.filePath.Some? ==> r.filePath == p.filePath.value
  {
    j.(percent := Pick(p.percent, j.percent),
       currentStepId := Pick(p.currentStepId, j.currentStepId),
       done := Pick(p.done, j.done),
       downloadReady := Pick(p.downloadReady, j.downloadReady),
       error := Pick(p.error, j.error),
       fileName := Pick(p.fileName, j.fileName),
       filePath := Pick(p.filePath, j.filePath))
  }

  /** The patch applied once the report file has been saved. */
  function SuccessPatch(fileName: string, filePath: string): (p: Patch)
    ensures p.percent == Some(100) && p.currentStepId == Some(15)
    ensures p.done == Some(true) && p.downloadReady == Some(true)
    ensures p.fileName == Some(Some(fileName)) && p.filePath == Some(Some(filePath))
    ensures p.error.None?
  {
    CatalogShape();
    Patch(Some(100), Some(N), Some(true), Some(true), None, Some(Some(fileName)), Some(Some(filePath)))
  }

  /**
   * Success finalises the record: terminal, downloadable, full progress on
   * the last step, the saved file recorded; steps and error are untouched.
   */
  lemma SuccessOutcome(j: Job, fileName: string, filePath: string)
    ensures var r := ApplyPatch(j, SuccessPatch(fileName, filePath));
      r.done && r.downloadReady && r.percent == 100 && r.currentStepId == 15 &&
      r.fileName == Some(fileName) && r.filePath == Some(filePath) &&
      r.steps == j.steps && r.error == j.error
  {
    CatalogShape();
  }

  lemma SuccessWellFormed(j: Job, fileName: string, filePath: string)
    requires WellFormed(j)
    ensures WellFormed(ApplyPatch(j, SuccessPatch(fileName, filePath)))
  {
  }

  /** The first active step at or after index from, if any. */
  function FirstActiveFrom(steps: seq<Step>, from: nat): (r: Option<nat>)
    requires from <= |steps|
    ensures r.Some? ==> from <= r.value < |steps| && steps[r.value].state == Active
    ensures r.Some? ==> forall k :: from <= k < r.value ==> steps[k].state != Active
    ensures r.None? ==> forall k :: from <= k < |steps| ==> steps[k].state != Active
    decreases |steps| - from
  {
    if from == |steps| then None
    else if steps[from].state == Active then Some(from)
    else FirstActiveFrom(steps, from + 1)
  }

  function FirstActive(steps: seq<Step>): (r: Option<nat>)
    ensures r.Some? ==> r.value < |steps| && steps[r.value].state == Active
    ensures r.Some? ==> forall k :: 0 <= k < r.value ==> steps[k].state != Active
    ensures r.None? ==> NoneActive(steps)
  {
    FirstActiveFrom(steps, 0)
  }

  const FailurePrefix: string := "Report retrieval failed: "
  const DefaultReason: string := "Unexpected automation error."

  /** The error text stored on failure; an empty exception message is replaced by a default reason. */
  function FailureMessage(message: string): (r: string)
    ensures |r| > |FailurePrefix|
    ensures r[..|FailurePrefix|] == FailurePrefix
    ensures r[|FailurePrefix|..] == if message != [] then message else DefaultReason
  {
    var reason := if message != [] then message else DefaultReason;
    assert |reason| > 0;
    FailurePrefix + reason
  }

  /**
   * The list index the fallback attribution marks when no step is active:
   * the step whose id is current_step_id, or the first step when that id is
   * below 1. It lies past the last step exactly when current_step_id does.
   */
  function FallbackIndex(steps: seq<Step>, currentStepId: int): (r: nat)
    ensures r < |steps| <==> steps != [] && currentStepId <= |steps|
    ensures Numbered(steps) && 1 <= currentStepId <= |steps| ==> steps[r].id == currentStepId
    ensures Numbered(steps) && steps != [] && currentStepId < 1 ==> steps[r].id == 1
  {
    if currentStepId - 1 > 0 then currentStepId - 1 else 0
  }

  /**
   * The step failure capture marks as errored: the first active step, else
   * the fallback index; None when there are no steps. The index may be out
   * of range when current_step_id exceeds the step count.
   */
  function FailureTarget(j: Job): (r: Option<nat>)
    ensures r.None? <==> j.steps == []
    ensures !NoneActive(j.steps) ==>
              r.Some? && r.value < |j.steps| && j.steps[r.value].state == Active &&
              (forall k :: 0 <= k < r.value ==> j.steps[k].state != Active)
    ensures NoneActive(j.steps) && j.steps != [] ==> r == Some(FallbackIndex(j.steps, j.currentStepId))
  {
    if FirstActive(j.steps).Some? then FirstActive(j.steps)
    else if j.steps != [] then Some(FallbackIndex(j.steps, j.currentStepId))
    else None
  }

  /**
   * Whether the lookup of the step to mark succeeds: it raises exactly when
   * no step is active and current_step_id lies past the last step.
   */
  predicate CaptureSucceeds(j: Job): (ok: bool)
    ensures ok <==> j.steps == [] || !NoneActive(j.steps) || j.currentStepId <= |j.steps|
  {
    var t := FailureTarget(j);
    t.None? || t.value < |j.steps|
  }

  /**
   * The record after failure capture. When the lookup of the step to mark
   * raises, the record is left as it was (the exception escapes the worker).
   */
  function CaptureFailure(j: Job, message: string): (r: Job)
    ensures !CaptureSucceeds(j) ==> r == j
    ensures CaptureSucceeds(j) ==> r.done && r.error == Some(FailureMessage(message))
    ensures r.downloadReady == j.downloadReady && r.percent == j.percent && r.currentStepId == j.currentStepId
    ensures r.fileName == j.fileName && r.filePath == j.filePath
    ensures SameSteps(r.steps, j.steps)
  {
    var t := FailureTarget(j);
    if !CaptureSucceeds(j) then j
    else
      var steps := if t.Some? then j.steps[t.value := j.steps[t.value].(state := Error)] else j.steps;
      j.(steps := steps, done := true, error := Some(FailureMessage(message)))
  }

  /**
   * Failure capture changes the state of exactly one step (when there is
   * one), to error: the first active step if some step is active, otherwise
   * the step whose id is current_step_id (at list index current_step_id - 1,
   * or the first step when current_step_id < 1), even if it had finished.
   */
  lemma {:induction false} CaptureMarksOneStep(j: Job, message: string)
    requires Numbered(j.steps) && |j.steps| > 0 && CaptureSucceeds(j)
    ensures var r := CaptureFailure(j, message);
      exists k :: 0 <= k < |j.steps| &&
        r.steps[k].state == Error &&
        (forall i :: 0 <= i < |j.steps| && i != k ==> r.steps[i] == j.steps[i]) &&
        (if exists a :: 0 <= a < |j.steps| && j.steps[a].state == Active
         then j.steps[k].state == Active && forall a :: 0 <= a < k ==> j.steps[a].state != Active
         else j.steps[k].id == (if j.currentStepId >= 1 then j.currentStepId else 1))
  {
    var r := CaptureFailure(j, message);
    var k := FailureTarget(j).value;
    if exists a :: 0 <= a < |j.steps| && j.steps[a].state == Active {
      assert FirstActive(j.steps).Some?;
    }
    assert r.steps[k].state == Error;
  }

  /** Failure capture never creates an active step, so a well-formed record stays well-formed. */
  lemma {:induction false} CaptureWellFormed(j: Job, message: string)
    requires WellFormed(j)
    ensures WellFormed(CaptureFailure(j, message))
  {
    var r := CaptureFailure(j, message);
    if CaptureSucceeds(j) && FailureTarget(j).Some? {
      var k := FailureTarget(j).value;
      assert forall i :: 0 <= i < |r.steps| && i != k ==> r.steps[i] == j.steps[i];
      assert r.steps[k].state == Error;
    }
  }

  /**
   * A download is offered only for a known job that is download-ready, has
   * a non-empty file path, and whose file still exists.
   */
  datatype DownloadOutcome = NotFound | NotReady | FileMissing | Offer(path: string, name: string)

  /** Text made only of separators and lone "." parts: no path component in it has a name. */
  predicate NoNamedPart(t: string) {
    t == [] ||
    (t[|t| - 1] == '/' && NoNamedPart(t[..|t| - 1])) ||
    (t[|t| - 1] == '.' && (|t| == 1 || t[|t| - 2] == '/') && NoNamedPart(t[..|t| - 1]))
  }

  /** The longest suffix of path without a '/'. */
  function LastPart(path: string): (r: string)
    ensures |r| <= |path| && r == path[|path| - |r|..]
    ensures '/' !in r
    ensures |r| < |path| ==> path[|path| - |r| - 1] == '/'
  {
    if path == [] then []
    else if path[|path| - 1] == '/' then []
    else
      var init := path[..|path| - 1];
      var b := LastPart(init);
      assert init[|init| - |b|..] + [path[|path| - 1]] == path[|path| - |b| - 1..];
      b + [path[|path| - 1]]
  }

  /** A separator, or a "." that starts a component, extends text without a named part. */
  lemma NoNamedPartSnoc(t: string, c: char)
    requires NoNamedPart(t)
    requires c == '/' || (c == '.' && (t == [] || t[|t| - 1] == '/'))
    ensures NoNamedPart(t + [c])
  {
    assert (t + [c])[..|t|] == t;
  }

  /** A path whose last component is a lone "." has "." as its last part. */
  lemma LoneDotPart(path: string)
    requires path != [] && path[|path| - 1] == '.' && (|path| == 1 || path[|path| - 2] == '/')
    ensures LastPart(path) == "."
  {
    var r := LastPart(path);
    assert r[|r| - 1] == '.';
  }

  /** A path ending in a named component has a named part. */
  lemma NamedLastPart(path: string)
    requires path != [] && path[|path| - 1] != '/' && LastPart(path) != "."
    ensures !NoNamedPart(path)
  {
    if path[|path| - 1] == '.' && (|path| == 1 || path[|path| - 2] == '/') {
      LoneDotPart(path);
    }
  }

  /**
   * path without its trailing separators and "." parts, as a path object
   * normalises it: what is dropped has no named part, and what is kept is
   * empty or ends in a named part followed by a separator or the end.
   */
  function DropTrailing(path: string): (r: string)
    ensures |r| <= |path| && r == path[..|r|]
    ensures NoNamedPart(path[|r|..])
    ensures r == [] <==> NoNamedPart(path)
    ensures r != [] ==> r[|r| - 1] != '/' && LastPart(r) != "."
    ensures r != [] && |r| < |path| ==> path[|r|] == '/'
  {
    if path == [] then []
    else if path[|path| - 1] == '/' || LastPart(path) == "." then
      var q := path[..|path| - 1];
      var r := DropTrailing(q);
      LastCharLone(path);
      DropTrailingStep(path, r);
      r
    else
      NamedLastPart(path);
      assert path[|path|..] == [];
      path
  }

  /** The recursive case of DropTrailing: dropping a trailing separator or lone ".". */
  lemma DropTrailingStep(path: string, r: string)
    requires path != []
    requires var c, q := path[|path| - 1], path[..|path| - 1];
      c == '/' || (c == '.' && (q == [] || q[|q| - 1] == '/'))
    requires var q := path[..|path| - 1];
      |r| <= |q| && r == q[..|r|] && NoNamedPart(q[|r|..]) && (r == [] <==> NoNamedPart(q)) &&
      (r != [] ==> r[|r| - 1] != '/') &&
      (r != [] && |r| < |q| ==> q[|r|] == '/')
    ensures |r| <= |path| && r == path[..|r|]
    ensures NoNamedPart(path[|r|..])
    ensures r == [] <==> NoNamedPart(path)
    ensures r != [] && |r| < |path| ==> path[|r|] == '/'
  {
    var q := path[..|path| - 1];
    var c := path[|path| - 1];
    var t := path[|r|..];
    assert t[..|t| - 1] == q[|r|..];
    assert t == q[|r|..] + [c];
    NoNamedPartSnoc(q[|r|..], c);
    NoNamedPartIff(path);
  }

  /** A trailing separator or lone "." is preceded by a separator or nothing. */
  lemma LastCharLone(path: string)
    requires path != [] && (path[|path| - 1] == '/' || LastPart(path) == ".")
    ensures var c, q := path[|path| - 1], path[..|path| - 1];
      c == '/' || (c == '.' && (q == [] || q[|q| - 1] == '/'))
  {
  }

  /** Dropping a trailing separator or lone "." keeps whether a path has a named part. */
  lemma NoNamedPartIff(path: string)
    requires path != []
    requires var c, q := path[|path| - 1], path[..|path| - 1];
      c == '/' || (c == '.' && (q == [] || q[|q| - 1] == '/'))
    ensures NoNamedPart(path) <==> NoNamedPart(path[..|path| - 1])
  {
    var q := path[..|path| - 1];
    assert path == q + [path[|path| - 1]];
    if NoNamedPart(q) {
      NoNamedPartSnoc(q, path[|path| - 1]);
    }
  }

  /**
   * r is the component of path ending at index k (delimited by separators
   * or the ends), and nothing after it has a name.
   */
  ghost predicate LastNamedAt(path: string, r: string, k: int)
    requires 0 <= k <= |path|
  {
    |r| <= k && path[k - |r|..k] == r &&
    (k == |r| || path[k - |r| - 1] == '/') &&
    (k == |path| || path[k] == '/') && NoNamedPart(path[k..])
  }

  /** The last part of the kept prefix is a whole component followed only by unnamed parts. */
  lemma NamedComponent(path: string, d: string, r: string)
    requires |r| <= |d| <= |path| && d == path[..|d|] && r == d[|d| - |r|..]
    requires |r| < |d| ==> d[|d| - |r| - 1] == '/'
    requires r != [] && |d| < |path| ==> path[|d|] == '/'
    requires NoNamedPart(path[|d|..])
    ensures r != [] ==> exists k :: 0 <= k <= |path| && LastNamedAt(path, r, k)
  {
    if r != [] {
      var k := |d|;
      assert path[k - |r|..k] == r;
      assert k != |r| ==> path[k - |r| - 1] == d[|d| - |r| - 1];
      assert LastNamedAt(path, r, k);
    }
  }

  /**
   * The name of a path, as a path object reports it: the last named
   * component once trailing separators and "." parts are dropped; empty
   * when the path has no named component.
   */
  function BaseName(path: string): (r: string)
    ensures '/' !in r && r != "."
    ensures r == [] <==> NoNamedPart(path)
    ensures r != [] ==> exists k :: 0 <= k <= |path| && LastNamedAt(path, r, k)
  {
    var d := DropTrailing(path);
    var r := LastPart(d);
    assert d != [] ==> r != [] && r[|r| - 1] == d[|d| - 1];
    NamedComponent(path, d, r);
    r
  }

  /** A trailing separator or a trailing "/." part does not change the name. */
  lemma {:induction false} BaseNameIgnoresTrailing(path: string)
    ensures BaseName(path + "/") == BaseName(path)
    ensures BaseName(path + "/.") == BaseName(path)
  {
    var slash := path + "/";
    assert slash[..|slash| - 1] == path;
    var dot := path + "/.";
    assert dot[..|dot| - 1] == slash;
    LoneDotPart(dot);
  }

  function DownloadFor(job: Option<Job>, fileExists: bool): (r: DownloadOutcome)
    ensures r.Offer? <==> job.Some? && job.value.downloadReady && job.value.filePath.Some? &&
                          job.value.filePath.value != [] && fileExists
    ensures r.NotFound? <==> job.None?
    ensures r.NotReady? <==> job.Some? &&
                             (!job.value.downloadReady || job.value.filePath.None? || job.value.filePath.value == [])
    ensures r.FileMissing? <==> job.Some? && job.value.downloadReady && job.value.filePath.Some? &&
                                job.value.filePath.value != [] && !fileExists
    ensures r.Offer? ==> r.path == job.value.filePath.value
    ensures r.Offer? ==> r.name == if job.value.fileName.Some? && job.value.fileName.value != []
                                   then job.value.fileName.value else BaseName(r.path)
  {
    match job
    case None => NotFound
    case Some(j) =>
      if !j.downloadReady || j.filePath.None? || j.filePath.value == [] then NotReady
      else if !fileExists then FileMissing
      else
        var name := if j.fileName.Some? && j.fileName.value != [] then j.fileName.value else BaseName(j.filePath.value);
        Offer(j.filePath.value, name)
  }
}
