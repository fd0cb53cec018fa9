# Report job tracker — a Dafny model

The web application starts a long-running report retrieval ("job") per request
and lets clients poll its progress. Its core is an in-memory registry `jobs`
from job id to a job record holding `percent`, `current_step_id`, the per-step
states, `done`, `download_ready`, `error`, `file_name` and `file_path`. The
retrieval walks a fixed catalog of 15 steps (ids 1..15) and reports each step
through a callback; the tracker turns every report into new step states and a
new percent, and finalises the record when the retrieval succeeds or raises.

This project models that core:

- `catalog.dfy` (`StepCatalog`): the step states and the 15-entry catalog.
- `progress.dfy` (`Progress`): the job record, record creation, and the
  progress engine. The engine is the pure function `Transition`, with the
  percent formula `Percent` and lemmas about both.
- `finalize.dfy` (`Finalize`): the keyword patch, the success patch, failure
  capture, and the gating of downloads.
- `trace.dfy` (`Trace`): the reports the automation emits, `(k, active)` then
  `(k, done)` for k = 1..n. The lemmas follow a record along every prefix of
  that trace.
- `validation.dfy` (`Validation`): request validation. It covers the
  credentials, the `MM/DD/YYYY` date pattern, calendar dates and date order.
- `store.dfy` (`Store`): the class `JobStore`. Its map field `jobs` is
  reassigned by one method per critical section of the registry lock. The
  methods step through the record's step list with loops, as the source does.
  Each method is proved against the pure functions above.

Some consequences of the code are worth stating on their own:

- Reporting the last step as `active` already yields percent 100
  (`PercentFullIff`), before that step is done.
- Percent is non-decreasing only along in-order reports (`TraceMonotone`). An
  out-of-order report to an earlier step lowers it (`OutOfOrderLowersPercent`).
- Failure capture raises when no step is active and `current_step_id` exceeds
  the number of steps, since the fallback index is then out of range. The
  record is then left unchanged (`CaptureSucceeds`, `CaptureFailure`;
  `JobStore.Fail` returns `escaped`).
- With no step active, the fallback marks the step whose id is
  `current_step_id`, even if it was already done (`TraceFailure`).

## Model

| member | source | states |
|---|---|---|
| StepCatalog.CatalogShape | automation.py:12-28 | the catalog has 15 entries and the entry at index i has id i + 1 |
| Progress.CatalogStepsNumbered | automation.py:12-28 | a step list that copies the catalog is numbered i + 1 at index i and has 15 entries |
| Progress.InitialSteps | app.py:30-31 | the new step list copies the catalog in order, with every step pending |
| Progress.BuildJob | app.py:34-44 | a new record has percent 0 and current step 1. Its steps are the catalog, all pending. It is not done, not downloadable, and has no error or file |
| Progress.BuildJobWellFormed | app.py:30-44 | a new record satisfies the store invariant and has no active step |
| Progress.PositionBase | app.py:72-74 | the position formula gives 100 with a single step or from the last step on, and a value in [0, 100] for ids from 1 |
| Progress.CompletionBase | app.py:75-76 | the completion formula gives 100 from the last step on, and a value in [0, 100] for ids from 0 |
| Progress.Percent | app.py:72-78 | the derived percent always lies in [0, 100] |
| Progress.StepAfter | app.py:65-70 | a step keeps its id and title; the reported step takes the reported state; only the reported step can end up active, and only when active was reported; any other change closes an earlier step or reopens a later one as pending |
| Progress.StepsAfter | app.py:64-70 | the step loop keeps every step's id and title and the list's length |
| Progress.Transition | app.py:58-78 | a report keeps the step list's shape and sets current_step_id to the reported id. Percent stays in [0, 100]. No other field changes |
| Progress.TransitionStepStates | app.py:64-70 | the reported step takes the reported state. Earlier pending or active steps become done; earlier done or error steps are kept. Later active steps become pending; other later steps are kept |
| Progress.TransitionAtMostOneActive | app.py:64-70 | after any report at most one step is active, and only the reported step can be |
| Progress.TransitionActiveIff | app.py:64-70 | after a report some step is active exactly when the state reported is active and the id is in 1..N |
| Progress.TransitionIdempotent | app.py:64-78 | applying the same report twice gives the same record as applying it once |
| Progress.TransitionWellFormed | app.py:58-78 | a report keeps a record well-formed: the catalog's shape, at most one active step, percent in [0, 100], error and download only when done |
| Progress.PercentFullIff | app.py:72-78 | with two or more steps, percent is 100 exactly when the reported id is at least N, in either formula. With one step it is 100 unless a step below 1 is reported done |
| Progress.PercentMonotoneInStep | app.py:72-78 | for a fixed reported state, a larger step id never gives a smaller percent |
| Progress.PercentActiveBelowDone | app.py:72-78 | for an id k in 1..N, reporting k done gives at least the percent of reporting k active |
| Progress.PercentDoneBelowNext | app.py:72-78 | for 0 <= k < N, reporting k + 1 active gives at least the percent of reporting k done |
| Progress.OutOfOrderLowersPercent | app.py:72-78 | on a new record, reporting step 3 active after step 5 lowers percent |
| Progress.FloorDivMonotone | app.py:74-76 | floor division respects the order of fractions: a/b <= c/d when a*d <= c*b |
| Finalize.ApplyPatch | app.py:52-55 | every field the patch names takes the patched value; every other field, and the steps, keep theirs |
| Finalize.SuccessPatch | app.py:122-130 | the success patch names percent 100, current step 15, done, download ready and both file fields, and leaves error alone |
| Finalize.SuccessOutcome | app.py:122-130 | the success patch sets done, download_ready, percent 100, current step 15 and both file fields. It leaves steps and error as they were |
| Finalize.SuccessWellFormed | app.py:122-130 | the success patch keeps a record well-formed |
| Finalize.FirstActiveFrom | app.py:136 | the search returns the first active step at or after an index, or reports that none is active there |
| Finalize.FirstActive | app.py:136 | returns the first active step of the list, or reports that none is active |
| Finalize.FailureMessage | app.py:132-142 | the stored error is "Report retrieval failed: " followed by the message. An empty message is replaced by "Unexpected automation error." |
| Finalize.FallbackIndex | app.py:140 | on numbered steps the fallback index holds the step whose id is current_step_id (the first step when that id is below 1); it is past the last step exactly when current_step_id is |
| Finalize.FailureTarget | app.py:136-140 | there is a step to mark exactly when the list is non-empty; it is the first active step when one is active, else the fallback index |
| Finalize.CaptureSucceeds | app.py:136-140 | the lookup of the step to mark raises exactly when the list is non-empty, no step is active and current_step_id exceeds the number of steps |
| Finalize.CaptureFailure | app.py:131-142 | when the step lookup cannot raise, the record becomes done with the wrapped error. When it raises, the record is unchanged. download_ready, percent, current step, files and the step shape never change |
| Finalize.CaptureMarksOneStep | app.py:136-140 | failure capture changes exactly one step, to error. It is the first active step if any; otherwise the step whose id is current_step_id (step 1 below 1), even if already done |
| Finalize.CaptureWellFormed | app.py:131-142 | failure capture keeps a record well-formed |
| Finalize.LastPart | app.py:185 | the last component is the longest suffix without a '/', preceded by a '/' unless it is the whole path |
| Finalize.DropTrailing | app.py:181 | normalising drops a trailing run of separators and lone "." parts, and nothing else; the result is empty exactly when the path has no named part |
| Finalize.BaseName | app.py:181-185 | the fallback download name contains no '/' and is never "."; it is empty exactly when the path has no named part; otherwise it is a whole component followed only by separators and "." parts |
| Finalize.BaseNameIgnoresTrailing | app.py:181-185 | appending "/" or "/." to a path does not change its name |
| Finalize.DownloadFor | app.py:173-185 | an unknown id is "not found"; a known job that is not download-ready or has no non-empty path is "not ready"; otherwise a missing file is "file missing" and an existing one is offered, under the file name when it is non-empty and the path's name otherwise |
| Trace.AutomationTrace | automation.py:74-173 | a successful run emits two reports per step |
| Trace.Run | app.py:106-108 | applying reports keeps the step list's shape. done, download_ready, error and the file fields are not changed |
| Trace.BuildJobFresh | app.py:34-44 | a new record is fresh: numbered steps all pending, percent 0, current step 1, not finalised |
| Trace.ReachedAdvance | app.py:64-70 | re-reporting step k, or reporting step k + 1 after k was closed, gives the "earlier done, k in the reported state, later pending" pattern |
| Trace.TraceState | app.py:58-78 | after p reports of the trace, the steps before (p+1)/2 are done and that step is active (odd p) or done (even p). Later steps are pending, and percent is that report's formula value |
| Trace.TraceEnd | app.py:72-78 | the full trace ends with every step done, the last step current and percent 100 |
| Trace.TracePercent | app.py:72-78 | after p reports of the trace, percent is the formula's value for step (p+1)/2 in that report's state |
| Trace.TraceStartMonotone | app.py:72-78 | the first report of the trace does not lower the initial percent 0 |
| Trace.TraceDoneMonotone | app.py:72-78 | reporting step k done after reporting it active keeps or raises percent |
| Trace.TraceNextMonotone | app.py:72-78 | reporting step k + 1 active after step k was done keeps or raises percent |
| Trace.TraceMonotone | app.py:72-78 | along the trace percent never decreases between any two prefixes |
| Trace.CaptureOnReached | app.py:136-140 | on a record showing step k, failure capture marks exactly step k as error and keeps the rest of the pattern |
| Trace.TraceFailure | app.py:131-142 | a failure after any prefix of the trace marks the most recently reported step as error (step 1 before any report). Earlier steps stay done and later ones pending; the record is done, with the wrapped message and no download |
| Trace.ExclusiveOutcome | app.py:110-142 | after any reports, success leaves the job downloadable with no error; failure leaves it not downloadable. Only the success outcome offers the file |
| Validation.TrimStart | app.py:83-86 | drops exactly the leading whitespace and returns a suffix that starts with a non-space |
| Validation.TrimEnd | app.py:83-86 | drops exactly the trailing whitespace and returns a prefix that ends with a non-space |
| Validation.Strip | app.py:83-86 | the stripped text is a slice of the input with only whitespace before and after it; it is empty exactly when the input is all whitespace, and otherwise starts and ends with a non-space |
| Validation.TrimmedBothEnds | app.py:83-86 | trimming the front and then the back keeps a slice with only whitespace around it |
| Validation.DatePatternIff | app.py:23 | the date pattern accepts exactly ten characters with slashes at 2 and 5 and digits elsewhere, month 1-12 and day 1-31 |
| Validation.MatchesDatePattern | app.py:23 | the pattern's alternatives, position by position: month 01-09 or 10-12, day 01-09, 10-29 or 30-31, a four-digit year, anchored at both ends |
| Validation.IsCalendarDate | app.py:98-99 | a pattern-valid date parses when its year is at least 1 and its day fits its month |
| Validation.IsAfter | app.py:100 | one parsed date is later than another when its year, then month, then day is larger |
| Validation.DaysInMonth | app.py:98-99 | a month has 28 to 31 days |
| Validation.CredentialErrors | app.py:88-91 | the username error is present exactly when the username check failed and the password error exactly when the password check failed, username first |
| Validation.DateErrors | app.py:92-95 | each date-shape error is present exactly when that date's check failed, start date first |
| Validation.FieldErrors | app.py:81-95 | each of the four field errors is present exactly when its check failed, and the order error never is. They come in check order, and the list is empty exactly when all four checks passed |
| Validation.MessageOf | app.py:88-101 | each error is shown with the text the source appends for it |
| Validation.MessageOfInjective | app.py:88-101 | the five error messages are pairwise different |
| Validation.Messages | app.py:88-101 | each error is shown by its own message, in the same order |
| Validation.MessagesDetermineErrors | app.py:153-155 | the messages sent to the client determine the error list |
| Validation.ValidatePayload | app.py:81-103 | the username is checked after stripping and the password without stripping; each date is checked against the pattern after stripping. Date parsing fails exactly when the four checks pass but a date is not on the calendar; the start date is reported first. Otherwise each field error appears iff its check fails, in check order. The order error appears alone, iff the checks pass and start is after end. The result is empty iff everything passes |
| Store.FindActive | app.py:136 | the scan stops at the index of the first active step, or at the end of the list exactly when no step is active |
| Store.JobStore.constructor | app.py:25 | the registry starts empty and valid |
| Store.JobStore.Insert | app.py:157-159 | inserting under an unused id adds a new record there and keeps the registry valid |
| Store.JobStore.Get | app.py:47-49 | returns the record under the id, or nothing for an unknown id |
| Store.JobStore.UpdateStep | app.py:58-78 | an unknown id changes nothing. Otherwise the record becomes Transition of the old one, other records are kept, and the registry stays valid |
| Store.JobStore.UpdateJob | app.py:52-55 | an unknown id changes nothing; otherwise only that record is patched; the registry stays valid when the patched record is well-formed |
| Store.JobStore.Complete | app.py:122-130 | applies the success patch to the record under the id (or nothing for an unknown id) and keeps the registry valid |
| Store.JobStore.Fail | app.py:131-142 | the record becomes CaptureFailure of the old one. escaped is true exactly when the step lookup raises; an unknown id changes nothing. The registry stays valid |
| Store.JobStore.Download | app.py:173-185 | the outcome is DownloadFor of the stored record: offered exactly when the job exists, is download-ready, has a non-empty path and the file exists |
| Store.JobStore.Submit | app.py:150-162 | a job is created under the new id exactly when validation returns no errors. A rejection carries the errors and their messages; rejections and date-parse failures change nothing |

## Left out

- Browser automation: the selectors, page navigation, timeouts, screenshots, tracing and file saving in automation.py. Only the step catalog and the reports a successful run emits are modelled.
- The registry lock and the three-worker thread pool: each store method is one atomic step, and concurrent interleavings are not modelled.
- HTTP routing, request parsing, JSON responses, templates and `send_file`. Whether the saved file exists is a boolean parameter of `Download`.
- Id generation (`uuid4`): `Insert` and `Submit` take the new id as a parameter that is not yet in the registry.
- Progress.Percent: uses exact integer floor division in place of float division followed by `int()`. For negative numerators `int()` truncates toward zero and floor rounds down, but both are clamped to 0. Float rounding error is not modelled.
- Progress.Transition: requires a non-empty step list. With an empty list the source divides by zero when a step is reported done. Every record holds the 15 catalog steps.
- Store.JobStore.UpdateStep: the reported state is one of the four step states. The source accepts any string, and the automation only sends "active" and "done".
- Finalize.ApplyPatch: a patch covers the seven scalar fields. The source's keyword patch could also replace `steps` or add new keys; no caller does.
- Store.JobStore.Fail: models the escaping exception as the `escaped` result. What the thread pool then does with it is not modelled.
- The `deepcopy` in the status handler: records are values, so a snapshot cannot alias the store.
- Validation.ValidatePayload: payload fields are strings or absent. `\d` is restricted to ASCII digits, whereas Python's regex also accepts other Unicode decimal digits. The parser's failure is modelled as `DateRejected` with the rejected date, without the parser's message text.
- The timestamped file name built from the wall clock in automation.py.
- The index page handler, which only renders the catalog.
- Finalize.BaseName: paths are POSIX paths; Windows drive letters and backslash separators are not modelled.
