# Contract Monthly Claim System — claim workflow model

This project models the core of the Contract Monthly Claim System (CMCS), an
ASP.NET Core MVC application. In it, lecturers submit monthly claims: a
month, hours worked and an hourly rate, with an optional supporting
document. Programme coordinators and academic managers then approve or
reject those claims, and managers see counts and a monthly breakdown.

## How the system is modelled

- **Entity.** The `Claim` entity is a Dafny class (`Claims.Claim`) whose
  methods update its fields in place: `CalculateTotal`, `SubmitForApproval`
  and `UpdateStatus`.
- **Database context.** The context is `Store.ClaimDb`, a class holding the
  `Claims` table as a map from `ClaimID` to row values, plus the next
  identity value.
- **Write actions.** These load an entity (`Find`), change it through its
  own methods and save it back (`Save`), or add a new one (`Add`).
- **Read actions.** These are functions of `ClaimDb.Table()`, the table as a
  list of rows in ascending `ClaimID` order.
- **Action outcomes.** Each action returns a `Result`:
  - `NotFound`, `Forbidden`, `InvalidModel` (model validation failed) or
    `Invalid(message)`;
  - or the value the page would show.
- **Inputs outside the program** become parameters of every action:
  - the caller's role, which the application derives from the request path;
  - the current lecturer's identifier, which the application fixes at 1;
  - the current time (`DateTime.Now`);
  - the GUID that names a saved upload;
  - whether a document file exists on disk.

## Data representation

- **Numbers.** C# `decimal` amounts are Dafny `real`s, which are exact. A
  `DateTime` is an integer timestamp.
- **Strings.** Strings are `seq<char>`, and a possibly-null string is an
  `Option<string>`.
- **Months.** Months are ordered by the ordinal order of their labels.
- **Lower-casing.** `ToLower` is modelled on ASCII letters only. That is
  exact for the decision against the all-ASCII extension whitelist.
- **`Path.GetExtension`.** It follows the .NET Core scan from the end of
  the name: the extension starts at the last `.` after the last directory
  separator, and a trailing `.` gives no extension. Both `/` and `\` count
  as directory separators, as they do when the application runs on Windows.
- **Required fields.** The `[Required]` month refuses an empty or
  all-whitespace string. The `[Range]` bounds are inclusive: hours 1..200,
  rate 0.01..1000.

## Behaviour the model follows from the code

The code has the following behaviour, which the model keeps. Where the
code's own messages and its behaviour differ, the model follows the
behaviour.

- **Coordinator queue.** The queue contains claims whose status is
  "Submitted" or "Pending". It is not limited to "Submitted" claims.
- **Status texts.** The texts are "Approved by Coordinator", "Approved by
  Manager", "Rejected by Coordinator: <reason>" and "Rejected by Manager:
  <reason>".
- **No transition checks.** No controller checks a claim's current status
  before approving or rejecting it. A decision overwrites any earlier one,
  and a manager can approve a claim no coordinator has seen.
- **Coordinator and manager controllers.**
  - They check neither the caller's role nor the rejection reason.
  - They accept an empty or missing reason.
- **`ClaimController`.** It checks the role first, then (for `Reject`) that
  the reason is non-blank, then that the claim exists.
- **Status counts.** "Approved" and "Rejected" are substring tests on the
  status. A rejection whose reason mentions "Approved" is therefore counted
  in both (`Reporting.ApprovedAndRejectedOverlap`).
- **Upload size.** The upload size limit is inclusive: a file of exactly
  5 MiB is accepted, although the message says "less than 5MB".

## Model

| member | source | states |
|---|---|---|
| Claims.Claim.constructor | CMCS_App/Models/Claim.cs:24-27 | A new claim has status "Pending", no supporting document, no rejection reason, zero amounts and the construction time as submission date |
| Claims.Claim.CalculateTotal | CMCS_App/Models/Claim.cs:32-36 | Stores hours × rate as the total and returns that same value; no other field changes; calling it again changes nothing (idempotent) |
| Claims.Claim.SubmitForApproval | CMCS_App/Models/Claim.cs:38-41 | The status becomes "Submitted" and every other field is unchanged |
| Claims.Claim.UpdateStatus | CMCS_App/Models/Claim.cs:43-46 | The status becomes exactly the given text, whatever it was before, and nothing else changes |
| Claims.TotalWithinBounds | CMCS_App/Models/Claim.cs:16-20 | For hours in [1, 200] and rate in [0.01, 1000], both inclusive, the total lies in [0.01, 200000] |
| Store.StoredTotalsWithinBounds | CMCS_App/Models/Claim.cs:16-36 | Every claim in a valid store has a total within [0.01, 200000] |
| Store.ClaimDb.Find | CMCS_App/Controllers/ProgrammeCoordinatorController.cs:31-35 | `FindAsync`: null exactly when no claim has the identifier, otherwise a fresh entity holding the stored row |
| Store.ClaimDb.Add | CMCS_App/Controllers/LecturerController.cs:66-67 | `Add` then `SaveChangesAsync`: the claim gets a new identity value, written back into the entity; exactly that one row is added and the store stays valid |
| Store.ClaimDb.Save | CMCS_App/Controllers/ProgrammeCoordinatorController.cs:37-38 | `SaveChangesAsync` after changing a loaded entity: only that claim's row is replaced |
| Store.TableSpec | CMCS_App/Controllers/AcademicManagerController.cs:62 | The table lists exactly the stored claims, each once, in strictly ascending identifier order |
| Store.Lookup | CMCS_App/Controllers/ClaimController.cs:61-63 | `FirstOrDefault` by identifier: finds a row with that identifier, and finds nothing exactly when no row has it |
| Store.LookupTable | CMCS_App/Controllers/ClaimController.cs:61-63 | Looking up an identifier in the table yields the stored claim, or nothing when none is stored under it |
| Store.RowsFromUpdate | CMCS_App/Controllers/ProgrammeCoordinatorController.cs:37-38 | Replacing one stored claim keeps the number of listed claims, and changes any count only by that claim's old and new membership |
| Folds.Filter | CMCS_App/Controllers/ClaimController.cs:32-36 | `Where`: keeps exactly the elements satisfying the predicate, each with its original multiplicity |
| Folds.FilterLength | CMCS_App/Controllers/AcademicManagerController.cs:70 | The length of `Where(p)` is `Count(p)` |
| Folds.CountDisjoint | CMCS_App/Controllers/ClaimController.cs:375-377 | Counts of two predicates that never hold together add up to at most the number of elements |
| Listing.SortByDate | CMCS_App/Controllers/ClaimController.cs:46 | `OrderBy`/`OrderByDescending` on submission date: the result is sorted and a permutation of the input |
| Listing.InsertByDate | CMCS_App/Controllers/ClaimController.cs:46 | Inserting into a sorted list keeps it sorted and adds exactly that one claim |
| Listing.SelectByDate | CMCS_App/Controllers/ProgrammeCoordinatorController.cs:21-22 | `Where` then ordering by date: sorted, holds exactly the matching claims, each as often as stored |
| Text.ToLower | CMCS_App/Controllers/ClaimController.cs:459 | Lower-casing keeps the length and lowers each character |
| Text.ExtensionIsSuffix | CMCS_App/Controllers/ClaimController.cs:459 | `Path.GetExtension` returns a suffix of the name that is empty or starts with '.' and has no directory separator |
| Text.ExtensionOfSuffix | CMCS_App/Controllers/ClaimController.cs:478 | Appending an extension to a name without dots or separators gives back that extension |
| Text.LessTotal | CMCS_App/Controllers/ClaimController.cs:390 | The month order is total: of two different labels one sorts first |
| Text.LessTransitive | CMCS_App/Controllers/ClaimController.cs:390 | The month order is transitive |
| Text.LessIrreflexive | CMCS_App/Controllers/ClaimController.cs:390 | No month label sorts before itself |
| Access.CanAccessClaim | CMCS_App/Controllers/ClaimController.cs:439-449 | A claim is visible exactly to coordinators, managers and the lecturer who owns it; an unknown role sees nothing |
| Claims.InputsValid | CMCS_App/Models/Claim.cs:12-20 | Model validation (non-blank month, hours 1..200, rate 0.01..1000 inclusive); valid inputs have a non-empty month and a total in [0.01, 200000] |
| Uploads.GetContentType | CMCS_App/Controllers/ClaimController.cs:494-504 | A file is served as application/octet-stream exactly when its lower-cased extension is not .pdf, .docx or .xlsx |
| Uploads.ValidateFileUpload | CMCS_App/Controllers/ClaimController.cs:451-466 | A file is accepted iff it is at most 5 MiB and its lower-cased extension is .pdf, .docx or .xlsx; the size is checked first, and the message is the size or type message accordingly |
| Uploads.SavedNameKeepsExtension | CMCS_App/Controllers/ClaimController.cs:478 | The saved name (GUID text + original extension) has the original file's extension |
| Uploads.AcceptedUploadHasKnownType | CMCS_App/Controllers/ClaimController.cs:494-504 | Every accepted upload is later served with its specific content type, never as application/octet-stream |
| Uploads.SavedNameIsFileName | CMCS_App/Controllers/ClaimController.cs:349 | Downloading a saved upload offers it under its stored name |
| Reporting.PendingIsUndecided | CMCS_App/Controllers/ClaimController.cs:375-377 | A "Pending" or "Submitted" status counts neither as approved nor as rejected |
| Reporting.ApprovedAndRejectedOverlap | CMCS_App/Controllers/ClaimController.cs:375-376 | A manager rejection whose reason mentions "Approved" counts both as approved and as rejected |
| Reporting.CountStatuses | CMCS_App/Controllers/ClaimController.cs:374-377 | The total is the number of claims; approved and rejected are the numbers of claims whose status contains "Approved" and "Rejected"; pending is the number whose status is exactly "Pending" or "Submitted"; pending plus approved, and pending plus rejected, are each at most the total |
| Reporting.MonthlyBreakdownSpec | CMCS_App/Controllers/ClaimController.cs:378-391 | The breakdown has one group per distinct month in ascending order; group counts sum to the number of claims and group amounts to the approved total; each month's count and amount equal those of an independent per-month filter |
| Reporting.MonthlyBreakdownLines | CMCS_App/Controllers/ClaimController.cs:382-391 | Every line holds the number of claims of its month (at least one) and the sum of their approved totals |
| Reporting.MonthPresentHasClaims | CMCS_App/Controllers/ClaimController.cs:382-391 | A month that some claim carries has a positive claim count in the reference per-month count |
| Reporting.MonthlyBreakdown | CMCS_App/Controllers/ClaimController.cs:382-391 | The grouping has at most one line per claim and at least one line when there are claims (the full specification is `MonthlyBreakdownSpec`) |
| Reporting.ApprovedAmount | CMCS_App/Controllers/ClaimController.cs:378 | The approved total equals the sum of `TotalAmount` over exactly the claims whose status contains "Approved" |
| Reporting.ApprovedSharesAreFilteredTotals | CMCS_App/Controllers/ClaimController.cs:378 | Summing each claim's approved share equals filtering the approved claims and summing their totals |
| Decisions.ApprovalStatus | CMCS_App/Controllers/ClaimController.cs:215-224 | The approval texts of coordinators and managers (also written at ProgrammeCoordinatorController.cs:37 and AcademicManagerController.cs:36) count as approved, not as rejected, and not as pending |
| Decisions.RejectionStatus | CMCS_App/Controllers/ClaimController.cs:263-270 | The rejection texts (also written at ProgrammeCoordinatorController.cs:53 and AcademicManagerController.cs:52) count as rejected and not as pending, whatever the reason, and end with the reason as given |
| ClaimController.Index | CMCS_App/Controllers/ClaimController.cs:20-54 | The lecturer sees exactly their own claims; the coordinator exactly the "Submitted"/"Pending" ones; the manager all of them (as a permutation); each list is newest first and keeps multiplicities; an unknown role is refused |
| ClaimController.Details | CMCS_App/Controllers/ClaimController.cs:57-85 | Not found exactly when no claim has the identifier; otherwise the claim is shown iff the caller may access it, and refused otherwise |
| ClaimController.Verify | CMCS_App/Controllers/ClaimController.cs:165-192 | Only a coordinator may open a claim; a coordinator is shown an existing claim, and not found is reported exactly when no claim has the identifier |
| ClaimController.Track | CMCS_App/Controllers/ClaimController.cs:286-313 | Only lecturers may track; a lecturer sees a claim iff it exists and is theirs, and any other case is reported as not found |
| ClaimController.DownloadDocument | CMCS_App/Controllers/ClaimController.cs:316-358 | The document is served exactly when the claim exists, has a document, is visible to the caller and its file exists, with the content type of its extension under its file name; a missing claim, an empty document name or a missing file is not found; forbidden exactly when the claim has a document the caller may not see |
| ClaimController.Statistics | CMCS_App/Controllers/ClaimController.cs:361-402 | Managers only; the counts are those of all claims, of statuses containing "Approved" and "Rejected", and of statuses exactly "Pending"/"Submitted"; the approved amount is the sum of the approved claims' totals; monthly lines ascending, one per distinct month, each with its month's count and approved sum; lines add up to the claim count and the approved amount |
| ClaimController.NewSubmittedClaim | CMCS_App/Controllers/ClaimController.cs:126-141 | The built entity is owned by the current lecturer, totals hours × rate, is "Submitted", is dated now and records the saved document name |
| ClaimController.Create | CMCS_App/Controllers/ClaimController.cs:103-162 | Refused for non-lecturers, then invalid models, then rejected uploads (with the upload's message), and nothing is stored in those cases; otherwise exactly one new claim is stored under a fresh identifier, owned by the current lecturer, with total hours × rate and status "Submitted" |
| ClaimController.Approve | CMCS_App/Controllers/ClaimController.cs:197-234 | The role is checked before existence, and any failure changes nothing; on success only that claim's status changes, to the role's approval text, from any previous status, and it then counts as approved and not pending |
| ClaimController.Reject | CMCS_App/Controllers/ClaimController.cs:239-283 | Checks role, then a non-blank reason, then existence, and any failure changes nothing; on success the status becomes the role's rejection prefix plus the reason, the reason is recorded, and nothing else changes |
| ProgrammeCoordinatorController.Index | CMCS_App/Controllers/ProgrammeCoordinatorController.cs:17-26 | Exactly the "Submitted" or "Pending" claims, each as often as stored, oldest submission first |
| ProgrammeCoordinatorController.DecidedClaimLeavesQueue | CMCS_App/Controllers/ProgrammeCoordinatorController.cs:21 | A claim whose status is no longer pending is not in the coordinator's queue |
| ProgrammeCoordinatorController.Approve | CMCS_App/Controllers/ProgrammeCoordinatorController.cs:28-42 | An unknown identifier is not found and changes nothing; otherwise the status becomes "Approved by Coordinator" from any status, nothing else changes, and the claim leaves the queue |
| ProgrammeCoordinatorController.Reject | CMCS_App/Controllers/ProgrammeCoordinatorController.cs:44-59 | An unknown identifier is not found and changes nothing; otherwise, with no reason check, the status becomes "Rejected by Coordinator: " + reason, the reason is recorded, and the claim leaves the queue |
| ProgrammeCoordinatorController.Details | CMCS_App/Controllers/ProgrammeCoordinatorController.cs:61-73 | Not found exactly when no claim has the identifier, with no ownership check |
| AcademicManagerController.Index | CMCS_App/Controllers/AcademicManagerController.cs:17-25 | All claims, as a permutation of the table, newest first |
| AcademicManagerController.Reports | CMCS_App/Controllers/AcademicManagerController.cs:60-73 | The total is the number of claims; approved and rejected are substring counts; pending counts statuses exactly "Pending" or "Submitted"; pending plus approved, and pending plus rejected, are each at most the total |
| AcademicManagerController.ReportedPendingIsQueueLength | CMCS_App/Controllers/AcademicManagerController.cs:70 | The reported pending count equals the length of the coordinator's queue |
| AcademicManagerController.DecisionShiftsCounts | CMCS_App/Controllers/AcademicManagerController.cs:67-70 | Deciding on one claim keeps the total, leaves the pending count if the claim was pending, and moves it into or out of the approved and rejected counts by its old and new status |
| AcademicManagerController.Approve | CMCS_App/Controllers/AcademicManagerController.cs:27-41 | An unknown identifier is not found and changes nothing; otherwise the status becomes "Approved by Manager" from any status (even "Submitted"); the report then has one more approval (unless it already counted), one fewer pending and one fewer rejection where applicable |
| AcademicManagerController.Reject | CMCS_App/Controllers/AcademicManagerController.cs:43-58 | An unknown identifier is not found and changes nothing; otherwise the status becomes "Rejected by Manager: " + reason and the reason is recorded; the report then has one more rejection (unless it already counted) and one fewer pending claim if it was pending |
| LecturerController.Index | CMCS_App/Controllers/LecturerController.cs:19-28 | Exactly the current lecturer's claims, each as often as stored, newest first |
| LecturerController.Details | CMCS_App/Controllers/LecturerController.cs:74-86 | A missing claim and another lecturer's claim are both not found; otherwise the lecturer's own claim is shown |
| LecturerController.AgreesWithClaimPages | CMCS_App/Controllers/LecturerController.cs:19-28 | The lecturer's list and details agree with the lecturer view of the shared claim pages (`Index` and `Track`) |
| LecturerController.BindAndSubmit | CMCS_App/Controllers/LecturerController.cs:42-44 | The new entity is owned by the current lecturer, totals hours × rate and is "Submitted" |
| LecturerController.Create | CMCS_App/Controllers/LecturerController.cs:36-72 | An invalid model stores nothing; otherwise, with no role or file check, exactly one claim is added with the current lecturer, total hours × rate, status "Submitted" and the saved name of any non-empty upload, and it then shows in the lecturer's list and details |

## Left out

- **File I/O.** Writing and reading the bytes of uploads and downloads is
  left out: `SaveUploadedFile` and the `DownloadDocument` stream copy.
  - Only names, sizes and the existence of a file are modelled; file
    existence is a parameter.
  - The failure path of `SaveUploadedFile` ("Error saving file") is not
    modelled.
- **Framework plumbing.**
  - Entity Framework's asynchronous queries and the exception handlers are
    not modelled, nor the empty list `ClaimController.Index` shows after an
    exception.
  - `TempData`/`ViewBag` messages and redirects are not modelled; outcomes
    are `Result` values.
- **Identity and time.** `GetCurrentUserRole`, `GetCurrentLecturerId`,
  `DateTime.Now` and `Guid.NewGuid` are parameters rather than operations.
- **Create form (GET).** The `Create` GET actions only show the form, after
  the same role check as the POST.
- **`AcademicManager.GenerateSummaryReport`.** It is not part of this model,
  nor is the lecturer count on the statistics page.
- **Model binding.** Binding fields other than month, hours and rate
  (over-posting) is not modelled.
- **Culture-sensitive behaviour.** Culture-sensitive month ordering and
  non-ASCII lower-casing are not modelled.
- **Conversions.** Decimal rounding and the `double` conversion behind
  `[Range]` are not modelled.
- **Concurrency.** Concurrency between approvers is not modelled: every
  action runs alone.
- **`HomeController`.** It only redirects to dashboards and is not modelled.
- **`LecturerController.AgreesWithClaimPages`:** it follows directly from
  the definitions. It records the agreement of the two lecturer views, not
  a proof.
