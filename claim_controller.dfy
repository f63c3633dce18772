/** `ClaimController`: the role-aware front end of the workflow. Every action
    receives the caller's role and the current lecturer's identifier. Reads
    are functions of the table (`ClaimDb.Table()`); writes are methods on the
    store. Unlike the two approver controllers, this one checks the role
    before approving or rejecting and insists on a non-blank rejection
    reason; like them it overwrites the status whatever it was before. */
module ClaimController {
  import opened Results
  import opened Text
  import opened Claims
  import opened Folds
  import opened Store
  import opened Listing
  import opened Reporting
  import opened Access
  import opened Uploads
  import opened Decisions

  const ReasonRequired: string := "Please provide a reason for rejection."

  /** `Index`: the claims a role is shown, newest submission first — a
      lecturer's own claims, the claims awaiting a decision for a coordinator,
      every claim for a manager, and nothing (a redirect home) for anyone
      else. Each listed claim is listed as often as it is stored. */
  function Index(rows: seq<ClaimRow>, role: Role, lecturerId: int): (r: Result<seq<ClaimRow>>)
    ensures r.Err? <==> role.Unknown?
    ensures r.Err? ==> r.failure == Forbidden
    ensures r.Ok? ==> SortedByDate(r.value, true)
    ensures r.Ok? ==> forall c | c in r.value :: multiset(r.value)[c] == multiset(rows)[c]
    ensures role.Lecturer? ==> r.Ok? && forall c :: c in r.value <==> c in rows && c.lecturerId == lecturerId
    ensures role.Coordinator? ==> r.Ok? && forall c :: c in r.value <==> c in rows && IsPendingStatus(c.status)
    ensures role.Manager? ==> r.Ok? && multiset(r.value) == multiset(rows)
  {
    match role
    case Lecturer => Ok(SelectByDate(rows, (c: ClaimRow) => c.lecturerId == lecturerId, true))
    case Coordinator => Ok(SelectByDate(rows, AwaitingDecision, true))
    case Manager => Ok(SortByDate(rows, true))
    case Unknown => Err(Forbidden)
  }

  /** `Details`: the claim with that identifier when the caller may see it. */
  function Details(rows: seq<ClaimRow>, role: Role, lecturerId: int, id: int): (r: Result<ClaimRow>)
    ensures r == Err(NotFound) <==> forall c | c in rows :: c.claimId != id
    ensures r.Err? ==> r.failure == NotFound || r.failure == Forbidden
    ensures r.Ok? ==> r.value in rows && r.value.claimId == id && CanAccessClaim(role, lecturerId, r.value)
    ensures DistinctIds(rows) ==>
              (r.Ok? <==> exists c | c in rows :: c.claimId == id && CanAccessClaim(role, lecturerId, c))
  {
    match Lookup(rows, id)
    case None => Err(NotFound)
    case Some(c) =>
      if CanAccessClaim(role, lecturerId, c) then Ok(c)
      else
        assert DistinctIds(rows) ==> forall d | d in rows && d.claimId == id :: d == c by {
          if DistinctIds(rows) {
            forall d | d in rows && d.claimId == id ensures d == c {
              SameIdSameRow(rows, c, d);
            }
          }
        }
        Err(Forbidden)
  }

  /** `Verify` (GET): only a coordinator may open a claim for verification. */
  function Verify(rows: seq<ClaimRow>, role: Role, id: int): (r: Result<ClaimRow>)
    ensures !role.Coordinator? ==> r == Err(Forbidden)
    ensures role.Coordinator? ==> (r == Err(NotFound) <==> forall c | c in rows :: c.claimId != id)
    ensures r.Ok? ==> role.Coordinator? && r.value in rows && r.value.claimId == id
    ensures role.Coordinator? && (exists c | c in rows :: c.claimId == id) ==> r.Ok?
  {
    if !role.Coordinator? then Err(Forbidden)
    else match Lookup(rows, id)
      case None => Err(NotFound)
      case Some(c) => Ok(c)
  }

  /** `Track`: a lecturer follows one of their own claims. Other roles are
      refused; a missing claim and another lecturer's claim look the same. */
  function Track(rows: seq<ClaimRow>, role: Role, lecturerId: int, id: int): (r: Result<ClaimRow>)
    ensures !role.Lecturer? ==> r == Err(Forbidden)
    ensures role.Lecturer? && r.Err? ==> r.failure == NotFound
    ensures r.Ok? ==> r.value in rows && r.value.claimId == id && r.value.lecturerId == lecturerId
    ensures r.Ok? ==> CanAccessClaim(role, lecturerId, r.value)
    ensures role.Lecturer? && DistinctIds(rows) ==>
              (r.Ok? <==> exists c | c in rows :: c.claimId == id && c.lecturerId == lecturerId)
  {
    if !role.Lecturer? then Err(Forbidden)
    else match Lookup(rows, id)
      case None => Err(NotFound)
      case Some(c) =>
        if c.lecturerId == lecturerId then Ok(c)
        else
          assert DistinctIds(rows) ==> forall d | d in rows && d.claimId == id :: d == c by {
            if DistinctIds(rows) {
              forall d | d in rows && d.claimId == id ensures d == c {
                SameIdSameRow(rows, c, d);
              }
            }
          }
          Err(NotFound)
  }

  /** What a successful download serves. */
  datatype Download = Download(contentType: string, fileName: string)

  /** `DownloadDocument` without the byte copy: a claim with a stored
      document, visible to the caller, whose file (`fileExists`, reported by
      the file system) is present, is served under its stored name with the
      content type of its extension. A missing claim or document and a
      missing file are reported as not found, an invisible claim as
      forbidden. */
  function DownloadDocument(rows: seq<ClaimRow>, role: Role, lecturerId: int, id: int, fileExists: bool): (r: Result<Download>)
    ensures r.Err? ==> r.failure == NotFound || r.failure == Forbidden
    ensures (forall c | c in rows :: c.claimId != id) ==> r == Err(NotFound)
    ensures !fileExists || role.Unknown? ==> r.Err?
    ensures r.Ok? ==> exists c | c in rows ::
              && c.claimId == id && c.supportingDocument != ""
              && CanAccessClaim(role, lecturerId, c)
              && r.value == Download(GetContentType(c.supportingDocument), GetFileName(c.supportingDocument))
    ensures DistinctIds(rows) ==>
              (r.Ok? <==> fileExists && exists c | c in rows ::
                 c.claimId == id && c.supportingDocument != "" && CanAccessClaim(role, lecturerId, c))
    ensures DistinctIds(rows) && (exists c | c in rows :: c.claimId == id && c.supportingDocument == "") ==>
              r == Err(NotFound)
    ensures DistinctIds(rows) ==>
              (r == Err(Forbidden) <==> exists c | c in rows ::
                 c.claimId == id && c.supportingDocument != "" && !CanAccessClaim(role, lecturerId, c))
  {
    match Lookup(rows, id)
    case None => Err(NotFound)
    case Some(c) =>
      assert DistinctIds(rows) ==> forall d | d in rows && d.claimId == id :: d == c by {
        if DistinctIds(rows) { LookupUnique(rows, id); }
      }
      if c.supportingDocument == "" then Err(NotFound)
      else if !CanAccessClaim(role, lecturerId, c) then Err(Forbidden)
      else if !fileExists then Err(NotFound)
      else Ok(Download(GetContentType(c.supportingDocument), GetFileName(c.supportingDocument)))
  }

  /** The figures of the statistics page. */
  datatype ClaimStatistics = ClaimStatistics(counts: StatusCounts, approvedAmount: real, monthly: seq<MonthStat>)

  /** `Statistics`: for managers only. It counts all claims, the claims whose
      status contains "Approved", those whose status contains "Rejected" and
      those whose status is exactly "Pending" or "Submitted", and sums the
      totals of the approved ones; the monthly breakdown has one line per distinct month, in
      ascending month order, each line holding the number of claims of its
      month and the sum of their approved totals; the lines add up to the
      number of claims and to the approved total. */
  function Statistics(rows: seq<ClaimRow>, role: Role): (r: Result<ClaimStatistics>)
    ensures r.Err? <==> !role.Manager?
    ensures r.Err? ==> r.failure == Forbidden
    ensures r.Ok? ==> r.value.counts.total == |rows|
    ensures r.Ok? ==> r.value.counts.approved + r.value.counts.pending <= |rows|
    ensures r.Ok? ==> r.value.counts.rejected + r.value.counts.pending <= |rows|
    ensures r.Ok? ==> r.value.counts.approved == Count(rows, Approved)
    ensures r.Ok? ==> r.value.counts.rejected == Count(rows, Rejected)
    ensures r.Ok? ==> r.value.counts.pending == Count(rows, AwaitingDecision)
    ensures r.Ok? ==> r.value.approvedAmount == ApprovedAmount(rows)
    ensures r.Ok? ==> r.value.approvedAmount == Sum(Filter(rows, Approved), TotalOf)
    ensures r.Ok? ==> MonthsAscending(r.value.monthly) && Months(r.value.monthly) == MonthsOf(rows)
    ensures r.Ok? ==> CountTotal(r.value.monthly) == |rows|
    ensures r.Ok? ==> AmountTotal(r.value.monthly) == r.value.approvedAmount
    ensures r.Ok? ==> forall i | 0 <= i < |r.value.monthly| ::
              && r.value.monthly[i].count == ClaimsInMonth(rows, r.value.monthly[i].month)
              && r.value.monthly[i].amount == ApprovedInMonth(rows, r.value.monthly[i].month)
  {
    if !role.Manager? then Err(Forbidden)
    else
      MonthlyBreakdownSpec(rows);
      MonthlyBreakdownLines(rows);
      Ok(ClaimStatistics(CountStatuses(rows), ApprovedAmount(rows), MonthlyBreakdown(rows)))
  }

  /** The entity `Create` builds: the model binder fills in the entered
      fields, then the action sets the owner, calculates the total, submits
      the claim, stamps the submission date and records the saved upload. */
  method NewSubmittedClaim(lecturerId: int, month: string, hours: int, rate: real, document: string, now: int)
    returns (claim: Claim)
    ensures fresh(claim)
    ensures claim.Row() == ClaimRow(0, lecturerId, month, hours, rate, hours as real * rate, Submitted, now, document, None)
  {
    claim := new Claim(now);
    claim.month, claim.hoursWorked, claim.hourlyRate := month, hours, rate;
    claim.lecturerId := lecturerId;
    var _ := claim.CalculateTotal();
    claim.SubmitForApproval();
    claim.submissionDate := now;
    claim.supportingDocument := document;
  }

  /** `Create` (POST): only lecturers submit claims. Valid input with an
      acceptable (or no) upload stores exactly one new claim, owned by the
      current lecturer, with total hours × rate and status "Submitted";
      anything else stores nothing. */
  method Create(db: ClaimDb, role: Role, lecturerId: int, month: string, hours: int, rate: real,
                upload: Option<Upload>, guid: string, now: int) returns (r: Result<int>)
    requires db.Valid()
    modifies db
    ensures db.Valid()
    ensures !role.Lecturer? ==> r == Err(Forbidden)
    ensures role.Lecturer? && !InputsValid(month, hours, rate) ==> r == Err(InvalidModel)
    ensures role.Lecturer? && InputsValid(month, hours, rate) && upload.Some? && !ValidateFileUpload(upload.value).isValid ==>
              r == Err(Invalid(ValidateFileUpload(upload.value).errorMessage))
    ensures r.Ok? <==> role.Lecturer? && InputsValid(month, hours, rate) &&
                       (upload.None? || ValidateFileUpload(upload.value).isValid)
    ensures r.Err? ==> db.claims == old(db.claims) && db.nextId == old(db.nextId)
    ensures r.Ok? ==> r.value !in old(db.claims) && r.value == old(db.nextId) && db.nextId == old(db.nextId) + 1
    ensures r.Ok? ==> db.claims == old(db.claims)[r.value := ClaimRow(
              r.value, lecturerId, month, hours, rate, hours as real * rate, Submitted, now,
              StoredDocument(upload, guid), None)]
  {
    if !role.Lecturer? {
      return Err(Forbidden);
    }
    if !InputsValid(month, hours, rate) {
      return Err(InvalidModel);
    }
    if upload.Some? {
      var check := ValidateFileUpload(upload.value);
      if !check.isValid {
        return Err(Invalid(check.errorMessage));
      }
    }
    var claim := NewSubmittedClaim(lecturerId, month, hours, rate, StoredDocument(upload, guid), now);
    var id := db.Add(claim);
    r := Ok(id);
  }

  /** `Approve` (POST): the role is checked first (coordinator or manager),
      then the claim's existence; on success the status becomes "Approved by
      Coordinator" or "Approved by Manager" by role, from any previous status,
      and nothing else changes. Any failure leaves the store unchanged. */
  method Approve(db: ClaimDb, role: Role, id: int) returns (r: Result<()>)
    requires db.Valid()
    modifies db
    ensures db.Valid() && db.nextId == old(db.nextId)
    ensures r == if !(role.Coordinator? || role.Manager?) then Err(Forbidden)
                 else if id !in old(db.claims) then Err(NotFound)
                 else Ok(())
    ensures r.Err? ==> db.claims == old(db.claims)
    ensures r.Ok? ==> db.claims == old(db.claims)[id := old(db.claims)[id].(status := ApprovalStatus(role))]
    ensures r.Ok? ==> IsApprovedStatus(db.claims[id].status) && !IsPendingStatus(db.claims[id].status)
  {
    if !(role.Coordinator? || role.Manager?) {
      return Err(Forbidden);
    }
    var claim := db.Find(id);
    if claim == null {
      return Err(NotFound);
    }
    claim.UpdateStatus(ApprovalStatus(role));
    db.Save(claim);
    r := Ok(());
  }

  /** `Reject` (POST): checks, in this order, the role, a non-blank reason
      and the claim's existence; so a blank reason for an unknown claim is
      reported as a missing reason. On success the status becomes "Rejected
      by Coordinator: " or "Rejected by Manager: " followed by the reason,
      the reason is recorded, and nothing else changes. */
  method Reject(db: ClaimDb, role: Role, id: int, reason: Option<string>) returns (r: Result<()>)
    requires db.Valid()
    modifies db
    ensures db.Valid() && db.nextId == old(db.nextId)
    ensures r == if !(role.Coordinator? || role.Manager?) then Err(Forbidden)
                 else if IsNullOrWhiteSpace(reason) then Err(Invalid(ReasonRequired))
                 else if id !in old(db.claims) then Err(NotFound)
                 else Ok(())
    ensures r.Err? ==> db.claims == old(db.claims)
    ensures r.Ok? ==> db.claims == old(db.claims)[id := old(db.claims)[id].(
              status := RejectionStatus(role, reason), rejectionReason := reason)]
    ensures r.Ok? ==> IsRejectedStatus(db.claims[id].status) && !IsPendingStatus(db.claims[id].status)
  {
    if !(role.Coordinator? || role.Manager?) {
      return Err(Forbidden);
    }
    if IsNullOrWhiteSpace(reason) {
      return Err(Invalid(ReasonRequired));
    }
    var claim := db.Find(id);
    if claim == null {
      return Err(NotFound);
    }
    claim.UpdateStatus(RejectionStatus(role, reason));
    claim.rejectionReason := reason;
    db.Save(claim);
    r := Ok(());
  }
}
