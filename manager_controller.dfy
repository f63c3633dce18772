/** `AcademicManagerController`: the manager's pages. The manager sees every
    claim, newest first, and decides on any of them; like the coordinator's,
    its `Approve` and `Reject` check neither the caller's role nor the
    claim's status, so a claim no coordinator has approved can be approved
    by the manager directly. */
module AcademicManagerController {
  import opened Results
  import opened Claims
  import opened Folds
  import opened Store
  import opened Listing
  import opened Reporting
  import opened Decisions
  import Access
  import ProgrammeCoordinatorController

  /** `Index`: every stored claim, each once per occurrence, newest first. */
  function Index(rows: seq<ClaimRow>): (r: seq<ClaimRow>)
    ensures SortedByDate(r, true)
    ensures multiset(r) == multiset(rows)
  {
    SortByDate(rows, true)
  }

  /** `Reports`, without the summary report object: the number of claims and
      how many of them count as approved, rejected and pending. */
  function Reports(rows: seq<ClaimRow>): (r: StatusCounts)
    ensures r.total == |rows|
    ensures r.approved == Count(rows, Approved) && r.rejected == Count(rows, Rejected)
    ensures r.pending == Count(rows, AwaitingDecision)
    ensures r.pending + r.approved <= r.total && r.pending + r.rejected <= r.total
  {
    CountStatuses(rows)
  }

  /** The pending figure of the report is the length of the coordinator's
      queue. */
  lemma ReportedPendingIsQueueLength(rows: seq<ClaimRow>)
    ensures Reports(rows).pending == |ProgrammeCoordinatorController.Index(rows)|
  {
    var kept := Filter(rows, AwaitingDecision);
    FilterLength(rows, AwaitingDecision);
    assert |multiset(SortByDate(kept, false))| == |multiset(kept)|;
  }

  /** Replacing claim `id` by a decided row `r` keeps the number of claims,
      takes the claim out of the pending count if it was pending, and moves
      it into (or out of) the approved and rejected counts according to
      the new status. */
  lemma {:induction false} DecisionShiftsCounts(m: map<int, ClaimRow>, id: int, hi: int, r: ClaimRow)
    requires id in m && 1 <= id < hi && !AwaitingDecision(r)
    ensures var before, after := Reports(RowsFrom(m, 1, hi)), Reports(RowsFrom(m[id := r], 1, hi));
            && after.total == before.total
            && after.pending == before.pending - (if AwaitingDecision(m[id]) then 1 else 0)
            && after.approved == before.approved + (if Approved(r) then 1 else 0) - (if Approved(m[id]) then 1 else 0)
            && after.rejected == before.rejected + (if Rejected(r) then 1 else 0) - (if Rejected(m[id]) then 1 else 0)
  {
    RowsFromUpdate(m, id, r, 1, hi, AwaitingDecision);
    RowsFromUpdate(m, id, r, 1, hi, Approved);
    RowsFromUpdate(m, id, r, 1, hi, Rejected);
  }

  /** `Approve`: a missing claim is reported and nothing changes; otherwise
      its status becomes "Approved by Manager", from whatever it was. The
      report then shows one approval more (unless the claim already counted
      as approved), one pending claim fewer if it was pending, and one
      rejection fewer if it had counted as rejected. */
  method Approve(db: ClaimDb, id: int) returns (r: Result<()>)
    requires db.Valid()
    modifies db
    ensures db.Valid() && db.nextId == old(db.nextId)
    ensures r == if id in old(db.claims) then Ok(()) else Err(NotFound)
    ensures r.Err? ==> db.claims == old(db.claims)
    ensures r.Ok? ==> db.claims == old(db.claims)[id := old(db.claims)[id].(status := ApprovedByManager)]
    ensures r.Ok? ==>
              var before, after := old(Reports(db.Table())), Reports(db.Table());
              var was := old(db.claims[id]);
              && after.total == before.total
              && after.approved == before.approved + (if Approved(was) then 0 else 1)
              && after.pending == before.pending - (if AwaitingDecision(was) then 1 else 0)
              && after.rejected == before.rejected - (if Rejected(was) then 1 else 0)
  {
    var claim := db.Find(id);
    if claim == null {
      return Err(NotFound);
    }
    ghost var m := db.claims;
    claim.UpdateStatus(ApprovalStatus(Access.Manager));
    db.Save(claim);
    DecisionShiftsCounts(m, id, db.nextId, claim.Row());
    r := Ok(());
  }

  /** `Reject`: a missing claim is reported and nothing changes; otherwise
      the status becomes "Rejected by Manager: " followed by the reason
      (nothing for a missing one) and the reason is recorded as given. The
      report then shows one rejection more (unless the claim already counted
      as rejected) and one pending claim fewer if it was pending. */
  method Reject(db: ClaimDb, id: int, reason: Option<string>) returns (r: Result<()>)
    requires db.Valid()
    modifies db
    ensures db.Valid() && db.nextId == old(db.nextId)
    ensures r == if id in old(db.claims) then Ok(()) else Err(NotFound)
    ensures r.Err? ==> db.claims == old(db.claims)
    ensures r.Ok? ==> db.claims == old(db.claims)[id := old(db.claims)[id].(
              status := RejectedByManagerPrefix + reason.GetOr(""), rejectionReason := reason)]
    ensures r.Ok? ==>
              var before, after := old(Reports(db.Table())), Reports(db.Table());
              var was := old(db.claims[id]);
              && after.total == before.total
              && after.rejected == before.rejected + (if Rejected(was) then 0 else 1)
              && after.pending == before.pending - (if AwaitingDecision(was) then 1 else 0)
  {
    var claim := db.Find(id);
    if claim == null {
      return Err(NotFound);
    }
    ghost var m := db.claims;
    claim.UpdateStatus(RejectionStatus(Access.Manager, reason));
    claim.rejectionReason := reason;
    db.Save(claim);
    DecisionShiftsCounts(m, id, db.nextId, claim.Row());
    r := Ok(());
  }
}
