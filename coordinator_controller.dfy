/** `ProgrammeCoordinatorController`: the coordinator's own pages. Its queue
    lists the claims awaiting a decision, oldest first. Its `Approve` and
    `Reject` check neither the caller's role nor the claim's current status,
    and `Reject` accepts an empty or missing reason. */
module ProgrammeCoordinatorController {
  import opened Results
  import opened Claims
  import opened Store
  import opened Listing
  import opened Reporting
  import opened Access
  import opened Decisions

  /** `Index`: every claim whose status is "Submitted" or "Pending", each as
      often as it is stored, oldest submission first. */
  function Index(rows: seq<ClaimRow>): (r: seq<ClaimRow>)
    ensures SortedByDate(r, false)
    ensures forall c :: c in r <==> c in rows && IsPendingStatus(c.status)
    ensures forall c | c in r :: multiset(r)[c] == multiset(rows)[c]
  {
    SelectByDate(rows, AwaitingDecision, false)
  }

  /** After a decision on claim `id`, the queue no longer lists it. */
  lemma DecidedClaimLeavesQueue(db: ClaimDb, id: int)
    requires db.Valid() && id in db.claims && !IsPendingStatus(db.claims[id].status)
    ensures forall c | c in Index(db.Table()) :: c.claimId != id
  {
    TableSpec(db);
  }

  /** `Approve`: a missing claim is reported and nothing changes; otherwise
      its status becomes "Approved by Coordinator", from whatever it was, and
      the claim leaves the queue. */
  method Approve(db: ClaimDb, id: int) returns (r: Result<()>)
    requires db.Valid()
    modifies db
    ensures db.Valid() && db.nextId == old(db.nextId)
    ensures r == if id in old(db.claims) then Ok(()) else Err(NotFound)
    ensures r.Err? ==> db.claims == old(db.claims)
    ensures r.Ok? ==> db.claims == old(db.claims)[id := old(db.claims)[id].(status := ApprovedByCoordinator)]
    ensures r.Ok? ==> forall c | c in Index(db.Table()) :: c.claimId != id
  {
    var claim := db.Find(id);
    if claim == null {
      return Err(NotFound);
    }
    claim.UpdateStatus(ApprovalStatus(Coordinator));
    db.Save(claim);
    DecidedClaimLeavesQueue(db, id);
    r := Ok(());
  }

  /** `Reject`: a missing claim is reported and nothing changes; otherwise
      the status becomes "Rejected by Coordinator: " followed by the reason
      (nothing for a missing one), the reason is recorded as given, and the
      claim leaves the queue. */
  method Reject(db: ClaimDb, id: int, reason: Option<string>) returns (r: Result<()>)
    requires db.Valid()
    modifies db
    ensures db.Valid() && db.nextId == old(db.nextId)
    ensures r == if id in old(db.claims) then Ok(()) else Err(NotFound)
    ensures r.Err? ==> db.claims == old(db.claims)
    ensures r.Ok? ==> db.claims == old(db.claims)[id := old(db.claims)[id].(
              status := RejectedByCoordinatorPrefix + reason.GetOr(""), rejectionReason := reason)]
    ensures r.Ok? ==> IsRejectedStatus(db.claims[id].status)
    ensures r.Ok? ==> forall c | c in Index(db.Table()) :: c.claimId != id
  {
    var claim := db.Find(id);
    if claim == null {
      return Err(NotFound);
    }
    claim.UpdateStatus(RejectionStatus(Coordinator, reason));
    claim.rejectionReason := reason;
    db.Save(claim);
    DecidedClaimLeavesQueue(db, id);
    r := Ok(());
  }

  /** `Details`: any claim, whatever its status, or not found. */
  function Details(rows: seq<ClaimRow>, id: int): (r: Result<ClaimRow>)
    ensures r.Err? <==> forall c | c in rows :: c.claimId != id
    ensures r.Err? ==> r.failure == NotFound
    ensures r.Ok? ==> r.value in rows && r.value.claimId == id
  {
    match Lookup(rows, id)
    case None => Err(NotFound)
    case Some(c) => Ok(c)
  }
}
