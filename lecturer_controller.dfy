/** `LecturerController`: the lecturer's own pages. Its `Create` neither
    checks the caller's role nor validates the uploaded file: any file with
    content is saved, whatever its size or type. */
module LecturerController {
  import opened Results
  import opened Claims
  import opened Store
  import opened Listing
  import opened Access
  import opened Uploads
  import ClaimController

  /** `Index`: the current lecturer's claims, each as often as stored,
      newest first. */
  function Index(rows: seq<ClaimRow>, lecturerId: int): (r: seq<ClaimRow>)
    ensures SortedByDate(r, true)
    ensures forall c :: c in r <==> c in rows && c.lecturerId == lecturerId
    ensures forall c | c in r :: multiset(r)[c] == multiset(rows)[c]
  {
    SelectByDate(rows, (c: ClaimRow) => c.lecturerId == lecturerId, true)
  }

  /** `Details`: the claim when it belongs to the current lecturer; a missing
      claim and another lecturer's claim are both reported as not found. */
  function Details(rows: seq<ClaimRow>, lecturerId: int, id: int): (r: Result<ClaimRow>)
    ensures r.Err? ==> r.failure == NotFound
    ensures r.Ok? ==> r.value in rows && r.value.claimId == id && r.value.lecturerId == lecturerId
    ensures DistinctIds(rows) ==>
              (r.Ok? <==> exists c | c in rows :: c.claimId == id && c.lecturerId == lecturerId)
  {
    match Lookup(rows, id)
    case None => Err(NotFound)
    case Some(c) =>
      if c.lecturerId == lecturerId then Ok(c)
      else
        assert DistinctIds(rows) ==> forall d | d in rows && d.claimId == id :: d == c by {
          if DistinctIds(rows) {
            forall d | d in rows && d.claimId == id ensures d == c {
              SameIdSameRow(rows, c, d);
            }
          }
        }
        Err(NotFound)
  }

  /** The lecturer's pages show what the shared claim pages show a lecturer:
      the same claims in the list, and the same answer for one claim. */
  lemma AgreesWithClaimPages(rows: seq<ClaimRow>, lecturerId: int, id: int)
    ensures var shared := ClaimController.Index(rows, Lecturer, lecturerId);
            shared.Ok? && forall c :: c in Index(rows, lecturerId) <==> c in shared.value
    ensures Details(rows, lecturerId, id) == ClaimController.Track(rows, Lecturer, lecturerId, id)
  {
  }

  /** The entity `Create` starts from: the model binder fills in the entered
      fields of a new claim (submitted `now`, the time it is built), then the
      action sets the owner, calculates the total and submits the claim. */
  method BindAndSubmit(lecturerId: int, month: string, hours: int, rate: real, now: int)
    returns (claim: Claim)
    ensures fresh(claim)
    ensures claim.Row() == ClaimRow(0, lecturerId, month, hours, rate, hours as real * rate, Submitted, now, "", None)
  {
    claim := new Claim(now);
    claim.month, claim.hoursWorked, claim.hourlyRate := month, hours, rate;
    claim.lecturerId := lecturerId;
    var _ := claim.CalculateTotal();
    claim.SubmitForApproval();
  }

  /** `Create` (POST): valid input stores exactly one new claim owned by the
      current lecturer, with total hours × rate and status "Submitted",
      which then shows in the lecturer's list and details; invalid input
      stores nothing. */
  method Create(db: ClaimDb, lecturerId: int, month: string, hours: int, rate: real,
                upload: Option<Upload>, guid: string, now: int) returns (r: Result<int>)
    requires db.Valid()
    modifies db
    ensures db.Valid()
    ensures r == if InputsValid(month, hours, rate) then Ok(old(db.nextId)) else Err(InvalidModel)
    ensures r.Err? ==> db.claims == old(db.claims) && db.nextId == old(db.nextId)
    ensures r.Ok? ==> r.value !in old(db.claims) && db.nextId == old(db.nextId) + 1
    ensures r.Ok? ==> db.claims == old(db.claims)[r.value := ClaimRow(
              r.value, lecturerId, month, hours, rate, hours as real * rate, Submitted, now,
              StoredDocument(upload, guid), None)]
    ensures r.Ok? ==> Details(db.Table(), lecturerId, r.value) == Ok(db.claims[r.value])
    ensures r.Ok? ==> db.claims[r.value] in Index(db.Table(), lecturerId)
  {
    if !InputsValid(month, hours, rate) {
      return Err(InvalidModel);
    }
    var claim := BindAndSubmit(lecturerId, month, hours, rate, now);
    if upload.Some? && upload.value.length > 0 {
      claim.supportingDocument := SavedFileName(guid, upload.value.fileName);
    }
    var id := db.Add(claim);
    LookupTable(db, id);
    TableSpec(db);
    r := Ok(id);
  }
}
