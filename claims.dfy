/** The `Claim` record of the lecturer-compensation application: its fields,
    the bounds its `[Range]` annotations put on the inputs, the status strings
    the controllers store, and the entity's own mutators. Money (C# `decimal`)
    is a `real`, which represents every decimal value exactly; a point in time
    (`DateTime`) is an `int` timestamp. */
module Claims {
  import opened Results
  import opened Text

  // Status strings. There is no enumeration in the application: these are the
  // literal values written to the `Status` field.
  const Pending: string := "Pending"
  const Submitted: string := "Submitted"
  const ApprovedByCoordinator: string := "Approved by Coordinator"
  const ApprovedByManager: string := "Approved by Manager"
  const RejectedByCoordinatorPrefix: string := "Rejected by Coordinator: "
  const RejectedByManagerPrefix: string := "Rejected by Manager: "

  // `[Range(1, 200)]` on HoursWorked and `[Range(0.01, 1000)]` on HourlyRate
  // (both inclusive).
  const MinHours: int := 1
  const MaxHours: int := 200
  const MinRate: real := 0.01
  const MaxRate: real := 1000.0

  /** A status the listings and reports treat as awaiting a decision. */
  predicate IsPendingStatus(s: string) {
    s == Pending || s == Submitted
  }

  /** Reports count a status as approved when it contains "Approved" ... */
  predicate IsApprovedStatus(s: string) {
    Contains(s, "Approved")
  }

  /** ... and as rejected when it contains "Rejected". */
  predicate IsRejectedStatus(s: string) {
    Contains(s, "Rejected")
  }

  /** The persisted state of one claim (a row of the Claims table). */
  datatype ClaimRow = ClaimRow(
    claimId: int,
    lecturerId: int,
    month: string,
    hoursWorked: int,
    hourlyRate: real,
    totalAmount: real,
    status: string,
    submissionDate: int,
    supportingDocument: string,
    rejectionReason: Option<string>)

  /** Model validation of the three values a lecturer enters: `[Required]` on
      Month refuses a blank string, the `[Range]` bounds the two numbers. */
  predicate InputsValid(month: string, hours: int, rate: real): (b: bool)
    ensures b ==> month != [] && 0.01 <= hours as real * rate <= 200000.0
  {
    if !IsBlank(month) && MinHours <= hours <= MaxHours && MinRate <= rate <= MaxRate then
      TotalWithinBounds(hours, rate);
      true
    else false
  }

  /** What every claim stored by the workflow satisfies: valid inputs, a total
      that is the product of hours and rate, and a non-empty status. */
  predicate Consistent(r: ClaimRow) {
    && InputsValid(r.month, r.hoursWorked, r.hourlyRate)
    && r.totalAmount == r.hoursWorked as real * r.hourlyRate
    && r.status != []
  }

  /** Within the `[Range]` bounds the total lies in [0.01, 200000]. */
  lemma TotalWithinBounds(hours: int, rate: real)
    requires MinHours <= hours <= MaxHours && MinRate <= rate <= MaxRate
    ensures MinHours as real * MinRate <= hours as real * rate <= MaxHours as real * MaxRate
    ensures 0.01 <= hours as real * rate <= 200000.0
  {
    var h := hours as real;
    assert 1.0 <= h <= 200.0;
    calc {
      h * rate;
    >= { assert h >= 1.0 && rate >= 0.0; }
      1.0 * rate;
    >= 0.01;
    }
    calc {
      h * rate;
    <= { assert rate >= 0.0 && h <= 200.0; }
      200.0 * rate;
    <= 200000.0;
    }
  }

  lemma StoredTotalWithinBounds(r: ClaimRow)
    requires Consistent(r)
    ensures 0.01 <= r.totalAmount <= 200000.0
  {
    TotalWithinBounds(r.hoursWorked, r.hourlyRate);
  }

  /** The entity object the controllers bind, load and mutate. */
  class Claim {
    var claimId: int
    var lecturerId: int
    var month: string
    var hoursWorked: int
    var hourlyRate: real
    var totalAmount: real
    var status: string
    var submissionDate: int
    var supportingDocument: string
    var rejectionReason: Option<string>

    /** The values of all fields. */
    function Row(): ClaimRow
      reads this
    {
      ClaimRow(claimId, lecturerId, month, hoursWorked, hourlyRate, totalAmount,
               status, submissionDate, supportingDocument, rejectionReason)
    }

    /** A new claim, as the property initialisers leave it: status "Pending",
        no supporting document, no rejection reason, submitted `now`. */
    constructor (now: int)
      ensures Row() == ClaimRow(0, 0, "", 0, 0.0, 0.0, Pending, now, "", None)
    {
      claimId, lecturerId, month := 0, 0, "";
      hoursWorked, hourlyRate, totalAmount := 0, 0.0, 0.0;
      status, submissionDate, supportingDocument, rejectionReason := Pending, now, "", None;
    }

    /** The entity as materialised from a stored row. */
    constructor Load(r: ClaimRow)
      ensures Row() == r
    {
      claimId, lecturerId, month := r.claimId, r.lecturerId, r.month;
      hoursWorked, hourlyRate, totalAmount := r.hoursWorked, r.hourlyRate, r.totalAmount;
      status, submissionDate := r.status, r.submissionDate;
      supportingDocument, rejectionReason := r.supportingDocument, r.rejectionReason;
    }

    /** `CalculateTotal`: stores hours times rate and returns it. When the
        stored total already is that product nothing changes, so a second
        call is a no-op. */
    method CalculateTotal() returns (total: real)
      modifies this`totalAmount
      ensures total == hoursWorked as real * hourlyRate && totalAmount == total
      ensures Row() == old(Row()).(totalAmount := total)
      ensures old(totalAmount) == old(hoursWorked as real * hourlyRate) ==> Row() == old(Row())
    {
      totalAmount := hoursWorked as real * hourlyRate;
      total := totalAmount;
    }

    /** `SubmitForApproval`: the status becomes "Submitted"; nothing else changes. */
    method SubmitForApproval()
      modifies this`status
      ensures status == Submitted
      ensures Row() == old(Row()).(status := Submitted)
    {
      status := Submitted;
    }

    /** `UpdateStatus`: the status becomes exactly `newStatus`, whatever it was
        before; nothing else changes. */
    method UpdateStatus(newStatus: string)
      modifies this`status
      ensures status == newStatus
      ensures Row() == old(Row()).(status := newStatus)
    {
      status := newStatus;
    }
  }
}
