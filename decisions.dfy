/** The statuses an approver's decision writes. All three controllers that
    approve or reject write the same texts: "Approved by Coordinator" or
    "Approved by Manager", and "Rejected by Coordinator: " or "Rejected by
    Manager: " followed by the reason as given (a null reason prints as
    nothing). Only coordinators and managers decide on claims. */
module Decisions {
  import opened Results
  import opened Text
  import opened Claims
  import opened Access

  /** The status an approval by `role` writes. It counts as approved, not as
      rejected, and takes the claim out of the pending queue. */
  function ApprovalStatus(role: Role): (s: string)
    requires role.Coordinator? || role.Manager?
    ensures IsApprovedStatus(s) && !IsRejectedStatus(s) && !IsPendingStatus(s)
  {
    var s := if role.Coordinator? then ApprovedByCoordinator else ApprovedByManager;
    ContainsPrefix(s, "Approved");
    OccurrenceStartsWithHead(s, "Rejected");
    assert forall i | 0 <= i < |s| :: s[i] != 'R';
    s
  }

  /** The status a rejection by `role` writes. It counts as rejected, takes
      the claim out of the pending queue, and ends with the reason as given. */
  function RejectionStatus(role: Role, reason: Option<string>): (s: string)
    requires role.Coordinator? || role.Manager?
    ensures IsRejectedStatus(s) && !IsPendingStatus(s)
    ensures |s| >= |reason.GetOr("")| && s[|s| - |reason.GetOr("")|..] == reason.GetOr("")
  {
    var s := (if role.Coordinator? then RejectedByCoordinatorPrefix else RejectedByManagerPrefix) + reason.GetOr("");
    assert s[..8] == "Rejected";
    ContainsPrefix(s, "Rejected");
    s
  }
}
