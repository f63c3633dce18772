/** Who is asking. The application derives the role from the first segment of
    the request path (`/Lecturer`, `/ProgrammeCoordinator`, `/AcademicManager`,
    anything else) and always takes lecturer 1 as the current lecturer; here
    both are explicit parameters of every action. */
module Access {
  import opened Claims

  datatype Role = Lecturer | Coordinator | Manager | Unknown

  /** `CanAccessClaim`: a lecturer sees only their own claims, coordinators
      and managers see every claim, any other caller sees none. So whether a
      claim is visible depends only on its owner. */
  predicate CanAccessClaim(role: Role, currentLecturerId: int, c: ClaimRow): (b: bool)
    ensures b <==> role in {Coordinator, Manager} || (role == Lecturer && c.lecturerId == currentLecturerId)
  {
    match role
    case Lecturer => c.lecturerId == currentLecturerId
    case Coordinator => true
    case Manager => true
    case Unknown => false
  }
}
