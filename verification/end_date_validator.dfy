/** The cross-field rule that a borrowing ends strictly after it starts. */
module EndDateAfterStartDateValidator {
  import opened Wrappers
  import opened BorrowingDto

  /** `isValid`: a missing date passes (the null checks are left to `@NotNull`);
      with both dates present, the end must be strictly after the start. */
  function IsValid(d: Dto): (r: bool)
    ensures d.startDate.None? ==> r
    ensures d.endDate.None? ==> r
    ensures d.startDate.Some? && d.endDate.Some? ==> (r <==> d.startDate.value < d.endDate.value)
  {
    if d.startDate.None? || d.endDate.None? then true
    else d.endDate.value > d.startDate.value
  }

  /** A borrowing that starts and ends on the same day is rejected. */
  lemma SameDayRejected(d: Dto)
    requires d.startDate.Some? && d.endDate == d.startDate
    ensures !IsValid(d)
  {
  }

  /** The verdict depends on the two dates alone: id, user, book unit, address
      and active flag are ignored. */
  lemma OnlyDatesMatter(a: Dto, b: Dto)
    requires a.startDate == b.startDate && a.endDate == b.endDate
    ensures IsValid(a) == IsValid(b)
  {
  }
}
