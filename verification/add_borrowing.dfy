/** Creating a borrowing. */
module AddBorrowingUseCase {
  import opened Wrappers
  import opened Exceptions
  import opened BorrowingEntity
  import opened BorrowingDto
  import opened BorrowingMapper
  import opened Persistence

  const NULL_DTO_MESSAGE := "BorrowingDTO cannot be null"

  /** `createBorrowing`: a null input is refused and nothing is touched;
      otherwise the input is converted (address encrypted, creation date
      stamped for a new record) and saved once, and the saved row is converted
      back. An input that carries an id has no creation date after conversion,
      so the save always fails for it: at once when the id is not stored (the
      row would be inserted), at commit when it is (the row would be updated). A new, valid record is appended under a
      fresh id and no other row changes; with an inverse cipher the caller gets
      its own input back, plaintext address included, now with that id. */
  method CreateBorrowing(repo: BorrowingRepository, c: Cipher, dto: Option<Dto>, today: Date)
    returns (r: Result<Dto, Exception>)
    requires repo.Valid()
    modifies repo
    ensures repo.Valid()
    ensures dto.None? ==>
      r == Failure(IllegalArgument(Some(NULL_DTO_MESSAGE)))
      && repo.rows == old(repo.rows) && repo.nextId == old(repo.nextId)
    ensures (dto.Some? && !IsValid(ToEntity(c, dto.value, today), today)
             && (dto.value.id.None? || old(repo.FindById(dto.value.id.value)).None?)) ==>
      r == Failure(ConstraintViolation(Violations(ToEntity(c, dto.value, today), today)))
      && repo.rows == old(repo.rows) && repo.nextId == old(repo.nextId)
    ensures dto.Some? && dto.value.id.Some? && old(repo.FindById(dto.value.id.value)).Some? ==>
      r == Failure(TransactionSystem(Some(COMMIT_FAILURE_MESSAGE), Violations(ToEntity(c, dto.value, today), today)))
      && repo.rows == old(repo.rows) && repo.nextId == old(repo.nextId)
    ensures dto.Some? && dto.value.id.Some? ==> r.Failure? && repo.rows == old(repo.rows)
    ensures dto.Some? && IsValid(ToEntity(c, dto.value, today), today) ==>
      var saved := ToEntity(c, dto.value, today).(id := Some(old(repo.nextId)));
      && repo.rows == old(repo.rows) + [saved]
      && repo.nextId == old(repo.nextId) + 1
      && r == Success(ToDto(c, saved))
    ensures r.Success? ==>
      && dto.Some? && dto.value.id.None?
      && r.value.id.Some? && r.value.id.value !in old(set x | x in repo.rows :: x.id.value)
      && repo.FindById(r.value.id.value).Some?
      && repo.FindById(r.value.id.value).value.createdAt == Some(today)
      && repo.FindById(r.value.id.value).value.shippingAddress == c.encrypt(dto.value.shippingAddress)
    ensures r.Success? && Inverse(c) ==> r.value == dto.value.(id := r.value.id)
  {
    if dto.None? {
      return Failure(IllegalArgument(Some(NULL_DTO_MESSAGE)));
    }
    var entity := ToEntity(c, dto.value, today);
    if dto.value.id.Some? {
      ExistingIdFailsValidation(c, dto.value, today);
    }
    var saved := repo.Save(entity, today);
    match saved
    case Failure(err) =>
      r := Failure(err);
    case Success(s) =>
      r := Success(ToDto(c, s));
      if Inverse(c) {
        RoundTrip(c, dto.value, today);
      }
  }
}
