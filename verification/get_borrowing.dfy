/** Fetching one borrowing by id. */
module GetBorrowingUseCase {
  import opened Wrappers
  import opened Exceptions
  import opened BorrowingDto
  import opened BorrowingMapper
  import opened Persistence
  import Text

  const NULL_ID_MESSAGE := "Borrowing ID cannot be null"
  const NOT_FOUND_PREFIX := "Borrowing not found with id: "

  /** `getBorrowing`: a null id is refused before the store is consulted; a
      stored id yields the converted row; an unknown id fails with a plain
      runtime exception naming the id. Reading leaves the store as it was. */
  function GetBorrowing(repo: BorrowingRepository, c: Cipher, id: Option<int>): (r: Result<Dto, Exception>)
    reads repo
    requires repo.Valid()
    ensures id.None? ==> r == Failure(IllegalArgument(Some(NULL_ID_MESSAGE)))
    ensures r.Success? <==> id.Some? && exists x :: x in repo.rows && x.id == id
    ensures r.Success? ==> exists x :: x in repo.rows && x.id == id && r.value == ToDto(c, x)
    ensures r.Success? ==> r.value.id == id
    ensures id.Some? && r.Failure? ==>
      r.error == Runtime(Some(NOT_FOUND_PREFIX + Text.IntToDecimal(id.value)))
  {
    if id.None? then
      Failure(IllegalArgument(Some(NULL_ID_MESSAGE)))
    else
      match repo.FindById(id.value)
      case Some(x) => Success(ToDto(c, x))
      case None => Failure(Runtime(Some(NOT_FOUND_PREFIX + Text.IntToDecimal(id.value))))
  }

  /** The not-found messages of two different ids differ. */
  lemma NotFoundMessageNamesId(a: int, b: int)
    requires NOT_FOUND_PREFIX + Text.IntToDecimal(a) == NOT_FOUND_PREFIX + Text.IntToDecimal(b)
    ensures a == b
  {
    var n := |NOT_FOUND_PREFIX|;
    assert (NOT_FOUND_PREFIX + Text.IntToDecimal(a))[n..] == Text.IntToDecimal(a);
    assert (NOT_FOUND_PREFIX + Text.IntToDecimal(b))[n..] == Text.IntToDecimal(b);
    Text.IntToDecimalInjective(a, b);
  }
}
