/** Listing every borrowing of a physical book unit. */
module GetAllBorrowingsByBookUnitIdUseCase {
  import opened Wrappers
  import opened BorrowingDto
  import opened BorrowingMapper
  import opened Persistence

  /** `getAllBorrowingsByBookUnitId`: the book unit's stored rows converted one
      by one, in the order the query returns them; a unit without rows, or a null
      unit, yields the empty list. Reading leaves the store as it was. */
  function GetAllBorrowingsByBookUnitId(repo: BorrowingRepository, c: Cipher, bookUnitId: Option<int>)
    : (r: seq<Dto>)
    reads repo
    requires repo.Valid()
    ensures |r| == |repo.FindByBookUnitId(bookUnitId)|
    ensures forall i :: 0 <= i < |r| ==> r[i] == ToDto(c, repo.FindByBookUnitId(bookUnitId)[i])
    ensures forall i :: 0 <= i < |r| ==> r[i].bookUnitId == bookUnitId
    ensures forall x :: x in repo.rows && x.bookUnitId == bookUnitId ==> ToDto(c, x) in r
    ensures (forall x :: x in repo.rows ==> x.bookUnitId != bookUnitId) ==> r == []
    ensures bookUnitId.None? ==> r == []
  {
    var found := repo.FindByBookUnitId(bookUnitId);
    assert forall i :: 0 <= i < |found| ==> found[i] in found;
    assert found != [] ==> found[0] in found;
    ToDtoList(c, found)
  }
}
