/** Listing every borrowing of a user. */
module GetAllBorrowingsByUserUseCase {
  import opened Wrappers
  import opened BorrowingDto
  import opened BorrowingMapper
  import opened Persistence

  /** `getAllBorrowingsByUser`: the user's stored rows converted one by one, in the order the
      query returns them. There is no null check: a null user matches
      no stored row and yields the empty list. Reading leaves the store as it was. */
  function GetAllBorrowingsByUser(repo: BorrowingRepository, c: Cipher, userId: Option<int>): (r: seq<Dto>)
    reads repo
    requires repo.Valid()
    ensures |r| == |repo.FindByUserId(userId)|
    ensures forall i :: 0 <= i < |r| ==> r[i] == ToDto(c, repo.FindByUserId(userId)[i])
    ensures forall i :: 0 <= i < |r| ==> r[i].userId == userId
    ensures forall x :: x in repo.rows && x.userId == userId ==> ToDto(c, x) in r
    ensures (forall x :: x in repo.rows ==> x.userId != userId) ==> r == []
    ensures userId.None? ==> r == []
  {
    var found := repo.FindByUserId(userId);
    assert forall i :: 0 <= i < |found| ==> found[i] in found;
    assert found != [] ==> found[0] in found;
    ToDtoList(c, found)
  }
}
