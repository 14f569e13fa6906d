/** Listing the returned (inactive) borrowings of a user. */
module GetInactiveBorrowingsByUserUseCase {
  import opened Wrappers
  import opened Exceptions
  import opened BorrowingDto
  import opened BorrowingMapper
  import opened Persistence

  const NULL_USER_MESSAGE := "User ID cannot be null"

  /** `getInactiveBorrowingsByUser`: a null user is refused; otherwise the
      user's inactive rows converted one by one, in the order the query returns them,
      and no active row. Reading leaves the store as it was. */
  function GetInactiveBorrowingsByUser(repo: BorrowingRepository, c: Cipher, userId: Option<int>)
    : (r: Result<seq<Dto>, Exception>)
    reads repo
    requires repo.Valid()
    ensures userId.None? ==> r == Failure(IllegalArgument(Some(NULL_USER_MESSAGE)))
    ensures userId.Some? ==> r.Success?
    ensures r.Success? ==> |r.value| == |repo.FindByUserIdAndActiveFalse(userId)|
    ensures r.Success? ==> forall i :: 0 <= i < |r.value| ==>
      r.value[i] == ToDto(c, repo.FindByUserIdAndActiveFalse(userId)[i])
    ensures r.Success? ==> forall i :: 0 <= i < |r.value| ==>
      !r.value[i].active && r.value[i].userId == userId
    ensures r.Success? ==> forall x :: x in repo.rows && x.userId == userId && !x.active ==>
      ToDto(c, x) in r.value
  {
    if userId.None? then
      Failure(IllegalArgument(Some(NULL_USER_MESSAGE)))
    else
      var found := repo.FindByUserIdAndActiveFalse(userId);
      assert forall i :: 0 <= i < |found| ==> found[i] in found;
      Success(ToDtoList(c, found))
  }
}
