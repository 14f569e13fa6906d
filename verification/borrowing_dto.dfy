/** The borrowing record as the service's callers see it. */
module BorrowingDto {
  import opened Wrappers
  import opened BorrowingEntity

  /** The transfer object: no creation date, the address in plaintext. */
  datatype Dto = Dto(
    id: Option<int>,
    userId: Option<int>,
    bookUnitId: Option<int>,
    shippingAddress: Option<string>,
    startDate: Option<Date>,
    endDate: Option<Date>,
    active: bool)
}
