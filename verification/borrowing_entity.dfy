/** The persisted borrowing record and the bean-validation constraints on it. */
module BorrowingEntity {
  import opened Wrappers
  import opened Exceptions
  import Seqs

  /** A calendar date as a day number; consecutive days differ by one. */
  type Date = int

  /** A borrowing row. Every field but `active` is nullable. */
  datatype Entity = Entity(
    id: Option<int>,
    userId: Option<int>,
    bookUnitId: Option<int>,
    shippingAddress: Option<string>,
    startDate: Option<Date>,
    endDate: Option<Date>,
    createdAt: Option<Date>,
    active: bool)

  const MIN_ADDRESS_LENGTH := 10
  const MAX_ADDRESS_LENGTH := 100

  const USER_ID_MESSAGE := "User cannot be empty"
  const BOOK_UNIT_ID_MESSAGE := "Book cannot be empty"
  const ADDRESS_BLANK_MESSAGE := "Shipping address cannot be blank"
  const ADDRESS_SIZE_MESSAGE := "shipping address must be between 10 and 100 characters"
  const START_DATE_NULL_MESSAGE := "Start date cannot be empty"
  const START_DATE_PAST_MESSAGE := "Start date must be today or in the future"
  const END_DATE_NULL_MESSAGE := "End date cannot be empty"
  /** The default messages of `@NotNull` and `@PastOrPresent`. */
  const NOT_NULL_MESSAGE := "must not be null"
  const PAST_OR_PRESENT_MESSAGE := "must be a date in the past or in the present"

  /** `@NotBlank` rejects a string that trims to nothing: every character is a
      space or a control character. */
  predicate IsBlank(s: string) {
    forall i :: 0 <= i < |s| ==> s[i] <= ' '
  }

  /** The bean-validation annotations on the entity, one per constraint. */
  datatype Constraint =
    | UserIdNotNull            // `@NotNull` on userId
    | BookUnitIdNotNull        // `@NotNull` on bookUnitId
    | AddressNotBlank          // `@NotBlank` on shippingAddress
    | AddressSize              // `@Size(min = 10, max = 100)` on shippingAddress
    | StartDateNotNull         // `@NotNull` on startDate
    | StartDateFutureOrPresent // `@FutureOrPresent` on startDate
    | EndDateNotNull           // `@NotNull` on endDate
    | CreatedAtNotNull         // `@NotNull` on createdAt
    | CreatedAtPastOrPresent   // `@PastOrPresent` on createdAt

  /** Every constraint, in declaration order. */
  const ALL_CONSTRAINTS: seq<Constraint> := [
    UserIdNotNull, BookUnitIdNotNull, AddressNotBlank, AddressSize, StartDateNotNull,
    StartDateFutureOrPresent, EndDateNotNull, CreatedAtNotNull, CreatedAtPastOrPresent]

  /** Whether entity `e` satisfies constraint `c` when validated on `today`.
      `@Size`, `@FutureOrPresent` and `@PastOrPresent` accept null and leave it
      to `@NotNull`/`@NotBlank`. */
  predicate Holds(c: Constraint, e: Entity, today: Date) {
    match c
    case UserIdNotNull => e.userId.Some?
    case BookUnitIdNotNull => e.bookUnitId.Some?
    case AddressNotBlank => e.shippingAddress.Some? && !IsBlank(e.shippingAddress.value)
    case AddressSize =>
      e.shippingAddress.None?
      || MIN_ADDRESS_LENGTH <= |e.shippingAddress.value| <= MAX_ADDRESS_LENGTH
    case StartDateNotNull => e.startDate.Some?
    case StartDateFutureOrPresent => e.startDate.None? || e.startDate.value >= today
    case EndDateNotNull => e.endDate.Some?
    case CreatedAtNotNull => e.createdAt.Some?
    case CreatedAtPastOrPresent => e.createdAt.None? || e.createdAt.value <= today
  }

  /** The property path a violation of `c` reports. */
  function Field(c: Constraint): string {
    match c
    case UserIdNotNull => "userId"
    case BookUnitIdNotNull => "bookUnitId"
    case AddressNotBlank | AddressSize => "shippingAddress"
    case StartDateNotNull | StartDateFutureOrPresent => "startDate"
    case EndDateNotNull => "endDate"
    case CreatedAtNotNull | CreatedAtPastOrPresent => "createdAt"
  }

  /** The message a violation of `c` reports. */
  function Message(c: Constraint): string {
    match c
    case UserIdNotNull => USER_ID_MESSAGE
    case BookUnitIdNotNull => BOOK_UNIT_ID_MESSAGE
    case AddressNotBlank => ADDRESS_BLANK_MESSAGE
    case AddressSize => ADDRESS_SIZE_MESSAGE
    case StartDateNotNull => START_DATE_NULL_MESSAGE
    case StartDateFutureOrPresent => START_DATE_PAST_MESSAGE
    case EndDateNotNull => END_DATE_NULL_MESSAGE
    case CreatedAtNotNull => NOT_NULL_MESSAGE
    case CreatedAtPastOrPresent => PAST_OR_PRESENT_MESSAGE
  }

  /** The constraints that do not depend on the date of validation. */
  predicate Persistable(e: Entity) {
    && e.userId.Some? && e.bookUnitId.Some?
    && e.shippingAddress.Some? && !IsBlank(e.shippingAddress.value)
    && MIN_ADDRESS_LENGTH <= |e.shippingAddress.value| <= MAX_ADDRESS_LENGTH
    && e.startDate.Some? && e.endDate.Some? && e.createdAt.Some?
  }

  /** The entity passes bean validation on `today`. */
  predicate IsValid(e: Entity, today: Date) {
    Persistable(e) && e.startDate.value >= today && e.createdAt.value <= today
  }

  /** Every constraint is one of the declared ones. */
  lemma Listed(c: Constraint)
    ensures c in ALL_CONSTRAINTS
  {
    match c
    case UserIdNotNull => assert ALL_CONSTRAINTS[0] == c;
    case BookUnitIdNotNull => assert ALL_CONSTRAINTS[1] == c;
    case AddressNotBlank => assert ALL_CONSTRAINTS[2] == c;
    case AddressSize => assert ALL_CONSTRAINTS[3] == c;
    case StartDateNotNull => assert ALL_CONSTRAINTS[4] == c;
    case StartDateFutureOrPresent => assert ALL_CONSTRAINTS[5] == c;
    case EndDateNotNull => assert ALL_CONSTRAINTS[6] == c;
    case CreatedAtNotNull => assert ALL_CONSTRAINTS[7] == c;
    case CreatedAtPastOrPresent => assert ALL_CONSTRAINTS[8] == c;
  }

  /** Validity is the conjunction of the per-annotation constraints. */
  lemma ValidIffAllHold(e: Entity, today: Date)
    ensures IsValid(e, today) <==> forall c :: Holds(c, e, today)
  {
    if !IsValid(e, today) {
      if !Holds(UserIdNotNull, e, today) {
      } else if !Holds(BookUnitIdNotNull, e, today) {
      } else if !Holds(AddressNotBlank, e, today) {
      } else if !Holds(AddressSize, e, today) {
      } else if !Holds(StartDateNotNull, e, today) {
      } else if !Holds(EndDateNotNull, e, today) {
      } else if !Holds(CreatedAtNotNull, e, today) {
      } else if !Holds(StartDateFutureOrPresent, e, today) {
      } else {
        assert !Holds(CreatedAtPastOrPresent, e, today);
      }
    }
  }

  /** The constraints `e` violates on `today`, in declaration order: exactly the
      ones that fail, and none exactly when the entity is valid. */
  function Failed(e: Entity, today: Date): (cs: seq<Constraint>)
    ensures forall c :: c in cs <==> !Holds(c, e, today)
    ensures cs == [] <==> IsValid(e, today)
  {
    var cs := Seqs.Select(ALL_CONSTRAINTS, c => !Holds(c, e, today));
    assert forall c :: c in cs <==> !Holds(c, e, today) by {
      forall c ensures c in cs <==> !Holds(c, e, today) { Listed(c); }
    }
    ValidIffAllHold(e, today);
    cs
  }

  /** The violation bean validation reports for a failed constraint. */
  function Describe(c: Constraint): Violation {
    Violation(Field(c), Some(Message(c)))
  }

  /** The violation reported for each constraint, in order. */
  function DescribeAll(cs: seq<Constraint>): (vs: seq<Violation>)
    ensures |vs| == |cs|
    ensures forall i :: 0 <= i < |cs| ==> vs[i] == Describe(cs[i])
  {
    if cs == [] then [] else [Describe(cs[0])] + DescribeAll(cs[1..])
  }

  /** The violations bean validation reports, as (property path, message): the
      description of each failed constraint in declaration order, and none
      exactly when the entity is valid. */
  function Violations(e: Entity, today: Date): (vs: seq<Violation>)
    ensures vs == [] <==> IsValid(e, today)
  {
    DescribeAll(Failed(e, today))
  }

  /** A well-formed address of the given text, as the tests use. */
  function Sample(address: string, start: Date, end: Date, created: Date): Entity {
    Entity(None, Some(1), Some(1), Some(address), Some(start), Some(end), Some(created), false)
  }

  const TEST_ADDRESS := "123 Main Street, Apt 4B, New York, NY 10001"

  /** A start and a creation on `today` are accepted. */
  lemma TodayIsAccepted(today: Date)
    ensures IsValid(Sample(TEST_ADDRESS, today, today + 14, today), today)
  {
    assert TEST_ADDRESS[0] == '1';
  }

  /** "123 Main" (8 characters) fails the size rule and only it. */
  lemma ShortAddressRejected(today: Date, e: Entity)
    requires e == Sample("123 Main", today, today + 14, today)
    ensures forall c :: !Holds(c, e, today) <==> c == AddressSize
  {
    assert "123 Main"[0] == '1';
  }

  /** The empty address fails both address rules. */
  lemma EmptyAddressRejected(today: Date)
    ensures !Holds(AddressNotBlank, Sample("", today, today + 14, today), today)
    ensures !Holds(AddressSize, Sample("", today, today + 14, today), today)
  {
  }

  /** A start before `today`, and a creation after it, each fail their rule and only it. */
  lemma DateBoundsRejected(today: Date, early: Entity, late: Entity)
    requires early == Sample(TEST_ADDRESS, today - 1, today + 14, today)
    requires late == Sample(TEST_ADDRESS, today, today + 14, today + 1)
    ensures forall c :: !Holds(c, early, today) <==> c == StartDateFutureOrPresent
    ensures forall c :: !Holds(c, late, today) <==> c == CreatedAtPastOrPresent
  {
    assert TEST_ADDRESS[0] == '1';
  }

  /** No entity constraint relates the end date to the start date: start =
      today + 14 with end = today passes. */
  lemma EndBeforeStartPasses(today: Date)
    ensures IsValid(Sample(TEST_ADDRESS, today + 14, today, today), today)
  {
    assert TEST_ADDRESS[0] == '1';
  }
}
