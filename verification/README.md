# Borrowing service — a Dafny model

This project models the bookkeeping core of the LibraFlow borrowing
microservice (a Spring Boot service written in Java). It covers:

- **The borrowing record and its validation rules.** This is the
  bean-validation annotations on `BorrowingEntity`, plus the standalone
  end-after-start validator.
- **The record ↔ transfer-object mapper.** It takes an abstract encrypt/decrypt
  pair for the shipping address, and stamps the creation date only on new
  records.
- **The borrowing repository.** It is a class holding the stored rows and the
  identity counter, with `save`, `delete`, `deleteById`, `findById` and the
  derived `findBy...` queries.
- **The use cases.** These are create, get by id, list by user, list inactive
  by user and list by book unit.
- **The nightly retention sweep.** It runs a `for` loop of deletes over the
  store.
- **The global exception handler.** It maps each exception kind to an HTTP
  status and a JSON body, including the rewrite of subscription-related
  messages.

Modelling choices:

- Dates are integer day numbers. The current date is a `today` parameter.
- Every nullable Java field or argument is an `Option`.
- Every thrown exception is a `Failure` of a `Result` whose error is an
  `Exceptions.Exception`.
- The store keeps its rows in insertion order, which is ascending id order
  because ids are generated in increasing order. Every query returns the
  matching rows in that order (see "Left out" for why this is a choice of
  the model). The `Valid()` invariant says:
  - ids are present, unique and below the next generated id;
  - every stored row satisfies the constraints that do not depend on the
    date.

Behaviour that follows from the code as written, and that the model states:

- `createBorrowing` with a transfer object that already carries an id always
  fails. `toEntity` leaves `createdAt` null for such an object, and
  `@NotNull` on `createdAt` then rejects the row
  (`BorrowingMapper.ExistingIdFailsValidation`,
  `AddBorrowingUseCase.CreateBorrowing`). When the id is not stored, the row
  would be inserted, and the insert inside `save` fails with a constraint
  violation, which the handler turns into a 400. When the id is stored, the
  row would be updated, and the update is only written when the transaction
  commits. The commit then fails and everything is rolled back. The
  resulting transaction exception has no handler of its own, so it becomes
  a 500 (`GlobalExceptionHandler.java:69-76`).
- `getBorrowing` of an unknown id throws a plain `RuntimeException`. Only the
  catch-all handler (`GlobalExceptionHandler.java:69-76`) catches it, so it
  surfaces as a 500.
- `createBorrowing` (`AddBorrowingUseCase.java:21-29`) makes no
  subscription-eligibility check.
- `getAllBorrowingsByUser` has no null check. A null user simply matches no
  row.
- The message match in `handleIllegalStateException` is case-sensitive. For
  example, "Subscription" with a capital S is passed through unchanged.

## Model

| member | source | states |
|---|---|---|
| BorrowingEntity.ValidIffAllHold | borrowing_service/app/src/main/java/backend2/persistence/entity/BorrowingEntity.java:22-42 | a record is valid exactly when every one of the nine annotations (two user/book not-null, address not-blank and 10..100 size, start not-null and future-or-present, end not-null, created not-null and past-or-present) holds |
| BorrowingEntity.Failed | borrowing_service/app/src/main/java/backend2/persistence/entity/BorrowingEntity.java:22-42 | the violated constraints are exactly those that do not hold, and there are none exactly when the record is valid |
| BorrowingEntity.Violations | borrowing_service/app/src/main/java/backend2/persistence/entity/BorrowingEntity.java:22-42 | the reported (field, message) list is empty exactly when the record is valid |
| BorrowingEntity.TodayIsAccepted | borrowing_service/app/src/test/java/backend2/persistence/entity/BorrowingEntityTest.java:30-46 | a well-formed record starting and created today is valid |
| BorrowingEntity.ShortAddressRejected | borrowing_service/app/src/test/java/backend2/persistence/entity/BorrowingEntityTest.java:112-131 | "123 Main" (8 characters) violates the size rule and no other rule |
| BorrowingEntity.EmptyAddressRejected | borrowing_service/app/src/test/java/backend2/persistence/entity/BorrowingEntityTest.java:91-109 | the empty address violates both the not-blank and the size rule |
| BorrowingEntity.DateBoundsRejected | borrowing_service/app/src/main/java/backend2/persistence/entity/BorrowingEntity.java:32-42 | a start of yesterday violates only future-or-present; a creation of tomorrow violates only past-or-present |
| BorrowingEntity.EndBeforeStartPasses | borrowing_service/app/src/main/java/backend2/persistence/entity/BorrowingEntity.java:32-37 | the entity rules do not relate the two dates: start today+14 with end today is valid |
| EndDateAfterStartDateValidator.IsValid | borrowing_service/app/src/main/java/backend2/validation/EndDateAfterStartDateValidator.java:16-21 | a missing start or end date passes; with both present the verdict is true iff end is strictly after start |
| EndDateAfterStartDateValidator.SameDayRejected | borrowing_service/app/src/main/java/backend2/validation/EndDateAfterStartDateValidator.java:20 | equal start and end dates are rejected |
| EndDateAfterStartDateValidator.OnlyDatesMatter | borrowing_service/app/src/main/java/backend2/validation/EndDateAfterStartDateValidator.java:16-21 | two transfer objects with the same dates get the same verdict, whatever their other fields |
| BorrowingMapper.IdentityIsInverse | borrowing_service/app/src/test/java/backend2/config/TestConfig.java:17-27 | the pass-through test cipher decrypts what it encrypts |
| BorrowingMapper.ToDto | borrowing_service/app/src/main/java/backend2/business/mapper/BorrowingMapper.java:22-30 | id, user, book unit, dates and active flag are copied; the address is the decryption of the stored one |
| BorrowingMapper.ToDtoOrNull | borrowing_service/app/src/main/java/backend2/business/mapper/BorrowingMapper.java:17-20 | null maps to null and only null does |
| BorrowingMapper.ToDtoList | borrowing_service/app/src/main/java/backend2/business/borrowing/GetAllBorrowingsByUserUseCase.java:23-26 | the list conversion keeps length and order and converts element by element; every input row's conversion appears |
| BorrowingMapper.ToEntity | borrowing_service/app/src/main/java/backend2/business/mapper/BorrowingMapper.java:38-47 | fields are copied, the address is encrypted, and the creation date is today for a record without id and null otherwise |
| BorrowingMapper.ToEntityOrNull | borrowing_service/app/src/main/java/backend2/business/mapper/BorrowingMapper.java:33-36 | null maps to null and only null does |
| BorrowingMapper.RoundTrip | borrowing_service/app/src/main/java/backend2/business/mapper/BorrowingMapper.java:22-47 | when decryption undoes encryption, converting to an entity and back returns the transfer object unchanged |
| BorrowingMapper.RoundTripOrNull | borrowing_service/app/src/main/java/backend2/business/mapper/BorrowingMapper.java:17-47 | the same round trip through the null-tolerant entry points |
| BorrowingMapper.ExistingIdFailsValidation | borrowing_service/app/src/main/java/backend2/business/mapper/BorrowingMapper.java:45 | an entity made from a transfer object with an id has no creation date and so never passes validation |
| Persistence.BorrowingRepository.FindById | borrowing_service/app/src/main/java/backend2/persistence/BorrowingRepository.java:10 | the result is the stored row with that id, and is empty exactly when none is stored |
| Persistence.BorrowingRepository.FindByUserId | borrowing_service/app/src/main/java/backend2/persistence/BorrowingRepository.java:11 | exactly the stored rows of the user, in store order |
| Persistence.BorrowingRepository.FindByUserIdAndActiveTrue | borrowing_service/app/src/main/java/backend2/persistence/BorrowingRepository.java:12 | exactly the stored active rows of the user, in store order |
| Persistence.BorrowingRepository.FindByUserIdAndActiveFalse | borrowing_service/app/src/main/java/backend2/persistence/BorrowingRepository.java:13 | exactly the stored inactive rows of the user, in store order |
| Persistence.BorrowingRepository.FindByBookUnitId | borrowing_service/app/src/main/java/backend2/business/borrowing/GetAllBorrowingsByBookUnitIdUseCase.java:21 | exactly the stored rows of the book unit, in store order |
| Persistence.BorrowingRepository.FindByEndDateBeforeAndActiveFalse | borrowing_service/app/src/main/java/backend2/business/retention/DataRetentionService.java:25 | exactly the stored inactive rows whose end date is strictly before the given date, in store order |
| Persistence.BorrowingRepository.Save | borrowing_service/app/src/test/java/backend2/persistence/BorrowingServiceIntegrationTest.java:53-162 | a record failing validation (one missing its creation date, say) leaves the store unchanged and fails with its violations: at once when it would be inserted, as a failed commit when it would update a stored row; a stored id is overwritten in place; otherwise the record is appended under a fresh id; afterwards findById of the saved id returns the saved record and every other id finds what it found before |
| Persistence.BorrowingRepository.Delete | borrowing_service/app/src/main/java/backend2/business/retention/DataRetentionService.java:27 | a record without id changes nothing; otherwise the row with its id is gone and every other id finds what it found before |
| Persistence.BorrowingRepository.DeleteById | borrowing_service/app/src/test/java/backend2/persistence/BorrowingServiceIntegrationTest.java:88-98 | findById of the deleted id is empty afterwards, and every other id finds what it found before |
| AddBorrowingUseCase.CreateBorrowing | borrowing_service/app/src/main/java/backend2/business/borrowing/AddBorrowingUseCase.java:21-29 | null input fails with "BorrowingDTO cannot be null" and changes nothing; an invalid converted record fails with its violations and changes nothing; an input with an id always fails, with a constraint violation when the id is not stored and with a failed commit when it is; a valid new record is appended once under a fresh id with creation date today and the encrypted address, and the result is its conversion back; with an inverse cipher the result is the input plus the new id |
| GetBorrowingUseCase.GetBorrowing | borrowing_service/app/src/main/java/backend2/business/borrowing/GetBorrowingUseCase.java:19-27 | a null id fails with "Borrowing ID cannot be null"; success exactly when the id is stored, with the converted row; an unknown id fails with a runtime exception "Borrowing not found with id: " and the id in decimal |
| GetBorrowingUseCase.NotFoundMessageNamesId | borrowing_service/app/src/main/java/backend2/business/borrowing/GetBorrowingUseCase.java:26 | different ids give different not-found messages |
| GetAllBorrowingsByUserUseCase.GetAllBorrowingsByUser | borrowing_service/app/src/main/java/backend2/business/borrowing/GetAllBorrowingsByUserUseCase.java:22-27 | the i-th result is the conversion of the i-th row of findByUserId; every result carries the user; every row of the user appears; a user without rows (or a null user) gets the empty list |
| GetInactiveBorrowingsByUserUseCase.GetInactiveBorrowingsByUser | borrowing_service/app/src/main/java/backend2/business/borrowing/GetInactiveBorrowingsByUserUseCase.java:22-31 | a null user fails with "User ID cannot be null"; otherwise the i-th result is the conversion of the i-th inactive row of the user, every result is inactive and carries the user, and every such row appears |
| GetAllBorrowingsByBookUnitIdUseCase.GetAllBorrowingsByBookUnitId | borrowing_service/app/src/main/java/backend2/business/borrowing/GetAllBorrowingsByBookUnitIdUseCase.java:20-25 | the i-th result is the conversion of the i-th row of findByBookUnitId; every result carries the book unit; every row of the unit appears; a unit without rows gets the empty list |
| DataRetentionService.Retained | borrowing_service/app/src/main/java/backend2/business/retention/DataRetentionService.java:25-28 | the surviving rows are exactly the rows that are not inactive-and-ended-before-the-cutoff; active rows and rows ending on or after the cutoff always survive; their relative order is kept |
| DataRetentionService.CutoffIsStrict | borrowing_service/app/src/main/java/backend2/business/retention/DataRetentionService.java:22-25 | with the 730-day retention, an inactive row that ended 731 days ago is purged and ones that ended 730 or 729 days ago are kept |
| DataRetentionService.SweepIdempotent | borrowing_service/app/src/main/java/backend2/business/retention/DataRetentionService.java:21-28 | sweeping twice on the same day leaves what sweeping once leaves |
| DataRetentionService.DeleteStep | borrowing_service/app/src/main/java/backend2/business/retention/DataRetentionService.java:26-27 | deleting the next fetched row from what is left removes exactly that row |
| DataRetentionService.SweepComplete | borrowing_service/app/src/main/java/backend2/business/retention/DataRetentionService.java:25-28 | once every fetched row is deleted, the store is the retained rows |
| DataRetentionService.CleanupExpiredData | borrowing_service/app/src/main/java/backend2/business/retention/DataRetentionService.java:21-29 | after the loop of deletes, the store is exactly the retained rows of the old store, in order, and the id counter is unchanged |
| GlobalExceptionHandler.PutAll | borrowing_service/app/src/main/java/backend2/exception/GlobalExceptionHandler.java:29-34 | the map's keys are exactly the fields with an error, and each maps to the message of the last error for that field, a null message included |
| GlobalExceptionHandler.HandleValidationExceptions | borrowing_service/app/src/main/java/backend2/exception/GlobalExceptionHandler.java:28-36 | status 400 with the field-to-last-message map |
| GlobalExceptionHandler.HandleConstraintViolationExceptions | borrowing_service/app/src/main/java/backend2/exception/GlobalExceptionHandler.java:40-48 | status 400 with the property-path-to-last-message map |
| GlobalExceptionHandler.HandleResourceNotFoundException | borrowing_service/app/src/main/java/backend2/exception/GlobalExceptionHandler.java:53-57 | status 404 and a single "message" of "Resource not found: " followed by the message |
| GlobalExceptionHandler.HandleHttpRequestMethodNotSupportedException | borrowing_service/app/src/main/java/backend2/exception/GlobalExceptionHandler.java:62-66 | status 405 and a single "message" of "Method not allowed: " followed by the message |
| GlobalExceptionHandler.HandleInternalServerError | borrowing_service/app/src/main/java/backend2/exception/GlobalExceptionHandler.java:71-76 | status 500 and a single "message" of "An unexpected error occurred: " followed by the message |
| GlobalExceptionHandler.HandleIllegalStateException | borrowing_service/app/src/main/java/backend2/exception/GlobalExceptionHandler.java:81-90 | always 400; a message with "subscription" or "cover the entire borrowing period" somewhere in it becomes the fixed explanation; any other message, null included, is passed through |
| GlobalExceptionHandler.IllegalStateExamples | borrowing_service/app/src/main/java/backend2/exception/GlobalExceptionHandler.java:84-88 | "No active subscription found" is rewritten; "Subscription" (capital S) and a null message are passed through |
| GlobalExceptionHandler.HandleException | borrowing_service/app/src/main/java/backend2/exception/GlobalExceptionHandler.java:26-81 | each exception kind reaches its handler; status 400 exactly for validation, constraint and illegal-state errors; 500 exactly for illegal-argument errors, failed commits and other runtime errors |
| Text.Concat | borrowing_service/app/src/main/java/backend2/exception/GlobalExceptionHandler.java:55 | Java string concatenation: the prefix followed by the message, or by "null" when the message is null |
| Text.ContainsAt | borrowing_service/app/src/main/java/backend2/exception/GlobalExceptionHandler.java:84 | an occurrence at any position makes `contains` true |
| Text.ContainsWitness | borrowing_service/app/src/main/java/backend2/exception/GlobalExceptionHandler.java:84 | `contains` is true only when there is an occurrence at some position |
| Text.NatToDecimalRoundTrip | borrowing_service/app/src/main/java/backend2/business/borrowing/GetBorrowingUseCase.java:26 | reading back the decimal digits of a natural number gives the number |
| Text.IntToDecimalInjective | borrowing_service/app/src/main/java/backend2/business/borrowing/GetBorrowingUseCase.java:26 | different integers print differently |

## Left out

- The Kafka subscription-check listener (`SubscriptionCheckResultListener`) is not part of this model. It does cross-thread correlation, and the correlation map it reads does not exist in `AddBorrowingUseCase`.
- The REST controller and the application bootstrap are not part of this model. They only route and delegate.
- `@Transactional` and `@Scheduled` are not modelled beyond their effect. Each operation is one atomic step that either completes or leaves the store as it was (a rollback). The sweep is a method called with `today`.
- Query order: the repository queries (`BorrowingRepository.java:11-13`, and `findByBookUnitId` and `findByEndDateBeforeAndActiveFalse`) have no `OrderBy`, so the program promises no order for their results. The model fixes that order to the store's ascending id order. The `Ascending` clauses on the `FindBy...` members, and the order of the use cases' results, hold of the model only.
- Persistence.BorrowingRepository.Save: the message of the failed-commit exception is taken to be "Could not commit JPA transaction", from Spring's JPA transaction manager. That manager is not part of this model.
- GlobalExceptionHandler.HandleValidationExceptions: every binding error is taken to be a field error. A global (object-level) error would make the `(FieldError)` cast at `GlobalExceptionHandler.java:31` throw `ClassCastException`, and that case is not modelled. Only a class-level constraint produces such an error, and the one class-level constraint, `@ValidEndDate`, is attached nowhere.
- `LocalDate.now()` is the `today` parameter. Calendar arithmetic is plain integer arithmetic on day numbers.
- `EncryptionService` is not part of this model. It is an arbitrary pair of functions; the round-trip properties require that decryption undoes encryption.
- Logging in the catch-all handler is left out, because it has no effect on the response.
- Persistence.BorrowingRepository.Save: `Integer` ids are unbounded integers, so identity-column overflow is not modelled. String lengths count characters rather than UTF-16 code units.
- Persistence.BorrowingRepository.Save: bean validation reports a set of violations in no specified order; the model lists them in declaration order.
- Persistence.BorrowingRepository.Save: with an id the store does not hold, the record is inserted under a new id (merge of a detached entity). A record whose `createdAt` is null never reaches this point, because validation refuses it first.
- Persistence.BorrowingRepository.Delete: `delete` of a record without id does nothing. Passing a null id to `findById` or `deleteById` is not modelled, because no caller in the core does so.
- `findAll`, `deleteAll`, `count`, paging and the other inherited `JpaRepository` operations are left out, because nothing in the core calls them.
- The `@ValidEndDate` annotation is not attached to the transfer object or the entity anywhere in the code. The validator is modelled standalone and is not applied on save.
- AddBorrowingUseCase.CreateBorrowing: "the mapper is never invoked" and "save is called exactly once" are interaction counts. The model states them through their effects: the store is unchanged, or has gained exactly one row.
- Lombok builders, getters, setters, `equals`, `hashCode` and `toString` are left out. They are generated boilerplate.
