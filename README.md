# Coupon domain model

A Dafny model of the coupon back end's domain core: the `Coupon` aggregate
(its validating factory, field rules, ACTIVE → DELETED transition and the
`isExpired` / `isDeleted` predicates), the repository port as a store of
coupon rows keyed by id, and the three use cases — create, get by id and
soft delete — that run the entity against that store.

Layout, one module per file:

- `wrappers.dfy` — `Wrappers`: `Option` for nullable Java references and
  `Result` for operations that throw.
- `text.dfy` — `Text`: Java's `String.trim()` (strip every code point up
  to U+0020 from both ends) and `replaceAll("[^a-zA-Z0-9]", "")`, with their
  properties.
- `coupon.dfy` — `Coupons`: the entity as a class whose fields the
  constructor assigns and `Delete` mutates in place; the private validators
  as pure functions; `Violations`, every creation rule a set of arguments
  breaks in check order; `CouponData`, the entity's state as a value.
- `repository.dfy` — `Repository`: the store as a class holding
  `rows: map<Id, CouponData>`; `Save` upserts, the three lookups are
  read-only functions whose filters follow the JPQL queries of the
  persistence adapter.
- `usecases.dfy` — `UseCases`: one class per use case holding its
  repository; `Execute` of create and delete are methods that write the
  store, `Execute` of get is a function of it.
- `scenarios.dfy` — `Scenarios`: the worked examples and multi-step
  scenarios of the repository's tests, stated on the model.

Conventions. The clock is an explicit `now: Timestamp` (an `int`; only
order matters). `BigDecimal` is `real`, compared exactly. UUIDs are the
abstract `Id`; a coupon saved without one gets an id not yet in the store.
Errors are the variants `InvalidInput(violation)`, `NotFound(id)` and
`AlreadyDeleted` of `CouponError`. The repository's ghost `saveCount`
counts calls to `Save`, so the use cases can state how often they write.

Two details of the code are easy to misread:

- an expiration date equal to `now` is accepted, since only a date strictly
  before `now` is rejected (Coupon.java line 126);
- the description is blank-checked with `trim()` but stored untrimmed.

## Model

| member | source | states |
|---|---|---|
| Text.TrimLeading | backend/src/main/java/com/coupon/api/domain/Coupon.java:92 | the leading part `trim()` removes is all code points ≤ U+0020 and what remains is a suffix starting with a kept character |
| Text.TrimTrailing | backend/src/main/java/com/coupon/api/domain/Coupon.java:92 | the trailing part `trim()` removes is all code points ≤ U+0020 and what remains is a prefix ending with a kept character |
| Text.Trim | backend/src/main/java/com/coupon/api/domain/Coupon.java:92 | what `trim()` returns is no longer than its input, and is empty or starts and ends with a character above U+0020 |
| Text.TrimKeepsTheMiddle | backend/src/main/java/com/coupon/api/domain/Coupon.java:92 | `trim()` returns the piece of `s` between a leading and a trailing run of code points ≤ U+0020: it removes exactly those runs and nothing else |
| Text.TrimIsEmptyIffBlank | backend/src/main/java/com/coupon/api/domain/Coupon.java:92-94 | `s.trim().isEmpty()` holds exactly when every character of `s` is ≤ U+0020 |
| Text.StripNonAlphanumeric | backend/src/main/java/com/coupon/api/domain/Coupon.java:96 | the stripped code holds only ASCII letters and digits and is no longer than the input |
| Text.StripDistributes | backend/src/main/java/com/coupon/api/domain/Coupon.java:96 | stripping works character by character and keeps the original order: it distributes over concatenation |
| Text.StripKeepsExactlyAlphanumerics | backend/src/main/java/com/coupon/api/domain/Coupon.java:96 | every occurrence of every letter and digit is kept and every other character is dropped (counted per character) |
| Text.StripKeepsAlphanumericString | backend/src/main/java/com/coupon/api/domain/Coupon.java:96 | a code of letters and digits only is stored as given |
| Text.StripIsIdempotent | backend/src/main/java/com/coupon/api/domain/Coupon.java:96 | stripping a stripped code changes nothing |
| Text.StripEmptyIffNoAlphanumeric | backend/src/main/java/com/coupon/api/domain/Coupon.java:96 | stripping leaves nothing exactly when the input has no letter or digit |
| Text.BlankStripsToEmpty | backend/src/main/java/com/coupon/api/domain/Coupon.java:92-96 | a blank code has nothing left after stripping, so the "required" check can only reject codes the length check would also reject |
| Coupons.SanitizeAndValidateCode | backend/src/main/java/com/coupon/api/domain/Coupon.java:91-103 | a code is accepted iff present and it strips to exactly 6 characters; the stored code is the stripped one, 6 letters/digits; failure is "Code is required" for null or blank, else the length rule |
| Coupons.ValidateDescription | backend/src/main/java/com/coupon/api/domain/Coupon.java:105-110 | a description is accepted iff present and it has a character above U+0020; it is kept unchanged (untrimmed) |
| Coupons.ValidateDiscountValue | backend/src/main/java/com/coupon/api/domain/Coupon.java:112-120 | a discount is accepted iff present and ≥ 0.5 (inclusive); null and too-low are distinct errors; the value is kept |
| Coupons.ValidateExpirationDate | backend/src/main/java/com/coupon/api/domain/Coupon.java:122-130 | an expiration is accepted iff present and not strictly before `now` (equal is accepted); null and past are distinct errors |
| Coupons.AfterDelete | backend/src/main/java/com/coupon/api/domain/Coupon.java:75-81 | deletion fails with AlreadyDeleted exactly when the status is DELETED; otherwise the status becomes DELETED, `updatedAt` becomes `now` and every other field is unchanged |
| Coupons.Created | backend/src/main/java/com/coupon/api/domain/Coupon.java:63-67 | a newly built coupon has no id yet, is ACTIVE and not redeemed, is published exactly when the flag is true (null means false), and was created and last updated at `now` |
| Coupons.Message | backend/src/main/java/com/coupon/api/domain/Coupon.java:93-127 | each invalid-input rule carries the text the source throws; the pieces the API tests look for ("6 alphanumeric characters", "at least 0.5", "cannot be in the past", CouponControllerIntegrationTest.java lines 101, 117 and 133) occur in the matching texts |
| Coupons.Coupon.New | backend/src/main/java/com/coupon/api/domain/Coupon.java:57-68 | given values its validators accepted, the new entity satisfies the entity's rules and its state is `Created`: no id, ACTIVE, published = the flag or false when null, not redeemed, createdAt = updatedAt = now |
| Coupons.Coupon.Create | backend/src/main/java/com/coupon/api/domain/Coupon.java:57-73 | creation fails iff some rule is broken, with the first broken rule in the order code, description, discount, expiration; on success the coupon is well formed, holds the stripped code and the given fields, is ACTIVE, not redeemed, not expired at `now` and not deleted |
| Coupons.Coupon.Delete | backend/src/main/java/com/coupon/api/domain/Coupon.java:75-81 | afterwards the coupon is deleted and still satisfies the entity's rules; on a DELETED coupon it fails with AlreadyDeleted and changes nothing; otherwise it succeeds and the new state is the one `AfterDelete` gives |
| Coupons.Coupon.IsExpired | backend/src/main/java/com/coupon/api/domain/Coupon.java:83-85 | a coupon is expired at `now` exactly when the factory would refuse its expiration date as past at `now` |
| Coupons.ViolationsInCheckOrder | backend/src/main/java/com/coupon/api/domain/Coupon.java:59-62 | `Violations`, the rules the arguments break in check order, is empty exactly when all four validators accept; otherwise its first rule is the error of the first validator that refuses, in the order code, description, discount, expiration |
| Coupons.AcceptedIffAllRulesHold | backend/src/main/java/com/coupon/api/domain/Coupon.java:59-62 | no rule is broken exactly when all four fields are present, the code strips to 6 characters, the description is not blank, the discount is at least 0.5 and the expiration is not before `now` |
| Coupons.CreatedIsWellFormed | backend/src/main/java/com/coupon/api/domain/Coupon.java:59-67 | a coupon built from arguments meeting every rule has a 6-character alphanumeric code, a non-blank description, discount ≥ 0.5, is ACTIVE, not redeemed, published only when the flag is true, and not expired at `now` |
| Coupons.DeleteIsOneWay | backend/src/main/java/com/coupon/api/domain/Coupon.java:75-81 | after a successful deletion, every further deletion fails with AlreadyDeleted |
| Coupons.DeletedIffDeletionRefused | backend/src/main/java/com/coupon/api/domain/Coupon.java:87-89 | `isDeleted()` holds exactly when `delete()`, at whatever time, is refused with AlreadyDeleted |
| Coupons.DeletePreservesWellFormed | backend/src/main/java/com/coupon/api/domain/Coupon.java:75-81 | deletion keeps every field rule of the coupon |
| Repository.FreshIdExists | backend/src/main/java/com/coupon/api/domain/Coupon.java:23-27 | however many coupons are stored, an unused identifier exists for the next new coupon |
| Repository.UuidBound | backend/src/main/java/com/coupon/api/domain/Coupon.java:23-27 | every finite set of identifiers has an upper bound |
| Repository.CouponRepository.Save | backend/src/main/java/com/coupon/api/application/port/CouponRepository.java:10 | upsert keyed by id: a coupon without id gets one not yet stored; the row under its id becomes its state and no other row changes; the saved coupon is returned; the store's invariant is kept |
| Repository.CouponRepository.FindByIdAndNotDeleted | backend/src/main/java/com/coupon/api/infrastructure/persistence/CouponJpaRepository.java:15-16 | returns the row with that id exactly when it exists and its status is not DELETED |
| Repository.CouponRepository.FindByIdIncludingDeleted | backend/src/main/java/com/coupon/api/infrastructure/persistence/CouponJpaRepository.java:18-19 | returns the row with that id exactly when it exists, whatever its status |
| Repository.CouponRepository.FindByCodeAndNotDeleted | backend/src/main/java/com/coupon/api/infrastructure/persistence/CouponJpaRepository.java:21-22 | returns only a stored row whose code equals `code` and whose status is not DELETED, and returns nothing exactly when no such row exists |
| Repository.ExcludingIsFilteredIncluding | backend/src/main/java/com/coupon/api/application/port/CouponRepository.java:12-14 | the excluding lookup is the including lookup filtered by status, and a found row carries the id it was looked up by |
| Repository.DeletedRowIsHiddenButKept | backend/src/test/java/com/coupon/api/controller/CouponControllerIntegrationTest.java:169-190 | a soft-deleted coupon is not found by the excluding lookup (by id or code) but its row is still stored with status DELETED |
| UseCases.CreateCouponUseCase.Execute | backend/src/main/java/com/coupon/api/application/usecase/CreateCouponUseCase.java:16-38 | a request breaking a rule fails with the first broken rule and the store and save count are untouched; otherwise exactly one save stores the new coupon under a fresh id, and the response equals the stored coupon's fields: stripped 6-character code, given description, discount and expiration, ACTIVE, not redeemed, published iff requested true |
| UseCases.GetCouponByIdUseCase.Execute | backend/src/main/java/com/coupon/api/application/usecase/GetCouponByIdUseCase.java:18-32 | NotFound exactly when the id is unknown or the coupon is soft-deleted; otherwise the response equals the stored coupon's fields and is ACTIVE; as a function of the store it changes nothing |
| UseCases.DeleteCouponUseCase.Execute | backend/src/main/java/com/coupon/api/application/usecase/DeleteCouponUseCase.java:17-24 | unknown id gives NotFound, an already-deleted coupon gives AlreadyDeleted, and neither writes; otherwise exactly one save replaces only that row by its deleted state, after which the excluding lookup misses it and the including lookup shows DELETED |
| UseCases.ResponseOmitsOnlyTimestamps | backend/src/main/java/com/coupon/api/application/usecase/CreateCouponUseCase.java:27-36 | the response built from a coupon (here and at GetCouponByIdUseCase.java lines 22-31) carries every field except `createdAt` and `updatedAt`: two coupons give the same response exactly when they differ at most in those |
| Scenarios.StripSpecialCharacters | backend/src/test/java/com/coupon/api/domain/CouponTest.java:30-35 | "AB@C-1#23" strips to "ABC123" |
| Scenarios.StripDash | backend/src/test/java/com/coupon/api/domain/CouponTest.java:14-28 | "ABC-123" strips to "ABC123" |
| Scenarios.PlainCodeIsValid | backend/src/test/java/com/coupon/api/domain/CouponTest.java:72-77 | "ABC123" is kept as it is and is not blank |
| Scenarios.VisibleIsNotBlank | backend/src/main/java/com/coupon/api/domain/Coupon.java:105-110 | a string whose first character is above U+0020 is not blank |
| Scenarios.CodeTooShort | backend/src/test/java/com/coupon/api/domain/CouponTest.java:37-40 | "AB-12" breaks the 6-character rule |
| Scenarios.CodeTooLong | backend/src/test/java/com/coupon/api/domain/CouponTest.java:42-45 | "ABC-1234" breaks the 6-character rule |
| Scenarios.CodeMissing | backend/src/test/java/com/coupon/api/domain/CouponTest.java:47-55 | a null, empty or whitespace-only code breaks the "required" rule |
| Scenarios.DiscountBoundary | backend/src/test/java/com/coupon/api/domain/CouponTest.java:67-82 | 0.5 is accepted, 0.3 and null are rejected with their own rules |
| Scenarios.ExpirationBoundary | backend/src/main/java/com/coupon/api/domain/Coupon.java:122-130 | an expiration equal to `now` is accepted, one instant earlier is rejected as past |
| Scenarios.FirstRuleDecides | backend/src/main/java/com/coupon/api/domain/Coupon.java:59-62 | with a valid code, a blank description, a discount below 0.5 and a past date, exactly the three later rules are broken, in check order, so the description rule is reported |
| Scenarios.DeleteEntityTwice | backend/src/test/java/com/coupon/api/domain/CouponTest.java:108-124 | deleting a new coupon succeeds, deleting it again fails with AlreadyDeleted |
| Scenarios.ExpiresAfterItsDate | backend/src/test/java/com/coupon/api/domain/CouponTest.java:126-144 | a coupon is not expired when created and is expired once `now` passes its date |
| Scenarios.CreateThenGet | backend/src/test/java/com/coupon/api/controller/CouponControllerIntegrationTest.java:149-158 | create with "ABC-123" and no flag yields "ABC123", unpublished, and fetching its id returns the same view |
| Scenarios.DeleteThenGetThenDeleteAgain | backend/src/test/java/com/coupon/api/controller/CouponControllerIntegrationTest.java:169-209 | deleting an ACTIVE coupon succeeds, fetching it then gives NotFound, its row stays stored as DELETED, and deleting it again gives AlreadyDeleted |
| Scenarios.UnknownId | backend/src/test/java/com/coupon/api/controller/CouponControllerIntegrationTest.java:160-198 | an unknown id gives NotFound for both fetch and delete |

## Left out

- The clock: every read of `LocalDateTime.now()` is the one `now` argument, so `createdAt` and `updatedAt` of a new coupon are equal (the source reads the clock twice) and the expiry test that sleeps past the date is stated for any later instant.
- UUID generation: the store picks any id not in use; the format and randomness of UUIDs are not modelled.
- Persistence mapping: the entity-level `@Where` filter, the `@PreUpdate` hook that refreshes `updatedAt` again on save, column precision and scale (the database keeps two decimals of the discount), and connectivity or constraint failures. The store's lookups follow the query predicates only. Read as written (nothing was run), Hibernate adds a class-level `@Where` to JPQL queries on the entity, including `SELECT c FROM Coupon c WHERE c.id = :id` (CouponJpaRepository.java line 18), so against a real database the including-deleted lookup would likely hide DELETED rows and a second delete would get NotFound rather than AlreadyDeleted; the model follows the query text.
- Entity identity: the store holds each coupon's state as a value; a lookup returns a copy and delete materialises an entity from it (`Coupon.Load`). The persistence context's managed instances and their aliasing are not modelled.
- Repository.CouponRepository.FindByCodeAndNotDeleted: when several non-deleted rows share a code it returns one of them, whereas the underlying query would fail on more than one result.
- Coupons.Coupon.IsExpired: the source also requires the expiration date to be non-null; in the model every coupon has one, since it is built only by the factory or loaded from a stored row.
- Lookup counts: the use cases call each lookup once by construction; lookups are functions of the store, so only saves are counted.
- Error texts: `Message` holds the reason of each invalid-input rule; the already-deleted text and the not-found text, which embeds the id as a string, are not modelled.
- Characters: Java strings are UTF-16 code units and Dafny strings are Unicode scalar values; the two rules only test ASCII ranges, so nothing depends on the difference except how surrogate pairs are counted.
- Request and response DTOs are plain datatypes: bean-validation annotations, JSON formats and builders are transport concerns; so are the controller, its status codes and the dependency wiring.
- The Angular front end.
- Concurrent deletes of one id: the source does not coordinate them.
