/**
 * Concrete cases from the repository's tests, stated on the model: the
 * worked examples of the field rules as lemmas, and the multi-step
 * scenarios as client methods that use only the contracts above.
 */
module Scenarios {
  import opened Wrappers
  import opened Text
  import opened Coupons
  import opened Repository
  import opened UseCases

  /** "AB@C-1#23" strips to "ABC123": nine characters in, six kept. */
  lemma StripSpecialCharacters()
    ensures StripNonAlphanumeric("AB@C-1#23") == "ABC123"
  {
    var s9: string := [];
    var s8 := ['3'] + s9; StripCons('3', s9);
    var s7 := ['2'] + s8; StripCons('2', s8);
    var s6 := ['#'] + s7; StripCons('#', s7);
    var s5 := ['1'] + s6; StripCons('1', s6);
    var s4 := ['-'] + s5; StripCons('-', s5);
    var s3 := ['C'] + s4; StripCons('C', s4);
    var s2 := ['@'] + s3; StripCons('@', s3);
    var s1 := ['B'] + s2; StripCons('B', s2);
    var s0 := ['A'] + s1; StripCons('A', s1);
    assert s0 == "AB@C-1#23";
  }

  /** "ABC-123" strips to "ABC123". */
  lemma StripDash()
    ensures StripNonAlphanumeric("ABC-123") == "ABC123"
  {
    var s7: string := [];
    var s6 := ['3'] + s7; StripCons('3', s7);
    var s5 := ['2'] + s6; StripCons('2', s6);
    var s4 := ['1'] + s5; StripCons('1', s5);
    var s3 := ['-'] + s4; StripCons('-', s4);
    var s2 := ['C'] + s3; StripCons('C', s3);
    var s1 := ['B'] + s2; StripCons('B', s2);
    var s0 := ['A'] + s1; StripCons('A', s1);
    assert s0 == "ABC-123";
  }

  /** "ABC123" is already six letters and digits and is not blank. */
  lemma PlainCodeIsValid()
    ensures StripNonAlphanumeric("ABC123") == "ABC123"
    ensures !IsBlank("ABC123")
  {
    assert AllAlphanumeric("ABC123");
    StripKeepsAlphanumericString("ABC123");
    assert !IsTrimmable("ABC123"[0]);
  }

  /** A description with a visible first character is not blank. */
  lemma VisibleIsNotBlank(s: string)
    requires |s| > 0 && s[0] > ' '
    ensures !IsBlank(s)
  {
  }

  /** "AB-12" strips to four characters: the length rule is broken. */
  lemma CodeTooShort()
    ensures SanitizeAndValidateCode(Some("AB-12")) == Failure(InvalidInput(CodeNotSixAlphanumerics))
  {
    var s5: string := [];
    var s4 := ['2'] + s5; StripCons('2', s5);
    var s3 := ['1'] + s4; StripCons('1', s4);
    var s2 := ['-'] + s3; StripCons('-', s3);
    var s1 := ['B'] + s2; StripCons('B', s2);
    var s0 := ['A'] + s1; StripCons('A', s1);
    assert s0 == "AB-12";
    VisibleIsNotBlank("AB-12");
  }

  /** "ABC-1234" strips to seven characters: the length rule is broken. */
  lemma CodeTooLong()
    ensures SanitizeAndValidateCode(Some("ABC-1234")) == Failure(InvalidInput(CodeNotSixAlphanumerics))
  {
    var s8: string := [];
    var s7 := ['4'] + s8; StripCons('4', s8);
    var s6 := ['3'] + s7; StripCons('3', s7);
    var s5 := ['2'] + s6; StripCons('2', s6);
    var s4 := ['1'] + s5; StripCons('1', s5);
    var s3 := ['-'] + s4; StripCons('-', s4);
    var s2 := ['C'] + s3; StripCons('C', s3);
    var s1 := ['B'] + s2; StripCons('B', s2);
    var s0 := ['A'] + s1; StripCons('A', s1);
    assert s0 == "ABC-1234";
    VisibleIsNotBlank("ABC-1234");
  }

  /** An absent, empty or whitespace-only code breaks the "required" rule, not the length rule. */
  lemma CodeMissing()
    ensures SanitizeAndValidateCode(Some("")) == Failure(InvalidInput(CodeRequired))
    ensures SanitizeAndValidateCode(Some("  \t ")) == Failure(InvalidInput(CodeRequired))
    ensures SanitizeAndValidateCode(None) == Failure(InvalidInput(CodeRequired))
  {
    assert IsBlank("  \t ");
  }

  /** The discount boundary is inclusive: 0.5 passes, 0.3 fails with the minimum rule. */
  lemma DiscountBoundary()
    ensures ValidateDiscountValue(Some(0.5)) == Success(0.5)
    ensures ValidateDiscountValue(Some(0.3)) == Failure(InvalidInput(DiscountValueBelowMinimum))
    ensures ValidateDiscountValue(None) == Failure(InvalidInput(DiscountValueRequired))
  {
  }

  /** An expiration equal to `now` is accepted; one strictly before `now` is not. */
  lemma ExpirationBoundary(now: Timestamp)
    ensures ValidateExpirationDate(Some(now), now) == Success(now)
    ensures ValidateExpirationDate(Some(now - 1), now) == Failure(InvalidInput(ExpirationDateInPast))
  {
  }

  /** With a valid code, a blank description, a discount below 0.5 and a past date, three rules are broken and the description's is reported first. */
  lemma FirstRuleDecides(code: string, description: string, discountValue: Decimal, expirationDate: Timestamp, now: Timestamp)
    requires |code| == CodeLength && AllAlphanumeric(code)
    requires IsBlank(description) && discountValue < MinDiscountValue && expirationDate < now
    ensures Violations(Some(code), Some(description), Some(discountValue), Some(expirationDate), now)
            == [DescriptionRequired, DiscountValueBelowMinimum, ExpirationDateInPast]
  {
    StripKeepsAlphanumericString(code);
    RuleList(
      SanitizeAndValidateCode(Some(code)), ValidateDescription(Some(description)),
      ValidateDiscountValue(Some(discountValue)), ValidateExpirationDate(Some(expirationDate), now));
  }

  /** The rules collected from one accepted and three refused validations, in order. */
  lemma RuleList(c: Result<string, CouponError>, d: Result<string, CouponError>,
                 v: Result<Decimal, CouponError>, e: Result<Timestamp, CouponError>)
    requires c.Success?
    requires d == Failure(InvalidInput(DescriptionRequired))
    requires v == Failure(InvalidInput(DiscountValueBelowMinimum))
    requires e == Failure(InvalidInput(ExpirationDateInPast))
    ensures Broken(c) + Broken(d) + Broken(v) + Broken(e)
            == [DescriptionRequired, DiscountValueBelowMinimum, ExpirationDateInPast]
  {
  }

  /** Deleting an entity twice: the first call succeeds, the second fails with AlreadyDeleted. */
  method DeleteEntityTwice(now: Timestamp, later: Timestamp)
    returns (first: Result<(), CouponError>, second: Result<(), CouponError>)
    ensures first.Success? && second == Failure(AlreadyDeleted)
  {
    PlainCodeIsValid();
    VisibleIsNotBlank("Test");
    AcceptedIffAllRulesHold(Some("ABC123"), Some("Test"), Some(1.0), Some(now + 1), now);
    var created := Coupon.Create(Some("ABC123"), Some("Test"), Some(1.0), Some(now + 1), Some(false), now);
    assert created.Success?;
    var coupon := created.value;
    first := coupon.Delete(now);
    second := coupon.Delete(later);
  }

  /** A coupon expiring one instant after creation is not expired when created and is expired at any instant past its date. */
  method ExpiresAfterItsDate(now: Timestamp, later: Timestamp) returns (coupon: Coupon)
    requires later > now + 1
    ensures !coupon.IsExpired(now) && coupon.IsExpired(later)
  {
    PlainCodeIsValid();
    VisibleIsNotBlank("Test");
    AcceptedIffAllRulesHold(Some("ABC123"), Some("Test"), Some(1.0), Some(now + 1), now);
    var created := Coupon.Create(Some("ABC123"), Some("Test"), Some(1.0), Some(now + 1), Some(false), now);
    assert created.Success?;
    coupon := created.value;
  }

  /** Create with a dashed code and no published flag, then fetch by id: the view shows "ABC123", unpublished, and the fetch returns the same view. */
  method CreateThenGet(repository: CouponRepository, now: Timestamp)
    returns (created: Result<CouponResponse, CouponError>, fetched: Result<CouponResponse, CouponError>)
    requires repository.Valid()
    modifies repository
    ensures created.Success? && created.value.code == "ABC123" && !created.value.published
    ensures fetched == created
  {
    var create := new CreateCouponUseCase(repository);
    var get := new GetCouponByIdUseCase(repository);
    var request := CouponRequest(Some("ABC-123"), Some("Test coupon"), Some(10.0), Some(now + 30), None);
    StripDash();
    VisibleIsNotBlank("Test coupon");
    AcceptedIffAllRulesHold(request.code, request.description, request.discountValue, request.expirationDate, now);
    created := create.Execute(request, now);
    fetched := get.Execute(created.value.id.value);
  }

  /** Delete an ACTIVE coupon: the delete succeeds, a fetch then gives NotFound, the row is still stored as DELETED, and a second delete gives AlreadyDeleted. */
  method DeleteThenGetThenDeleteAgain(repository: CouponRepository, id: Id, now: Timestamp)
    returns (first: Result<(), CouponError>, fetched: Result<CouponResponse, CouponError>,
             second: Result<(), CouponError>)
    requires repository.Valid()
    requires id in repository.rows && repository.rows[id].status == Active
    modifies repository
    ensures first.Success? && fetched == Failure(NotFound(id)) && second == Failure(AlreadyDeleted)
    ensures id in repository.rows && repository.rows[id].status == Deleted
  {
    var delete := new DeleteCouponUseCase(repository);
    var get := new GetCouponByIdUseCase(repository);
    first := delete.Execute(id, now);
    fetched := get.Execute(id);
    second := delete.Execute(id, now);
  }

  /** An id the store has never seen gives NotFound for both fetch and delete. */
  method UnknownId(repository: CouponRepository, id: Id, now: Timestamp)
    returns (fetched: Result<CouponResponse, CouponError>, deleted: Result<(), CouponError>)
    requires repository.Valid() && id !in repository.rows
    modifies repository
    ensures fetched == Failure(NotFound(id)) && deleted == Failure(NotFound(id))
  {
    var delete := new DeleteCouponUseCase(repository);
    var get := new GetCouponByIdUseCase(repository);
    fetched := get.Execute(id);
    deleted := delete.Execute(id, now);
  }
}
