/**
 * The Coupon aggregate: its validating factory, the rules each field must
 * satisfy, the one-way ACTIVE -> DELETED transition and the two predicates
 * on its state. The clock is an explicit `now` argument.
 */
module Coupons {
  import opened Wrappers
  import opened Text

  /** Opaque identifier of a persisted coupon (a UUID in the running system). */
  datatype Id = Id(uuid: nat)

  /** An instant on the local timeline; only the order of instants matters here. */
  type Timestamp = int

  /** An exact decimal amount, compared by numeric value as `BigDecimal.compareTo` does. */
  type Decimal = real

  datatype CouponStatus = Active | Deleted

  /** Number of letters and digits a code must have after sanitisation. */
  const CodeLength: nat := 6

  /** Smallest accepted discount, inclusive. */
  const MinDiscountValue: Decimal := 0.5

  /** The creation rules, in the order the factory checks them. */
  datatype Violation =
    | CodeRequired
    | CodeNotSixAlphanumerics
    | DescriptionRequired
    | DiscountValueRequired
    | DiscountValueBelowMinimum
    | ExpirationDateRequired
    | ExpirationDateInPast

  /**
   * The reason carried by the invalid-coupon error for each rule, word for
   * word. The pieces the API's clients are shown to look for occur in it.
   */
  function Message(v: Violation): (m: string)
    ensures v == CodeNotSixAlphanumerics ==> Contains(m, "6 alphanumeric characters")
    ensures v == DiscountValueBelowMinimum ==> Contains(m, "at least 0.5")
    ensures v == ExpirationDateInPast ==> Contains(m, "cannot be in the past")
  {
    match v
    case CodeRequired => "Code is required"
    case CodeNotSixAlphanumerics =>
      OccursInMiddle("Code must have exactly ", "6 alphanumeric characters", ".");
      "Code must have exactly " + "6 alphanumeric characters" + "."
    case DescriptionRequired => "Description is required"
    case DiscountValueRequired => "Discount value is required"
    case DiscountValueBelowMinimum =>
      OccursInMiddle("Discount value must be ", "at least 0.5", "");
      "Discount value must be " + "at least 0.5" + ""
    case ExpirationDateRequired => "Expiration date is required"
    case ExpirationDateInPast =>
      OccursInMiddle("Expiration date ", "cannot be in the past", "");
      "Expiration date " + "cannot be in the past" + ""
  }

  /** The errors of the coupon domain: invalid input, unknown id, second deletion. */
  datatype CouponError =
    | InvalidInput(violation: Violation)
    | NotFound(id: Id)
    | AlreadyDeleted

  /** The state of a coupon as a value: what the store persists and what a snapshot of the entity yields. */
  datatype CouponData = CouponData(
    id: Option<Id>,
    code: string,
    description: string,
    discountValue: Decimal,
    expirationDate: Timestamp,
    status: CouponStatus,
    published: bool,
    redeemed: bool,
    createdAt: Timestamp,
    updatedAt: Timestamp)

  /** What every coupon satisfies once built by the factory, whatever happens to it later. */
  predicate IsWellFormed(d: CouponData) {
    && |d.code| == CodeLength
    && AllAlphanumeric(d.code)
    && !IsBlank(d.description)
    && d.discountValue >= MinDiscountValue
    && !d.redeemed
  }

  /** `a` and `b` agree on everything except the status and the time of the last update. */
  predicate SameExceptLifecycle(a: CouponData, b: CouponData) {
    a.(status := b.status, updatedAt := b.updatedAt) == b
  }

  // ---------------------------------------------------------------------
  // Field rules, one function per private validator of the entity
  // ---------------------------------------------------------------------

  /** The code is required (not null, not blank) and must strip to exactly six letters and digits; the stripped code is kept. */
  function SanitizeAndValidateCode(code: Option<string>): (r: Result<string, CouponError>)
    ensures r.Success? <==> code.Some? && |StripNonAlphanumeric(code.value)| == CodeLength
    ensures r.Success? ==> r.value == StripNonAlphanumeric(code.value)
    ensures r.Success? ==> |r.value| == CodeLength && AllAlphanumeric(r.value)
    ensures r.Failure? ==> r.error == InvalidInput(
      if code.None? || IsBlank(code.value) then CodeRequired else CodeNotSixAlphanumerics)
  {
    if code.None? then Failure(InvalidInput(CodeRequired))
    else if Trim(code.value) == [] then
      TrimIsEmptyIffBlank(code.value);
      BlankStripsToEmpty(code.value);
      Failure(InvalidInput(CodeRequired))
    else
      TrimIsEmptyIffBlank(code.value);
      var sanitized := StripNonAlphanumeric(code.value);
      if |sanitized| != CodeLength then Failure(InvalidInput(CodeNotSixAlphanumerics))
      else Success(sanitized)
  }

  /** The description is required and must hold some non-trimmable character; it is kept exactly as given, untrimmed. */
  function ValidateDescription(description: Option<string>): (r: Result<string, CouponError>)
    ensures r.Success? <==>
      description.Some? && exists i :: 0 <= i < |description.value| && !IsTrimmable(description.value[i])
    ensures r.Success? ==> r.value == description.value
    ensures r.Failure? ==> r.error == InvalidInput(DescriptionRequired)
  {
    if description.None? then Failure(InvalidInput(DescriptionRequired))
    else
      TrimIsEmptyIffBlank(description.value);
      if Trim(description.value) == [] then Failure(InvalidInput(DescriptionRequired))
      else Success(description.value)
  }

  /** The discount is required and must be at least 0.5; 0.5 itself is accepted and the value is kept. */
  function ValidateDiscountValue(discountValue: Option<Decimal>): (r: Result<Decimal, CouponError>)
    ensures r.Success? <==> discountValue.Some? && discountValue.value >= MinDiscountValue
    ensures r.Success? ==> r.value == discountValue.value
    ensures r.Failure? ==> r.error == InvalidInput(
      if discountValue.None? then DiscountValueRequired else DiscountValueBelowMinimum)
  {
    if discountValue.None? then Failure(InvalidInput(DiscountValueRequired))
    else if discountValue.value < MinDiscountValue then Failure(InvalidInput(DiscountValueBelowMinimum))
    else Success(discountValue.value)
  }

  /** The expiration date is required and must not lie strictly before `now`; a date equal to `now` is accepted. */
  function ValidateExpirationDate(expirationDate: Option<Timestamp>, now: Timestamp): (r: Result<Timestamp, CouponError>)
    ensures r.Success? <==> expirationDate.Some? && now <= expirationDate.value
    ensures r.Success? ==> r.value == expirationDate.value
    ensures r.Failure? ==> r.error == InvalidInput(
      if expirationDate.None? then ExpirationDateRequired else ExpirationDateInPast)
  {
    if expirationDate.None? then Failure(InvalidInput(ExpirationDateRequired))
    else if expirationDate.value < now then Failure(InvalidInput(ExpirationDateInPast))
    else Success(expirationDate.value)
  }

  /** The rule a validator broke, if any. */
  function Broken<T>(r: Result<T, CouponError>): seq<Violation> {
    if r.Failure? && r.error.InvalidInput? then [r.error.violation] else []
  }

  /**
   * Every rule the arguments break, collected over all four fields in the
   * order the factory checks them. The factory stops at the first one.
   */
  function Violations(
    code: Option<string>, description: Option<string>, discountValue: Option<Decimal>,
    expirationDate: Option<Timestamp>, now: Timestamp): seq<Violation>
  {
    Broken(SanitizeAndValidateCode(code))
    + Broken(ValidateDescription(description))
    + Broken(ValidateDiscountValue(discountValue))
    + Broken(ValidateExpirationDate(expirationDate, now))
  }

  /**
   * The state of a coupon the factory builds from present arguments at time
   * `now`, before it is first saved: no id yet, ACTIVE, not redeemed,
   * published only when the flag is true (null means false), created and
   * last updated at `now`.
   */
  function Created(
    code: string, description: string, discountValue: Decimal,
    expirationDate: Timestamp, published: Option<bool>, now: Timestamp): (d: CouponData)
    ensures d.id.None? && d.status == Active && !d.redeemed
    ensures d.published <==> published == Some(true)
    ensures d.createdAt == now && d.updatedAt == now
  {
    CouponData(None, StripNonAlphanumeric(code), description, discountValue, expirationDate,
               Active, published.GetOr(false), false, now, now)
  }

  /** The deletion of a coupon state: refused once deleted, else the status becomes DELETED and `updatedAt` becomes `now`. */
  function AfterDelete(d: CouponData, now: Timestamp): (r: Result<CouponData, CouponError>)
    ensures r.Failure? <==> d.status == Deleted
    ensures r.Failure? ==> r.error == AlreadyDeleted
    ensures r.Success? ==> r.value.status == Deleted && r.value.updatedAt == now
    ensures r.Success? ==> SameExceptLifecycle(d, r.value)
  {
    if d.status == Deleted then Failure(AlreadyDeleted)
    else Success(d.(status := Deleted, updatedAt := now))
  }

  // ---------------------------------------------------------------------
  // The entity
  // ---------------------------------------------------------------------

  class Coupon {
    var id: Option<Id>
    var code: string
    var description: string
    var discountValue: Decimal
    var expirationDate: Timestamp
    var status: CouponStatus
    var published: bool
    var redeemed: bool
    var createdAt: Timestamp
    var updatedAt: Timestamp

    /** The entity's current state as a value. */
    function Snapshot(): CouponData
      reads this
    {
      CouponData(id, code, description, discountValue, expirationDate,
                 status, published, redeemed, createdAt, updatedAt)
    }

    ghost predicate Valid()
      reads this
    {
      IsWellFormed(Snapshot())
    }

    /**
     * The private constructor, given the values its validators return: a
     * code already stripped to six letters and digits, a non-blank
     * description and a discount of at least 0.5.
     */
    constructor New(code: string, description: string, discountValue: Decimal,
                    expirationDate: Timestamp, published: Option<bool>, now: Timestamp)
      requires |code| == CodeLength && AllAlphanumeric(code)
      requires !IsBlank(description) && discountValue >= MinDiscountValue
      ensures Valid()
      ensures Snapshot() == Created(code, description, discountValue, expirationDate, published, now)
    {
      StripKeepsAlphanumericString(code);
      this.id := None;
      this.code := code;
      this.description := description;
      this.discountValue := discountValue;
      this.expirationDate := expirationDate;
      this.status := Active;
      this.published := published.GetOr(false);
      this.redeemed := false;
      this.createdAt := now;
      this.updatedAt := now;
    }

    /** An entity holding a state read back from the store. */
    constructor Load(d: CouponData)
      requires IsWellFormed(d)
      ensures Valid()
      ensures Snapshot() == d
    {
      id, code, description, discountValue, expirationDate := d.id, d.code, d.description, d.discountValue, d.expirationDate;
      status, published, redeemed, createdAt, updatedAt := d.status, d.published, d.redeemed, d.createdAt, d.updatedAt;
      new;
      assert Snapshot() == d;
    }

    /**
     * The validating factory. It checks code, description, discount and
     * expiration in that order and fails with the first rule broken; on
     * success the new coupon is well formed, ACTIVE and not expired at `now`.
     */
    static method Create(code: Option<string>, description: Option<string>, discountValue: Option<Decimal>,
                         expirationDate: Option<Timestamp>, published: Option<bool>, now: Timestamp)
      returns (r: Result<Coupon, CouponError>)
      ensures var vs := Violations(code, description, discountValue, expirationDate, now);
        && (r.Failure? <==> vs != [])
        && (r.Failure? ==> r.error == InvalidInput(vs[0]))
      ensures r.Success? ==>
        && fresh(r.value)
        && r.value.Valid()
        && r.value.Snapshot() == Created(code.value, description.value, discountValue.value,
                                         expirationDate.value, published, now)
        && !r.value.IsExpired(now)
        && !r.value.IsDeleted()
    {
      ViolationsInCheckOrder(code, description, discountValue, expirationDate, now);
      var sanitizedCode :- SanitizeAndValidateCode(code);
      var checkedDescription :- ValidateDescription(description);
      var checkedDiscount :- ValidateDiscountValue(discountValue);
      var checkedExpiration :- ValidateExpirationDate(expirationDate, now);
      StripIsIdempotent(code.value);
      var coupon := new Coupon.New(sanitizedCode, checkedDescription, checkedDiscount,
                                   checkedExpiration, published, now);
      assert coupon.Snapshot() == Created(code.value, description.value, discountValue.value,
                                          expirationDate.value, published, now);
      r := Success(coupon);
    }

    /**
     * Soft deletion: fails with AlreadyDeleted and changes nothing when the
     * coupon is already DELETED; otherwise sets DELETED and refreshes
     * `updatedAt`, leaving every other field as it was.
     */
    method Delete(now: Timestamp) returns (r: Result<(), CouponError>)
      modifies this`status, this`updatedAt
      requires Valid()
      ensures Valid()
      ensures IsDeleted()
      ensures old(status) == Deleted ==> r == Failure(AlreadyDeleted) && updatedAt == old(updatedAt)
      ensures old(status) != Deleted ==> r == Success(())
      ensures AfterDelete(old(Snapshot()), now) == if r.Success? then Success(Snapshot()) else Failure(r.error)
    {
      if status == Deleted {
        return Failure(AlreadyDeleted);
      }
      status := Deleted;
      updatedAt := now;
      r := Success(());
    }

    /** Expired at `now` exactly when the factory would refuse the coupon's expiration date as past at `now`. */
    function IsExpired(now: Timestamp): (expired: bool)
      reads this
      ensures expired <==> ValidateExpirationDate(Some(expirationDate), now) == Failure(InvalidInput(ExpirationDateInPast))
    {
      expirationDate < now
    }

    predicate IsDeleted()
      reads this
    {
      status == Deleted
    }
  }

  // ---------------------------------------------------------------------
  // Properties of the rules
  // ---------------------------------------------------------------------

  /**
   * No rule is reported exactly when every validator accepts its argument,
   * and the first rule reported is the one of the first validator, in the
   * order code, description, discount, expiration, that refuses.
   */
  lemma ViolationsInCheckOrder(
    code: Option<string>, description: Option<string>, discountValue: Option<Decimal>,
    expirationDate: Option<Timestamp>, now: Timestamp)
    ensures var vs := Violations(code, description, discountValue, expirationDate, now);
      var c, d, v, e := SanitizeAndValidateCode(code), ValidateDescription(description),
                        ValidateDiscountValue(discountValue), ValidateExpirationDate(expirationDate, now);
      && (vs == [] <==> c.Success? && d.Success? && v.Success? && e.Success?)
      && (c.Failure? ==> InvalidInput(vs[0]) == c.error)
      && (c.Success? && d.Failure? ==> InvalidInput(vs[0]) == d.error)
      && (c.Success? && d.Success? && v.Failure? ==> InvalidInput(vs[0]) == v.error)
      && (c.Success? && d.Success? && v.Success? && e.Failure? ==> InvalidInput(vs[0]) == e.error)
  {
  }

  /** Creation is accepted exactly when every field is present, the code strips to six characters, the description is not blank, the discount is at least 0.5 and the expiration is not before `now`. */
  lemma AcceptedIffAllRulesHold(
    code: Option<string>, description: Option<string>, discountValue: Option<Decimal>,
    expirationDate: Option<Timestamp>, now: Timestamp)
    ensures Violations(code, description, discountValue, expirationDate, now) == [] <==>
      && code.Some? && |StripNonAlphanumeric(code.value)| == CodeLength
      && description.Some? && !IsBlank(description.value)
      && discountValue.Some? && discountValue.value >= MinDiscountValue
      && expirationDate.Some? && now <= expirationDate.value
  {
  }

  /** A coupon built from arguments that break no rule satisfies every field rule and is not expired when built. */
  lemma CreatedIsWellFormed(
    code: string, description: string, discountValue: Decimal,
    expirationDate: Timestamp, published: Option<bool>, now: Timestamp)
    requires |StripNonAlphanumeric(code)| == CodeLength && !IsBlank(description)
    requires discountValue >= MinDiscountValue && now <= expirationDate
    ensures var d := Created(code, description, discountValue, expirationDate, published, now);
      && IsWellFormed(d)
      && !(d.expirationDate < now)
  {
  }

  /** A coupon is deleted exactly when deleting it, at whatever time, is refused with AlreadyDeleted. */
  lemma DeletedIffDeletionRefused(coupon: Coupon, now: Timestamp)
    ensures coupon.IsDeleted() <==> AfterDelete(coupon.Snapshot(), now) == Failure(AlreadyDeleted)
  {
  }

  /** Deletion succeeds at most once: deleting a deleted coupon always fails. */
  lemma DeleteIsOneWay(d: CouponData, first: Timestamp, second: Timestamp)
    requires AfterDelete(d, first).Success?
    ensures AfterDelete(AfterDelete(d, first).value, second) == Failure(AlreadyDeleted)
  {
  }

  /** Deletion keeps a coupon well formed. */
  lemma DeletePreservesWellFormed(d: CouponData, now: Timestamp)
    requires IsWellFormed(d) && AfterDelete(d, now).Success?
    ensures IsWellFormed(AfterDelete(d, now).value)
  {
  }
}
