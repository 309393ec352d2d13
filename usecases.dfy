/**
 * The three use cases, each holding the repository it runs against. Each
 * does at most one lookup and at most one save, and reports the domain
 * errors as `Failure` values.
 */
module UseCases {
  import opened Wrappers
  import opened Text
  import opened Coupons
  import opened Repository

  /** The creation request; every field may be absent (null). */
  datatype CouponRequest = CouponRequest(
    code: Option<string>,
    description: Option<string>,
    discountValue: Option<Decimal>,
    expirationDate: Option<Timestamp>,
    published: Option<bool>)

  /** The read-only view returned to callers; it never carries the internal timestamps. */
  datatype CouponResponse = CouponResponse(
    id: Option<Id>,
    code: string,
    description: string,
    discountValue: Decimal,
    expirationDate: Timestamp,
    status: CouponStatus,
    published: bool,
    redeemed: bool)

  /** The projection of a coupon's state into a response: it keeps every field except the two internal timestamps. */
  function ToResponse(d: CouponData): CouponResponse {
    CouponResponse(d.id, d.code, d.description, d.discountValue, d.expirationDate,
                   d.status, d.published, d.redeemed)
  }

  /** Two coupon states give the same response exactly when they differ at most in their timestamps. */
  lemma ResponseOmitsOnlyTimestamps(a: CouponData, b: CouponData)
    ensures ToResponse(a) == ToResponse(b) <==> a.(createdAt := b.createdAt, updatedAt := b.updatedAt) == b
  {
  }

  function RequestViolations(request: CouponRequest, now: Timestamp): seq<Violation> {
    Violations(request.code, request.description, request.discountValue, request.expirationDate, now)
  }

  class CreateCouponUseCase {
    const repository: CouponRepository

    constructor (repository: CouponRepository)
      ensures this.repository == repository
    {
      this.repository := repository;
    }

    /**
     * Builds the coupon, saves it and returns its view. A request that
     * breaks a rule fails with the first rule broken and the store is not
     * touched; otherwise exactly one save stores the new coupon under a
     * fresh id and the view shows the stripped code, ACTIVE, not redeemed.
     */
    method Execute(request: CouponRequest, now: Timestamp) returns (r: Result<CouponResponse, CouponError>)
      requires repository.Valid()
      modifies repository
      ensures repository.Valid()
      ensures var vs := RequestViolations(request, now);
        && (r.Failure? <==> vs != [])
        && (r.Failure? ==> r.error == InvalidInput(vs[0]))
      ensures r.Failure? ==>
        repository.rows == old(repository.rows) && repository.saveCount == old(repository.saveCount)
      ensures r.Success? ==>
        && r.value.id.Some?
        && var id := r.value.id.value;
        && id !in old(repository.rows)
        && repository.rows == old(repository.rows)[id :=
             Created(request.code.value, request.description.value, request.discountValue.value,
                     request.expirationDate.value, request.published, now).(id := Some(id))]
        && r.value == ToResponse(repository.rows[id])
        && repository.saveCount == old(repository.saveCount) + 1
      ensures r.Success? ==>
        && r.value.code == StripNonAlphanumeric(request.code.value)
        && |r.value.code| == CodeLength && AllAlphanumeric(r.value.code)
        && r.value.description == request.description.value
        && r.value.discountValue == request.discountValue.value
        && r.value.expirationDate == request.expirationDate.value
        && r.value.status == Active
        && !r.value.redeemed
        && (r.value.published <==> request.published == Some(true))
    {
      var coupon :- Coupon.Create(request.code, request.description, request.discountValue,
                                  request.expirationDate, request.published, now);
      var saved := repository.Save(coupon);
      r := Success(ToResponse(saved.Snapshot()));
    }
  }

  class GetCouponByIdUseCase {
    const repository: CouponRepository

    constructor (repository: CouponRepository)
      ensures this.repository == repository
    {
      this.repository := repository;
    }

    /**
     * The view of the coupon with this id. An unknown id and a soft-deleted
     * coupon both give NotFound; a found coupon is always ACTIVE. Being a
     * function of the store, it changes nothing.
     */
    function Execute(id: Id): (r: Result<CouponResponse, CouponError>)
      reads repository
      ensures r.Failure? <==> id !in repository.rows || repository.rows[id].status == Deleted
      ensures r.Failure? ==> r.error == NotFound(id)
      ensures r.Success? ==> r.value == ToResponse(repository.rows[id]) && r.value.status == Active
    {
      match repository.FindByIdAndNotDeleted(id)
      case None => Failure(NotFound(id))
      case Some(coupon) => Success(ToResponse(coupon))
    }
  }

  class DeleteCouponUseCase {
    const repository: CouponRepository

    constructor (repository: CouponRepository)
      ensures this.repository == repository
    {
      this.repository := repository;
    }

    /**
     * Soft-deletes the coupon with this id. The lookup includes deleted
     * coupons, so an unknown id gives NotFound while an already deleted one
     * gives AlreadyDeleted; neither writes. Otherwise exactly one save marks
     * the row DELETED, after which the excluding lookup no longer finds it.
     */
    method Execute(id: Id, now: Timestamp) returns (r: Result<(), CouponError>)
      requires repository.Valid()
      modifies repository
      ensures repository.Valid()
      ensures id !in old(repository.rows) ==> r == Failure(NotFound(id))
      ensures id in old(repository.rows) && old(repository.rows)[id].status == Deleted ==>
        r == Failure(AlreadyDeleted)
      ensures r.Success? <==> id in old(repository.rows) && old(repository.rows)[id].status != Deleted
      ensures r.Failure? ==>
        repository.rows == old(repository.rows) && repository.saveCount == old(repository.saveCount)
      ensures r.Success? ==>
        && repository.rows == old(repository.rows)[id := AfterDelete(old(repository.rows)[id], now).value]
        && repository.saveCount == old(repository.saveCount) + 1
        && repository.FindByIdAndNotDeleted(id).None?
        && repository.FindByIdIncludingDeleted(id).Some?
        && repository.FindByIdIncludingDeleted(id).value.status == Deleted
    {
      var found := repository.FindByIdIncludingDeleted(id);
      if found.None? {
        return Failure(NotFound(id));
      }
      var coupon := new Coupon.Load(found.value);
      var deleted := coupon.Delete(now);
      if deleted.Failure? {
        return Failure(deleted.error);
      }
      ghost var after := AfterDelete(found.value, now).value;
      assert coupon.Snapshot() == after && coupon.Valid();
      var _ := repository.Save(coupon);
      assert repository.rows == old(repository.rows)[id := after];
      DeletedRowIsHiddenButKept(repository, id);
      r := Success(());
    }
  }
}
