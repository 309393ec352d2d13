/**
 * The repository port as an in-memory store of coupon rows keyed by id.
 * Each row is the persisted state of one coupon; soft-deleted rows stay in
 * the store and are filtered by the lookups that exclude deleted coupons.
 */
module Repository {
  import opened Wrappers
  import opened Coupons

  /** Every row is stored under its own id and satisfies the entity's rules. */
  ghost predicate RowsConsistent(rows: map<Id, CouponData>) {
    forall k :: k in rows ==> rows[k].id == Some(k) && IsWellFormed(rows[k])
  }

  /** An upper bound on the identifiers in use. */
  lemma {:induction false} UuidBound(ids: set<Id>) returns (n: nat)
    ensures forall k :: k in ids ==> k.uuid < n
    decreases ids
  {
    if ids == {} {
      n := 0;
    } else {
      var x :| x in ids;
      var m := UuidBound(ids - {x});
      n := if m > x.uuid then m else x.uuid + 1;
    }
  }

  /** However many coupons are stored, a fresh identifier is always available. */
  lemma FreshIdExists(ids: set<Id>)
    ensures exists k: Id :: k !in ids
  {
    var n := UuidBound(ids);
    assert Id(n) !in ids;
  }

  class CouponRepository {
    var rows: map<Id, CouponData>
    /** How many times `Save` has been called; it lets callers state how often they write. */
    ghost var saveCount: nat

    ghost predicate Valid()
      reads this
    {
      RowsConsistent(rows)
    }

    constructor ()
      ensures Valid() && rows == map[] && saveCount == 0
    {
      rows := map[];
      saveCount := 0;
    }

    /**
     * Upsert keyed by id. A coupon without an id gets a fresh one first;
     * the row under that id becomes the coupon's state and no other row
     * changes. The persisted coupon is returned.
     */
    method Save(coupon: Coupon) returns (saved: Coupon)
      requires Valid() && coupon.Valid()
      modifies this, coupon`id
      ensures Valid() && coupon.Valid()
      ensures saved == coupon && coupon.id.Some?
      ensures old(coupon.id).Some? ==> coupon.id == old(coupon.id)
      ensures old(coupon.id).None? ==> coupon.id.value !in old(rows)
      ensures rows == old(rows)[coupon.id.value := coupon.Snapshot()]
      ensures saveCount == old(saveCount) + 1
    {
      if coupon.id.None? {
        FreshIdExists(rows.Keys);
        var newId :| newId !in rows;
        coupon.id := Some(newId);
      }
      rows := rows[coupon.id.value := coupon.Snapshot()];
      saveCount := saveCount + 1;
      saved := coupon;
    }

    /** The row with this id, provided its status is not DELETED. */
    function FindByIdAndNotDeleted(id: Id): (r: Option<CouponData>)
      reads this
      ensures r.Some? <==> id in rows && rows[id].status != Deleted
      ensures r.Some? ==> r.value == rows[id]
    {
      if id in rows && rows[id].status != Deleted then Some(rows[id]) else None
    }

    /** The row with this id, whatever its status. */
    function FindByIdIncludingDeleted(id: Id): (r: Option<CouponData>)
      reads this
      ensures r.Some? <==> id in rows
      ensures r.Some? ==> r.value == rows[id]
    {
      if id in rows then Some(rows[id]) else None
    }

    /** A row with this code whose status is not DELETED, if there is one. */
    ghost function FindByCodeAndNotDeleted(code: string): (r: Option<CouponData>)
      reads this
      ensures r.Some? ==> r.value in rows.Values && r.value.code == code && r.value.status != Deleted
      ensures r.None? <==> forall k :: k in rows ==> rows[k].code != code || rows[k].status == Deleted
    {
      if exists k :: k in rows && rows[k].code == code && rows[k].status != Deleted then
        var k :| k in rows && rows[k].code == code && rows[k].status != Deleted;
        Some(rows[k])
      else
        None
    }
  }

  /** The lookup that excludes deleted coupons is the including lookup filtered by status, and any row found carries the id it was looked up by. */
  lemma ExcludingIsFilteredIncluding(repo: CouponRepository, id: Id)
    requires repo.Valid()
    ensures repo.FindByIdAndNotDeleted(id) ==
      match repo.FindByIdIncludingDeleted(id)
      case Some(d) => if d.status != Deleted then Some(d) else None
      case None => None
    ensures repo.FindByIdIncludingDeleted(id).Some? ==> repo.FindByIdIncludingDeleted(id).value.id == Some(id)
  {
  }

  /** A soft-deleted coupon is hidden from the excluding lookup but its row is still stored with status DELETED. */
  lemma DeletedRowIsHiddenButKept(repo: CouponRepository, id: Id)
    requires id in repo.rows && repo.rows[id].status == Deleted
    ensures repo.FindByIdAndNotDeleted(id) == None
    ensures repo.FindByIdIncludingDeleted(id).Some? && repo.FindByIdIncludingDeleted(id).value.status == Deleted
    ensures repo.FindByCodeAndNotDeleted(repo.rows[id].code) != Some(repo.rows[id])
  {
  }
}
