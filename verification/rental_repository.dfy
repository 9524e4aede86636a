/** The rental table and its queries (TrailerRent.Data/Repositories/RentalRepository.cs),
    over a sequence of rentals in table order. */
module RentalRepository {
  import opened Common
  import opened Entities

  /** The three-clause date test of the availability query: the stored booking
      [rStart, rEnd] covers the requested start, covers the requested end, or
      lies inside the requested range. */
  predicate DateClash(rStart: int, rEnd: int, start: int, end: int) {
    || (rStart <= start && rEnd >= start)
    || (rStart <= end && rEnd >= end)
    || (rStart >= start && rEnd <= end)
  }

  /** The closed intervals [aStart, aEnd] and [bStart, bEnd] share an instant. */
  predicate Intersects(aStart: int, aEnd: int, bStart: int, bEnd: int) {
    aStart <= bEnd && bStart <= aEnd
  }

  /** For well-formed intervals the three clauses say exactly "the closed
      intervals intersect". */
  lemma DateClashIsIntersection(rStart: int, rEnd: int, start: int, end: int)
    requires rStart <= rEnd && start <= end
    ensures DateClash(rStart, rEnd, start, end) <==> Intersects(rStart, rEnd, start, end)
  {
  }

  /** A booking that ends at the very instant the request starts still clashes. */
  lemma TouchingBookingsClash(rStart: int, rEnd: int, end: int)
    requires rStart <= rEnd <= end
    ensures DateClash(rStart, rEnd, rEnd, end)
  {
  }

  /** A stored rental that stands in the way of booking `trailerId` for
      [start, end]: same trailer, still live, and the date test fires. */
  predicate Blocks(r: Rental, trailerId: int, start: int, end: int) {
    r.trailerId == trailerId && !IsTerminal(r.status) && DateClash(r.startDate, r.endDate, start, end)
  }

  /** The rental named by the optional `excludeRentalId` argument. */
  predicate Excluded(r: Rental, excludeRentalId: Option<int>) {
    excludeRentalId.Some? && r.id == excludeRentalId.value
  }

  /** `IsTrailerAvailableAsync`: no rental other than the excluded one blocks the request. */
  function IsTrailerAvailable(rentals: seq<Rental>, trailerId: int, start: int, end: int,
                              excludeRentalId: Option<int>): (available: bool)
    ensures available <==>
      forall i :: 0 <= i < |rentals| ==>
        !Blocks(rentals[i], trailerId, start, end) || Excluded(rentals[i], excludeRentalId)
  {
    if |rentals| == 0 then true
    else
      && (!Blocks(rentals[0], trailerId, start, end) || Excluded(rentals[0], excludeRentalId))
      && IsTrailerAvailable(rentals[1..], trailerId, start, end, excludeRentalId)
  }

  /** Only a live rental of the requested trailer whose dates clash can make
      the trailer unavailable; with no such rental it is available. */
  lemma UnavailableOnlyThroughBlockingRental(rentals: seq<Rental>, trailerId: int, start: int, end: int,
                                             excludeRentalId: Option<int>)
    ensures !IsTrailerAvailable(rentals, trailerId, start, end, excludeRentalId) <==>
      exists i :: 0 <= i < |rentals| &&
        rentals[i].trailerId == trailerId &&
        rentals[i].status != Cancelled && rentals[i].status != Completed &&
        DateClash(rentals[i].startDate, rentals[i].endDate, start, end) &&
        !Excluded(rentals[i], excludeRentalId)
  {
  }

  /** A trailer with no rentals at all is available for any dates. */
  lemma NoRentalsMeansAvailable(rentals: seq<Rental>, trailerId: int, start: int, end: int,
                                excludeRentalId: Option<int>)
    requires forall i :: 0 <= i < |rentals| ==> rentals[i].trailerId != trailerId
    ensures IsTrailerAvailable(rentals, trailerId, start, end, excludeRentalId)
  {
  }

  /** Keeps the rentals whose id differs from `id`. */
  function IdIsNot(id: int): Rental -> bool {
    (r: Rental) => r.id != id
  }

  /** Passing `excludeRentalId` is the same as asking about a table from
      which that rental has been removed: the excluded rental never blocks. */
  lemma ExcludedRentalNeverBlocks(rentals: seq<Rental>, trailerId: int, start: int, end: int, id: int)
    ensures IsTrailerAvailable(rentals, trailerId, start, end, Some(id)) ==
            IsTrailerAvailable(Filter(rentals, IdIsNot(id)), trailerId, start, end, None)
  {
    var kept := Filter(rentals, IdIsNot(id));
    if IsTrailerAvailable(rentals, trailerId, start, end, Some(id)) {
      forall k | 0 <= k < |kept|
        ensures !Blocks(kept[k], trailerId, start, end)
      {
        var i :| 0 <= i < |rentals| && rentals[i] == kept[k];
      }
    } else {
      var i :| 0 <= i < |rentals| && Blocks(rentals[i], trailerId, start, end) && !Excluded(rentals[i], Some(id));
      assert IdIsNot(id)(rentals[i]);
      assert rentals[i] in kept;
    }
  }

  /** Inserting a rental can turn availability from true to false but never
      from false to true. */
  lemma {:induction false} InsertOnlyRemovesAvailability(rentals: seq<Rental>, x: Rental, trailerId: int,
                                                         start: int, end: int, excludeRentalId: Option<int>)
    ensures IsTrailerAvailable(rentals + [x], trailerId, start, end, excludeRentalId) <==>
      IsTrailerAvailable(rentals, trailerId, start, end, excludeRentalId) &&
      (!Blocks(x, trailerId, start, end) || Excluded(x, excludeRentalId))
  {
    var grown := rentals + [x];
    assert forall i :: 0 <= i < |rentals| ==> grown[i] == rentals[i];
    assert grown[|rentals|] == x;
  }

  /** `GetByUserIdAsync`: exactly the rentals of `userId`, in table order. */
  function GetByUserId(rentals: seq<Rental>, userId: int): (mine: seq<Rental>)
    ensures forall i :: 0 <= i < |mine| ==> mine[i].userId == userId && mine[i] in rentals
    ensures forall i :: 0 <= i < |rentals| && rentals[i].userId == userId ==> rentals[i] in mine
  {
    Filter(rentals, (r: Rental) => r.userId == userId)
  }

  /** Selects the rental whose id is `id`. */
  function HasId(id: int): Rental -> bool {
    (r: Rental) => r.id == id
  }

  /** `GetByIdAsync`: the first rental with the id, if any. */
  function GetById(rentals: seq<Rental>, id: int): (found: Option<Rental>)
    ensures found.None? <==> forall i :: 0 <= i < |rentals| ==> rentals[i].id != id
    ensures found.Some? ==> found.value in rentals && found.value.id == id
  {
    First(rentals, HasId(id))
  }

  /** `ExistsAsync`: some rental has the id. */
  function Exists(rentals: seq<Rental>, id: int): (b: bool)
    ensures b <==> exists i :: 0 <= i < |rentals| && rentals[i].id == id
  {
    Any(rentals, HasId(id))
  }

  /** Row ids are the primary key of the table. */
  predicate UniqueIds(rentals: seq<Rental>) {
    forall i, j :: 0 <= i < j < |rentals| ==> rentals[i].id != rentals[j].id
  }

  /** `CreateAsync`: the row is appended under the next identity value. */
  function NextRentalId(rentals: seq<Rental>): (id: int)
    ensures id >= 1
    ensures !Exists(rentals, id)
  {
    var ids := seq(|rentals|, i requires 0 <= i < |rentals| => rentals[i].id);
    assert forall i :: 0 <= i < |rentals| ==> rentals[i].id == ids[i];
    NextId(ids)
  }

  /** `UpdateAsync`: the row with the rental's id is overwritten and stamped
      with `now` as its UpdatedAt. */
  function Update(rentals: seq<Rental>, rental: Rental, now: int): (updated: seq<Rental>)
    ensures |updated| == |rentals|
    ensures forall i :: 0 <= i < |rentals| && rentals[i].id != rental.id ==> updated[i] == rentals[i]
    ensures forall i :: 0 <= i < |rentals| && rentals[i].id == rental.id ==>
      updated[i] == rental.(updatedAt := now)
  {
    ReplaceWhere(rentals, HasId(rental.id), rental.(updatedAt := now))
  }

  /** `DeleteAsync`: false and no change for an unknown id, otherwise the rental
      is removed and the result is true. */
  function Delete(rentals: seq<Rental>, id: int): (result: (seq<Rental>, bool))
    ensures !result.1 <==> forall i :: 0 <= i < |rentals| ==> rentals[i].id != id
    ensures !result.1 ==> result.0 == rentals
    ensures result.1 ==> forall i :: 0 <= i < |result.0| ==> result.0[i].id != id
    ensures forall i :: 0 <= i < |rentals| && rentals[i].id != id ==> rentals[i] in result.0
    ensures forall i :: 0 <= i < |result.0| ==> result.0[i] in rentals
  {
    if !Exists(rentals, id) then (rentals, false)
    else (Filter(rentals, IdIsNot(id)), true)
  }

  /** With unique ids, a successful delete removes exactly one row. */
  lemma DeleteRemovesExactlyOne(rentals: seq<Rental>, id: int)
    requires UniqueIds(rentals)
    requires Exists(rentals, id)
    ensures |Delete(rentals, id).0| == |rentals| - 1
    ensures UniqueIds(Delete(rentals, id).0)
  {
    var k :| 0 <= k < |rentals| && rentals[k].id == id;
    FilterDropsOne(rentals, IdIsNot(id), k);
    FilterUniqueIds(rentals, IdIsNot(id));
  }

  /** Filtering keeps ids unique. */
  lemma FilterUniqueIds(rentals: seq<Rental>, p: Rental -> bool)
    requires UniqueIds(rentals)
    ensures UniqueIds(Filter(rentals, p))
  {
    FilterKeepsDistinctKeys(rentals, p, (r: Rental) => r.id);
  }
}
