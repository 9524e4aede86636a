/** The trailer table and its queries (TrailerRent.Data/Repositories/TrailerRepository.cs),
    over a sequence of trailers in table order; the date-range query also reads
    the rental table. */
module TrailerRepository {
  import opened Common
  import opened Entities
  import RentalRepository

  /** `GetAvailableAsync`: exactly the trailers flagged available, in table order. */
  function GetAvailable(trailers: seq<Trailer>): (available: seq<Trailer>)
    ensures forall i :: 0 <= i < |available| ==> available[i].isAvailable && available[i] in trailers
    ensures forall i :: 0 <= i < |trailers| && trailers[i].isAvailable ==> trailers[i] in available
  {
    Filter(trailers, (t: Trailer) => t.isAvailable)
  }

  /** A live rental, of whatever trailer, whose dates clash with [start, end]. */
  predicate Conflicting(r: Rental, start: int, end: int) {
    r.status != Cancelled && r.status != Completed &&
    RentalRepository.DateClash(r.startDate, r.endDate, start, end)
  }

  /** The first query of `GetAvailableForDateRangeAsync`: the trailer ids of all
      conflicting rentals, one entry per rental. */
  function ConflictingTrailerIds(rentals: seq<Rental>, start: int, end: int): (ids: seq<int>)
    ensures forall id :: id in ids <==>
      exists i :: 0 <= i < |rentals| && rentals[i].trailerId == id && Conflicting(rentals[i], start, end)
  {
    if |rentals| == 0 then []
    else
      var rest := ConflictingTrailerIds(rentals[1..], start, end);
      assert forall i :: 1 <= i < |rentals| ==> rentals[i] == rentals[1..][i - 1];
      if Conflicting(rentals[0], start, end) then [rentals[0].trailerId] + rest else rest
  }

  /** `GetAvailableForDateRangeAsync`: the available trailers no conflicting
      rental refers to, in table order. */
  function GetAvailableForDateRange(trailers: seq<Trailer>, rentals: seq<Rental>, start: int, end: int)
    : (free: seq<Trailer>)
    ensures forall i :: 0 <= i < |free| ==> free[i] in trailers
    ensures forall t :: t in trailers ==>
      (t in free <==>
        t.isAvailable &&
        forall i :: 0 <= i < |rentals| ==> !(rentals[i].trailerId == t.id && Conflicting(rentals[i], start, end)))
  {
    var conflicting := ConflictingTrailerIds(rentals, start, end);
    Filter(trailers, (t: Trailer) => t.isAvailable && t.id !in conflicting)
  }

  /** The date-range result is always part of the plain availability result,
      so a trailer flagged unavailable is never returned. */
  lemma DateRangeWithinAvailable(trailers: seq<Trailer>, rentals: seq<Rental>, start: int, end: int)
    ensures forall t :: t in GetAvailableForDateRange(trailers, rentals, start, end) ==>
      t.isAvailable && t in GetAvailable(trailers)
  {
    var free := GetAvailableForDateRange(trailers, rentals, start, end);
    forall t | t in free
      ensures t.isAvailable && t in GetAvailable(trailers)
    {
      var k :| 0 <= k < |trailers| && trailers[k] == t;
    }
  }

  /** The trailer query and the rental query apply the same test: a trailer of
      the table is returned exactly when it is flagged available and
      `IsTrailerAvailableAsync` (without exclusion) holds for it. */
  lemma DateRangeAgreesWithRentalCheck(trailers: seq<Trailer>, rentals: seq<Rental>, start: int, end: int, t: Trailer)
    requires t in trailers
    ensures t in GetAvailableForDateRange(trailers, rentals, start, end) <==>
      t.isAvailable && RentalRepository.IsTrailerAvailable(rentals, t.id, start, end, None)
  {
    var free := GetAvailableForDateRange(trailers, rentals, start, end);
    var viaRentals := RentalRepository.IsTrailerAvailable(rentals, t.id, start, end, None);
    assert viaRentals <==>
      forall i :: 0 <= i < |rentals| ==> !(rentals[i].trailerId == t.id && Conflicting(rentals[i], start, end));
  }

  /** Selects the trailer whose id is `id`. */
  function HasId(id: int): Trailer -> bool {
    (t: Trailer) => t.id == id
  }

  /** Keeps the trailers whose id differs from `id`. */
  function IdIsNot(id: int): Trailer -> bool {
    (t: Trailer) => t.id != id
  }

  /** Row ids are the primary key of the table. */
  predicate UniqueIds(trailers: seq<Trailer>) {
    DistinctKeys(trailers, (t: Trailer) => t.id)
  }

  /** `GetByIdAsync`: the first trailer with the id, if any. */
  function GetById(trailers: seq<Trailer>, id: int): (found: Option<Trailer>)
    ensures found.None? <==> forall i :: 0 <= i < |trailers| ==> trailers[i].id != id
    ensures found.Some? ==> found.value in trailers && found.value.id == id
  {
    First(trailers, HasId(id))
  }

  /** `ExistsAsync`: some trailer has the id. */
  function Exists(trailers: seq<Trailer>, id: int): (b: bool)
    ensures b <==> exists i :: 0 <= i < |trailers| && trailers[i].id == id
  {
    Any(trailers, HasId(id))
  }

  /** `CreateAsync`: the trailer is appended under the next identity value. */
  function Create(trailers: seq<Trailer>, trailer: Trailer): (result: (seq<Trailer>, Trailer))
    ensures !Exists(trailers, result.1.id)
    ensures result.1 == trailer.(id := result.1.id)
    ensures result.0 == trailers + [result.1]
  {
    var ids := seq(|trailers|, i requires 0 <= i < |trailers| => trailers[i].id);
    assert forall i :: 0 <= i < |trailers| ==> trailers[i].id == ids[i];
    var created := trailer.(id := NextId(ids));
    (trailers + [created], created)
  }

  /** `UpdateAsync`: the row with the trailer's id is overwritten and stamped
      with `now` as its UpdatedAt. */
  function Update(trailers: seq<Trailer>, trailer: Trailer, now: int): (updated: seq<Trailer>)
    ensures |updated| == |trailers|
    ensures forall i :: 0 <= i < |trailers| && trailers[i].id != trailer.id ==> updated[i] == trailers[i]
    ensures forall i :: 0 <= i < |trailers| && trailers[i].id == trailer.id ==>
      updated[i] == trailer.(updatedAt := now)
  {
    ReplaceWhere(trailers, HasId(trailer.id), trailer.(updatedAt := now))
  }

  /** `DeleteAsync`: false and no change for an unknown id, otherwise the trailer
      is removed and the result is true. */
  function Delete(trailers: seq<Trailer>, id: int): (result: (seq<Trailer>, bool))
    ensures !result.1 <==> forall i :: 0 <= i < |trailers| ==> trailers[i].id != id
    ensures !result.1 ==> result.0 == trailers
    ensures result.1 ==> forall i :: 0 <= i < |result.0| ==> result.0[i].id != id
    ensures forall i :: 0 <= i < |trailers| && trailers[i].id != id ==> trailers[i] in result.0
    ensures forall i :: 0 <= i < |result.0| ==> result.0[i] in trailers
  {
    if !Exists(trailers, id) then (trailers, false)
    else (Filter(trailers, IdIsNot(id)), true)
  }

  /** With unique ids, a successful delete removes exactly one row. */
  lemma DeleteRemovesExactlyOne(trailers: seq<Trailer>, id: int)
    requires UniqueIds(trailers)
    requires Exists(trailers, id)
    ensures |Delete(trailers, id).0| == |trailers| - 1
    ensures UniqueIds(Delete(trailers, id).0)
  {
    var k :| 0 <= k < |trailers| && trailers[k].id == id;
    FilterDropsOne(trailers, IdIsNot(id), k);
    FilterKeepsDistinctKeys(trailers, IdIsNot(id), (t: Trailer) => t.id);
  }
}
