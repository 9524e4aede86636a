/** The trailer rules (TrailerRent.Business/Services/TrailerService.cs) over the
    trailer table; the date-range query also reads the rental table. */
module TrailerService {
  import opened Common
  import opened Entities
  import opened Exceptions
  import RR = RentalRepository
  import TR = TrailerRepository
  import RS = RentalService

  /** The body of a create or update request (`CreateTrailerDto`). */
  datatype TrailerRequest = TrailerRequest(
    name: string,
    description: Option<string>,
    kind: TrailerType,
    pricePerDay: int,
    maxWeight: int,
    licensePlate: Option<string>)

  /** `GetByIdAsync`: nothing for an unknown id, otherwise a trailer with that id. */
  function GetById(trailers: seq<Trailer>, id: int): (found: Option<Trailer>)
    ensures found.None? <==> !TR.Exists(trailers, id)
    ensures found.Some? ==> found.value in trailers && found.value.id == id
  {
    TR.GetById(trailers, id)
  }

  /** `GetAvailableForDateRangeAsync`: the range must run forwards, then must
      not start before `today`; otherwise the repository's answer is passed on
      unchanged. */
  function GetAvailableForDateRange(trailers: seq<Trailer>, rentals: seq<Rental>, start: int, end: int, today: int)
    : (result: Result<seq<Trailer>, Exception>)
    ensures start >= end ==> result == Err(Validation("Start date must be before end date"))
    ensures start < end && start < today ==> result == Err(Validation("Start date cannot be in the past"))
    ensures result.Ok? <==> today <= start < end
    ensures result.Ok? ==>
      (forall k :: 0 <= k < |result.value| ==>
         result.value[k] in trailers && result.value[k].isAvailable &&
         RR.IsTrailerAvailable(rentals, result.value[k].id, start, end, None)) &&
      (forall t :: t in trailers && t.isAvailable && RR.IsTrailerAvailable(rentals, t.id, start, end, None) ==>
         t in result.value)
  {
    if start >= end then Err(Validation("Start date must be before end date"))
    else if start < today then Err(Validation("Start date cannot be in the past"))
    else
      var free := TR.GetAvailableForDateRange(trailers, rentals, start, end);
      assert forall t :: t in trailers ==>
        (t in free <==> t.isAvailable && RR.IsTrailerAvailable(rentals, t.id, start, end, None)) by {
        forall t | t in trailers
          ensures t in free <==> t.isAvailable && RR.IsTrailerAvailable(rentals, t.id, start, end, None)
        {
          TR.DateRangeAgreesWithRentalCheck(trailers, rentals, start, end, t);
        }
      }
      Ok(free)
  }

  /** `CreateAsync`: the mapped trailer starts out available, with no images,
      stamped with `now`, under a fresh id. */
  function Create(trailers: seq<Trailer>, request: TrailerRequest, now: int): (result: (seq<Trailer>, Trailer))
    ensures var (after, created) := result;
      && after == trailers + [created]
      && !TR.Exists(trailers, created.id)
      && created.isAvailable && created.images == []
      && created.name == request.name && created.description == request.description
      && created.kind == request.kind && created.pricePerDay == request.pricePerDay
      && created.maxWeight == request.maxWeight && created.licensePlate == request.licensePlate
      && created.createdAt == now && created.updatedAt == now
  {
    var mapped := Trailer(0, request.name, request.description, request.kind, request.pricePerDay,
                          request.maxWeight, request.licensePlate, true, now, now, []);
    TR.Create(trailers, mapped)
  }

  /** `UpdateAsync`: an unknown id is NotFound; otherwise the six descriptive
      fields are overwritten and everything else about the trailer is kept,
      apart from the UpdatedAt stamp. */
  function Update(trailers: seq<Trailer>, id: int, request: TrailerRequest, now: int)
    : (result: Result<(seq<Trailer>, Trailer), Exception>)
    ensures result.Err? <==> !TR.Exists(trailers, id)
    ensures result.Err? ==> result.error == NotFound("Trailer not found")
    ensures result.Ok? ==>
      var (after, updated) := result.value;
      var previous := TR.GetById(trailers, id).value;
      && updated.name == request.name && updated.description == request.description
      && updated.kind == request.kind && updated.pricePerDay == request.pricePerDay
      && updated.maxWeight == request.maxWeight && updated.licensePlate == request.licensePlate
      && updated.id == previous.id && updated.isAvailable == previous.isAvailable
      && updated.images == previous.images && updated.createdAt == previous.createdAt
      && updated.updatedAt == now
      && |after| == |trailers|
      && (forall i :: 0 <= i < |trailers| && trailers[i].id == id ==> after[i] == updated)
      && (forall i :: 0 <= i < |trailers| && trailers[i].id != id ==> after[i] == trailers[i])
  {
    var existing := TR.GetById(trailers, id);
    if existing.None? then Err(NotFound("Trailer not found"))
    else
      var changed := existing.value.(
        name := request.name, description := request.description, kind := request.kind,
        pricePerDay := request.pricePerDay, maxWeight := request.maxWeight,
        licensePlate := request.licensePlate);
      Ok((TR.Update(trailers, changed, now), changed.(updatedAt := now)))
  }

  /** `DeleteAsync`: an unknown id is NotFound; otherwise the repository removes
      the trailer and answers true. */
  function Delete(trailers: seq<Trailer>, id: int): (result: Result<(seq<Trailer>, bool), Exception>)
    ensures result.Err? <==> !TR.Exists(trailers, id)
    ensures result.Err? ==> result.error == NotFound("Trailer not found")
    ensures result.Ok? ==>
      var (after, deleted) := result.value;
      && deleted
      && (forall i :: 0 <= i < |after| ==> after[i].id != id && after[i] in trailers)
      && (forall i :: 0 <= i < |trailers| && trailers[i].id != id ==> trailers[i] in after)
  {
    if !TR.Exists(trailers, id) then Err(NotFound("Trailer not found"))
    else Ok(TR.Delete(trailers, id))
  }

  /** Every unavailable row of `after` continues an unavailable row of `before`. */
  predicate NoNewlyUnavailable(before: seq<Trailer>, after: seq<Trailer>) {
    forall k :: 0 <= k < |after| && !after[k].isAvailable ==>
      exists i :: 0 <= i < |before| && before[i].id == after[k].id && !before[i].isAvailable
  }

  /** No trailer operation ever clears the availability flag: only a row that
      was already unavailable can be unavailable afterwards. */
  lemma NoOperationClearsAvailability(trailers: seq<Trailer>, id: int, request: TrailerRequest, now: int)
    ensures NoNewlyUnavailable(trailers, Create(trailers, request, now).0)
    ensures Update(trailers, id, request, now).Ok? ==>
      NoNewlyUnavailable(trailers, Update(trailers, id, request, now).value.0)
    ensures Delete(trailers, id).Ok? ==>
      NoNewlyUnavailable(trailers, Delete(trailers, id).value.0)
  {
    var created := Create(trailers, request, now).0;
    forall k | 0 <= k < |created| && !created[k].isAvailable
      ensures exists i :: 0 <= i < |trailers| && trailers[i].id == created[k].id && !trailers[i].isAvailable
    {
      assert created[k] == trailers[k];
    }
    var updated := Update(trailers, id, request, now);
    if updated.Ok? {
      var after := updated.value.0;
      var previous := TR.GetById(trailers, id).value;
      forall k | 0 <= k < |after| && !after[k].isAvailable
        ensures exists i :: 0 <= i < |trailers| && trailers[i].id == after[k].id && !trailers[i].isAvailable
      {
        if trailers[k].id == id {
          var i :| 0 <= i < |trailers| && trailers[i] == previous;
          assert trailers[i].id == after[k].id;
        } else {
          assert trailers[k] == after[k];
        }
      }
    }
    var deleted := Delete(trailers, id);
    if deleted.Ok? {
      var after := deleted.value.0;
      forall k | 0 <= k < |after| && !after[k].isAvailable
        ensures exists i :: 0 <= i < |trailers| && trailers[i].id == after[k].id && !trailers[i].isAvailable
      {
        var i :| 0 <= i < |trailers| && trailers[i] == after[k];
      }
    }
  }

  /** What the date-range search offers can be booked: for a user who exists,
      booking any listed trailer for the searched dates succeeds. */
  lemma OfferedTrailerIsBookable(store: RS.Store, userId: int, start: int, end: int, today: int, now: int,
                                 k: int, notes: Option<string>)
    requires RS.UserExists(store.users, userId)
    requires GetAvailableForDateRange(store.trailers, store.rentals, start, end, today).Ok?
    requires 0 <= k < |GetAvailableForDateRange(store.trailers, store.rentals, start, end, today).value|
    ensures var t := GetAvailableForDateRange(store.trailers, store.rentals, start, end, today).value[k];
      RS.Create(store, userId, RS.CreateRentalRequest(t.id, start, end, notes), today, now).Ok?
  {
    var t := GetAvailableForDateRange(store.trailers, store.rentals, start, end, today).value[k];
    var i :| 0 <= i < |store.trailers| && store.trailers[i] == t;
    assert TR.Exists(store.trailers, t.id);
  }
}
