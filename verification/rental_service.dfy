/** The rental workflow (TrailerRent.Business/Services/RentalService.cs) as
    transitions on a store holding the three tables. A failed call returns the
    exception it throws and no new store, so the tables stay as they were. */
module RentalService {
  import opened Common
  import opened Entities
  import opened Exceptions
  import RR = RentalRepository
  import TR = TrailerRepository

  datatype Store = Store(users: seq<User>, trailers: seq<Trailer>, rentals: seq<Rental>)

  /** The body of a booking request (`CreateRentalDto`). */
  datatype CreateRentalRequest = CreateRentalRequest(trailerId: int, startDate: int, endDate: int, notes: Option<string>)

  /** `TimeSpan.Days`: the whole days in a span of ticks, truncated toward zero. */
  function WholeDays(span: int): (days: int)
    ensures span >= 0 ==> days >= 0 && days * TicksPerDay <= span < (days + 1) * TicksPerDay
    ensures span < 0 ==> days <= 0 && (days - 1) * TicksPerDay < span <= days * TicksPerDay
  {
    if span >= 0 then span / TicksPerDay else -((-span) / TicksPerDay)
  }

  /** The days a booking is charged for: the whole days between start and end,
      with a span shorter than one day charged as one day. */
  function ChargedDays(start: int, end: int): (days: int)
    ensures start < end ==> days >= 1
    ensures start < end && end - start < TicksPerDay ==> days == 1
    ensures start < end && end - start >= TicksPerDay ==>
      days * TicksPerDay <= end - start < (days + 1) * TicksPerDay
  {
    var days := WholeDays(end - start);
    if days == 0 then 1 else days
  }

  /** `IUserRepository.ExistsAsync` (UserRepository.cs is not part of this model). */
  function UserExists(users: seq<User>, id: int): (b: bool)
    ensures b <==> exists i :: 0 <= i < |users| && users[i].id == id
  {
    Any(users, (u: User) => u.id == id)
  }

  /** Every stored interval runs forwards. */
  predicate WellFormedIntervals(rentals: seq<Rental>) {
    forall i :: 0 <= i < |rentals| ==> rentals[i].startDate <= rentals[i].endDate
  }

  /** No two live rentals of one trailer share an instant. */
  predicate NoOverlap(rentals: seq<Rental>) {
    forall i, j ::
      (0 <= i < j < |rentals| &&
       rentals[i].trailerId == rentals[j].trailerId &&
       !IsTerminal(rentals[i].status) && !IsTerminal(rentals[j].status)) ==>
      !RR.Intersects(rentals[i].startDate, rentals[i].endDate, rentals[j].startDate, rentals[j].endDate)
  }

  /** The invariant of the rental table. */
  predicate Consistent(rentals: seq<Rental>) {
    WellFormedIntervals(rentals) && RR.UniqueIds(rentals) && NoOverlap(rentals)
  }

  /** `CreateAsync`: the user must exist, then the trailer, then the dates must
      run forwards, then the start must not lie before `today`, then no live
      rental of the trailer may clash; only then is a Pending rental appended,
      priced at the trailer's day rate times the charged days. `now` stands for
      the clock reading stamped into CreatedAt and UpdatedAt. */
  function Create(store: Store, userId: int, request: CreateRentalRequest, today: int, now: int)
    : (result: Result<(Store, Rental), Exception>)
    ensures !UserExists(store.users, userId) ==> result == Err(NotFound("User not found"))
    ensures UserExists(store.users, userId) && !TR.Exists(store.trailers, request.trailerId) ==>
      result == Err(NotFound("Trailer not found"))
    ensures (UserExists(store.users, userId) && TR.Exists(store.trailers, request.trailerId) &&
             request.startDate >= request.endDate) ==>
      result == Err(Validation("Start date must be before end date"))
    ensures (UserExists(store.users, userId) && TR.Exists(store.trailers, request.trailerId) &&
             request.startDate < request.endDate && request.startDate < today) ==>
      result == Err(Validation("Start date cannot be in the past"))
    ensures (UserExists(store.users, userId) && TR.Exists(store.trailers, request.trailerId) &&
             today <= request.startDate < request.endDate &&
             exists i :: 0 <= i < |store.rentals| &&
               RR.Blocks(store.rentals[i], request.trailerId, request.startDate, request.endDate)) ==>
      result == Err(Conflict("Trailer is not available for the selected dates"))
    ensures result.Ok? <==>
      UserExists(store.users, userId) && TR.Exists(store.trailers, request.trailerId) &&
      today <= request.startDate < request.endDate &&
      forall i :: 0 <= i < |store.rentals| ==>
        !RR.Blocks(store.rentals[i], request.trailerId, request.startDate, request.endDate)
    ensures result.Ok? ==>
      var (after, rental) := result.value;
      && after == store.(rentals := store.rentals + [rental])
      && !RR.Exists(store.rentals, rental.id)
      && rental.userId == userId
      && rental.trailerId == request.trailerId
      && rental.startDate == request.startDate
      && rental.endDate == request.endDate
      && rental.notes == request.notes
      && rental.status == Pending
      && rental.createdAt == now && rental.updatedAt == now
      && rental.totalPrice ==
         TR.GetById(store.trailers, request.trailerId).value.pricePerDay *
         ChargedDays(request.startDate, request.endDate)
  {
    if !UserExists(store.users, userId) then Err(NotFound("User not found"))
    else
      var trailer := TR.GetById(store.trailers, request.trailerId);
      if trailer.None? then Err(NotFound("Trailer not found"))
      else if request.startDate >= request.endDate then
        Err(Validation("Start date must be before end date"))
      else if request.startDate < today then
        Err(Validation("Start date cannot be in the past"))
      else if !RR.IsTrailerAvailable(store.rentals, request.trailerId, request.startDate, request.endDate, None) then
        Err(Conflict("Trailer is not available for the selected dates"))
      else
        var days := ChargedDays(request.startDate, request.endDate);
        var rental := Rental(
          RR.NextRentalId(store.rentals), userId, request.trailerId,
          request.startDate, request.endDate,
          trailer.value.pricePerDay * days, Pending, request.notes, now, now);
        Ok((store.(rentals := store.rentals + [rental]), rental))
  }

  /** The store after a call: the new store on success, the old one on failure. */
  function StoreAfter<T>(store: Store, result: Result<(Store, T), Exception>): Store {
    if result.Ok? then result.value.0 else store
  }

  /** A failed create changes no table; a successful one only appends the new
      rental. */
  lemma CreateOnlyAppends(store: Store, userId: int, request: CreateRentalRequest, today: int, now: int)
    ensures var result := Create(store, userId, request, today, now);
      && StoreAfter(store, result).users == store.users
      && StoreAfter(store, result).trailers == store.trailers
      && (result.Err? ==> StoreAfter(store, result) == store)
      && (result.Ok? ==> StoreAfter(store, result).rentals == store.rentals + [result.value.1])
  {
  }

  /** The charge is never below one day's rate (for a non-negative rate), and
      a booking of at least a day is never charged more than its pro-rata
      price: partial extra days are free. */
  lemma CreatedPriceBounds(store: Store, userId: int, request: CreateRentalRequest, today: int, now: int)
    requires Create(store, userId, request, today, now).Ok?
    ensures var rental := Create(store, userId, request, today, now).value.1;
      var rate := TR.GetById(store.trailers, request.trailerId).value.pricePerDay;
      var span := request.endDate - request.startDate;
      && (rate >= 0 ==> rental.totalPrice >= rate)
      && (span < TicksPerDay ==> rental.totalPrice == rate)
      && (rate >= 0 && span >= TicksPerDay ==> rental.totalPrice * TicksPerDay <= rate * span)
  {
    var rental := Create(store, userId, request, today, now).value.1;
    var rate := TR.GetById(store.trailers, request.trailerId).value.pricePerDay;
    var span := request.endDate - request.startDate;
    var days := ChargedDays(request.startDate, request.endDate);
    assert rental.totalPrice == rate * days;
    if rate >= 0 {
      assert rate * days >= rate * 1 by { MulMonotone(rate, 1, days); }
      if span >= TicksPerDay {
        assert days * TicksPerDay <= span;
        MulMonotone(rate, days * TicksPerDay, span);
        assert rate * (days * TicksPerDay) == (rate * days) * TicksPerDay;
      }
    }
  }

  /** Multiplying by a non-negative factor keeps the order. */
  lemma MulMonotone(k: int, a: int, b: int)
    requires k >= 0 && a <= b
    ensures k * a <= k * b
  {
    assert k * b - k * a == k * (b - a);
  }

  /** Run one request at a time, a successful create keeps the rental table
      consistent: in particular no two live rentals of a trailer overlap. */
  lemma CreatePreservesConsistency(store: Store, userId: int, request: CreateRentalRequest, today: int, now: int)
    requires Consistent(store.rentals)
    requires Create(store, userId, request, today, now).Ok?
    ensures Consistent(Create(store, userId, request, today, now).value.0.rentals)
  {
    var (after, rental) := Create(store, userId, request, today, now).value;
    var rs := store.rentals;
    var rs' := after.rentals;
    assert rs' == rs + [rental];
    forall i | 0 <= i < |rs| && rs[i].trailerId == rental.trailerId && !IsTerminal(rs[i].status)
      ensures !RR.Intersects(rs[i].startDate, rs[i].endDate, rental.startDate, rental.endDate)
    {
      assert !RR.Blocks(rs[i], request.trailerId, request.startDate, request.endDate);
      RR.DateClashIsIntersection(rs[i].startDate, rs[i].endDate, rental.startDate, rental.endDate);
    }
    forall i, j | 0 <= i < j < |rs'| && rs'[i].trailerId == rs'[j].trailerId &&
      !IsTerminal(rs'[i].status) && !IsTerminal(rs'[j].status)
      ensures !RR.Intersects(rs'[i].startDate, rs'[i].endDate, rs'[j].startDate, rs'[j].endDate)
    {
      if j == |rs| {
        assert rs'[j] == rental && rs'[i] == rs[i];
      } else {
        assert rs'[i] == rs[i] && rs'[j] == rs[j];
      }
    }
    forall i, j | 0 <= i < j < |rs'|
      ensures rs'[i].id != rs'[j].id
    {
      if j == |rs| {
        assert rs'[i] == rs[i];
      } else {
        assert rs'[i] == rs[i] && rs'[j] == rs[j];
      }
    }
  }

  /** Every trailer with its availability flag set to `flag`. */
  function WithAvailability(trailers: seq<Trailer>, flag: bool): (flagged: seq<Trailer>)
    ensures |flagged| == |trailers|
    ensures forall i :: 0 <= i < |trailers| ==> flagged[i] == trailers[i].(isAvailable := flag)
  {
    seq(|trailers|, i requires 0 <= i < |trailers| => trailers[i].(isAvailable := flag))
  }

  /** Looking a trailer up ignores the flags: the same row is found, with the
      new flag. */
  lemma GetByIdIgnoresAvailability(trailers: seq<Trailer>, flag: bool, id: int)
    ensures var a := TR.GetById(trailers, id);
      var b := TR.GetById(WithAvailability(trailers, flag), id);
      && a.Some? == b.Some?
      && (a.Some? ==> b.value == a.value.(isAvailable := flag))
  {
    var flagged := WithAvailability(trailers, flag);
    var a := TR.GetById(trailers, id);
    var b := TR.GetById(flagged, id);
    assert forall i :: 0 <= i < |flagged| ==> flagged[i].id == trailers[i].id;
    if a.Some? {
      var i :| 0 <= i < |trailers| && trailers[i] == a.value && TR.HasId(id)(trailers[i]) &&
        (forall k :: 0 <= k < i ==> !TR.HasId(id)(trailers[k]));
      var j :| 0 <= j < |flagged| && flagged[j] == b.value && TR.HasId(id)(flagged[j]) &&
        (forall k :: 0 <= k < j ==> !TR.HasId(id)(flagged[k]));
      assert TR.HasId(id)(flagged[i]) && TR.HasId(id)(trailers[j]);
      assert i == j;
    }
  }

  /** Create never consults `Trailer.IsAvailable`: whatever the flags say, the
      outcome and the booked rental are the same, so a trailer marked
      unavailable can still be booked. */
  lemma CreateIgnoresAvailabilityFlag(store: Store, flag: bool, userId: int, request: CreateRentalRequest,
                                      today: int, now: int)
    ensures var flagged := store.(trailers := WithAvailability(store.trailers, flag));
      var before := Create(store, userId, request, today, now);
      var after := Create(flagged, userId, request, today, now);
      && before.Ok? == after.Ok?
      && (before.Err? ==> after == before)
      && (before.Ok? ==> after.value.1 == before.value.1 && after.value.0.rentals == before.value.0.rentals)
  {
    GetByIdIgnoresAvailability(store.trailers, flag, request.trailerId);
  }

  /** `UpdateStatusAsync`: an unknown id is NotFound; otherwise the status is
      overwritten with whatever was asked for (no transition rule, no new
      availability check) and the row is stamped with `now`. */
  function UpdateStatus(store: Store, id: int, status: RentalStatus, now: int)
    : (result: Result<(Store, Rental), Exception>)
    ensures result.Err? <==> !RR.Exists(store.rentals, id)
    ensures result.Err? ==> result.error == NotFound("Rental not found")
    ensures result.Ok? ==>
      var (after, rental) := result.value;
      && rental.id == id && rental.status == status && rental.updatedAt == now
      && after.users == store.users && after.trailers == store.trailers
      && |after.rentals| == |store.rentals|
      && (forall i :: 0 <= i < |store.rentals| && store.rentals[i].id != id ==>
            after.rentals[i] == store.rentals[i])
      && (RR.UniqueIds(store.rentals) ==>
            forall i :: 0 <= i < |store.rentals| && store.rentals[i].id == id ==>
              after.rentals[i] == store.rentals[i].(status := status, updatedAt := now) &&
              after.rentals[i] == rental)
  {
    var found := RR.GetById(store.rentals, id);
    if found.None? then Err(NotFound("Rental not found"))
    else
      var changed := found.value.(status := status);
      Ok((store.(rentals := RR.Update(store.rentals, changed, now)), changed.(updatedAt := now)))
  }

  /** Moving a rental to Cancelled or Completed keeps the table consistent. */
  lemma UpdateToTerminalPreservesConsistency(store: Store, id: int, status: RentalStatus, now: int)
    requires Consistent(store.rentals)
    requires IsTerminal(status)
    requires UpdateStatus(store, id, status, now).Ok?
    ensures Consistent(UpdateStatus(store, id, status, now).value.0.rentals)
  {
    var rs := store.rentals;
    var rs' := UpdateStatus(store, id, status, now).value.0.rentals;
    assert forall i :: 0 <= i < |rs| ==>
      rs'[i].id == rs[i].id && rs'[i].startDate == rs[i].startDate && rs'[i].endDate == rs[i].endDate &&
      rs'[i].trailerId == rs[i].trailerId && (rs'[i] != rs[i] ==> IsTerminal(rs'[i].status));
  }

  /** Status updates do not preserve the invariant: reviving a cancelled
      rental whose dates intersect a live booking of the same trailer leaves
      two live, overlapping rentals. */
  lemma ReviveBreaksNoOverlap(store: Store, i: int, j: int, now: int)
    requires RR.UniqueIds(store.rentals)
    requires 0 <= i < |store.rentals| && 0 <= j < |store.rentals| && i != j
    requires store.rentals[i].trailerId == store.rentals[j].trailerId
    requires !IsTerminal(store.rentals[j].status)
    requires RR.Intersects(store.rentals[i].startDate, store.rentals[i].endDate,
                           store.rentals[j].startDate, store.rentals[j].endDate)
    ensures UpdateStatus(store, store.rentals[i].id, Pending, now).Ok?
    ensures !NoOverlap(UpdateStatus(store, store.rentals[i].id, Pending, now).value.0.rentals)
  {
    var rs := store.rentals;
    var rs' := UpdateStatus(store, rs[i].id, Pending, now).value.0.rentals;
    assert rs'[i] == rs[i].(status := Pending, updatedAt := now);
    assert rs'[j] == rs[j];
    if i < j {
      assert !(rs'[i].trailerId == rs'[j].trailerId && !IsTerminal(rs'[i].status) && !IsTerminal(rs'[j].status) ==>
        !RR.Intersects(rs'[i].startDate, rs'[i].endDate, rs'[j].startDate, rs'[j].endDate));
    } else {
      assert !(rs'[j].trailerId == rs'[i].trailerId && !IsTerminal(rs'[j].status) && !IsTerminal(rs'[i].status) ==>
        !RR.Intersects(rs'[j].startDate, rs'[j].endDate, rs'[i].startDate, rs'[i].endDate));
    }
  }

  /** A consistent table in which the revival of `ReviveBreaksNoOverlap`
      happens: a cancelled booking of trailer 1 for ticks [0, 10] and a pending
      one for [5, 15]. */
  lemma ReviveBreaksConsistentStore(now: int)
    ensures var store := Store([], [], [
        Rental(1, 1, 1, 0, 10, 100, Cancelled, None, 0, 0),
        Rental(2, 1, 1, 5, 15, 100, Pending, None, 0, 0)]);
      && Consistent(store.rentals)
      && UpdateStatus(store, 1, Pending, now).Ok?
      && !Consistent(UpdateStatus(store, 1, Pending, now).value.0.rentals)
  {
    var store := Store([], [], [
        Rental(1, 1, 1, 0, 10, 100, Cancelled, None, 0, 0),
        Rental(2, 1, 1, 5, 15, 100, Pending, None, 0, 0)]);
    ReviveBreaksNoOverlap(store, 0, 1, now);
  }

  /** `DeleteAsync`: an unknown id is NotFound; otherwise exactly that rental
      is removed and the answer is true. */
  function Delete(store: Store, id: int): (result: Result<(Store, bool), Exception>)
    ensures result.Err? <==> !RR.Exists(store.rentals, id)
    ensures result.Err? ==> result.error == NotFound("Rental not found")
    ensures result.Ok? ==>
      var (after, deleted) := result.value;
      && deleted
      && after.users == store.users && after.trailers == store.trailers
      && (forall i :: 0 <= i < |after.rentals| ==> after.rentals[i].id != id && after.rentals[i] in store.rentals)
      && (forall i :: 0 <= i < |store.rentals| && store.rentals[i].id != id ==> store.rentals[i] in after.rentals)
  {
    if !RR.Exists(store.rentals, id) then Err(NotFound("Rental not found"))
    else
      var (rentals, deleted) := RR.Delete(store.rentals, id);
      Ok((store.(rentals := rentals), deleted))
  }

  /** Deleting a rental keeps the table consistent and shrinks it by one row. */
  lemma DeletePreservesConsistency(store: Store, id: int)
    requires Consistent(store.rentals)
    requires Delete(store, id).Ok?
    ensures Consistent(Delete(store, id).value.0.rentals)
    ensures |Delete(store, id).value.0.rentals| == |store.rentals| - 1
  {
    var rs := store.rentals;
    RR.DeleteRemovesExactlyOne(rs, id);
    var rs' := Delete(store, id).value.0.rentals;
    SubTablePreservesNoOverlap(rs, rs');
  }

  /** Rows drawn from a consistent table, without repeating an id, are free
      of overlap too. */
  lemma SubTablePreservesNoOverlap(rentals: seq<Rental>, sub: seq<Rental>)
    requires WellFormedIntervals(rentals) && NoOverlap(rentals)
    requires RR.UniqueIds(sub)
    requires forall k :: 0 <= k < |sub| ==> sub[k] in rentals
    ensures WellFormedIntervals(sub) && NoOverlap(sub)
  {
    forall a, b | 0 <= a < b < |sub| && sub[a].trailerId == sub[b].trailerId &&
      !IsTerminal(sub[a].status) && !IsTerminal(sub[b].status)
      ensures !RR.Intersects(sub[a].startDate, sub[a].endDate, sub[b].startDate, sub[b].endDate)
    {
      var i :| 0 <= i < |rentals| && rentals[i] == sub[a];
      var j :| 0 <= j < |rentals| && rentals[j] == sub[b];
      assert i != j;
    }
  }
}
