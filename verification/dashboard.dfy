/** The dashboard's summary figures (front end,
    components/dashboard/dashboard.component.ts), computed from what the API
    sends for the signed-in user: the number of available trailers, the
    user's rentals newest first, the three most recent of them and the number
    still pending. Rentals reach the page as JSON, so the status field is
    modelled as the JSON value the API writes. */
module Dashboard {
  import opened Common
  import opened Entities
  import RR = RentalRepository
  import TR = TrailerRepository
  import WT = WireTime

  /** A JSON scalar as it arrives in the browser. */
  datatype Json = JNumber(n: int) | JString(s: string)

  /** A rental as the page holds it; `createdAt` is JavaScript milliseconds. */
  datatype UiRental = UiRental(id: int, trailerId: int, status: Json, createdAt: int)

  /** The component's four fields once both requests have answered. */
  datatype DashboardData = DashboardData(
    totalTrailers: nat,
    myRentals: seq<UiRental>,
    recentRentals: seq<UiRental>,
    pendingRentals: nat)

  /** How many rentals the "recent" panel shows. */
  const RecentLimit: nat := 3

  /** The position of a status in the backend's enum declaration. */
  function Ordinal(s: RentalStatus): (n: int)
    ensures 0 <= n < 5
    ensures s == Pending <==> n == 0
  {
    match s
    case Pending => 0
    case Confirmed => 1
    case Active => 2
    case Completed => 3
    case Cancelled => 4
  }

  /** The name the front end's `RentalStatus` enum gives a status. */
  function Name(s: RentalStatus): string {
    match s
    case Pending => "Pending"
    case Confirmed => "Confirmed"
    case Active => "Active"
    case Completed => "Completed"
    case Cancelled => "Cancelled"
  }

  /** The API's JSON for a status: the serializer is set up without a string
      converter for enums, so it writes the ordinal. */
  function EncodeStatus(s: RentalStatus): (j: Json)
    ensures j.JNumber?
  {
    JNumber(Ordinal(s))
  }

  /** What a JSON status value stands for, whichever of the two spellings
      (ordinal or enum name) it uses; anything else stands for no status. */
  function DecodeStatus(j: Json): (s: Option<RentalStatus>)
    ensures j.JNumber? && 0 <= j.n < 5 ==> s.Some? && Ordinal(s.value) == j.n
    ensures j.JNumber? && !(0 <= j.n < 5) ==> s.None?
    ensures j.JString? ==> (s.Some? <==> exists t: RentalStatus :: Name(t) == j.s)
    ensures s.Some? && j.JString? ==> Name(s.value) == j.s
  {
    match j
    case JNumber(n) =>
      if n == 0 then Some(Pending) else if n == 1 then Some(Confirmed) else if n == 2 then Some(Active)
      else if n == 3 then Some(Completed) else if n == 4 then Some(Cancelled) else None
    case JString(name) =>
      var s := if name == "Pending" then Some(Pending) else if name == "Confirmed" then Some(Confirmed)
        else if name == "Active" then Some(Active) else if name == "Completed" then Some(Completed)
        else if name == "Cancelled" then Some(Cancelled) else None;
      assert s.Some? ==> Name(s.value) == name;
      s
  }

  /** Decoding reads back every status the API writes, and both spellings of
      a status decode to it. */
  lemma StatusRoundTrip(s: RentalStatus)
    ensures DecodeStatus(EncodeStatus(s)) == Some(s)
    ensures DecodeStatus(JString(Name(s))) == Some(s)
  {
  }

  /** A backend rental as the page receives it. */
  function ToUi(r: Rental): (u: UiRental)
    ensures u.id == r.id && u.trailerId == r.trailerId
    ensures u.status == EncodeStatus(r.status) && DecodeStatus(u.status) == Some(r.status)
    ensures WT.MsToTicks(u.createdAt) <= r.createdAt < WT.MsToTicks(u.createdAt) + WT.TicksPerMs
  {
    StatusRoundTrip(r.status);
    UiRental(r.id, r.trailerId, EncodeStatus(r.status), WT.TicksToMs(r.createdAt))
  }

  /** The API's array of rentals, element by element. */
  function Serialize(rentals: seq<Rental>): (ui: seq<UiRental>)
    ensures |ui| == |rentals|
    ensures forall i :: 0 <= i < |rentals| ==> ui[i] == ToUi(rentals[i])
  {
    if |rentals| == 0 then [] else [ToUi(rentals[0])] + Serialize(rentals[1..])
  }

  /** Newest first: no rental is created after one listed before it. */
  predicate NewestFirst(rs: seq<UiRental>) {
    forall i, j :: 0 <= i < j < |rs| ==> rs[i].createdAt >= rs[j].createdAt
  }

  /** Puts `x` in front of the first rental created no later than it, so
      that among equal timestamps the earlier arrival stays first. */
  function Insert(x: UiRental, rs: seq<UiRental>): (r: seq<UiRental>)
    ensures |r| == |rs| + 1
    ensures multiset(r) == multiset(rs) + multiset{x}
  {
    if |rs| == 0 then [x]
    else if rs[0].createdAt <= x.createdAt then [x] + rs
    else
      assert rs == [rs[0]] + rs[1..];
      [rs[0]] + Insert(x, rs[1..])
  }

  /** The comparator sort `(a, b) => b.createdAt - a.createdAt`, which is
      stable: the rentals rearranged newest first. */
  function SortNewestFirst(rs: seq<UiRental>): (sorted: seq<UiRental>)
    ensures NewestFirst(sorted)
    ensures multiset(sorted) == multiset(rs)
    ensures |sorted| == |rs|
  {
    if |rs| == 0 then []
    else
      assert rs == [rs[0]] + rs[1..];
      InsertKeepsNewestFirst(rs[0], SortNewestFirst(rs[1..]));
      Insert(rs[0], SortNewestFirst(rs[1..]))
  }

  /** Inserting into a list that is newest first keeps it newest first. */
  lemma {:induction false} InsertKeepsNewestFirst(x: UiRental, rs: seq<UiRental>)
    requires NewestFirst(rs)
    ensures NewestFirst(Insert(x, rs))
  {
    if |rs| > 0 && rs[0].createdAt > x.createdAt {
      var tail := Insert(x, rs[1..]);
      InsertKeepsNewestFirst(x, rs[1..]);
      forall k | 0 <= k < |tail|
        ensures tail[k].createdAt <= rs[0].createdAt
      {
        assert tail[k] in multiset(rs[1..]) + multiset{x};
        if tail[k] != x {
          assert tail[k] in rs[1..];
        }
      }
    }
  }

  /** `slice(0, 3)` of the sorted list. */
  function Recent(sorted: seq<UiRental>): (recent: seq<UiRental>)
    ensures |recent| == if |sorted| < RecentLimit then |sorted| else RecentLimit
    ensures recent <= sorted
  {
    if |sorted| < RecentLimit then sorted else sorted[..RecentLimit]
  }

  /** A rental the page counts as pending. */
  predicate DecodesToPending(u: UiRental) {
    DecodeStatus(u.status) == Some(Pending)
  }

  /** A pending rental of the backend. */
  predicate IsPending(r: Rental) {
    r.status == Pending
  }

  /** The filter as written: `r.status === 'Pending'`, comparing the JSON
      value with the enum's name. */
  function PendingCountAsWritten(rs: seq<UiRental>): (n: nat)
    ensures n <= |rs|
    ensures n > 0 <==> exists i :: 0 <= i < |rs| && rs[i].status == JString("Pending")
  {
    if |rs| == 0 then 0
    else (if rs[0].status == JString("Pending") then 1 else 0) + PendingCountAsWritten(rs[1..])
  }

  /** The filter as intended: rentals whose status stands for Pending. */
  function PendingCount(rs: seq<UiRental>): (n: nat)
    ensures n <= |rs|
    ensures n > 0 <==> exists i :: 0 <= i < |rs| && DecodesToPending(rs[i])
  {
    if |rs| == 0 then 0
    else (if DecodesToPending(rs[0]) then 1 else 0) + PendingCount(rs[1..])
  }

  /** What the API sends, status by status, never matches the string: the
      filter as written counts 0 for every list of rentals the API returns,
      even one holding a single freshly booked (Pending) rental. */
  lemma {:induction false} PendingAlwaysZeroAsWritten(rentals: seq<Rental>)
    ensures PendingCountAsWritten(Serialize(rentals)) == 0
    ensures |rentals| == 1 && rentals[0].status == Pending ==> PendingCount(Serialize(rentals)) == 1
  {
    var ui := Serialize(rentals);
    forall i | 0 <= i < |ui|
      ensures ui[i].status != JString("Pending")
    {
      assert ui[i] == ToUi(rentals[i]);
    }
    if |rentals| == 1 && rentals[0].status == Pending {
      assert ui[1..] == [];
    }
  }

  /** Inserting a rental raises the pending count by one exactly when it is pending. */
  lemma {:induction false} PendingCountInsert(x: UiRental, rs: seq<UiRental>)
    ensures PendingCount(Insert(x, rs)) == (if DecodesToPending(x) then 1 else 0) + PendingCount(rs)
  {
    if |rs| == 0 {
    } else if rs[0].createdAt <= x.createdAt {
      assert ([x] + rs)[1..] == rs;
    } else {
      var r := [rs[0]] + Insert(x, rs[1..]);
      assert r[1..] == Insert(x, rs[1..]);
      PendingCountInsert(x, rs[1..]);
    }
  }

  /** Sorting does not change the pending count. */
  lemma {:induction false} PendingCountSorted(rs: seq<UiRental>)
    ensures PendingCount(SortNewestFirst(rs)) == PendingCount(rs)
  {
    if |rs| > 0 {
      PendingCountSorted(rs[1..]);
      PendingCountInsert(rs[0], SortNewestFirst(rs[1..]));
    }
  }

  /** The intended count of the serialised list is the backend's number of
      pending rentals. */
  lemma {:induction false} PendingCountSerialized(rentals: seq<Rental>)
    ensures PendingCount(Serialize(rentals)) == Count(rentals, IsPending)
  {
    if |rentals| > 0 {
      var ui := Serialize(rentals);
      assert ui[1..] == Serialize(rentals[1..]);
      PendingCountSerialized(rentals[1..]);
    }
  }

  /** `loadDashboardData` for the signed-in user, with the pending filter as
      intended: the available-trailer count, the user's rentals sorted in
      place newest first (so `myRentals` is sorted too), the first three of
      them, and how many are pending. */
  function Load(trailers: seq<Trailer>, rentals: seq<Rental>, userId: int): (data: DashboardData)
    ensures data.totalTrailers == |TR.GetAvailable(trailers)|
    ensures data.totalTrailers == 0 <==> forall i :: 0 <= i < |trailers| ==> !trailers[i].isAvailable
    ensures data.totalTrailers <= |trailers|
    ensures NewestFirst(data.myRentals)
    ensures multiset(data.myRentals) == multiset(Serialize(RR.GetByUserId(rentals, userId)))
    ensures data.recentRentals <= data.myRentals
    ensures |data.recentRentals| == if |data.myRentals| < RecentLimit then |data.myRentals| else RecentLimit
  {
    var available := TR.GetAvailable(trailers);
    assert |available| > 0 ==> available[0] in trailers && available[0].isAvailable;
    var mine := SortNewestFirst(Serialize(RR.GetByUserId(rentals, userId)));
    DashboardData(|available|, mine, Recent(mine), PendingCount(mine))
  }

  /** The pending figure on the dashboard is the number of the user's rentals
      that the backend holds as Pending; the filter as written would show 0. */
  lemma PendingFigureIsBackendCount(trailers: seq<Trailer>, rentals: seq<Rental>, userId: int)
    ensures Load(trailers, rentals, userId).pendingRentals == Count(RR.GetByUserId(rentals, userId), IsPending)
    ensures PendingCountAsWritten(Load(trailers, rentals, userId).myRentals) == 0
  {
    var ui := Serialize(RR.GetByUserId(rentals, userId));
    PendingCountSorted(ui);
    PendingCountSerialized(RR.GetByUserId(rentals, userId));
    var mine := SortNewestFirst(ui);
    forall k | 0 <= k < |mine|
      ensures mine[k].status.JNumber?
    {
      assert mine[k] in multiset(ui);
    }
    AllNumbersCountZero(mine);
  }

  /** No status written as a number matches the string filter. */
  lemma {:induction false} AllNumbersCountZero(rs: seq<UiRental>)
    requires forall k :: 0 <= k < |rs| ==> rs[k].status.JNumber?
    ensures PendingCountAsWritten(rs) == 0
  {
    if |rs| > 0 {
      AllNumbersCountZero(rs[1..]);
    }
  }

  /** The recent panel shows the newest rentals: every rental of the user left
      out of it is no newer than any rental in it, and each one shown belongs
      to the user. */
  lemma RecentAreNewest(trailers: seq<Trailer>, rentals: seq<Rental>, userId: int)
    ensures var data := Load(trailers, rentals, userId);
      forall i, j :: 0 <= i < |data.recentRentals| <= j < |data.myRentals| ==>
        data.myRentals[j].createdAt <= data.recentRentals[i].createdAt
    ensures var data := Load(trailers, rentals, userId);
      forall i :: 0 <= i < |data.recentRentals| ==>
        exists r :: r in RR.GetByUserId(rentals, userId) && r.userId == userId && data.recentRentals[i] == ToUi(r)
  {
    var data := Load(trailers, rentals, userId);
    var mine := RR.GetByUserId(rentals, userId);
    var ui := Serialize(mine);
    forall i | 0 <= i < |data.recentRentals|
      ensures exists r :: r in mine && r.userId == userId && data.recentRentals[i] == ToUi(r)
    {
      assert data.recentRentals[i] == data.myRentals[i];
      assert data.myRentals[i] in multiset(ui);
      var k :| 0 <= k < |ui| && ui[k] == data.myRentals[i];
      assert ui[k] == ToUi(mine[k]);
      assert mine[k] in mine;
    }
  }
}
