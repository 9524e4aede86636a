/** How the price the booking page quotes relates to the price the backend
    stores for the request the page submits. The page counts started days
    between the two picked dates (or hours times the hourly rate); the
    backend counts whole days between the two instants, at least one, times
    the day rate, and knows nothing of hourly rentals. Dates come from the
    date pickers, so they are midnights. */
module QuoteVsCharge {
  import opened Common
  import RF = RentForm
  import RS = RentalService
  import WT = WireTime
  import Entities

  /** The body the API receives for a submitted request: both instants in
      ticks; the page's `isHourlyRental` flag has no field to land in. */
  function ToBackend(request: RF.RentalRequest): (backend: RS.CreateRentalRequest)
    ensures backend.trailerId == request.trailerId && backend.notes == request.notes
    ensures backend.endDate - backend.startDate == (request.endDate - request.startDate) * WT.TicksPerMs
    ensures backend.startDate < backend.endDate <==> request.startDate < request.endDate
  {
    RS.CreateRentalRequest(request.trailerId, WT.MsToTicks(request.startDate), WT.MsToTicks(request.endDate),
                           request.notes)
  }

  /** Minutes since midnight. */
  function Minutes(t: RF.TimeOfDay): int {
    t.hour * 60 + t.minute
  }

  predicate ValidTime(t: RF.TimeOfDay) {
    0 <= t.hour < 24 && 0 <= t.minute < 60
  }

  /** A span has one whole-day count: two candidates that both bracket it agree. */
  lemma QuotientUnique(a: int, b: int, span: int, d: int)
    requires d > 0
    requires a * d <= span < (a + 1) * d
    requires b * d <= span < (b + 1) * d
    ensures a == b
  {
  }

  /** The whole-day count of a span of `n` days and `r` ticks, 0 <= r < one day. */
  lemma ChargedDaysOf(start: int, end: int, n: int, r: int)
    requires n >= 0 && 0 <= r < Entities.TicksPerDay
    requires end - start == n * Entities.TicksPerDay + r
    requires start < end
    ensures RS.ChargedDays(start, end) == if n == 0 then 1 else n
  {
    if n > 0 {
      var days := RS.ChargedDays(start, end);
      QuotientUnique(days, n, end - start, Entities.TicksPerDay);
    }
  }

  /** A daily booking from day `first` at `pickup` to day `first + n` at
      `dropOff`, on a page opened at `today`. The page quotes `n` days and
      submits exactly when the first day is not before today. The backend's
      date-order check passes only if the instants run forwards, and it then
      charges `n` days, except that a same-day booking is charged one day
      (quoted nothing) and a return earlier in the day than the pickup, over
      two or more days, is charged one day fewer than quoted. */
  lemma {:induction false} DailyQuoteVsCharge(trailer: RF.UiTrailer, f: RF.RentalForm, today: int, first: int, n: nat,
                                              pickup: RF.TimeOfDay, dropOff: RF.TimeOfDay)
    requires !RF.IsHourly(f) && f.rentalType != ""
    requires f.startDate == Some(first * RF.MsPerDay) && f.endDate == Some((first + n) * RF.MsPerDay)
    requires RF.ParseTime(f.startTime) == Some(pickup) && RF.ParseTime(f.endTime) == Some(dropOff)
    requires ValidTime(pickup) && ValidTime(dropOff)
    ensures RF.RentalDuration(f) == n
    ensures RF.TotalPrice(Some(trailer), f) == trailer.pricePerDay * n
    ensures RF.Submit(Some(trailer), f, today).Some? <==> today / RF.MsPerDay <= first
    ensures RF.Submit(Some(trailer), f, today).Some? ==>
      var b := ToBackend(RF.Submit(Some(trailer), f, today).value);
      b.startDate < b.endDate <==> (n > 0 || Minutes(pickup) < Minutes(dropOff))
    ensures RF.Submit(Some(trailer), f, today).Some? ==>
      var b := ToBackend(RF.Submit(Some(trailer), f, today).value);
      (n > 0 || Minutes(pickup) < Minutes(dropOff)) ==>
      RS.ChargedDays(b.startDate, b.endDate) ==
        if n == 0 then 1
        else if Minutes(pickup) <= Minutes(dropOff) || n == 1 then n
        else n - 1
  {
    var d := (first + n) * RF.MsPerDay - first * RF.MsPerDay;
    assert d == n * RF.MsPerDay;
    var q := RF.RentalDuration(f);
    assert (q - 1) * RF.MsPerDay < n * RF.MsPerDay <= q * RF.MsPerDay;
    QuotientUnique(q - 1, n - 1, n * RF.MsPerDay - 1, RF.MsPerDay);
    assert (first * RF.MsPerDay) / RF.MsPerDay == first;
    assert ((first + n) * RF.MsPerDay) / RF.MsPerDay == first + n;
    RF.DateValidity(f, today);
    if today / RF.MsPerDay > first {
      return;
    }
    var request := RF.Submit(Some(trailer), f, today).value;
    var start := RF.At(first * RF.MsPerDay, pickup);
    var end := RF.At((first + n) * RF.MsPerDay, dropOff);
    assert start == first * RF.MsPerDay + Minutes(pickup) * RF.MsPerMinute;
    assert end == (first + n) * RF.MsPerDay + Minutes(dropOff) * RF.MsPerMinute;
    var diff := Minutes(dropOff) - Minutes(pickup);
    assert end - start == n * RF.MsPerDay + diff * RF.MsPerMinute;
    var b := ToBackend(request);
    var span := b.endDate - b.startDate;
    assert span == n * Entities.TicksPerDay + diff * RF.MsPerMinute * WT.TicksPerMs;
    if n > 0 || diff > 0 {
      if diff >= 0 {
        ChargedDaysOf(b.startDate, b.endDate, n, diff * RF.MsPerMinute * WT.TicksPerMs);
      } else if n == 1 {
        ChargedDaysOf(b.startDate, b.endDate, 0, Entities.TicksPerDay + diff * RF.MsPerMinute * WT.TicksPerMs);
      } else {
        ChargedDaysOf(b.startDate, b.endDate, n - 1, Entities.TicksPerDay + diff * RF.MsPerMinute * WT.TicksPerMs);
      }
    }
  }

  /** An hourly booking of `h` hours: the page quotes the hourly rate times
      `h`, the request runs forwards, and the backend charges whole days of
      the span, so any booking shorter than a day costs the full day rate. */
  lemma {:induction false} HourlyQuoteVsCharge(trailer: RF.UiTrailer, f: RF.RentalForm, today: int, h: int,
                                               pickup: RF.TimeOfDay)
    requires RF.IsHourly(f) && RF.FormValid(f, today)
    requires f.duration == Some(h)
    requires RF.ParseTime(f.startTime) == Some(pickup)
    ensures h >= 1
    ensures RF.TotalPrice(Some(trailer), f) == RF.Rate(trailer, f) * h
    ensures RF.Submit(Some(trailer), f, today).Some?
    ensures var b := ToBackend(RF.Submit(Some(trailer), f, today).value);
      b.startDate < b.endDate &&
      (h < 24 ==> RS.ChargedDays(b.startDate, b.endDate) == 1) &&
      (h >= 24 ==> RS.ChargedDays(b.startDate, b.endDate) == h / 24)
  {
    RF.DurationValidity(f);
    var request := RF.Submit(Some(trailer), f, today).value;
    var b := ToBackend(request);
    assert b.endDate - b.startDate == h * RF.MsPerHour * WT.TicksPerMs;
    var ticksPerHour := RF.MsPerHour * WT.TicksPerMs;
    assert Entities.TicksPerDay == 24 * ticksPerHour;
    var r := (h % 24) * ticksPerHour;
    assert h * ticksPerHour == (h / 24) * Entities.TicksPerDay + r;
    assert 0 <= r < Entities.TicksPerDay;
    ChargedDaysOf(b.startDate, b.endDate, h / 24, r);
  }
}
