/** The booking page's form logic (front end, components/rent-trailer/rent-trailer.component.ts):
    the duration and price getters, the date and duration validators, how the submitted
    start and end instants are built, and the primary-image choice. Dates are
    JavaScript milliseconds in a single time zone; prices are integer cents. */
module RentForm {
  import opened Common
  import Entities

  const MsPerMinute: int := 60_000
  const MsPerHour: int := 3_600_000
  const MsPerDay: int := 86_400_000

  /** The reactive form; an unset control is None. `startDate` and `endDate`
      are what the date pickers deliver, `startTime` and `endTime` are
      "HH:MM" slot strings. */
  datatype RentalForm = RentalForm(
    rentalType: string,
    startDate: Option<int>,
    startTime: string,
    endDate: Option<int>,
    endTime: string,
    duration: Option<int>,
    notes: string)

  datatype UiImage = UiImage(imageUrl: string, isPrimary: bool)

  /** The trailer as the page sees it; the hourly rate is optional. */
  datatype UiTrailer = UiTrailer(id: int, pricePerDay: int, pricePerHour: Option<int>, images: seq<UiImage>)

  /** What `submitRental` posts. */
  datatype RentalRequest = RentalRequest(
    trailerId: int,
    startDate: int,
    endDate: int,
    isHourlyRental: bool,
    notes: Option<string>)

  datatype TimeOfDay = TimeOfDay(hour: int, minute: int)

  /** The form's state when the page opens: daily, 09:00 to 18:00, four hours
      preselected, no dates and no notes. */
  const InitialForm: RentalForm := RentalForm("daily", None, "09:00", None, "18:00", Some(4), "")

  /** The pickup and return slots offered by the time selectors. */
  const TimeSlots: seq<string> := [
    "06:00", "06:30", "07:00", "07:30", "08:00", "08:30", "09:00", "09:30",
    "10:00", "10:30", "11:00", "11:30", "12:00", "12:30", "13:00", "13:30",
    "14:00", "14:30", "15:00", "15:30", "16:00", "16:30", "17:00", "17:30",
    "18:00", "18:30", "19:00", "19:30", "20:00", "20:30", "21:00", "21:30"]

  /** The image shown when a trailer has no usable primary image. */
  const Placeholder: string := "data:image/svg+xml;base64,PHN2ZyB3aWR0aD0iMjQwIiBoZWlnaHQ9IjE2MCIgeG1sbnM9Imh0dHA6Ly93d3cudzMub3JnLzIwMDAvc3ZnIj48cmVjdCB3aWR0aD0iMTAwJSIgaGVpZ2h0PSIxMDAlIiBmaWxsPSIjZGRkIi8+PHRleHQgeD0iNTAlIiB5PSI1MCUiIGZvbnQtZmFtaWx5PSJBcmlhbCIgZm9udC1zaXplPSIxNCIgZmlsbD0iIzk5OSIgdGV4dC1hbmNob3I9Im1pZGRsZSIgZHk9Ii4zZW0iPk5vIEltYWdlPC90ZXh0Pjwvc3ZnPg=="

  /** `isHourlyRental`: only the exact value "hourly" selects hourly mode. */
  predicate IsHourly(f: RentalForm) {
    f.rentalType == "hourly"
  }

  /** `Math.ceil(a / d)` for a positive divisor. */
  function CeilDiv(a: int, d: int): (q: int)
    requires d > 0
    ensures (q - 1) * d < a <= q * d
  {
    var k := (-a) / d;
    assert k * d <= -a < k * d + d;
    -k
  }

  /** `rentalDuration`: hours in hourly mode (0 when unset), otherwise the
      number of started days between the two picked dates (0 unless both are set). */
  function RentalDuration(f: RentalForm): (n: int)
    ensures IsHourly(f) ==> n == (if f.duration.Some? then f.duration.value else 0)
    ensures !IsHourly(f) && (f.startDate.None? || f.endDate.None?) ==> n == 0
    ensures !IsHourly(f) && f.startDate.Some? && f.endDate.Some? ==>
      (n - 1) * MsPerDay < f.endDate.value - f.startDate.value <= n * MsPerDay
  {
    if IsHourly(f) then
      if f.duration.Some? then f.duration.value else 0
    else if f.startDate.Some? && f.endDate.Some? then
      CeilDiv(f.endDate.value - f.startDate.value, MsPerDay)
    else 0
  }

  /** The rate the page multiplies by: the hourly rate (0 when the trailer has
      none) in hourly mode, the day rate otherwise. */
  function Rate(trailer: UiTrailer, f: RentalForm): int {
    if IsHourly(f) then (if trailer.pricePerHour.Some? then trailer.pricePerHour.value else 0)
    else trailer.pricePerDay
  }

  /** `totalPrice`: nothing without a trailer or a positive duration,
      otherwise rate times duration. */
  function TotalPrice(trailer: Option<UiTrailer>, f: RentalForm): (total: int)
    ensures trailer.None? || RentalDuration(f) <= 0 ==> total == 0
    ensures trailer.Some? && RentalDuration(f) > 0 ==> total == Rate(trailer.value, f) * RentalDuration(f)
    ensures (trailer.Some? && trailer.value.pricePerDay >= 0 &&
             (trailer.value.pricePerHour.Some? ==> trailer.value.pricePerHour.value >= 0)) ==> total >= 0
  {
    if trailer.None? || RentalDuration(f) <= 0 then 0
    else Rate(trailer.value, f) * RentalDuration(f)
  }

  /** The validators that sit on the form's controls: Angular's `required`
      and `min`, and the `matDatepickerMin` check a date picker's `[min]`
      binding registers. */
  datatype Validator = Required | Min(bound: int) | MinDate(earliest: int)

  /** `required` rejects an empty value; `min` and `matDatepickerMin` ignore
      one. The date check compares calendar days, not instants. */
  predicate Passes(v: Validator, value: Option<int>) {
    match v
    case Required => value.Some?
    case Min(bound) => value.None? || value.value >= bound
    case MinDate(earliest) => value.None? || earliest / MsPerDay <= value.value / MsPerDay
  }

  /** `updateValidators`: required and at least 1 in hourly mode, cleared otherwise. */
  function DurationValidators(f: RentalForm): (validators: seq<Validator>)
    ensures IsHourly(f) ==> Required in validators && Min(1) in validators
    ensures !IsHourly(f) ==> validators == []
  {
    if IsHourly(f) then [Required, Min(1)] else []
  }

  /** A control is valid when every validator on it passes. */
  predicate ControlValid(validators: seq<Validator>, value: Option<int>) {
    forall i :: 0 <= i < |validators| ==> Passes(validators[i], value)
  }

  /** The duration control constrains only hourly bookings, and there it
      demands a whole number of hours of at least one. */
  lemma DurationValidity(f: RentalForm)
    ensures ControlValid(DurationValidators(f), f.duration) <==>
      (IsHourly(f) ==> f.duration.Some? && f.duration.value >= 1)
  {
    if IsHourly(f) {
      var vs := DurationValidators(f);
      assert vs[0] == Required && vs[1] == Min(1);
    }
  }

  /** The start date is required and may not lie before `today`, the
      instant the page was opened (`[min]="today"`). */
  function StartDateValidators(today: int): seq<Validator> {
    [Required, MinDate(today)]
  }

  /** The end date is required and may not lie before the picked start date,
      or before `today` while no start date is picked
      (`[min]="rentalForm.get('startDate')?.value || today"`). */
  function EndDateValidators(f: RentalForm, today: int): seq<Validator> {
    [Required, MinDate(if f.startDate.Some? then f.startDate.value else today)]
  }

  /** The two date controls are valid exactly when both dates are picked and
      their days run from today's onwards, the end's not before the start's. */
  lemma DateValidity(f: RentalForm, today: int)
    ensures ControlValid(StartDateValidators(today), f.startDate) &&
            ControlValid(EndDateValidators(f, today), f.endDate) <==>
      && f.startDate.Some? && f.endDate.Some?
      && today / MsPerDay <= f.startDate.value / MsPerDay <= f.endDate.value / MsPerDay
  {
    var vs := StartDateValidators(today);
    var ws := EndDateValidators(f, today);
    assert ControlValid(vs, f.startDate) <==> Passes(vs[0], f.startDate) && Passes(vs[1], f.startDate);
    assert ControlValid(ws, f.endDate) <==> Passes(ws[0], f.endDate) && Passes(ws[1], f.endDate);
  }

  /** `rentalForm.valid` on a page opened at `today`: the required controls
      are filled and the date and duration controls pass their validators. */
  predicate FormValid(f: RentalForm, today: int) {
    && f.rentalType != ""
    && ControlValid(StartDateValidators(today), f.startDate)
    && f.startTime != ""
    && ControlValid(EndDateValidators(f, today), f.endDate)
    && f.endTime != ""
    && ControlValid(DurationValidators(f), f.duration)
  }

  predicate IsDigit(c: char) {
    '0' <= c <= '9'
  }

  function DigitValue(c: char): int
    requires IsDigit(c)
  {
    c as int - '0' as int
  }

  function DigitChar(d: int): char
    requires 0 <= d < 10
  {
    (d + '0' as int) as char
  }

  /** The split-and-parseInt of an "HH:MM" slot string; anything else is no time. */
  function ParseTime(s: string): Option<TimeOfDay> {
    if |s| == 5 && IsDigit(s[0]) && IsDigit(s[1]) && s[2] == ':' && IsDigit(s[3]) && IsDigit(s[4]) then
      Some(TimeOfDay(10 * DigitValue(s[0]) + DigitValue(s[1]), 10 * DigitValue(s[3]) + DigitValue(s[4])))
    else None
  }

  /** The two-digit "HH:MM" spelling of a time. */
  function FormatTime(t: TimeOfDay): string
    requires 0 <= t.hour < 100 && 0 <= t.minute < 100
  {
    [DigitChar(t.hour / 10), DigitChar(t.hour % 10), ':', DigitChar(t.minute / 10), DigitChar(t.minute % 10)]
  }

  /** Parsing reads back every two-digit time that formatting writes. */
  lemma ParseFormatRoundTrip(t: TimeOfDay)
    requires 0 <= t.hour < 100 && 0 <= t.minute < 100
    ensures ParseTime(FormatTime(t)) == Some(t)
  {
  }

  /** Every string that parses is the formatted spelling of its time. */
  lemma FormatParseRoundTrip(s: string)
    requires ParseTime(s).Some?
    ensures var t := ParseTime(s).value;
      0 <= t.hour < 100 && 0 <= t.minute < 100 && FormatTime(t) == s
  {
    var t := ParseTime(s).value;
    assert t.hour / 10 == DigitValue(s[0]) && t.hour % 10 == DigitValue(s[1]);
    assert t.minute / 10 == DigitValue(s[3]) && t.minute % 10 == DigitValue(s[4]);
  }

  /** Every offered slot parses to a time of day on the half hour between
      06:00 and 21:30. */
  lemma TimeSlotsAreTimesOfDay()
    ensures forall k :: 0 <= k < |TimeSlots| ==>
      ParseTime(TimeSlots[k]).Some? &&
      6 <= ParseTime(TimeSlots[k]).value.hour <= 21 &&
      ParseTime(TimeSlots[k]).value.minute in {0, 30}
  {
  }

  /** `setHours(h, m, 0, 0)`: the same calendar day at the given time. */
  function At(date: int, t: TimeOfDay): (instant: int)
    ensures 0 <= t.hour < 24 && 0 <= t.minute < 60 ==>
      instant / MsPerDay == date / MsPerDay && instant % MsPerDay == t.hour * MsPerHour + t.minute * MsPerMinute
  {
    (date / MsPerDay) * MsPerDay + t.hour * MsPerHour + t.minute * MsPerMinute
  }

  /** `submitRental`: nothing for an invalid form or before the trailer has
      loaded; otherwise the start is the start date at the pickup time, and
      the end is either start plus the chosen hours (hourly, ignoring the end
      date and return time) or the end date at the return time (daily). An
      empty note is sent as no note. A time string that is not "HH:MM" (the
      slot selectors offer none) yields no request. */
  function Submit(trailer: Option<UiTrailer>, f: RentalForm, today: int): (request: Option<RentalRequest>)
    ensures request.Some? ==>
      && FormValid(f, today) && trailer.Some? && ParseTime(f.startTime).Some?
      && f.startDate.Some? && f.endDate.Some?
      && today / MsPerDay <= f.startDate.value / MsPerDay <= f.endDate.value / MsPerDay
    ensures request.Some? ==>
      && request.value.trailerId == trailer.value.id
      && request.value.isHourlyRental == IsHourly(f)
      && request.value.startDate == At(f.startDate.value, ParseTime(f.startTime).value)
      && request.value.notes == (if f.notes == "" then None else Some(f.notes))
    ensures request.Some? && IsHourly(f) ==>
      request.value.endDate - request.value.startDate == f.duration.value * MsPerHour >= MsPerHour
    ensures request.Some? && !IsHourly(f) ==>
      ParseTime(f.endTime).Some? && request.value.endDate == At(f.endDate.value, ParseTime(f.endTime).value)
    ensures (FormValid(f, today) && trailer.Some? && ParseTime(f.startTime).Some? &&
             (IsHourly(f) || ParseTime(f.endTime).Some?)) ==> request.Some?
  {
    DateValidity(f, today);
    if !FormValid(f, today) || trailer.None? then None
    else
      var startTime := ParseTime(f.startTime);
      if startTime.None? then None
      else
        var start := At(f.startDate.value, startTime.value);
        var notes := if f.notes == "" then None else Some(f.notes);
        if IsHourly(f) then
          DurationValidity(f);
          Some(RentalRequest(trailer.value.id, start, start + f.duration.value * MsPerHour, true, notes))
        else
          var endTime := ParseTime(f.endTime);
          if endTime.None? then None
          else Some(RentalRequest(trailer.value.id, start, At(f.endDate.value, endTime.value), false, notes))
  }

  /** `getPrimaryImage`: the URL of the first image flagged primary, unless it
      is empty; otherwise the placeholder. */
  function PrimaryImage(trailer: UiTrailer): (url: string)
    ensures (forall i :: 0 <= i < |trailer.images| ==> !trailer.images[i].isPrimary) ==> url == Placeholder
    ensures forall i :: (0 <= i < |trailer.images| && trailer.images[i].isPrimary &&
                         (forall j :: 0 <= j < i ==> !trailer.images[j].isPrimary)) ==>
      url == (if trailer.images[i].imageUrl != "" then trailer.images[i].imageUrl else Placeholder)
  {
    var primary := First(trailer.images, (img: UiImage) => img.isPrimary);
    if primary.Some? && primary.value.imageUrl != "" then primary.value.imageUrl else Placeholder
  }

  /** The page as it opens shows no duration and no price, and cannot submit. */
  lemma InitialFormIsEmpty(trailer: Option<UiTrailer>, today: int)
    ensures RentalDuration(InitialForm) == 0
    ensures TotalPrice(trailer, InitialForm) == 0
    ensures Submit(trailer, InitialForm, today).None?
  {
  }

  /** `loadTrailer`: a trailer without a (non-zero) hourly rate switches the
      form back to daily; otherwise the form is left as it is. */
  function LoadTrailer(f: RentalForm, trailer: UiTrailer): (loaded: RentalForm)
    ensures trailer.pricePerHour.None? || trailer.pricePerHour.value == 0 ==> !IsHourly(loaded)
    ensures trailer.pricePerHour.Some? && trailer.pricePerHour.value != 0 ==> loaded == f
    ensures loaded.(rentalType := f.rentalType) == f
  {
    if trailer.pricePerHour.None? || trailer.pricePerHour.value == 0 then f.(rentalType := "daily") else f
  }

  /** Once a trailer has loaded, the hourly fallback rate of 0 is never what
      the price is computed from: either the trailer has an hourly rate or the
      form is daily and the price is the day rate times the days. */
  lemma LoadedTrailerPriceUsesRealRate(f: RentalForm, trailer: UiTrailer)
    ensures var loaded := LoadTrailer(f, trailer);
      IsHourly(loaded) ==> trailer.pricePerHour.Some? && Rate(trailer, loaded) == trailer.pricePerHour.value != 0
    ensures var loaded := LoadTrailer(f, trailer);
      !IsHourly(loaded) && RentalDuration(loaded) > 0 ==>
      TotalPrice(Some(trailer), loaded) == trailer.pricePerDay * RentalDuration(loaded)
  {
  }

  /** The Book button is enabled when the form is valid, no request is in
      flight and the quoted price is not 0. */
  predicate CanBook(trailer: Option<UiTrailer>, f: RentalForm, today: int, isSubmitting: bool) {
    FormValid(f, today) && !isSubmitting && TotalPrice(trailer, f) != 0
  }

  /** An enabled Book button always leads to a request being sent (for slot
      times), and a daily booking whose return date is not after its pickup
      date, a same-day booking included, can never be submitted: it is quoted 0. */
  lemma {:induction false} BookButtonAgreesWithSubmit(trailer: Option<UiTrailer>, f: RentalForm, today: int)
    ensures (CanBook(trailer, f, today, false) && ParseTime(f.startTime).Some? && ParseTime(f.endTime).Some?) ==>
      Submit(trailer, f, today).Some?
    ensures (!IsHourly(f) && f.startDate.Some? && f.endDate.Some? && f.endDate.value <= f.startDate.value) ==>
      TotalPrice(trailer, f) == 0 && !CanBook(trailer, f, today, false)
  {
    if !IsHourly(f) && f.startDate.Some? && f.endDate.Some? && f.endDate.value <= f.startDate.value {
      assert RentalDuration(f) <= 0;
    }
  }

  /** Whether the page offers the hourly option (`*ngIf="trailer.pricePerHour"`):
      only for a present, non-zero hourly rate. */
  predicate HourlyOffered(trailer: UiTrailer) {
    trailer.pricePerHour.Some? && trailer.pricePerHour.value != 0
  }

  /** A trailer as the API sends it and the page reads it. Neither the
      backend's entity nor its DTO has an hourly rate, so `pricePerHour` is
      always undefined. */
  function FromApi(t: Entities.Trailer): (ui: UiTrailer)
    ensures ui.id == t.id && ui.pricePerDay == t.pricePerDay && ui.pricePerHour.None?
    ensures |ui.images| == |t.images|
    ensures forall i :: 0 <= i < |t.images| ==>
      ui.images[i] == UiImage(t.images[i].imageUrl, t.images[i].isPrimary)
  {
    UiTrailer(t.id, t.pricePerDay, None,
              seq(|t.images|, i requires 0 <= i < |t.images| => UiImage(t.images[i].imageUrl, t.images[i].isPrimary)))
  }

  /** With this backend the page only ever books daily: the hourly option is
      never shown, loading any trailer switches the form to daily, and the
      quote is the day rate times the started days. */
  lemma ApiTrailersBookDaily(f: RentalForm, t: Entities.Trailer)
    ensures !HourlyOffered(FromApi(t))
    ensures !IsHourly(LoadTrailer(f, FromApi(t)))
    ensures var loaded := LoadTrailer(f, FromApi(t));
      TotalPrice(Some(FromApi(t)), loaded) ==
        if RentalDuration(loaded) > 0 then t.pricePerDay * RentalDuration(loaded) else 0
    ensures forall today :: Submit(Some(FromApi(t)), LoadTrailer(f, FromApi(t)), today).Some? ==>
      !Submit(Some(FromApi(t)), LoadTrailer(f, FromApi(t)), today).value.isHourlyRental
  {
  }
}
