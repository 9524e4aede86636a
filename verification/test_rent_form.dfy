/** The stand-alone test booking form (front end,
    components/test-rent-form/test-rent-form.component.ts). It shares the form
    layout, the duration getter and the validators with the booking page but
    prices with fixed rates instead of a loaded trailer. */
module TestRentForm {
  import opened Common
  import RF = RentForm

  /** The fixed rates, in the page's currency units. */
  const HourlyRate: int := 75
  const DailyRate: int := 500

  /** The trailer the test form prices as if it had loaded it. */
  const FixedTrailer: RF.UiTrailer := RF.UiTrailer(0, DailyRate, Some(HourlyRate), [])

  /** `totalPrice` of the test form: nothing for a non-positive duration,
      otherwise the fixed hourly or daily rate times the duration; on every
      form state, exactly what the booking page quotes for `FixedTrailer`. */
  function TotalPrice(f: RF.RentalForm): (total: int)
    ensures RF.RentalDuration(f) <= 0 ==> total == 0
    ensures RF.RentalDuration(f) > 0 && RF.IsHourly(f) ==> total == HourlyRate * RF.RentalDuration(f)
    ensures RF.RentalDuration(f) > 0 && !RF.IsHourly(f) ==> total == DailyRate * RF.RentalDuration(f)
    ensures total >= 0
    ensures total == RF.TotalPrice(Some(FixedTrailer), f)
  {
    if RF.RentalDuration(f) <= 0 then 0
    else if RF.IsHourly(f) then HourlyRate * RF.RentalDuration(f)
    else DailyRate * RF.RentalDuration(f)
  }

  /** Like the booking page, the test form opens daily with a duration of 4
      hours preselected, shows no price and is not valid until both dates are
      picked; switching to hourly leaves the 4 hours valid. */
  lemma InitialState(today: int)
    ensures RF.RentalDuration(RF.InitialForm) == 0 && TotalPrice(RF.InitialForm) == 0
    ensures !RF.FormValid(RF.InitialForm, today)
    ensures RF.ControlValid(RF.DurationValidators(RF.InitialForm.(rentalType := "hourly")), RF.InitialForm.duration)
    ensures TotalPrice(RF.InitialForm.(rentalType := "hourly")) == 4 * HourlyRate
  {
    RF.DurationValidity(RF.InitialForm.(rentalType := "hourly"));
    RF.DateValidity(RF.InitialForm, today);
  }
}
