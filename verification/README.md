# Trailer rental: booking rules and booking-page arithmetic in Dafny

This project models the core of a trailer-rental application in Dafny. The backend is ASP.NET Core with Entity Framework; the front end is Angular. The model covers:

- the repositories' availability test, over the rental and trailer tables;
- the rental, trailer and authentication services, as transitions on immutable stores that return either a new store or the exception the service throws;
- the error middleware's mapping from exception to HTTP status;
- the pure logic of three front-end components:
  - the booking page: duration, price, validators, how the submitted instants are built, and the primary image;
  - the test booking form;
  - the dashboard's summary figures.

Modules follow the program's structure:

| module | file | models |
|---|---|---|
| `Common` | common.dfy | `Option`, `Result` and the LINQ-style queries (`Where`, `Any`, `FirstOrDefault`, `Count`) |
| `Entities` | entities.dfy | `Rental`, `Trailer`, `TrailerImage`, `User` and the two enums |
| `Exceptions` | exceptions.dfy | the service exceptions plus the three that the middleware does not match |
| `RentalRepository` | rental_repository.dfy | `RentalRepository` queries and updates |
| `TrailerRepository` | trailer_repository.dfy | `TrailerRepository` queries and updates |
| `RentalService` | rental_service.dfy | create, status update and delete of rentals; the table invariant |
| `TrailerService` | trailer_service.dfy | date-range search, create, update and delete of trailers |
| `AuthService` | auth_service.dfy | login, register and current-user lookups |
| `ErrorHandling` | error_handling.dfy | `HandleExceptionAsync` |
| `WireTime` | wire_time.dfy | instants in transit: JavaScript milliseconds and .NET ticks |
| `RentForm` | rent_form.dfy | the booking page (`rent-trailer.component.ts`) |
| `TestRentForm` | test_rent_form.dfy | the fixed-rate test form |
| `Dashboard` | dashboard.dfy | the dashboard's `loadDashboardData` |
| `QuoteVsCharge` | quote_vs_charge.dfy | how the page's quote relates to the backend's charge |

Units and conventions:

- Backend instants are .NET ticks as `int`.
- Front-end instants are JavaScript milliseconds as `int`.
- Prices are integer cents.
- `DateTime.Today` is the parameter `today` and `DateTime.UtcNow` is the parameter `now`.
- A new row receives one more than the largest id in its table, standing in for the database's identity column.
- A failed operation returns `Err` with no store, so a failure cannot change any table.
- BCrypt's `HashPassword` and `Verify` are function-valued fields of `AuthService.Hasher`, and the random salt is a parameter.

Two results are worth reading first.

- **The table invariant.** A table is consistent when no two live (non-Cancelled, non-Completed) rentals of one trailer overlap.
  - Creating a rental preserves consistency, and so does deleting one.
  - Moving a rental to a terminal status preserves it too.
  - Moving a rental to any other status does not: `RentalService.ReviveBreaksNoOverlap` and the concrete `RentalService.ReviveBreaksConsistentStore` show that reviving a cancelled rental can reintroduce an overlap.
- **Quote versus charge.** The booking page quotes started days between two midnight dates. The backend charges the whole days between the two instants, and at least one day.
  - A daily booking whose return time is earlier in the day than its pickup time, over two or more days, is quoted one day more than it is charged.
  - A same-day booking is quoted 0. The Book button then stays disabled, although the backend would charge one day.
  - Hourly bookings do not occur with this backend. No trailer the API sends has an hourly rate, so the page never shows the hourly option, and loading a trailer switches the form to daily (`RentForm.ApiTrailersBookDaily`).
  - Were a trailer to carry an hourly rate, an hourly booking of fewer than 24 hours would be quoted at the hourly rate but charged the full day rate, since the backend has no notion of hourly rentals (`QuoteVsCharge.HourlyQuoteVsCharge`).

## Model

| member | source | states |
|---|---|---|
| RentalRepository.DateClashIsIntersection | src/backend/TrailerRent.Data/Repositories/RentalRepository.cs:88-90 | for forward intervals, the three-clause date test is exactly closed-interval intersection |
| RentalRepository.TouchingBookingsClash | src/backend/TrailerRent.Data/Repositories/RentalRepository.cs:88-90 | a booking ending on the day another starts still clashes with it |
| RentalRepository.IsTrailerAvailable | src/backend/TrailerRent.Data/Repositories/RentalRepository.cs:82-98 | available iff every rental is either not blocking (other trailer, terminal status or no date clash) or the excluded one |
| RentalRepository.UnavailableOnlyThroughBlockingRental | src/backend/TrailerRent.Data/Repositories/RentalRepository.cs:84-97 | unavailable iff some non-excluded rental of that trailer, live and clashing, exists |
| RentalRepository.NoRentalsMeansAvailable | src/backend/TrailerRent.Data/Repositories/RentalRepository.cs:84-97 | a trailer without rentals is available for any dates |
| RentalRepository.ExcludedRentalNeverBlocks | src/backend/TrailerRent.Data/Repositories/RentalRepository.cs:92-95 | excluding an id answers as if that rental were not in the table |
| RentalRepository.InsertOnlyRemovesAvailability | src/backend/TrailerRent.Data/Repositories/RentalRepository.cs:84-97 | adding a rental can turn availability from true to false, never from false to true |
| RentalRepository.GetByUserId | src/backend/TrailerRent.Data/Repositories/RentalRepository.cs:33-40 | returns exactly the rentals of that user: every returned one is the user's and every rental of the user is returned |
| RentalRepository.GetById | src/backend/TrailerRent.Data/Repositories/RentalRepository.cs:24-31 | none iff no rental has the id; otherwise a rental of the table with that id |
| RentalRepository.Exists | src/backend/TrailerRent.Data/Repositories/RentalRepository.cs:77-80 | true iff some rental has the id |
| RentalRepository.NextRentalId | src/backend/TrailerRent.Data/Repositories/RentalRepository.cs:50-57 | the id the insert receives is positive and not yet in use |
| RentalRepository.Update | src/backend/TrailerRent.Data/Repositories/RentalRepository.cs:59-65 | the row with the rental's id becomes the rental stamped with `now`; other rows and the length are unchanged |
| RentalRepository.Delete | src/backend/TrailerRent.Data/Repositories/RentalRepository.cs:67-75 | false and the table unchanged for an absent id; otherwise true, no row with the id remains and every other row is kept |
| RentalRepository.DeleteRemovesExactlyOne | src/backend/TrailerRent.Data/Repositories/RentalRepository.cs:67-75 | with unique ids, deleting a present id removes exactly one row and keeps ids unique |
| TrailerRepository.GetAvailable | src/backend/TrailerRent.Data/Repositories/TrailerRepository.cs:30-36 | returns exactly the trailers flagged available |
| TrailerRepository.ConflictingTrailerIds | src/backend/TrailerRent.Data/Repositories/TrailerRepository.cs:40-47 | an id is listed iff some live rental of that trailer clashes with the dates |
| TrailerRepository.GetAvailableForDateRange | src/backend/TrailerRent.Data/Repositories/TrailerRepository.cs:38-53 | a trailer of the table is returned iff it is flagged available and no live clashing rental is for it |
| TrailerRepository.DateRangeWithinAvailable | src/backend/TrailerRent.Data/Repositories/TrailerRepository.cs:34-51 | the date-range result lies within the available-trailer result; an unavailable trailer is never returned |
| TrailerRepository.DateRangeAgreesWithRentalCheck | src/backend/TrailerRent.Data/Repositories/TrailerRepository.cs:41-51 | a trailer is in the date-range result iff it is flagged available and the rental repository's availability test (no exclusion) says yes |
| TrailerRepository.GetById | src/backend/TrailerRent.Data/Repositories/TrailerRepository.cs:22-28 | none iff no trailer has the id; otherwise a trailer with that id |
| TrailerRepository.Exists | src/backend/TrailerRent.Data/Repositories/TrailerRepository.cs:80-83 | true iff some trailer has the id |
| TrailerRepository.Create | src/backend/TrailerRent.Data/Repositories/TrailerRepository.cs:55-60 | appends the trailer under an id not in use, all other fields as given |
| TrailerRepository.Update | src/backend/TrailerRent.Data/Repositories/TrailerRepository.cs:62-68 | the row with the trailer's id becomes the trailer stamped with `now`; other rows unchanged |
| TrailerRepository.Delete | src/backend/TrailerRent.Data/Repositories/TrailerRepository.cs:70-78 | false and unchanged for an absent id; otherwise true, the id is gone and every other row is kept |
| TrailerRepository.DeleteRemovesExactlyOne | src/backend/TrailerRent.Data/Repositories/TrailerRepository.cs:70-78 | with unique ids, deleting a present id removes exactly one row and keeps ids unique |
| RentalService.WholeDays | src/backend/TrailerRent.Business/Services/RentalService.cs:85 | `TimeSpan.Days`: whole days of a span, truncated toward zero |
| RentalService.ChargedDays | src/backend/TrailerRent.Business/Services/RentalService.cs:85-86 | at least one day; exactly one for a span under a day; otherwise the whole days, partial extra days not charged |
| RentalService.UserExists | src/backend/TrailerRent.Business/Services/RentalService.cs:49 | true iff some user has the id |
| RentalService.Create | src/backend/TrailerRent.Business/Services/RentalService.cs:46-91 | the five checks in order (user, trailer, forward dates, not in the past, no blocking rental), each with its exception and message; success iff all pass; the new rental carries the caller's user id, the requested trailer, dates and notes, status Pending, a fresh id and price = day rate × charged days |
| RentalService.CreateOnlyAppends | src/backend/TrailerRent.Business/Services/RentalService.cs:81-89 | a failed create changes no table; a successful one only appends one rental |
| RentalService.CreatedPriceBounds | src/backend/TrailerRent.Business/Services/RentalService.cs:85-87 | for a non-negative rate the price is at least one day's rate, exactly one day's rate under a day, and never more than the rate times the exact span |
| RentalService.CreatePreservesConsistency | src/backend/TrailerRent.Business/Services/RentalService.cs:73-89 | run one at a time, a successful create keeps intervals forward, ids unique and live rentals of one trailer non-overlapping |
| RentalService.WithAvailability | src/backend/TrailerRent.Business/Services/RentalService.cs:55-59 | the table with every availability flag replaced, rows otherwise unchanged |
| RentalService.GetByIdIgnoresAvailability | src/backend/TrailerRent.Business/Services/RentalService.cs:55 | the trailer lookup finds the same row whatever the availability flags |
| RentalService.CreateIgnoresAvailabilityFlag | src/backend/TrailerRent.Business/Services/RentalService.cs:55-79 | create succeeds or fails identically whatever the trailers' availability flags, so a trailer marked unavailable can be booked |
| RentalService.UpdateStatus | src/backend/TrailerRent.Business/Services/RentalService.cs:93-104 | NotFound "Rental not found" iff the id is absent; otherwise any status is set with no transition rule, UpdatedAt becomes `now`, nothing else changes |
| RentalService.UpdateToTerminalPreservesConsistency | src/backend/TrailerRent.Business/Services/RentalService.cs:93-104 | moving a rental to Cancelled or Completed keeps the table consistent |
| RentalService.ReviveBreaksNoOverlap | src/backend/TrailerRent.Business/Services/RentalService.cs:101-102 | setting Pending on a rental that overlaps a live rental of the same trailer succeeds and breaks non-overlap |
| RentalService.ReviveBreaksConsistentStore | src/backend/TrailerRent.Business/Services/RentalService.cs:101-102 | a concrete consistent table that a status update turns inconsistent |
| RentalService.Delete | src/backend/TrailerRent.Business/Services/RentalService.cs:106-114 | NotFound "Rental not found" iff the id is absent; otherwise the rental is removed and true is returned |
| RentalService.DeletePreservesConsistency | src/backend/TrailerRent.Business/Services/RentalService.cs:106-114 | deleting keeps the table consistent and shrinks it by exactly one row |
| RentalService.SubTablePreservesNoOverlap | src/backend/TrailerRent.Data/Repositories/RentalRepository.cs:67-75 | rows drawn from a consistent table without repeating an id are consistent |
| TrailerService.GetById | src/backend/TrailerRent.Business/Services/TrailerService.cs:26-30 | none iff the id is unknown; otherwise the trailer with that id |
| TrailerService.GetAvailableForDateRange | src/backend/TrailerRent.Business/Services/TrailerService.cs:38-52 | Validation for backwards dates first, then for a start before today; otherwise exactly the flagged-available trailers the rental availability test accepts |
| TrailerService.OfferedTrailerIsBookable | src/backend/TrailerRent.Business/Services/TrailerService.cs:50 | for an existing user, booking any trailer the date-range search returns, for the searched dates, succeeds |
| TrailerService.Create | src/backend/TrailerRent.Business/Mapping/MappingProfile.cs:23-29 | the new trailer is available, has no images, carries the request's fields, is stamped with `now` and gets an unused id |
| TrailerService.Update | src/backend/TrailerRent.Business/Services/TrailerService.cs:61-79 | NotFound "Trailer not found" iff the id is absent; otherwise exactly the six descriptive fields change, id, availability, images and CreatedAt are kept, UpdatedAt is `now`, other trailers unchanged |
| TrailerService.Delete | src/backend/TrailerRent.Business/Services/TrailerService.cs:81-89 | NotFound "Trailer not found" iff the id is absent; otherwise the trailer is gone, the others are kept and true is returned |
| TrailerService.NoOperationClearsAvailability | src/backend/TrailerRent.Business/Services/TrailerService.cs:54-89 | after create, update or delete every unavailable trailer was already unavailable before |
| AuthService.GetByEmail | src/backend/TrailerRent.Business/Services/AuthService.cs:31 | none iff no user has the email; otherwise a user with that email |
| AuthService.Login | src/backend/TrailerRent.Business/Services/AuthService.cs:29-51 | unknown email and wrong password both give Unauthorized "Invalid email or password"; only after the password verifies is an inactive account refused with "Account is not active"; success returns the active user found by the email |
| AuthService.UnknownEmailLooksLikeWrongPassword | src/backend/TrailerRent.Business/Services/AuthService.cs:33-36 | an unknown email and an email whose password fails give identical answers |
| AuthService.Register | src/backend/TrailerRent.Business/Services/AuthService.cs:53-72 | Conflict "Email already exists" iff the email is taken; otherwise one user is appended under a fresh id holding the hash of the password and the request's names and phone |
| AuthService.RegisterTwiceConflicts | src/backend/TrailerRent.Business/Services/AuthService.cs:55-63 | after a successful registration, registering the same email again is a Conflict |
| AuthService.RegisterThenLogin | src/backend/TrailerRent.Business/Services/AuthService.cs:29-63 | when verify accepts the library's own hashes and new accounts start active, logging in with the registered credentials returns the new user |
| AuthService.GetCurrentUser | src/backend/TrailerRent.Business/Services/AuthService.cs:74-78 | none iff the id is unknown; otherwise the user with that id |
| ErrorHandling.HandleException | src/backend/TrailerRent.API/Middleware/ErrorHandlingMiddleware.cs:31-64 | NotFound 404, Conflict 409, Validation 400, Unauthorized 401, each keeping its message; anything else 500 with the generic message; the body's status always equals the reply's |
| ErrorHandling.UnmatchedExceptionsAreServerErrors | src/backend/TrailerRent.API/Middleware/ErrorHandlingMiddleware.cs:59-63 | a plain BusinessException, an UnauthorizedAccessException and any other exception become 500 with the generic message |
| ErrorHandling.CreateRentalFailuresAreClientErrors | src/backend/TrailerRent.API/Middleware/ErrorHandlingMiddleware.cs:39-53 | every failed booking reaches the client as 400, 404 or 409 with the service's message |
| ErrorHandling.AuthFailuresAreClientErrors | src/backend/TrailerRent.API/Middleware/ErrorHandlingMiddleware.cs:44-58 | a failed login is 401 and a failed registration is 409 |
| WireTime.MsToTicks | src/frontend/trailer-rent-app/src/app/components/rent-trailer/rent-trailer.component.ts:842-848 | a browser instant read by the API, offset from the Unix epoch by the exact number of ticks |
| WireTime.TicksToMs | src/frontend/trailer-rent-app/src/app/components/dashboard/dashboard.component.ts:228 | an API instant read by `new Date`: the millisecond at or just before it |
| WireTime.RoundTrips | src/frontend/trailer-rent-app/src/app/components/dashboard/dashboard.component.ts:228 | browser to API and back is lossless; API to browser moves an instant back by under a millisecond |
| WireTime.TicksToMsMonotone | src/frontend/trailer-rent-app/src/app/components/dashboard/dashboard.component.ts:228 | reading instants in milliseconds never reverses their order and only merges instants under a millisecond apart |
| RentForm.CeilDiv | src/frontend/trailer-rent-app/src/app/components/rent-trailer/rent-trailer.component.ts:768 | `Math.ceil(a / d)`: the least q with a <= q × d |
| RentForm.RentalDuration | src/frontend/trailer-rent-app/src/app/components/rent-trailer/rent-trailer.component.ts:760-772 | hourly: the duration value or 0; daily: 0 unless both dates are set, then the least number of days covering the difference |
| RentForm.TotalPrice | src/frontend/trailer-rent-app/src/app/components/rent-trailer/rent-trailer.component.ts:774-782 | 0 without a trailer or a positive duration; otherwise (hourly rate or 0) × duration or day rate × duration; never negative for non-negative rates |
| RentForm.DurationValidators | src/frontend/trailer-rent-app/src/app/components/rent-trailer/rent-trailer.component.ts:784-794 | required and min 1 in hourly mode, none otherwise |
| RentForm.DurationValidity | src/frontend/trailer-rent-app/src/app/components/rent-trailer/rent-trailer.component.ts:784-794 | the duration control is valid iff the form is daily or the duration is set and at least 1 |
| RentForm.DateValidity | src/frontend/trailer-rent-app/src/app/components/rent-trailer/rent-trailer.component.ts:140-173 | the two date controls are valid iff both dates are picked, the start's day is not before the day the page opened and the end's day is not before the start's (`matDatepickerMin` compares calendar days; the end's bound is today while no start is picked) |
| RentForm.ParseFormatRoundTrip | src/frontend/trailer-rent-app/src/app/components/rent-trailer/rent-trailer.component.ts:829-830 | splitting and parsing a formatted "HH:MM" gives the time back |
| RentForm.FormatParseRoundTrip | src/frontend/trailer-rent-app/src/app/components/rent-trailer/rent-trailer.component.ts:838-839 | every string that parses is the two-digit spelling of the time it parses to |
| RentForm.TimeSlotsAreTimesOfDay | src/frontend/trailer-rent-app/src/app/components/rent-trailer/rent-trailer.component.ts:699-704 | every offered slot parses to a time on the hour or half hour between 06:00 and 21:30 |
| RentForm.At | src/frontend/trailer-rent-app/src/app/components/rent-trailer/rent-trailer.component.ts:830 | `setHours(h, m, 0, 0)`: the same day, at exactly that time of day |
| RentForm.Submit | src/frontend/trailer-rent-app/src/app/components/rent-trailer/rent-trailer.component.ts:819-848 | nothing for an invalid form (a missing control, a start day before today, an end day before the start day, an hourly duration under 1) or before the trailer loads; the start is the start date at the pickup time; hourly end is start plus the hours (at least one), daily end is the end date at the return time; an empty note is sent as none and any other note unchanged |
| RentForm.PrimaryImage | src/frontend/trailer-rent-app/src/app/components/rent-trailer/rent-trailer.component.ts:869-872 | the URL of the first image flagged primary unless empty, else the placeholder; the placeholder when no image is primary |
| RentForm.InitialFormIsEmpty | src/frontend/trailer-rent-app/src/app/components/rent-trailer/rent-trailer.component.ts:717-725 | the opening form has duration 0, price 0 and cannot be submitted |
| RentForm.LoadTrailer | src/frontend/trailer-rent-app/src/app/components/rent-trailer/rent-trailer.component.ts:801-817 | a trailer without a non-zero hourly rate switches the form to daily; otherwise the form is unchanged; no other field ever changes |
| RentForm.LoadedTrailerPriceUsesRealRate | src/frontend/trailer-rent-app/src/app/components/rent-trailer/rent-trailer.component.ts:774-782 | once a trailer has loaded, an hourly price uses a real non-zero hourly rate and a daily price is day rate × days |
| RentForm.BookButtonAgreesWithSubmit | src/frontend/trailer-rent-app/src/app/components/rent-trailer/rent-trailer.component.ts:261 | an enabled Book button always leads to a request; a daily booking whose return date is not after its pickup date is quoted 0 and cannot be booked |
| RentForm.FromApi | src/frontend/trailer-rent-app/src/app/models/models.ts:30-40 | the API's trailer as the page reads it: same id, day rate and images, and no hourly rate, since neither `Trailer.cs` nor `TrailerDto` has one |
| RentForm.ApiTrailersBookDaily | src/frontend/trailer-rent-app/src/app/components/rent-trailer/rent-trailer.component.ts:801-811 | for any trailer the API sends, the hourly option is not shown, loading it makes the form daily, the quote is day rate × started days, and a submitted request is never hourly |
| TestRentForm.TotalPrice | src/frontend/trailer-rent-app/src/app/components/test-rent-form/test-rent-form.component.ts:520-542 | 0 for a non-positive duration; 75 × hours or 500 × days otherwise; never negative; on every form state, equal to the booking page's quote for a trailer at 500 a day and 75 an hour |
| TestRentForm.InitialState | src/frontend/trailer-rent-app/src/app/components/test-rent-form/test-rent-form.component.ts:499-508 | the form opens daily with no price and invalid; switched to hourly, its preselected 4 hours are valid and cost 4 × 75 |
| Dashboard.Ordinal | src/backend/TrailerRent.Models/Entities/Rental.cs:36-43 | each status has a distinct position 0..4 and Pending is 0 |
| Dashboard.EncodeStatus | src/backend/TrailerRent.API/Program.cs:15 | the API writes a status as a JSON number |
| Dashboard.DecodeStatus | src/frontend/trailer-rent-app/src/app/models/models.ts:94-100 | ordinals 0..4 and the five enum names each stand for their status, anything else for none |
| Dashboard.StatusRoundTrip | src/backend/TrailerRent.Models/Entities/Rental.cs:36-43 | decoding reads back every status the API writes, and the enum name of each status too |
| Dashboard.ToUi | src/backend/TrailerRent.Models/DTOs/RentalDtos.cs:6-19 | a backend rental as the browser holds it: same id and trailer, the status written as its ordinal number (which decodes to the rental's), creation time to the millisecond |
| Dashboard.Serialize | src/frontend/trailer-rent-app/src/app/services/rental.service.ts:22-24 | the list the page receives, rental by rental |
| Dashboard.Insert | src/frontend/trailer-rent-app/src/app/components/dashboard/dashboard.component.ts:228 | one more element, with exactly the old elements plus the new one |
| Dashboard.InsertKeepsNewestFirst | src/frontend/trailer-rent-app/src/app/components/dashboard/dashboard.component.ts:228 | inserting into a newest-first list keeps it newest first |
| Dashboard.SortNewestFirst | src/frontend/trailer-rent-app/src/app/components/dashboard/dashboard.component.ts:227-228 | the result is newest first and a permutation of the input |
| Dashboard.Recent | src/frontend/trailer-rent-app/src/app/components/dashboard/dashboard.component.ts:229 | a prefix of the sorted list of length min(3, n) |
| Dashboard.PendingCountAsWritten | src/frontend/trailer-rent-app/src/app/components/dashboard/dashboard.component.ts:230 | the filter as written: positive iff some status is the string "Pending" |
| Dashboard.PendingAlwaysZeroAsWritten | src/frontend/trailer-rent-app/src/app/components/dashboard/dashboard.component.ts:230 | the filter as written counts 0 on everything the API sends, even a list holding one pending rental, which the intended count gives as 1 |
| Dashboard.PendingCount | src/frontend/trailer-rent-app/src/app/components/dashboard/dashboard.component.ts:230 | the filter as intended: positive iff some status stands for Pending |
| Dashboard.PendingCountInsert | src/frontend/trailer-rent-app/src/app/components/dashboard/dashboard.component.ts:228-230 | inserting a rental raises the pending count by one exactly when it is pending |
| Dashboard.PendingCountSorted | src/frontend/trailer-rent-app/src/app/components/dashboard/dashboard.component.ts:228-230 | sorting in place does not change the pending count |
| Dashboard.PendingCountSerialized | src/frontend/trailer-rent-app/src/app/components/dashboard/dashboard.component.ts:230 | the intended count of what the API sends is the backend's number of Pending rentals |
| Dashboard.AllNumbersCountZero | src/frontend/trailer-rent-app/src/app/components/dashboard/dashboard.component.ts:230 | no numeric status matches the string filter |
| Dashboard.Load | src/frontend/trailer-rent-app/src/app/components/dashboard/dashboard.component.ts:214-234 | totalTrailers is the length of the available list, 0 iff no trailer is available; myRentals is newest first and a permutation of the user's rentals; recentRentals is its prefix of length min(3, n); pendingRentals is the intended count of Pending rentals, not the as-written filter (see ## Findings) |
| Dashboard.PendingFigureIsBackendCount | src/frontend/trailer-rent-app/src/app/components/dashboard/dashboard.component.ts:226-230 | the intended pending figure is the number of the user's rentals that are Pending in the backend; the filter as written gives 0 |
| Dashboard.RecentAreNewest | src/frontend/trailer-rent-app/src/app/components/dashboard/dashboard.component.ts:227-229 | no rental left out of the recent panel is newer than one shown, and each shown rental is one of the user's |
| QuoteVsCharge.ToBackend | src/backend/TrailerRent.Models/DTOs/RentalDtos.cs:21-33 | the API's view of a submitted request: same trailer and notes, the span scaled to ticks, and forward iff the page's was |
| QuoteVsCharge.ChargedDaysOf | src/backend/TrailerRent.Business/Services/RentalService.cs:85-86 | a forward span of n days plus less than a day is charged n days, or 1 when n is 0 |
| QuoteVsCharge.DailyQuoteVsCharge | src/frontend/trailer-rent-app/src/app/components/rent-trailer/rent-trailer.component.ts:764-839 | for midnight dates n days apart: the page quotes n days and submits iff the first day is not before today; the submitted instants pass the backend's date-order check iff n > 0 or the return time is after the pickup time, and then the backend charges 1 day when n is 0, n days when the return time is not earlier than the pickup time or n is 1, and n − 1 days otherwise |
| QuoteVsCharge.HourlyQuoteVsCharge | src/frontend/trailer-rent-app/src/app/components/rent-trailer/rent-trailer.component.ts:832-836 | for a trailer with an hourly rate (which this backend never sends): an hourly booking of h hours is quoted rate × h and submitted forwards; the backend charges one day under 24 hours and h div 24 days from 24 on |

## Left out

- Concurrency: the check-then-insert in `CreateAsync` is modelled one request at a time; two interleaved creates can both pass the availability check.
- Controllers, `Program.cs`, the Entity Framework context, the Angular HTTP services and the templates (apart from the date pickers' `[min]` bounds, the hourly option's `*ngIf` and the Book button's `[disabled]`) are plumbing and are not modelled. Three observations from them are not modelled:
  - `TrailersController` catches every exception in the date-range endpoint, so validation errors there reach the client as 500, not 400.
  - The front end requests `/availabledates`, while the backend route is `available-for-dates`.
  - `DeleteBehavior.Restrict` makes the database refuse to delete a trailer or user that still has rentals; `TrailerService.Delete` models the service's view, where the removal succeeds.
- JWT issuing, BCrypt and the front end's token decoding are foreign calls. Hashing is a pair of function parameters.
- `User.cs` and `UserRepository.cs` are not part of this model: `GetByEmailAsync`, `EmailExistsAsync`, `GetByIdAsync` and `ExistsAsync` on users are first-match searches over the user table.
- The two AutoMapper profiles disagree about `IsActive` on registration. `AuthService.Register` takes the initial flag as the parameter `activeOnCreate`.
- Navigation properties (`Rental.User`, `Rental.Trailer`, `Trailer.Rentals`) and the `Include` calls are not modelled. Trailer images are kept as a field.
- `GetAllAsync`, `GetByTrailerIdAsync`, `TrailerService.GetAvailableAsync` and `RentalService.GetUserRentalsAsync` only forward a repository query through AutoMapper. They are covered by the repository functions they forward.
- `MaxWeight` (a double) is an `int`, and `decimal` prices are integer cents. Rounding of `PricePerDay × days` does not arise in cents.
- Time zones and daylight saving time are left out: one zone is assumed on both sides. `setHours(getHours() + h)` is therefore exactly h hours later.
- The page's `isSubmitting` flag, snack bars and navigation are not modelled. `RentForm.CanBook` takes `isSubmitting` as a parameter.
- The page's hourly booking path is modelled as written, but no request from it can occur with this backend: trailers carry no hourly rate, so the hourly option is never rendered and `loadTrailer` forces daily (`RentForm.ApiTrailersBookDaily`). `QuoteVsCharge.HourlyQuoteVsCharge` describes what would happen if a trailer had one.
- The duration select offers 1 to 12 hours; `RentForm` accepts any integer the control could hold.
- Dashboard.SortNewestFirst: states that the result is newest first and a permutation, but not that rentals created in the same millisecond keep their arrival order (JavaScript's sort is stable and `Dashboard.Insert` keeps that order, unproved).
- RentForm.Submit: yields no request for a time string that is not "HH:MM". The page would build an invalid `Date` from such a string, but the time selectors only offer "HH:MM" slots.

## Findings

| source | as written | input that shows it | evidently intended | confidence | as-written member | corrected member |
|---|---|---|---|---|---|---|
| src/frontend/trailer-rent-app/src/app/components/dashboard/dashboard.component.ts:230 | counts rentals whose status `=== 'Pending'`, but `AddControllers()` at src/backend/TrailerRent.API/Program.cs:15 registers no string converter for enums, so the API sends `RentalStatus` as its ordinal and the comparison never holds | a user with one freshly booked rental: the API sends `"status": 0`, and the dashboard shows 0 pending | the number of the user's rentals whose status is Pending | not executed; high (no JSON enum converter is configured anywhere in the backend) | Dashboard.PendingAlwaysZeroAsWritten | Dashboard.PendingFigureIsBackendCount |
