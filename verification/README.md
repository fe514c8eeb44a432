# Bus booking core, modelled in Dafny

This project models the three pieces of business logic of a bus-booking backend:

- **Availability search** (`TravelScheduleService.getAvailableSchedule` / `getAvailableSchedules`):
  a short-circuiting validation cascade over the station codes and the date that maps to an
  HTTP status (400, 404, 422 or 200), a date-window rule (today through today + 30 days), and
  a repository query for schedules between the two stations that arrive after now.
- **Schedule lifecycle** (`createSchedule`, `updateSchedule`): duplicate detection and seat
  admission on create; an error cascade (unknown id, unknown bus, bus reuse) and a field
  overwrite on update.
- **Booking engine** (`BookingService.createBooking`): argument and lookup checks, the seat
  availability check, the seat-counter update, and pricing (seats × cost + 12% tax + add-ons).

Repositories are in-memory values: the station directory is a map from station code to
station, the schedule table is a map from id to record plus the order in which the repository
lists its rows (`Schedules.ScheduleRepo`, well-formed per `Schedules.Valid`), users and buses
are sets of known ids, and saved bookings are a sequence. The clock is the parameter `now`.
A date is an integer day number, a time of day a minute in [0, 1440), and a timestamp the
number of minutes since midnight of day 0 (`Clock`). `LocalDate.parse` (the ISO 8601
calendar date in extended format YYYY-MM-DD, section 4.1.2.2 of ISO 8601:2004) is the opaque
partial function `parse`. Money is an exact `real`; add-on prices are integers. Each
schedule operation returns its outcome with the store after it (unchanged on failure); a
failed booking returns only the exception, so nothing is saved.

Files: `wrappers.dfy` (Option, Result), `clock.dfy`, `schedules.dfy` (records and store),
`search.dfy`, `lifecycle.dfy`, `booking.dfy`.

Behaviour of the code worth knowing, modelled as written:

- Identical source and destination codes are rejected (400) only after both codes resolve to
  stations; an unknown code answers 404 first (`AvailabilitySearch.IdenticalCodesRejectedAfterLookup`).
- The search's response always carries an empty schedule list: the wrapper created with an
  empty list is returned and the found schedules are only used to choose 404 or 200.
- The requested date does not filter the query; every schedule between the stations arriving
  after now is considered (`AvailabilitySearch.RequestedDateDoesNotFilter`).
- The bus-reuse rule of `updateSchedule` refuses the update when some schedule of the bus
  departs at or after the new arrival plus 24 hours, including the schedule being updated; it
  is not a 24-hour window, and it raises `IllegalStateException` rather than a 409. The bus is
  looked up on every update, not only when it changes.
- `updateSchedule` overwrites `totalSeat` and `seatBooked` but not `availableSeat`, so it can
  break `seatBooked + availableSeat == totalSeat` (`ScheduleLifecycle.BusReuseIsNotAWindow`).
- The add-on price list spells the newspaper "New Papper"; "New Paper" costs nothing.
- A booking's seat count has no lower bound.

## Model

| member | source | states |
|---|---|---|
| Clock.AtMidnight | src/main/java/com/wittybrains/busbookingsystem/service/TravelScheduleService.java:158 | the search instant of a later date is midnight of that day |
| Clock.TimePlusHours | src/main/java/com/wittybrains/busbookingsystem/service/TravelScheduleService.java:168 | adding hours to a time of day stays within the day and is congruent to the sum modulo 24 hours |
| Clock.PlusDays | src/main/java/com/wittybrains/busbookingsystem/service/TravelScheduleService.java:171 | adding days moves the instant by whole days, keeping the time of day |
| Clock.InstantOrderIsLexicographic | src/main/java/com/wittybrains/busbookingsystem/service/TravelScheduleService.java:171-172 | `isAfter` on date-times is the lexicographic order on (date, time of day) |
| Clock.PlusOneHourWrapsBeforeMidnight | src/main/java/com/wittybrains/busbookingsystem/service/TravelScheduleService.java:166-169 | in the last hour of the day, "one hour from now" wraps to a time before now on the same date |
| Schedules.FindById | src/main/java/com/wittybrains/busbookingsystem/service/TravelScheduleService.java:198-201 | a lookup by id finds a row exactly when the id is stored, and returns that row |
| Schedules.Save | src/main/java/com/wittybrains/busbookingsystem/service/TravelScheduleService.java:233 | saving replaces the row with that id or appends a new id to the listing order, keeping the store well-formed |
| AvailabilitySearch.StatusOf | src/main/java/com/wittybrains/busbookingsystem/service/TravelScheduleService.java:63-151 | validation failures are 400, unknown stations and an empty result 404, date-window errors 422, a non-empty result 200 |
| AvailabilitySearch.CheckWindow | src/main/java/com/wittybrains/busbookingsystem/service/TravelScheduleService.java:153-178 | a date before today is "in the past", a date after today + 30 "too far", and exactly the dates today through today + 30 are accepted |
| AvailabilitySearch.ArrivingAfter | src/main/java/com/wittybrains/busbookingsystem/service/TravelScheduleService.java:180-187 | the query returns exactly the rows between the two stations whose arrival is strictly after the given instant |
| AvailabilitySearch.ArrivingAfterKeepsOrder | src/main/java/com/wittybrains/busbookingsystem/service/TravelScheduleService.java:180-187 | the query preserves repository order (it distributes over concatenation) |
| AvailabilitySearch.GetAvailableSchedules | src/main/java/com/wittybrains/busbookingsystem/service/TravelScheduleService.java:153-195 | raises a window error exactly for dates outside today..today+30; otherwise returns the query over the store's listing: exactly the stored schedules of the station pair arriving after now, each once, in repository order, whatever the date |
| AvailabilitySearch.GetAvailableSchedule | src/main/java/com/wittybrains/busbookingsystem/service/TravelScheduleService.java:63-151 | the checks run in the order date, destination, source, source lookup, destination lookup, identical codes, date format, date window, and the first failure decides; after them an empty result is 404 and a non-empty one 200; the response's schedule list is always empty |
| AvailabilitySearch.IdenticalCodesRejectedAfterLookup | src/main/java/com/wittybrains/busbookingsystem/service/TravelScheduleService.java:92-119 | identical codes give 400 only when the code is a known station, and 404 otherwise |
| AvailabilitySearch.RequestedDateDoesNotFilter | src/main/java/com/wittybrains/busbookingsystem/service/TravelScheduleService.java:121-137 | two accepted in-window dates give the same response |
| AvailabilitySearch.AvailableExactlyWhenSomeScheduleMatches | src/main/java/com/wittybrains/busbookingsystem/service/TravelScheduleService.java:121-137 | the search answers 200 iff the request is accepted, the date is in the window and some stored schedule between the stations arrives after now |
| ScheduleLifecycle.CreateStatus | src/main/java/com/wittybrains/busbookingsystem/service/TravelScheduleService.java:277-312 | create answers 201 for a created schedule, 409 for a duplicate and 400 for a refused seat count |
| ScheduleLifecycle.CreateSchedule | src/main/java/com/wittybrains/busbookingsystem/service/TravelScheduleService.java:267-314 | 409 iff the same source, destination, bus, departure and arrival is stored; 201 iff not and 0 < requested <= total - initially booked, saving a schedule whose booked and available seats add up to the total; 400 otherwise; nothing saved on failure |
| ScheduleLifecycle.CreatePreservesSeatConsistency | src/main/java/com/wittybrains/busbookingsystem/service/TravelScheduleService.java:294-306 | creating a schedule keeps every stored schedule's seat counts consistent |
| ScheduleLifecycle.CreateTwiceConflicts | src/main/java/com/wittybrains/busbookingsystem/service/TravelScheduleService.java:270-280 | submitting the same trip again after it was created answers 409 |
| ScheduleLifecycle.UpdateSchedule | src/main/java/com/wittybrains/busbookingsystem/service/TravelScheduleService.java:197-238 | unknown id, then unknown bus, then a departure of that bus at or after new arrival + 24h, each failing with nothing saved; otherwise bus, arrival, departure, total, booked and cost are overwritten and source, destination and available seats kept |
| ScheduleLifecycle.ReuseCheckSeesTheUpdatedSchedule | src/main/java/com/wittybrains/busbookingsystem/service/TravelScheduleService.java:213-222 | the reuse query does not exclude the schedule being updated |
| ScheduleLifecycle.BusReuseIsNotAWindow | src/main/java/com/wittybrains/busbookingsystem/service/TravelScheduleService.java:211-233 | a departure of the same bus one hour after the new arrival does not block the update, and the update can leave seat counts inconsistent |
| Bookings.UnitPrice | src/main/java/com/wittybrains/busbookingsystem/service/BookingService.java:98-108 | ColdDrink costs 20, "New Papper" 10, Chips 30, by exact name; every other name costs 0 |
| Bookings.SumAddonCost | src/main/java/com/wittybrains/busbookingsystem/service/BookingService.java:93-109 | the add-on loop computes the sum of quantity × unit price over the list |
| Bookings.AddonCostAppend | src/main/java/com/wittybrains/busbookingsystem/service/BookingService.java:94-109 | add-on cost is additive over concatenated lists |
| Bookings.UnknownAddonsAreFree | src/main/java/com/wittybrains/busbookingsystem/service/BookingService.java:105-108 | a list of unpriced names costs nothing and is not rejected |
| Bookings.CreateBooking | src/main/java/com/wittybrains/busbookingsystem/service/BookingService.java:42-120 | missing schedule id, then missing user id, then unknown user, then unknown schedule, then seats > total - booked fail in that order; on success booked' = booked + n and available' = total - booked - n (consistent, booked' <= total), other fields and rows unchanged, and the booking records user, updated schedule, seat cost and n |
| Bookings.BookingTotalFormula | src/main/java/com/wittybrains/busbookingsystem/service/BookingService.java:63-115 | total = 1.12 × n × seat cost + add-on cost, add-ons attached only when the list is present and non-empty |
| Bookings.ExampleBookingTotal | src/main/java/com/wittybrains/busbookingsystem/service/BookingService.java:63-115 | 3 seats at 100 with ColdDrink×2 and Chips×1 costs 406 |
| Bookings.BookingPreservesSeatConsistency | src/main/java/com/wittybrains/busbookingsystem/service/BookingService.java:70-81 | booking keeps every stored schedule's seat counts consistent |
| Bookings.NonPositiveSeatCountsAreApplied | src/main/java/com/wittybrains/busbookingsystem/service/BookingService.java:73-80 | zero or negative seat counts pass the check and lower or keep the booked count |
| Bookings.NewspaperSpellingIsExact | src/main/java/com/wittybrains/busbookingsystem/service/BookingService.java:98-103 | names match exactly and case-sensitively: "New Paper" and "coldDrink" cost 0 |

## Left out

- `getStationByCode` and `getTravelSchedulesBySource` are bare repository lookups; the first is the station map's membership test, the second is not modelled.
- The HTTP controller, including schedule deletion (a bare find-then-delete) and the wrapping of every create result in a 200; response message texts are reduced to a reason kind.
- Repository internals: query semantics are read off the method names; ids of new schedules are a parameter (`newId`) that the store guarantees fresh.
- The initial `seatBooked` of a fresh `TravelSchedule` comes from a model class that is not part of this model; it is the parameter `initialBooked`.
- `LocalDate.parse` is opaque (the parameter `parse`); time is kept to the minute, dropping seconds and nanoseconds.
- ScheduleLifecycle.UpdateSchedule: times are integers, so the string formatting and parsing of the arrival time in the reuse query (and its `DateTimeParseException`) and a `null` bus in the request are not modelled.
- Bookings.CreateBooking: a `null` add-on or add-on name (a `NullPointerException` thrown after the schedule was saved) is not modelled; names are always strings. When no add-ons are given the booking's list is modelled as empty, the `Booking` default not being part of this model.
- Bookings.CreateBooking: seat counts and add-on quantities are unbounded integers; Java's 32-bit wrap-around on extreme values is not modelled, and prices are exact reals instead of `double` arithmetic.
- ScheduleLifecycle.CreateSchedule: seat counts are unbounded integers; 32-bit wrap-around is not modelled.
- The `BookingDTO` projection returned to the caller, which does not copy the add-ons; it is mapping glue.
- Logging, `System.out` and the add-on description string: side effects only.
- Concurrency and atomicity of the check-then-update sequences: the code has no concurrency control.
