# Ticket reservation core, modelled in Dafny

This project models the seat-reservation core of the TicketReservationSystem
service: seats and their four states, the venue grid with its running
counters, and the booking service that picks the best seats, holds them for a
customer, confirms holds as reservations and sweeps away expired holds. The
model has four layers.

- `Seats` (`seats.dfy`) covers the seat itself:
  - the derived `"row-seatNum"` id, written in `%d` form with ASCII digits (see `Decimal`, `decimal.dfy`);
  - the guard-free state setters;
  - the id-based `equals`/`hashCode`.
- `SeatHolds` (`seat_holds.dfy`) covers a customer's hold and its late reservation id.
- `Venues` (`venues.dfy`) covers the grid:
  - construction with clamping;
  - `getSeat`;
  - the batch transition `processSeats`, with `processSeat` and `openSelectedSeats` built on it.

  The grid is a flat row-major `seq<Seat>`. A seat of the venue is named by its
  position `row * cols + column` (`SeatRef`). The venue constructor labels every
  seat with the grid's own dimensions, so all seats of a venue have the same
  id, and the position is the only identity that tells seats apart. The
  meaning of a batch transition is given by `Mark`: the picked seats take the
  target state and all other seats are left alone. The counter invariant
  `Valid` says each counter equals the number of seats in its state.
- `TicketService` (`ticket_service.dfy`) covers the service:
  - `numSeatsAvailable` and `findBestSeat`;
  - the claim loop and `findAndHoldSeats`;
  - `reserveSeats`;
  - `collectExpiredSeatHolds`.

  It also defines the service invariant `Inv`. The invariant holds after any
  sequence of `findAndHoldSeats`, `reserveSeats` and `collectExpiredSeatHolds`
  calls (`Run`). The public `findBestSeat`, called from outside, breaks it (see
  "## Findings"). Two scenarios replay the service's own tests.

Each operation of the model is a pure function from the service state to the
new state and result. The environment enters only through parameters:
- the e-mail check is a `validEmail` predicate passed in;
- the clock reading is an integer `now`.

A Java `null` result or exception becomes `None` or a `Failure`. Hold ids and
reservation ids are natural-number counters kept in the service record. Each
hands out its current value and then advances.

The three counters add up to the venue's capacity only when no seat is
PROCESSING. `CountersAddUp` states the general identity: open, held, reserved
and PROCESSING seats together make up the capacity. The service invariant
guarantees that no seat is PROCESSING between calls, so there the three
counters alone add up to the capacity (`InvCountersAddUp`). Within a
`findAndHoldSeats` call, however, the claimed seats are PROCESSING and are
counted by none of the counters.

## Model

| member | source | states |
|---|---|---|
| `Decimal.IntToStringRoundTrip` | src/main/java/com/walmart/labs/ticketReservation/model/seat/Seat.java:19 | The `%d` rendering of an integer, negative ones included, parses back to the same integer, so it is injective. |
| `Seats.NewSeat` | src/main/java/com/walmart/labs/ticketReservation/model/seat/Seat.java:16-21 | A new seat is OPEN and its id reads back as exactly the labels it was given, whatever their sign. |
| `Seats.SetState` | src/main/java/com/walmart/labs/ticketReservation/model/seat/Seat.java:39-53 | Each setter puts the seat in its own state from any prior state, and labels and id stay the same. |
| `Seats.IdRoundTrip` | src/main/java/com/walmart/labs/ticketReservation/model/seat/Seat.java:19 | The id determines both labels: splitting at the first '-' after position 0 gives back row and seat number. |
| `Seats.IdExamples` | src/test/java/com/walmart/labs/ticketReservation/model/seat/SeatTest.java:22-26 | Ids of concrete seats such as "2-5" and "-2--8", as in the seat tests. |
| `Seats.SeatEqualsIffSameLabels` | src/main/java/com/walmart/labs/ticketReservation/model/seat/Seat.java:60-67 | Two seats are equal if and only if they have the same row and seat number; their states play no part. |
| `Seats.HashCodeFollowsEquals` | src/main/java/com/walmart/labs/ticketReservation/model/seat/Seat.java:55-58 | Equal seats have equal hashes (Java's 32-bit string hash of the id), and a state change does not change a seat's hash. |
| `SeatHolds.NewSeatHold` | src/main/java/com/walmart/labs/ticketReservation/model/seat/SeatHold.java:23-28 | The hold keeps id and email verbatim, copies the seats element by element in order, is stamped `now`, has no reservation id yet, and never fails. |
| `SeatHolds.SetReservationId` | src/main/java/com/walmart/labs/ticketReservation/model/seat/SeatHold.java:54-56 | The reservation id is set and every other field is unchanged. |
| `SeatHolds.SetReservationIdOverwrites` | src/main/java/com/walmart/labs/ticketReservation/model/seat/SeatHold.java:54-56 | A second reservation id replaces the first. |
| `Venues.Create` | src/main/java/com/walmart/labs/ticketReservation/model/venue/Venue.java:31-48 | Non-positive dimensions are clamped to 1. The capacity is rows × columns and every seat starts OPEN, so the counters are right (open = capacity, held = reserved = 0). Every seat is labelled with the clamped dimensions. |
| `Venues.CreatedSeatsShareId` | src/main/java/com/walmart/labs/ticketReservation/model/venue/Venue.java:36-42 | Any two seats of a fresh venue are equal under the seat's `equals`, which is why seats are told apart by position. |
| `Venues.GetSeat` | src/main/java/com/walmart/labs/ticketReservation/model/venue/Venue.java:85-91 | A seat is returned if and only if the row and column lie inside the grid, and it is the seat at that row-major position; otherwise the answer is none, never an error. |
| `Venues.GetSeatCoversGrid` | src/main/java/com/walmart/labs/ticketReservation/model/venue/Venue.java:85-91 | Every grid position is reached by `getSeat` at exactly one (row, column). |
| `Venues.StepSeat` | src/main/java/com/walmart/labs/ticketReservation/model/venue/Venue.java:122-161 | One loop iteration moves exactly one seat to the target state and changes no label or dimension. |
| `Venues.StepSeatKeepsCounters` | src/main/java/com/walmart/labs/ticketReservation/model/venue/Venue.java:129-161 | The counter bookkeeping of one iteration keeps every counter equal to the number of seats in its state, including when PROCESSING is involved, which has no counter. |
| `Venues.ApplyAll` | src/main/java/com/walmart/labs/ticketReservation/model/venue/Venue.java:121-163 | The loop over the batch, in order and with repeated seats, has the meaning of `Mark`: the batch's seats take the target, the rest are untouched, and the counters stay right. |
| `Venues.ProcessSeats` | src/main/java/com/walmart/labs/ticketReservation/model/venue/Venue.java:111-164 | An empty batch or a missing target state is refused with IllegalArgument, and only then. Otherwise every batch seat ends in the target, every other seat is unchanged, and the counter invariant is kept. |
| `Venues.ProcessSeat` | src/main/java/com/walmart/labs/ticketReservation/model/venue/Venue.java:99-103 | The one-seat case: only that seat changes, to the target; the call is refused only for a missing target. |
| `Venues.ProcessSeatsQuietly` | src/main/java/com/walmart/labs/ticketReservation/service/TicketServiceImpl.java:121-125 | A `processSeats` whose exception is swallowed: the batch takes the target, the counters stay right, and an empty batch changes nothing. |
| `Venues.ProcessSeatsOrReopen` | src/main/java/com/walmart/labs/ticketReservation/service/TicketServiceImpl.java:163-170 | A `processSeats` whose failure is answered by reopening still leaves the batch in the target state with the counters right. |
| `Venues.OpenSelectedSeats` | src/main/java/com/walmart/labs/ticketReservation/model/venue/Venue.java:171-182 | Refused with TicketReservation if and only if the list is empty (the wrapped IllegalArgument). Otherwise every listed seat ends OPEN and nothing else changes. |
| `Venues.ProcessSeatsIdempotent` | src/main/java/com/walmart/labs/ticketReservation/model/venue/Venue.java:124-127 | Applying the same batch and state again returns the venue unchanged, seats and counters alike. |
| `Venues.CountersAddUp` | src/main/java/com/walmart/labs/ticketReservation/model/venue/Venue.java:44-47 | Under the counter invariant, open + held + reserved + the PROCESSING seats equals the capacity. |
| `Venues.CountMark` | src/main/java/com/walmart/labs/ticketReservation/model/venue/Venue.java:129-161 | Moving n distinct seats from one state to another changes those two states' seat counts by exactly n and leaves every other count alone. |
| `Venues.ProcessSeatsShiftsCounters` | src/main/java/com/walmart/labs/ticketReservation/model/venue/Venue.java:129-161 | `processSeats` on n distinct seats all in one state lowers that state's counter by n, raises the target's by n, and leaves the third counter alone. |
| `TicketService.Create` | src/main/java/com/walmart/labs/ticketReservation/service/TicketServiceImpl.java:50-65 | A missing venue is refused, and only that. The timeout is the given one when positive, else the default 5, both registries start empty and both id counters start at 0. |
| `TicketService.NumSeatsAvailable` | src/main/java/com/walmart/labs/ticketReservation/service/TicketServiceImpl.java:71-73 | Under the counter invariant, the number of OPEN seats in the grid. |
| `TicketService.FirstOpen` | src/main/java/com/walmart/labs/ticketReservation/service/TicketServiceImpl.java:92-107 | The row-major scan finds an OPEN seat with no OPEN seat before it, or reports that no seat from the start point on is OPEN. |
| `TicketService.FindBestSeat` | src/main/java/com/walmart/labs/ticketReservation/service/TicketServiceImpl.java:81-109 | Nothing is found (and nothing changes) if and only if the OPEN counter is 0 or no seat is OPEN. Otherwise the first OPEN seat in row-major order is returned and only that seat becomes PROCESSING. |
| `TicketService.FindBestSeatCounts` | src/main/java/com/walmart/labs/ticketReservation/service/TicketServiceImpl.java:81-109 | With the counters right, a seat is found if and only if the OPEN counter is positive; finding it lowers that counter by one and leaves the others. |
| `TicketService.FindBestSeatAdvances` | src/main/java/com/walmart/labs/ticketReservation/service/TicketServiceImpl.java:92-107 | Two successive calls never return the same seat; the second returns a later one. |
| `TicketService.FindBestSeatOnTwoSeats` | src/test/java/com/walmart/labs/ticketReservation/service/TicketServiceTest.java:17-30 | On a 2 × 1 venue the first two calls return two different seats and the third and fourth return none. |
| `TicketService.ClaimSeats` | src/main/java/com/walmart/labs/ticketReservation/service/TicketServiceImpl.java:148-160 | With the counters right and at most the OPEN seats asked for, the loop never fails. It claims exactly the next k OPEN seats in row-major order, and exactly those become PROCESSING. |
| `TicketService.ClaimRound` | src/main/java/com/walmart/labs/ticketReservation/service/TicketServiceImpl.java:150-159 | One iteration of the claim loop: the best seat followed by what the rest of the loop claims is again a prefix of the OPEN seats. |
| `TicketService.ClaimPrepend` | src/main/java/com/walmart/labs/ticketReservation/service/TicketServiceImpl.java:150-159 | The first OPEN seat, put in front of the first OPEN seats of the grid where it is PROCESSING, gives the first OPEN seats of the original grid. |
| `TicketService.FindAndHoldSeats` | src/main/java/com/walmart/labs/ticketReservation/service/TicketServiceImpl.java:137-187 | Asking for more than the available seats, or giving an invalid email, returns nothing and leaves the whole state unchanged. A returned hold has the next hold id, the email, `now` and max(n, 0) seats, and is registered under that id. Reservations are untouched. |
| `TicketService.FindAndHoldSeatsHoldsFirstOpen` | src/main/java/com/walmart/labs/ticketReservation/service/TicketServiceImpl.java:148-170 | With enough seats and a valid email the call succeeds. Exactly the first n OPEN seats in row-major order go to HOLD; OPEN drops by n, HOLD rises by n and RESERVED stays. The claim loop's rollback (lines 150-157) never runs. |
| `TicketService.OwnerUnique` | src/main/java/com/walmart/labs/ticketReservation/service/TicketServiceImpl.java:162-228 | Between calls every HOLD seat belongs to exactly one pending hold and every RESERVED seat to exactly one confirmed hold. |
| `TicketService.InvCountersAddUp` | src/main/java/com/walmart/labs/ticketReservation/model/venue/Venue.java:44-47 | Between calls the open, held and reserved counters add up to the capacity. |
| `TicketService.RegisterHoldOwned` | src/main/java/com/walmart/labs/ticketReservation/service/TicketServiceImpl.java:162-186 | After a hold is registered, its seats (now HOLD) are owned by it, and every other HOLD or RESERVED seat keeps its owner. |
| `TicketService.ConfirmOwned` | src/main/java/com/walmart/labs/ticketReservation/service/TicketServiceImpl.java:213-228 | After a confirmation, the hold's seats (now RESERVED) are owned by the new reservation, and every other HOLD or RESERVED seat keeps its owner. |
| `TicketService.SweepKeepsOwned` | src/main/java/com/walmart/labs/ticketReservation/service/TicketServiceImpl.java:115-129 | After the sweep every HOLD seat still belongs to a surviving hold and every RESERVED seat to a reservation. |
| `TicketService.CreateEstablishesInv` | src/main/java/com/walmart/labs/ticketReservation/service/TicketServiceImpl.java:50-65 | A service built on a fresh venue satisfies the service invariant. |
| `TicketService.RegisterHoldKeepsInv` | src/main/java/com/walmart/labs/ticketReservation/service/TicketServiceImpl.java:172-186 | Registering a hold of previously OPEN, now HOLD seats under the next hold id keeps the service invariant. |
| `TicketService.FindAndHoldSeatsKeepsInv` | src/main/java/com/walmart/labs/ticketReservation/service/TicketServiceImpl.java:137-187 | Every `findAndHoldSeats` call, refused or not, keeps the service invariant, so no seat is left PROCESSING. |
| `TicketService.ReserveSeats` | src/main/java/com/walmart/labs/ticketReservation/service/TicketServiceImpl.java:196-229 | Refused (nothing changes) if and only if the email is invalid, no pending hold has the id, or the hold belongs to another email. On success the hold's seats go to RESERVED. The hold leaves the pending registry and enters the reservation registry under a fresh reservation id, which is also stamped on it. |
| `TicketService.ReserveSeatsMovesHeldToReserved` | src/main/java/com/walmart/labs/ticketReservation/service/TicketServiceImpl.java:213-228 | A successful confirmation of k seats lowers HOLD by k and raises RESERVED by k. The reservation id was not in use, and confirming the same hold id again is refused. |
| `TicketService.ReserveSeatsKeepsInv` | src/main/java/com/walmart/labs/ticketReservation/service/TicketServiceImpl.java:196-229 | Every `reserveSeats` call, refused or not, keeps the service invariant. |
| `TicketService.ExpireHold` | src/main/java/com/walmart/labs/ticketReservation/service/TicketServiceImpl.java:118-127 | One step of the sweep leaves reservations, timeout and id counters alone and keeps the counters right. |
| `TicketService.SweepFrom` | src/main/java/com/walmart/labs/ticketReservation/service/TicketServiceImpl.java:117-128 | The remaining sweep leaves reservations, timeout and id counters alone and keeps the counters right. |
| `TicketService.CollectExpiredSeatHolds` | src/main/java/com/walmart/labs/ticketReservation/service/TicketServiceImpl.java:115-129 | The sweep leaves reservations, timeout and id counters alone and keeps the counters right. |
| `TicketService.SweepStep` | src/main/java/com/walmart/labs/ticketReservation/service/TicketServiceImpl.java:118-127 | Visiting one more hold id extends the swept prefix: that hold is dropped exactly when it is expired, and exactly its seats are reopened. |
| `TicketService.SweepFromSpec` | src/main/java/com/walmart/labs/ticketReservation/service/TicketServiceImpl.java:117-128 | Finishing the sweep from any point leaves every issued hold id swept. |
| `TicketService.CollectExpiredSeatHoldsSpec` | src/main/java/com/walmart/labs/ticketReservation/service/TicketServiceImpl.java:115-129 | A pending hold survives if and only if it is younger than the timeout, and survivors are unchanged. Exactly the seats of the dropped holds are reopened, and reservations are untouched. |
| `TicketService.CollectExpiredSeatHoldsReopens` | src/main/java/com/walmart/labs/ticketReservation/service/TicketServiceImpl.java:119-126 | After the sweep an expired hold's seats are all OPEN and a surviving hold's seats are all still HOLD. |
| `TicketService.CollectExpiredSeatHoldsKeepsInv` | src/main/java/com/walmart/labs/ticketReservation/service/TicketServiceImpl.java:115-129 | The sweep keeps the service invariant. |
| `TicketService.SweptHoldCannotBeReserved` | src/main/java/com/walmart/labs/ticketReservation/service/TicketServiceImpl.java:203-207 | Once the sweep has dropped an expired hold, confirming it is refused and changes nothing. |
| `TicketService.Perform` | src/main/java/com/walmart/labs/ticketReservation/service/TicketServiceImpl.java:115-229 | Any single `findAndHoldSeats`, `reserveSeats` or `collectExpiredSeatHolds` call keeps the service invariant and never moves an id counter back. |
| `TicketService.Run` | src/main/java/com/walmart/labs/ticketReservation/service/TicketServiceImpl.java:115-229 | Any sequence of `findAndHoldSeats`, `reserveSeats` and `collectExpiredSeatHolds` calls keeps the service invariant and never moves an id counter back, so ids are never reused. |
| `TicketService.InvariantAlwaysHolds` | src/main/java/com/walmart/labs/ticketReservation/service/TicketServiceImpl.java:50-65 | From a freshly built service, every state reached by any sequence of `findAndHoldSeats`, `reserveSeats` and `collectExpiredSeatHolds` calls satisfies the service invariant. |
| `TicketService.ServiceFindBestSeat` | src/main/java/com/walmart/labs/ticketReservation/service/TicketServiceImpl.java:81-109 | Called from outside, `findBestSeat` turns the first OPEN seat to PROCESSING and records it in no hold; registries, timeout and id counters are unchanged. From a state in the invariant, a found seat always leaves the invariant broken. |
| `TicketService.BestSeatStrands` | src/main/java/com/walmart/labs/ticketReservation/service/TicketServiceImpl.java:81-109 | With no hold pending, an outside `findBestSeat` leaves a PROCESSING seat that no hold owns: the available count drops by one, the held count stays, and the sweep never reopens it. When that was the last OPEN seat, a hold of one seat is refused. |
| `TicketService.DirectBestSeatStrandsSeat` | src/main/java/com/walmart/labs/ticketReservation/service/TicketServiceImpl.java:81-109 | On a fresh 1 × 1 venue, one outside `findBestSeat` returns seat 0 and strands it: the invariant is broken, 0 seats are available and 0 held, the sweep leaves it PROCESSING, and `findAndHoldSeats(1, …)` is refused. |
| `TicketService.HoldLowersAvailable` | src/main/java/com/walmart/labs/ticketReservation/service/TicketServiceImpl.java:137-187 | A hold of n ≥ 0 available seats lowers the available count by n and registers an n-seat hold for the customer under the next id. Every older pending hold is kept. |
| `TicketService.HoldAllSpec` | src/main/java/com/walmart/labs/ticketReservation/service/TicketServiceImpl.java:137-187 | A series of holds that together ask for at most the available seats all succeed. They get consecutive ids with their own counts and emails, and the seats asked for move from OPEN to HOLD. |
| `TicketService.HoldAllKeepsInv` | src/main/java/com/walmart/labs/ticketReservation/service/TicketServiceImpl.java:137-187 | A series of holds keeps the service invariant. |
| `TicketService.ReserveConfirms` | src/main/java/com/walmart/labs/ticketReservation/service/TicketServiceImpl.java:196-229 | Confirming a pending hold with the owner's valid email succeeds. It keeps the invariant, moves the hold's seats from HOLD to RESERVED and drops exactly that hold from the pending registry. |
| `TicketService.ReserveAll` | src/main/java/com/walmart/labs/ticketReservation/service/TicketServiceImpl.java:196-229 | Confirming a list of hold ids one by one answers once per id and keeps every pending hold inside the venue. |
| `TicketService.ReserveAllSpec` | src/main/java/com/walmart/labs/ticketReservation/service/TicketServiceImpl.java:196-229 | Confirming distinct pending holds of one customer one after another succeeds every time. It moves the seats of all of them from HOLD to RESERVED and keeps the invariant. |
| `TicketService.HoldAllAvailable` | src/main/java/com/walmart/labs/ticketReservation/service/TicketServiceImpl.java:71-73 | After a series of holds that fit, the available count is the old one minus the seats asked for. |
| `TicketService.HoldAllPrefix` | src/main/java/com/walmart/labs/ticketReservation/service/TicketServiceImpl.java:71-73 | The same holds after every prefix of such a series. |
| `TicketService.FreshService` | src/test/java/com/walmart/labs/ticketReservation/service/TicketServiceTest.java:48-52 | A service on a fresh venue satisfies the invariant, has no pending hold and has every seat of the clamped grid available (16 for 4 × 4). |
| `TicketService.HoldingScenario` | src/test/java/com/walmart/labs/ticketReservation/service/TicketServiceTest.java:46-62 | Holding 2, 5, 2 and 6 seats out of 16 available leaves 14, 9, 7 and then 1 seat available after the successive holds. |
| `TicketService.ReservingScenario` | src/test/java/com/walmart/labs/ticketReservation/service/TicketServiceTest.java:64-91 | Five holds of 3, 6, 4, 8 and 4 seats fill a 5 × 5 venue (0 open, 25 held). Confirming the second gives 19 held and 6 reserved; confirming the rest gives 25 reserved. |

## Left out

- Concurrency: the `synchronized` methods, the unsynchronized sweep and the atomic id counters. Calls are modelled one at a time.
- The id counters in the Java source are `static` and shared by all service instances. The model keeps one pair of counters per service, starting at 0.
- Hold ids pass through `String.valueOf`/`Integer.valueOf`, and reservation ids are strings. Both are modelled as natural numbers.
- The e-mail regular expression of `Utils.validate` is taken as a `validEmail` predicate argument.
- A `null` customer email is not modelled: `Utils.validate` hands it to the regex matcher, which throws a NullPointerException (Utils.java:22). Both `findAndHoldSeats` (TicketServiceImpl.java:144) and `reserveSeats` (TicketServiceImpl.java:199) reach it. A Dafny `string` cannot be null, so this exception path does not exist in the model.
- Seat ids assume that the JVM's default locale writes ASCII digits. `String.format("%d-%d", …)` (Seat.java:19) uses that locale, and under one with other digits the ids differ from the model's.
- Calls of the public `findBestSeat` from outside the service are not among the calls of `Run`. `ServiceFindBestSeat` models such a call, and `BestSeatStrands` shows that it breaks the invariant (see "## Findings").
- The wall clock (`new Date()`) is an integer `now` argument. The model does not decide whether the timeout is in milliseconds, as the subtraction suggests, or in the unit of the default 5.
- The sweep removes entries from the hold map while iterating over it, which a Java `HashMap` answers with a ConcurrentModificationException once more entries follow. The model gives the evident intent: it visits hold ids in ascending order below the next hold id. Under the invariant these are all the pending holds, so the sweep filters them all.
- Java `int` overflow of the counters, of `row * column` and of the ids is not modelled. The 32-bit wrap-around appears only in the seat hash.
- Seats from another venue and `null` list elements cannot be passed: every batch must name positions of the venue.
- A `null` seat list takes the same branch as the empty list. A `null` target state is `None`.
- `Seat.equals` on an object that is not a Seat throws; this cannot be expressed with typed arguments.
- The `SeatState` description strings, the exception class and the plain getters are left out. The getters are datatype fields, and the seat id is computed from the labels rather than stored.
- Object sharing between the service and its callers is not modelled. Everything in the model is a value: the venue the service was built on, the seats returned by `getSeat`/`getSeats`, the hold returned by `findAndHoldSeats` with its seat list and creation date. In Java these are live references:
  - The service keeps the caller's `Venue` (TicketServiceImpl.java:56).
  - `getSeat`/`getSeats` return the stored `Seat` objects, whose public state setters change a seat without touching any counter (Seat.java:39-53).
  - The returned `SeatHold` is the registered one, and `getSeatsHold` exposes its internal list (SeatHold.java:38-40).
  - Changes made through such references are not among `Run`'s calls. The invariant `Inv`, and the promises `Run` and `InvariantAlwaysHolds` make, hold only while callers do not mutate what they were handed.
- The rollback for a hold that cannot be built is not modelled: building a hold never fails, so that branch is dead.
- TicketService.FindAndHoldSeats: does not repeat that the counter invariant is kept; that is stated by `FindAndHoldSeatsKeepsInv` and `FindAndHoldSeatsHoldsFirstOpen`.
- TicketService.HoldingScenario: starts from any valid service with 16 available seats and no holds, which `FreshService` supplies for a 4 × 4 venue, rather than from a fresh 4 × 4 venue itself.

## Findings

| source | as written | input that shows it | evidently intended | confidence | as-written member | corrected member |
|---|---|---|---|---|---|---|
| src/main/java/com/walmart/labs/ticketReservation/service/TicketServiceImpl.java:81-109 | `findBestSeat` is public and moves the seat it returns to PROCESSING without recording it in any hold. The service tests call it directly (TicketServiceTest.java:21-24). | A fresh 1 × 1 venue, then one call of `findBestSeat`: seat 0 stays PROCESSING for good, is counted neither available nor held, is never reopened by the sweep, and `findAndHoldSeats(1, …)` is refused. | `findBestSeat` is a helper of the claim loop only, so every seat it takes ends in a hold or is reopened. | not executed; medium | `TicketService.DirectBestSeatStrandsSeat` (on `TicketService.ServiceFindBestSeat`, generalised by `TicketService.BestSeatStrands`) | `TicketService.InvariantAlwaysHolds` over `TicketService.Run`, whose calls reach `findBestSeat` only through `findAndHoldSeats` |
