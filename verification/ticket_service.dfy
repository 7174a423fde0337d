/** The booking service: best-seat selection, holding, confirming and the
    expiry sweep, run one call at a time. Pending holds live in `seatHoldMap`,
    confirmed ones in `reservationsMap`; the two id sources are counters that
    hand out their value and then advance. */
module TicketService {
  import opened Wrappers
  import opened Seats
  import opened Venues
  import opened SeatHolds

  const DefaultSeatHoldTimeOut: int := 5

  datatype Service = Service(
    venue: Venue,
    seatHoldMap: map<int, SeatHold>,
    reservationsMap: map<nat, SeatHold>,
    seatHoldTimeOut: int,
    nextSeatHoldId: nat,
    nextReservationId: nat)

  /** A null venue is refused; a non-positive timeout falls back to the
      default; both registries start empty. */
  function Create(venue: Option<Venue>, seatHoldTimeOut: int): (r: Result<Service, Error>)
    ensures r.Failure? <==> venue.None?
    ensures r.Failure? ==> r.error == TicketReservation
    ensures r.Success? ==> r.value.venue == venue.value
    ensures r.Success? ==> r.value.seatHoldTimeOut == (if seatHoldTimeOut > 0 then seatHoldTimeOut else DefaultSeatHoldTimeOut)
    ensures r.Success? ==> r.value.seatHoldMap == map[] && r.value.reservationsMap == map[]
    ensures r.Success? ==> r.value.nextSeatHoldId == 0 && r.value.nextReservationId == 0
  {
    if venue.None? then Failure(TicketReservation)
    else
      var timeOut := if seatHoldTimeOut > 0 then seatHoldTimeOut else DefaultSeatHoldTimeOut;
      Success(Service(venue.value, map[], map[], timeOut, 0, 0))
  }

  /** The OPEN counter, which under the counter invariant is the number of OPEN seats. */
  function NumSeatsAvailable(s: Service): (n: int)
    ensures Valid(s.venue) ==> n == Count(s.venue.cells, Open)
  {
    s.venue.openSeatCount
  }

  // Best-seat selection.

  /** The first OPEN seat at or after `from` in row-major order. */
  function FirstOpen(cells: seq<Seat>, from: nat): (r: Option<SeatRef>)
    requires from <= |cells|
    ensures r.Some? ==> from <= r.value < |cells| && cells[r.value].state == Open
    ensures r.Some? ==> forall i :: from <= i < r.value ==> cells[i].state != Open
    ensures r.None? ==> forall i :: from <= i < |cells| ==> cells[i].state != Open
    decreases |cells| - from
  {
    if from == |cells| then None
    else if cells[from].state == Open then Some(from)
    else FirstOpen(cells, from + 1)
  }

  /** `findBestSeat`: nothing when the OPEN counter is 0; otherwise the first
      OPEN seat scanning row 0 first, leftmost column first, which is moved to
      PROCESSING (a failure of that move would be ignored). */
  function FindBestSeat(v: Venue): (r: (Venue, Option<SeatRef>))
    ensures r.1.None? ==> r.0 == v
    ensures r.1.None? <==> v.openSeatCount == 0 || forall i :: 0 <= i < |v.cells| ==> v.cells[i].state != Open
    ensures r.1.Some? ==> r.1.value < |v.cells| && v.cells[r.1.value].state == Open
    ensures r.1.Some? ==> forall i :: 0 <= i < r.1.value ==> v.cells[i].state != Open
    ensures r.1.Some? ==> r.0.cells == v.cells[r.1.value := SetState(v.cells[r.1.value], Processing)]
    ensures SameShape(r.0, v) && (Valid(v) ==> Valid(r.0))
  {
    if v.openSeatCount == 0 then (v, None)
    else
      match FirstOpen(v.cells, 0)
      case None => (v, None)
      case Some(m) =>
        var w := match ProcessSeat(v, m, Some(Processing)) case Success(w) => w case Failure(_) => v;
        (w, Some(m))
  }

  lemma {:induction false} CountZeroWhenAbsent(cells: seq<Seat>, st: SeatState)
    requires forall i :: 0 <= i < |cells| ==> cells[i].state != st
    ensures Count(cells, st) == 0
    decreases |cells|
  {
    if |cells| > 0 {
      CountZeroWhenAbsent(cells[1..], st);
    }
  }

  /** Under the counter invariant a seat is found exactly when the OPEN counter
      is positive, and claiming it lowers that counter by one. */
  lemma FindBestSeatCounts(v: Venue)
    requires Valid(v)
    ensures var r := FindBestSeat(v);
            && (r.1.Some? <==> v.openSeatCount > 0)
            && (r.1.Some? ==> r.0.openSeatCount == v.openSeatCount - 1)
            && r.0.heldSeatCount == v.heldSeatCount && r.0.reservedSeatCount == v.reservedSeatCount
  {
    var r := FindBestSeat(v);
    if r.1.None? && v.openSeatCount != 0 {
      CountZeroWhenAbsent(v.cells, Open);
    }
    if r.1.Some? {
      var m := r.1.value;
      var x := SetState(v.cells[m], Processing);
      CountUpdate(v.cells, m, x, Open);
      CountUpdate(v.cells, m, x, Hold);
      CountUpdate(v.cells, m, x, Reserved);
    }
  }

  /** Two successive calls never return the same seat: the second resumes
      further along the row-major order. */
  lemma FindBestSeatAdvances(v: Venue)
    ensures var (v1, a) := FindBestSeat(v);
            var (_, b) := FindBestSeat(v1);
            a.Some? && b.Some? ==> a.value < b.value
  {
  }

  /** A 2 × 1 venue yields two different seats, then none, as in the service tests. */
  lemma FindBestSeatOnTwoSeats()
    ensures var r1 := FindBestSeat(Venues.Create(2, 1));
            var r2 := FindBestSeat(r1.0);
            var r3 := FindBestSeat(r2.0);
            var r4 := FindBestSeat(r3.0);
            r1.1.Some? && r2.1.Some? && r1.1 != r2.1 && r3.1.None? && r4.1.None?
  {
    var v0 := Venues.Create(2, 1);
    assert Valid(v0) && v0.openSeatCount == 2;
    FindBestSeatCounts(v0);
    FindBestSeatAdvances(v0);
    var r1 := FindBestSeat(v0);
    assert Valid(r1.0) && r1.0.openSeatCount == 1;
    FindBestSeatCounts(r1.0);
    var r2 := FindBestSeat(r1.0);
    assert Valid(r2.0) && r2.0.openSeatCount == 0;
    FindBestSeatCounts(r2.0);
  }

  // Holding seats.

  /** `seats` are the first `|seats|` OPEN seats of `cells` in row-major order,
      listed in that order. */
  ghost predicate FirstOpenSeats(cells: seq<Seat>, seats: seq<SeatRef>) {
    && AllInState(cells, seats, Open)
    && (forall k, j :: 0 <= k < j < |seats| ==> seats[k] < seats[j])
    && (forall i :: 0 <= i < |cells| && cells[i].state == Open && |seats| > 0 && i < seats[|seats| - 1] ==> i in seats)
  }

  lemma MarkTwice(cells: seq<Seat>, picked: set<SeatRef>, first: SeatState, second: SeatState)
    ensures Mark(Mark(cells, picked, first), picked, second) == Mark(cells, picked, second)
  {
  }

  lemma MarkCompose(cells: seq<Seat>, a: set<SeatRef>, b: set<SeatRef>, target: SeatState)
    ensures Mark(Mark(cells, a, target), b, target) == Mark(cells, a + b, target)
  {
  }

  lemma FirstOpenSeatsDistinct(cells: seq<Seat>, seats: seq<SeatRef>)
    requires FirstOpenSeats(cells, seats)
    ensures AllInState(cells, seats, Open) && NoDup(seats)
  {
  }

  /** `r` extends `claimed` by `k` seats, the first `k` OPEN seats of `cells`,
      and in `r`'s grid exactly those seats have turned PROCESSING. */
  ghost predicate ClaimedNext(cells: seq<Seat>, claimed: seq<SeatRef>, k: nat, r: (Venue, Option<seq<SeatRef>>)) {
    && r.1.Some? && |r.1.value| == |claimed| + k
    && r.1.value[..|claimed|] == claimed
    && FirstOpenSeats(cells, r.1.value[|claimed|..])
    && r.0.cells == Mark(cells, Elems(r.1.value[|claimed|..]), Processing)
  }

  /** The claim loop of `findAndHoldSeats`: `k` more calls of the best-seat
      scan. If one comes back empty, the seats claimed so far are reopened
      (a failure of that is ignored) and the claim fails. With the counters
      right and no more seats asked for than are OPEN, the loop never comes
      back empty and takes the next `k` OPEN seats in row-major order. */
  function ClaimSeats(v: Venue, k: nat, claimed: seq<SeatRef>): (r: (Venue, Option<seq<SeatRef>>))
    requires InVenue(v, claimed)
    ensures SameShape(r.0, v) && (Valid(v) ==> Valid(r.0))
    ensures r.1.Some? ==> InVenue(r.0, r.1.value) && |r.1.value| == |claimed| + k
    ensures Valid(v) && k <= v.openSeatCount ==> ClaimedNext(v.cells, claimed, k, r)
    decreases k
  {
    if k == 0 then
      assert claimed[|claimed|..] == [];
      MarkNothing(v.cells, Processing);
      (v, Some(claimed))
    else
      var (w, seat) := FindBestSeat(v);
      if seat.None? then
        FindBestSeatFindsOpen(v);
        (ProcessSeatsQuietly(w, claimed, Open), None)
      else
        var r := ClaimSeats(w, k - 1, claimed + [seat.value]);
        ClaimRound(v, k, claimed, w, seat.value, r);
        r
  }

  /** Under the counter invariant a positive OPEN counter means a seat is found. */
  lemma FindBestSeatFindsOpen(v: Venue)
    ensures Valid(v) && v.openSeatCount > 0 ==> FindBestSeat(v).1.Some?
  {
    if Valid(v) {
      FindBestSeatCounts(v);
    }
  }

  /** One round of the claim loop: when the rest of the loop claims the next
      OPEN seats of the grid in which the best seat is already PROCESSING, the
      whole loop claims the best seat followed by those. */
  lemma ClaimRound(v: Venue, k: nat, claimed: seq<SeatRef>, w: Venue, m: SeatRef, r: (Venue, Option<seq<SeatRef>>))
    requires k > 0 && FindBestSeat(v) == (w, Some(m))
    requires Valid(w) && k - 1 <= w.openSeatCount ==> ClaimedNext(w.cells, claimed + [m], k - 1, r)
    ensures Valid(v) && k <= v.openSeatCount ==> ClaimedNext(v.cells, claimed, k, r)
  {
    if Valid(v) && k <= v.openSeatCount {
      FindBestSeatCounts(v);
      var all := r.1.value;
      var rest := all[|claimed| + 1..];
      SplitAfter(all, claimed, m);
      assert FirstOpenSeats(w.cells, rest) && r.0.cells == Mark(w.cells, Elems(rest), Processing);
      ClaimPrepend(v.cells, m, rest);
      MarkPrepend(v.cells, m, rest, Processing);
    }
  }

  lemma SplitAfter(all: seq<SeatRef>, claimed: seq<SeatRef>, m: SeatRef)
    requires |claimed| < |all| && all[..|claimed| + 1] == claimed + [m]
    ensures all[..|claimed|] == claimed && all[|claimed|..] == [m] + all[|claimed| + 1..]
  {
    assert all[..|claimed|] == all[..|claimed| + 1][..|claimed|];
  }

  /** Prepending the first OPEN seat to the first OPEN seats of the grid in
      which it is PROCESSING gives the first OPEN seats of the original grid. */
  lemma ClaimPrepend(cells: seq<Seat>, m: SeatRef, rest: seq<SeatRef>)
    requires m < |cells| && cells[m].state == Open
    requires forall i :: 0 <= i < m ==> cells[i].state != Open
    requires FirstOpenSeats(cells[m := SetState(cells[m], Processing)], rest)
    ensures FirstOpenSeats(cells, [m] + rest)
  {
  }

  /** Marking the first claimed seat and then the rest is marking them all
      at once. */
  lemma MarkPrepend(cells: seq<Seat>, m: SeatRef, rest: seq<SeatRef>, target: SeatState)
    requires m < |cells|
    ensures Mark(cells, Elems([m] + rest), target)
            == Mark(cells[m := SetState(cells[m], target)], Elems(rest), target)
  {
  }

  /** `findAndHoldSeats`: refused (null, nothing changed) when more seats are
      asked for than are OPEN or the email is not valid. Otherwise the first
      `numSeats` OPEN seats are claimed and moved to HOLD, and a hold with a
      fresh id is registered and returned; for `numSeats <= 0` the hold is
      empty and no seat moves. The rollback for a hold that cannot be built is
      not modelled: building a hold never fails. */
  function FindAndHoldSeats(s: Service, numSeats: int, customerEmail: string, validEmail: string -> bool, now: int)
    : (r: (Service, Option<SeatHold>))
    ensures numSeats > NumSeatsAvailable(s) || !validEmail(customerEmail) ==> r == (s, None)
    ensures r.1.None? ==> r.0.seatHoldMap == s.seatHoldMap && r.0.nextSeatHoldId == s.nextSeatHoldId
    ensures r.1.Some? ==>
              && r.1.value.seatHoldId == s.nextSeatHoldId
              && r.1.value.customerEmail == customerEmail && r.1.value.creationTS == now
              && r.1.value.reservationId.None?
              && |r.1.value.seatsHold| == (if numSeats > 0 then numSeats else 0)
              && r.0.seatHoldMap == s.seatHoldMap[s.nextSeatHoldId := r.1.value]
              && r.0.nextSeatHoldId == s.nextSeatHoldId + 1
    ensures r.0.reservationsMap == s.reservationsMap && r.0.nextReservationId == s.nextReservationId
    ensures r.0.seatHoldTimeOut == s.seatHoldTimeOut
    ensures SameShape(r.0.venue, s.venue)
  {
    if numSeats > NumSeatsAvailable(s) then (s, None)
    else if !validEmail(customerEmail) then (s, None)
    else
      var (v1, claimed) := ClaimSeats(s.venue, if numSeats > 0 then numSeats else 0, []);
      if claimed.None? then (s.(venue := v1), None)
      else
        var seats := claimed.value;
        var v2 := ProcessSeatsOrReopen(v1, seats, Hold);
        var id := s.nextSeatHoldId;
        var hold := NewSeatHold(id, customerEmail, seats, now);
        (s.(venue := v2, seatHoldMap := s.seatHoldMap[id := hold], nextSeatHoldId := id + 1), Some(hold))
  }

  /** With enough OPEN seats and a valid email, exactly the first `n` OPEN
      seats in row-major order go to HOLD, the OPEN counter drops by `n` and
      the HOLD counter rises by `n`; the claim loop's rollback never runs. */
  lemma FindAndHoldSeatsHoldsFirstOpen(s: Service, numSeats: int, customerEmail: string, validEmail: string -> bool, now: int)
    requires Valid(s.venue) && numSeats <= NumSeatsAvailable(s) && validEmail(customerEmail)
    ensures var r := FindAndHoldSeats(s, numSeats, customerEmail, validEmail, now);
            && r.1.Some?
            && var seats := r.1.value.seatsHold;
            && FirstOpenSeats(s.venue.cells, seats)
            && r.0.venue.cells == Mark(s.venue.cells, Elems(seats), Hold)
            && r.0.venue.openSeatCount == s.venue.openSeatCount - |seats|
            && r.0.venue.heldSeatCount == s.venue.heldSeatCount + |seats|
            && r.0.venue.reservedSeatCount == s.venue.reservedSeatCount
  {
    var v0 := s.venue;
    var n: nat := if numSeats > 0 then numSeats else 0;
    var (v1, claimed) := ClaimSeats(v0, n, []);
    var seats := claimed.value;
    assert seats[0..] == seats;
    MarkTwice(v0.cells, Elems(seats), Processing, Hold);
    var r := FindAndHoldSeats(s, numSeats, customerEmail, validEmail, now);
    assert r.1.value.seatsHold == seats;
    if |seats| > 0 {
      assert NoDup(seats);
      ProcessSeatsShiftsCounters(v0, seats, Open, Hold);
    } else {
      assert Elems(seats) == {};
      MarkNothing(v0.cells, Hold);
    }
  }

  // The service invariant.

  predicate Disjoint(a: seq<SeatRef>, b: seq<SeatRef>) {
    forall k :: 0 <= k < |a| ==> a[k] !in b
  }

  /** A pending hold sits under its own id, below the next hold id, has no
      reservation id, and holds distinct seats that are all HOLD. */
  ghost predicate PendingOk(s: Service, id: int)
    requires id in s.seatHoldMap
  {
    var h := s.seatHoldMap[id];
    && 0 <= id < s.nextSeatHoldId
    && h.seatHoldId == id
    && h.reservationId.None?
    && NoDup(h.seatsHold)
    && AllInState(s.venue.cells, h.seatsHold, Hold)
  }

  /** A confirmed hold sits under its own reservation id, below the next
      reservation id; its hold id was issued and is no longer pending; its
      distinct seats are all RESERVED. */
  ghost predicate ReservedOk(s: Service, rid: nat)
    requires rid in s.reservationsMap
  {
    var h := s.reservationsMap[rid];
    && rid < s.nextReservationId
    && h.reservationId == Some(rid)
    && 0 <= h.seatHoldId < s.nextSeatHoldId
    && h.seatHoldId !in s.seatHoldMap
    && NoDup(h.seatsHold)
    && AllInState(s.venue.cells, h.seatsHold, Reserved)
  }

  predicate NoProcessing(v: Venue) {
    forall i :: 0 <= i < |v.cells| ==> v.cells[i].state != Processing
  }

  ghost predicate PendingHoldsOk(s: Service) {
    forall id :: id in s.seatHoldMap ==> PendingOk(s, id)
  }

  ghost predicate ReservationsOk(s: Service) {
    forall rid :: rid in s.reservationsMap ==> ReservedOk(s, rid)
  }

  ghost predicate PendingDisjoint(s: Service) {
    forall id1, id2 :: id1 in s.seatHoldMap && id2 in s.seatHoldMap && id1 != id2 ==>
      Disjoint(s.seatHoldMap[id1].seatsHold, s.seatHoldMap[id2].seatsHold)
  }

  ghost predicate ReservationsDistinct(s: Service) {
    forall r1, r2 :: r1 in s.reservationsMap && r2 in s.reservationsMap && r1 != r2 ==>
      && s.reservationsMap[r1].seatHoldId != s.reservationsMap[r2].seatHoldId
      && Disjoint(s.reservationsMap[r1].seatsHold, s.reservationsMap[r2].seatsHold)
  }

  /** Every HOLD seat belongs to a pending hold. */
  ghost predicate HeldOwned(s: Service) {
    forall i :: 0 <= i < |s.venue.cells| && s.venue.cells[i].state == Hold ==>
      exists id :: id in s.seatHoldMap && i in s.seatHoldMap[id].seatsHold
  }

  /** Every RESERVED seat belongs to a confirmed hold. */
  ghost predicate ReservedOwned(s: Service) {
    forall i :: 0 <= i < |s.venue.cells| && s.venue.cells[i].state == Reserved ==>
      exists rid :: rid in s.reservationsMap && i in s.reservationsMap[rid].seatsHold
  }

  /** What holds between service calls: the counters match the grid, no seat is
      left PROCESSING, pending holds are HOLD and pairwise disjoint, confirmed
      holds are RESERVED, pairwise disjoint and come from different holds, and
      conversely every HOLD seat belongs to a pending hold and every RESERVED
      seat to a confirmed one, so no seat is stranded. */
  ghost predicate Inv(s: Service) {
    && Valid(s.venue)
    && NoProcessing(s.venue)
    && PendingHoldsOk(s)
    && ReservationsOk(s)
    && PendingDisjoint(s)
    && ReservationsDistinct(s)
    && HeldOwned(s)
    && ReservedOwned(s)
  }

  /** Between calls each HOLD seat belongs to exactly one pending hold and
      each RESERVED seat to exactly one confirmed hold. */
  lemma OwnerUnique(s: Service, i: SeatRef)
    requires Inv(s) && i < |s.venue.cells|
    ensures s.venue.cells[i].state == Hold ==>
              && (exists id :: id in s.seatHoldMap && i in s.seatHoldMap[id].seatsHold)
              && (forall id1, id2 ::
                    (id1 in s.seatHoldMap && id2 in s.seatHoldMap
                     && i in s.seatHoldMap[id1].seatsHold && i in s.seatHoldMap[id2].seatsHold) ==> id1 == id2)
    ensures s.venue.cells[i].state == Reserved ==>
              && (exists rid :: rid in s.reservationsMap && i in s.reservationsMap[rid].seatsHold)
              && (forall r1, r2 ::
                    (r1 in s.reservationsMap && r2 in s.reservationsMap
                     && i in s.reservationsMap[r1].seatsHold && i in s.reservationsMap[r2].seatsHold) ==> r1 == r2)
  {
    forall id1, id2 | id1 in s.seatHoldMap && id2 in s.seatHoldMap && id1 != id2 && i in s.seatHoldMap[id1].seatsHold
      ensures i !in s.seatHoldMap[id2].seatsHold
    {
      var a := s.seatHoldMap[id1].seatsHold;
      var k :| 0 <= k < |a| && a[k] == i;
      assert Disjoint(a, s.seatHoldMap[id2].seatsHold);
    }
    forall r1, r2 | r1 in s.reservationsMap && r2 in s.reservationsMap && r1 != r2 && i in s.reservationsMap[r1].seatsHold
      ensures i !in s.reservationsMap[r2].seatsHold
    {
      var a := s.reservationsMap[r1].seatsHold;
      var k :| 0 <= k < |a| && a[k] == i;
      assert Disjoint(a, s.reservationsMap[r2].seatsHold);
    }
  }

  /** Between calls no seat is PROCESSING, so the three counters add up to
      the venue's capacity. */
  lemma InvCountersAddUp(s: Service)
    requires Inv(s)
    ensures s.venue.openSeatCount + s.venue.heldSeatCount + s.venue.reservedSeatCount == s.venue.maxOccupancy
  {
    CountersAddUp(s.venue);
    CountZeroWhenAbsent(s.venue.cells, Processing);
  }

  /** Every pending hold names seats of the venue; implied by `Inv`. */
  predicate HoldsInVenue(s: Service) {
    forall id :: id in s.seatHoldMap ==> InVenue(s.venue, s.seatHoldMap[id].seatsHold)
  }

  /** A service built on a fresh venue starts in the invariant. */
  lemma CreateEstablishesInv(row: int, column: int, seatHoldTimeOut: int)
    ensures Create(Some(Venues.Create(row, column)), seatHoldTimeOut).Success?
    ensures Inv(Create(Some(Venues.Create(row, column)), seatHoldTimeOut).value)
  {
  }

  /** Registering a hold `h` over seats that were OPEN, now HOLD, under the
      next hold id keeps the invariant. */
  lemma RegisterHoldKeepsInv(s: Service, t: Service, h: SeatHold)
    requires Inv(s)
    requires Valid(t.venue) && |t.venue.cells| == |s.venue.cells|
    requires AllInState(s.venue.cells, h.seatsHold, Open) && NoDup(h.seatsHold)
    requires t.venue.cells == Mark(s.venue.cells, Elems(h.seatsHold), Hold)
    requires h.seatHoldId == s.nextSeatHoldId && h.reservationId.None?
    requires t.seatHoldMap == s.seatHoldMap[s.nextSeatHoldId := h] && t.nextSeatHoldId == s.nextSeatHoldId + 1
    requires t.reservationsMap == s.reservationsMap && t.nextReservationId == s.nextReservationId
    ensures Inv(t)
  {
    RegisterHoldPending(s, t, h);
    RegisterHoldReservations(s, t, h);
    RegisterHoldDisjoint(s, t, h);
    RegisterHoldOwned(s, t, h);
  }

  /** The new hold owns the seats that turned HOLD; every other HOLD or
      RESERVED seat keeps its owner. */
  lemma RegisterHoldOwned(s: Service, t: Service, h: SeatHold)
    requires HeldOwned(s) && ReservedOwned(s) && PendingHoldsOk(s)
    requires |t.venue.cells| == |s.venue.cells|
    requires t.venue.cells == Mark(s.venue.cells, Elems(h.seatsHold), Hold)
    requires t.seatHoldMap == s.seatHoldMap[s.nextSeatHoldId := h]
    requires t.reservationsMap == s.reservationsMap
    ensures HeldOwned(t) && ReservedOwned(t)
  {
    forall i | 0 <= i < |t.venue.cells| && t.venue.cells[i].state == Hold
      ensures exists id :: id in t.seatHoldMap && i in t.seatHoldMap[id].seatsHold
    {
      if i in h.seatsHold {
        assert s.nextSeatHoldId in t.seatHoldMap && i in t.seatHoldMap[s.nextSeatHoldId].seatsHold;
      } else {
        assert s.venue.cells[i].state == Hold;
        var id :| id in s.seatHoldMap && i in s.seatHoldMap[id].seatsHold;
        assert PendingOk(s, id);
        assert id in t.seatHoldMap && t.seatHoldMap[id] == s.seatHoldMap[id];
      }
    }
    forall i | 0 <= i < |t.venue.cells| && t.venue.cells[i].state == Reserved
      ensures exists rid :: rid in t.reservationsMap && i in t.reservationsMap[rid].seatsHold
    {
      assert s.venue.cells[i].state == Reserved;
    }
  }

  lemma RegisterHoldPending(s: Service, t: Service, h: SeatHold)
    requires PendingHoldsOk(s)
    requires |t.venue.cells| == |s.venue.cells|
    requires AllInState(s.venue.cells, h.seatsHold, Open) && NoDup(h.seatsHold)
    requires t.venue.cells == Mark(s.venue.cells, Elems(h.seatsHold), Hold)
    requires h.seatHoldId == s.nextSeatHoldId && h.reservationId.None?
    requires t.seatHoldMap == s.seatHoldMap[s.nextSeatHoldId := h] && t.nextSeatHoldId == s.nextSeatHoldId + 1
    ensures PendingHoldsOk(t)
  {
  }

  lemma RegisterHoldReservations(s: Service, t: Service, h: SeatHold)
    requires ReservationsOk(s) && PendingHoldsOk(s)
    requires |t.venue.cells| == |s.venue.cells|
    requires AllInState(s.venue.cells, h.seatsHold, Open)
    requires t.venue.cells == Mark(s.venue.cells, Elems(h.seatsHold), Hold)
    requires t.seatHoldMap == s.seatHoldMap[s.nextSeatHoldId := h] && t.nextSeatHoldId == s.nextSeatHoldId + 1
    requires t.reservationsMap == s.reservationsMap && t.nextReservationId == s.nextReservationId
    ensures ReservationsOk(t) && ReservationsDistinct(t) == ReservationsDistinct(s)
  {
    forall rid | rid in t.reservationsMap
      ensures ReservedOk(t, rid)
    {
      assert ReservedOk(s, rid);
      var hr := s.reservationsMap[rid].seatsHold;
      forall k | 0 <= k < |hr|
        ensures t.venue.cells[hr[k]].state == Reserved
      {
        assert hr[k] !in h.seatsHold;
      }
    }
  }

  lemma RegisterHoldDisjoint(s: Service, t: Service, h: SeatHold)
    requires PendingDisjoint(s) && PendingHoldsOk(s)
    requires AllInState(s.venue.cells, h.seatsHold, Open)
    requires t.seatHoldMap == s.seatHoldMap[s.nextSeatHoldId := h]
    ensures PendingDisjoint(t)
  {
  }

  /** Every call of `findAndHoldSeats`, refused or not, keeps the invariant. */
  lemma FindAndHoldSeatsKeepsInv(s: Service, numSeats: int, customerEmail: string, validEmail: string -> bool, now: int)
    requires Inv(s)
    ensures Inv(FindAndHoldSeats(s, numSeats, customerEmail, validEmail, now).0)
  {
    var r := FindAndHoldSeats(s, numSeats, customerEmail, validEmail, now);
    if numSeats <= NumSeatsAvailable(s) && validEmail(customerEmail) {
      FindAndHoldSeatsHoldsFirstOpen(s, numSeats, customerEmail, validEmail, now);
      FirstOpenSeatsDistinct(s.venue.cells, r.1.value.seatsHold);
      RegisterHoldKeepsInv(s, r.0, r.1.value);
    }
  }

  // Confirming a hold.

  /** `reserveSeats`: refused (null, nothing changed) for an invalid email, an
      id with no pending hold, or a hold that belongs to another email.
      Otherwise the hold's seats go to RESERVED (on a failure the seats would
      be reopened, failures of that ignored), a fresh reservation id is stamped
      on the hold, and the hold moves from the pending registry to the
      reservation registry under that id. */
  function ReserveSeats(s: Service, seatHoldId: int, customerEmail: string, validEmail: string -> bool)
    : (r: (Service, Option<nat>))
    requires HoldsInVenue(s)
    ensures r.1.None? <==> !validEmail(customerEmail) || seatHoldId !in s.seatHoldMap
                           || s.seatHoldMap[seatHoldId].customerEmail != customerEmail
    ensures r.1.None? ==> r.0 == s
    ensures r.1.Some? ==>
              var h := s.seatHoldMap[seatHoldId];
              && r.1.value == s.nextReservationId
              && r.0.venue.cells == Mark(s.venue.cells, Elems(h.seatsHold), Reserved)
              && r.0.seatHoldMap == s.seatHoldMap - {seatHoldId}
              && r.0.reservationsMap == s.reservationsMap[r.1.value := SetReservationId(h, r.1.value)]
              && r.0.nextReservationId == s.nextReservationId + 1
              && r.0.nextSeatHoldId == s.nextSeatHoldId && r.0.seatHoldTimeOut == s.seatHoldTimeOut
              && SameShape(r.0.venue, s.venue) && (Valid(s.venue) ==> Valid(r.0.venue))
  {
    if !validEmail(customerEmail) then (s, None)
    else if seatHoldId !in s.seatHoldMap then (s, None)
    else
      var h := s.seatHoldMap[seatHoldId];
      if customerEmail != h.customerEmail then (s, None)
      else
        var v := ProcessSeatsOrReopen(s.venue, h.seatsHold, Reserved);
        var rid := s.nextReservationId;
        (s.(venue := v,
            reservationsMap := s.reservationsMap[rid := SetReservationId(h, rid)],
            seatHoldMap := s.seatHoldMap - {seatHoldId},
            nextReservationId := rid + 1),
         Some(rid))
  }

  lemma InvHoldsInVenue(s: Service)
    requires Inv(s)
    ensures HoldsInVenue(s)
  {
  }

  /** A successful confirmation of a hold of `k` seats lowers the HOLD counter
      by `k` and raises the RESERVED counter by `k`; the reservation id is
      fresh, and the hold id no longer confirms anything. */
  lemma ReserveSeatsMovesHeldToReserved(s: Service, seatHoldId: int, customerEmail: string, validEmail: string -> bool)
    requires Inv(s)
    ensures HoldsInVenue(s)
    ensures var r := ReserveSeats(s, seatHoldId, customerEmail, validEmail);
            r.1.Some? ==>
              var k := |s.seatHoldMap[seatHoldId].seatsHold|;
              && r.1.value !in s.reservationsMap
              && r.0.venue.openSeatCount == s.venue.openSeatCount
              && r.0.venue.heldSeatCount == s.venue.heldSeatCount - k
              && r.0.venue.reservedSeatCount == s.venue.reservedSeatCount + k
              && HoldsInVenue(r.0)
              && ReserveSeats(r.0, seatHoldId, customerEmail, validEmail).1.None?
  {
    InvHoldsInVenue(s);
    var r := ReserveSeats(s, seatHoldId, customerEmail, validEmail);
    if r.1.Some? {
      var h := s.seatHoldMap[seatHoldId];
      assert PendingOk(s, seatHoldId);
      if |h.seatsHold| > 0 {
        ProcessSeatsShiftsCounters(s.venue, h.seatsHold, Hold, Reserved);
      } else {
        assert Elems(h.seatsHold) == {};
        MarkNothing(s.venue.cells, Reserved);
      }
      forall rid | rid in s.reservationsMap
        ensures rid != r.1.value
      {
        assert ReservedOk(s, rid);
      }
      forall id | id in r.0.seatHoldMap
        ensures InVenue(r.0.venue, r.0.seatHoldMap[id].seatsHold)
      {
        assert PendingOk(s, id);
      }
    }
  }

  /** Every call of `reserveSeats`, refused or not, keeps the invariant. */
  lemma ReserveSeatsKeepsInv(s: Service, seatHoldId: int, customerEmail: string, validEmail: string -> bool)
    requires Inv(s)
    ensures HoldsInVenue(s)
    ensures Inv(ReserveSeats(s, seatHoldId, customerEmail, validEmail).0)
  {
    InvHoldsInVenue(s);
    var r := ReserveSeats(s, seatHoldId, customerEmail, validEmail);
    if r.1.Some? {
      var h := s.seatHoldMap[seatHoldId];
      assert PendingOk(s, seatHoldId);
      ConfirmPending(s, r.0, seatHoldId);
      ConfirmReservations(s, r.0, seatHoldId, r.1.value);
      ConfirmOwned(s, r.0, seatHoldId, r.1.value);
    }
  }

  /** The new reservation owns the seats that turned RESERVED; every other
      HOLD or RESERVED seat keeps its owner. */
  lemma ConfirmOwned(s: Service, t: Service, id: int, rid: nat)
    requires HeldOwned(s) && ReservedOwned(s) && ReservationsOk(s) && id in s.seatHoldMap
    requires t.venue.cells == Mark(s.venue.cells, Elems(s.seatHoldMap[id].seatsHold), Reserved)
    requires rid == s.nextReservationId
    requires t.seatHoldMap == s.seatHoldMap - {id}
    requires t.reservationsMap == s.reservationsMap[rid := SetReservationId(s.seatHoldMap[id], rid)]
    ensures HeldOwned(t) && ReservedOwned(t)
  {
    var seats := s.seatHoldMap[id].seatsHold;
    forall i | 0 <= i < |t.venue.cells| && t.venue.cells[i].state == Hold
      ensures exists id2 :: id2 in t.seatHoldMap && i in t.seatHoldMap[id2].seatsHold
    {
      assert i !in seats && s.venue.cells[i].state == Hold;
      var id2 :| id2 in s.seatHoldMap && i in s.seatHoldMap[id2].seatsHold;
      assert id2 in t.seatHoldMap && t.seatHoldMap[id2] == s.seatHoldMap[id2];
    }
    forall i | 0 <= i < |t.venue.cells| && t.venue.cells[i].state == Reserved
      ensures exists r1 :: r1 in t.reservationsMap && i in t.reservationsMap[r1].seatsHold
    {
      if i in seats {
        assert rid in t.reservationsMap && i in t.reservationsMap[rid].seatsHold;
      } else {
        assert s.venue.cells[i].state == Reserved;
        var r1 :| r1 in s.reservationsMap && i in s.reservationsMap[r1].seatsHold;
        assert ReservedOk(s, r1);
        assert r1 in t.reservationsMap && t.reservationsMap[r1] == s.reservationsMap[r1];
      }
    }
  }

  lemma ConfirmPending(s: Service, t: Service, id: int)
    requires PendingHoldsOk(s) && PendingDisjoint(s) && id in s.seatHoldMap
    requires t.venue.cells == Mark(s.venue.cells, Elems(s.seatHoldMap[id].seatsHold), Reserved)
    requires t.seatHoldMap == s.seatHoldMap - {id} && t.nextSeatHoldId == s.nextSeatHoldId
    requires NoProcessing(s.venue)
    ensures PendingHoldsOk(t) && PendingDisjoint(t) && NoProcessing(t.venue)
  {
  }

  lemma ConfirmReservations(s: Service, t: Service, id: int, rid: nat)
    requires Inv(s) && id in s.seatHoldMap
    requires t.venue.cells == Mark(s.venue.cells, Elems(s.seatHoldMap[id].seatsHold), Reserved)
    requires rid == s.nextReservationId
    requires t.seatHoldMap == s.seatHoldMap - {id} && t.nextSeatHoldId == s.nextSeatHoldId
    requires t.reservationsMap == s.reservationsMap[rid := SetReservationId(s.seatHoldMap[id], rid)]
    requires t.nextReservationId == rid + 1
    ensures ReservationsOk(t) && ReservationsDistinct(t)
  {
    var h := s.seatHoldMap[id];
    assert PendingOk(s, id);
    forall r1 | r1 in s.reservationsMap
      ensures r1 != rid && ReservedOk(s, r1) && s.reservationsMap[r1].seatHoldId != id
      ensures Disjoint(s.reservationsMap[r1].seatsHold, h.seatsHold)
      ensures Disjoint(h.seatsHold, s.reservationsMap[r1].seatsHold)
    {
      assert ReservedOk(s, r1);
    }
    ConfirmedStayReserved(s, t, id, rid);
  }

  lemma ConfirmedStayReserved(s: Service, t: Service, id: int, rid: nat)
    requires id in s.seatHoldMap && PendingOk(s, id)
    requires forall r1 | r1 in s.reservationsMap ::
               && r1 != rid && ReservedOk(s, r1) && s.reservationsMap[r1].seatHoldId != id
               && Disjoint(s.reservationsMap[r1].seatsHold, s.seatHoldMap[id].seatsHold)
    requires t.venue.cells == Mark(s.venue.cells, Elems(s.seatHoldMap[id].seatsHold), Reserved)
    requires rid == s.nextReservationId
    requires t.seatHoldMap == s.seatHoldMap - {id} && t.nextSeatHoldId == s.nextSeatHoldId
    requires t.reservationsMap == s.reservationsMap[rid := SetReservationId(s.seatHoldMap[id], rid)]
    requires t.nextReservationId == rid + 1
    ensures ReservationsOk(t)
  {
  }

  // The expiry sweep.

  predicate Expired(s: Service, h: SeatHold, now: int) {
    now - h.creationTS >= s.seatHoldTimeOut
  }

  /** One step of the sweep: a pending hold under `id` that is at least the
      timeout old has its seats reopened (failures ignored) and is dropped. */
  function ExpireHold(s: Service, id: int, now: int): (r: Service)
    requires HoldsInVenue(s)
    ensures HoldsInVenue(r)
    ensures r.reservationsMap == s.reservationsMap && r.seatHoldTimeOut == s.seatHoldTimeOut
    ensures r.nextSeatHoldId == s.nextSeatHoldId && r.nextReservationId == s.nextReservationId
    ensures SameShape(r.venue, s.venue) && (Valid(s.venue) ==> Valid(r.venue))
  {
    if id in s.seatHoldMap && Expired(s, s.seatHoldMap[id], now) then
      s.(venue := ProcessSeatsQuietly(s.venue, s.seatHoldMap[id].seatsHold, Open),
         seatHoldMap := s.seatHoldMap - {id})
    else s
  }

  /** The sweep over hold ids `id`, `id + 1`, …, below the next hold id. */
  function SweepFrom(s: Service, id: nat, now: int): (r: Service)
    requires HoldsInVenue(s)
    ensures HoldsInVenue(r)
    ensures r.reservationsMap == s.reservationsMap && r.seatHoldTimeOut == s.seatHoldTimeOut
    ensures r.nextSeatHoldId == s.nextSeatHoldId && r.nextReservationId == s.nextReservationId
    ensures SameShape(r.venue, s.venue) && (Valid(s.venue) ==> Valid(r.venue))
    decreases s.nextSeatHoldId - id
  {
    if id >= s.nextSeatHoldId then s else SweepFrom(ExpireHold(s, id, now), id + 1, now)
  }

  /** `collectExpiredSeatHolds`, with the clock reading passed in as `now`. It
      visits the hold ids below the next hold id, which under `Inv` are all
      the pending holds (see `CollectExpiredSeatHoldsSpec`). */
  function CollectExpiredSeatHolds(s: Service, now: int): (r: Service)
    requires HoldsInVenue(s)
    ensures r.reservationsMap == s.reservationsMap && r.seatHoldTimeOut == s.seatHoldTimeOut
    ensures r.nextSeatHoldId == s.nextSeatHoldId && r.nextReservationId == s.nextReservationId
    ensures HoldsInVenue(r) && SameShape(r.venue, s.venue) && (Valid(s.venue) ==> Valid(r.venue))
  {
    SweepFrom(s, 0, now)
  }

  /** The seats of the pending holds with id below `bound` that have expired. */
  ghost function ExpiredSeatsBelow(s: Service, now: int, bound: int): set<SeatRef> {
    set id, x | id in s.seatHoldMap && id < bound && Expired(s, s.seatHoldMap[id], now) && x in s.seatHoldMap[id].seatsHold :: x
  }

  lemma ExpiredSeatsBelowHas(s: Service, now: int, bound: int, id: int, x: SeatRef)
    requires id in s.seatHoldMap && id < bound && x in s.seatHoldMap[id].seatsHold
    ensures Expired(s, s.seatHoldMap[id], now) ==> x in ExpiredSeatsBelow(s, now, bound)
  {
  }

  /** What the sweep has done once it has visited the hold ids below `id`:
      exactly the expired holds among them are gone, the others are untouched,
      and exactly the seats of the dropped holds have been reopened. */
  ghost predicate SweptBelow(s0: Service, t: Service, id: nat, now: int) {
    && HoldsInVenue(s0) && HoldsInVenue(t)
    && t.nextSeatHoldId == s0.nextSeatHoldId && t.seatHoldTimeOut == s0.seatHoldTimeOut
    && (forall j :: j in t.seatHoldMap <==> j in s0.seatHoldMap && (j >= id || !Expired(s0, s0.seatHoldMap[j], now)))
    && (forall j :: j in t.seatHoldMap ==> t.seatHoldMap[j] == s0.seatHoldMap[j])
    && t.venue.cells == Mark(s0.venue.cells, ExpiredSeatsBelow(s0, now, id), Open)
  }

  /** Visiting hold id `id` extends what has been swept by that one id. */
  lemma SweepStep(s0: Service, t: Service, id: nat, now: int)
    requires SweptBelow(s0, t, id, now)
    ensures SweptBelow(s0, ExpireHold(t, id, now), id + 1, now)
  {
    if id in s0.seatHoldMap && Expired(s0, s0.seatHoldMap[id], now) {
      SweepStepExpired(s0, t, id, now);
    } else {
      ExpiredSeatsStay(s0, now, id);
      assert ExpireHold(t, id, now) == t;
    }
  }

  /** The step of `SweepStep` where hold `id` has expired and is released. */
  lemma SweepStepExpired(s0: Service, t: Service, id: nat, now: int)
    requires SweptBelow(s0, t, id, now)
    requires id in s0.seatHoldMap && Expired(s0, s0.seatHoldMap[id], now)
    ensures SweptBelow(s0, ExpireHold(t, id, now), id + 1, now)
  {
    SweepStepCells(s0, t, id, now);
    SweepStepHolds(s0, t, id, now);
  }

  lemma SweepStepCells(s0: Service, t: Service, id: nat, now: int)
    requires SweptBelow(s0, t, id, now)
    requires id in s0.seatHoldMap && Expired(s0, s0.seatHoldMap[id], now)
    ensures ExpireHold(t, id, now).venue.cells == Mark(s0.venue.cells, ExpiredSeatsBelow(s0, now, id + 1), Open)
  {
    assert id in t.seatHoldMap && t.seatHoldMap[id] == s0.seatHoldMap[id];
    var seats := s0.seatHoldMap[id].seatsHold;
    assert ExpireHold(t, id, now).venue.cells == Mark(t.venue.cells, Elems(seats), Open);
    ExpiredSeatsGrow(s0, now, id);
    MarkCompose(s0.venue.cells, ExpiredSeatsBelow(s0, now, id), Elems(seats), Open);
  }

  lemma SweepStepHolds(s0: Service, t: Service, id: nat, now: int)
    requires SweptBelow(s0, t, id, now)
    requires id in s0.seatHoldMap && Expired(s0, s0.seatHoldMap[id], now)
    ensures ExpireHold(t, id, now).seatHoldMap == t.seatHoldMap - {id}
    ensures forall j :: j in ExpireHold(t, id, now).seatHoldMap <==>
      j in s0.seatHoldMap && (j >= id + 1 || !Expired(s0, s0.seatHoldMap[j], now))
  {
    assert id in t.seatHoldMap && t.seatHoldMap[id] == s0.seatHoldMap[id];
    var m := ExpireHold(t, id, now).seatHoldMap;
    assert m == t.seatHoldMap - {id};
    forall j
      ensures j in m <==> j in s0.seatHoldMap && (j >= id + 1 || !Expired(s0, s0.seatHoldMap[j], now))
    {
      assert j in m <==> j != id && j in t.seatHoldMap;
    }
  }

  lemma ExpiredSeatsGrow(s0: Service, now: int, id: int)
    requires id in s0.seatHoldMap && Expired(s0, s0.seatHoldMap[id], now)
    ensures ExpiredSeatsBelow(s0, now, id + 1) == ExpiredSeatsBelow(s0, now, id) + Elems(s0.seatHoldMap[id].seatsHold)
  {
  }

  lemma ExpiredSeatsStay(s0: Service, now: int, id: int)
    requires !(id in s0.seatHoldMap && Expired(s0, s0.seatHoldMap[id], now))
    ensures ExpiredSeatsBelow(s0, now, id + 1) == ExpiredSeatsBelow(s0, now, id)
  {
  }

  /** Finishing the sweep from `id` leaves every id below the next hold id
      swept. */
  lemma {:induction false} SweepFromSpec(s0: Service, t: Service, id: nat, now: int)
    requires SweptBelow(s0, t, id, now)
    requires id <= t.nextSeatHoldId
    ensures SweptBelow(s0, SweepFrom(t, id, now), s0.nextSeatHoldId, now)
    decreases t.nextSeatHoldId - id
  {
    if id < t.nextSeatHoldId {
      SweepStep(s0, t, id, now);
      SweepFromSpec(s0, ExpireHold(t, id, now), id + 1, now);
    }
  }

  /** The sweep drops exactly the pending holds that are at least the timeout
      old and reopens exactly their seats; younger holds keep their seats in
      HOLD, and reservations are untouched. */
  lemma CollectExpiredSeatHoldsSpec(s: Service, now: int)
    requires Inv(s)
    ensures HoldsInVenue(s)
    ensures var r := CollectExpiredSeatHolds(s, now);
            && (forall j :: j in r.seatHoldMap <==> j in s.seatHoldMap && !Expired(s, s.seatHoldMap[j], now))
            && (forall j :: j in r.seatHoldMap ==> r.seatHoldMap[j] == s.seatHoldMap[j])
            && r.venue.cells == Mark(s.venue.cells, ExpiredSeatsBelow(s, now, s.nextSeatHoldId), Open)
            && r.reservationsMap == s.reservationsMap
  {
    InvHoldsInVenue(s);
    forall j | j in s.seatHoldMap
      ensures 0 <= j < s.nextSeatHoldId
    {
      assert PendingOk(s, j);
    }
    assert ExpiredSeatsBelow(s, now, 0) == {};
    MarkNothing(s.venue.cells, Open);
    SweepFromSpec(s, s, 0, now);
  }

  /** The seats of an expired hold are all OPEN after the sweep, those of a
      surviving hold are still HOLD. */
  lemma CollectExpiredSeatHoldsReopens(s: Service, now: int, id: int)
    requires Inv(s) && id in s.seatHoldMap
    ensures HoldsInVenue(s)
    ensures var r := CollectExpiredSeatHolds(s, now);
            var seats := s.seatHoldMap[id].seatsHold;
            && (Expired(s, s.seatHoldMap[id], now) ==> AllInState(r.venue.cells, seats, Open))
            && (!Expired(s, s.seatHoldMap[id], now) ==> AllInState(r.venue.cells, seats, Hold))
  {
    CollectExpiredSeatHoldsSpec(s, now);
    var r := CollectExpiredSeatHolds(s, now);
    var e := ExpiredSeatsBelow(s, now, s.nextSeatHoldId);
    var seats := s.seatHoldMap[id].seatsHold;
    assert PendingOk(s, id);
    if Expired(s, s.seatHoldMap[id], now) {
      forall k | 0 <= k < |seats|
        ensures r.venue.cells[seats[k]].state == Open
      {
        ExpiredSeatsBelowHas(s, now, s.nextSeatHoldId, id, seats[k]);
      }
    } else {
      SurvivorUntouched(s, now, id);
      forall k | 0 <= k < |seats|
        ensures r.venue.cells[seats[k]] == s.venue.cells[seats[k]]
      {
        assert seats[k] !in e;
      }
    }
  }

  lemma SurvivorUntouched(s: Service, now: int, id: int)
    requires Inv(s) && id in s.seatHoldMap && !Expired(s, s.seatHoldMap[id], now)
    ensures forall k :: 0 <= k < |s.seatHoldMap[id].seatsHold| ==> s.seatHoldMap[id].seatsHold[k] !in ExpiredSeatsBelow(s, now, s.nextSeatHoldId)
  {
  }

  /** The sweep keeps the invariant. */
  lemma CollectExpiredSeatHoldsKeepsInv(s: Service, now: int)
    requires Inv(s)
    ensures HoldsInVenue(s)
    ensures Inv(CollectExpiredSeatHolds(s, now))
  {
    CollectExpiredSeatHoldsSpec(s, now);
    SweepKeepsPending(s, now);
    SweepKeepsReservations(s, now);
    SweepKeepsOwned(s, now);
  }

  /** A seat left HOLD by the sweep belongs to a surviving hold, and a
      RESERVED seat keeps its reservation. */
  lemma SweepKeepsOwned(s: Service, now: int)
    requires Inv(s)
    ensures HoldsInVenue(s)
    ensures HeldOwned(CollectExpiredSeatHolds(s, now)) && ReservedOwned(CollectExpiredSeatHolds(s, now))
  {
    CollectExpiredSeatHoldsSpec(s, now);
    var r := CollectExpiredSeatHolds(s, now);
    SweepKeepsHeldOwned(s, now);
    forall i | 0 <= i < |r.venue.cells| && r.venue.cells[i].state == Reserved
      ensures exists rid :: rid in r.reservationsMap && i in r.reservationsMap[rid].seatsHold
    {
      assert s.venue.cells[i].state == Reserved;
    }
  }

  lemma SweepKeepsHeldOwned(s: Service, now: int)
    requires Inv(s)
    ensures HoldsInVenue(s)
    ensures HeldOwned(CollectExpiredSeatHolds(s, now))
  {
    CollectExpiredSeatHoldsSpec(s, now);
    var r := CollectExpiredSeatHolds(s, now);
    forall i | 0 <= i < |r.venue.cells| && r.venue.cells[i].state == Hold
      ensures exists id :: id in r.seatHoldMap && i in r.seatHoldMap[id].seatsHold
    {
      assert s.venue.cells[i].state == Hold;
      var id :| id in s.seatHoldMap && i in s.seatHoldMap[id].seatsHold;
      assert PendingOk(s, id);
      ExpiredSeatsBelowHas(s, now, s.nextSeatHoldId, id, i);
      assert id in r.seatHoldMap && r.seatHoldMap[id] == s.seatHoldMap[id];
    }
  }

  lemma SweepKeepsPending(s: Service, now: int)
    requires Inv(s)
    ensures HoldsInVenue(s)
    ensures PendingHoldsOk(CollectExpiredSeatHolds(s, now))
  {
    CollectExpiredSeatHoldsSpec(s, now);
    var r := CollectExpiredSeatHolds(s, now);
    forall j | j in r.seatHoldMap
      ensures PendingOk(r, j)
    {
      assert PendingOk(s, j);
      SurvivorUntouched(s, now, j);
    }
  }

  lemma SweepKeepsReservations(s: Service, now: int)
    requires Inv(s)
    ensures HoldsInVenue(s)
    ensures ReservationsOk(CollectExpiredSeatHolds(s, now))
  {
    CollectExpiredSeatHoldsSpec(s, now);
    var r := CollectExpiredSeatHolds(s, now);
    forall rid | rid in r.reservationsMap
      ensures ReservedOk(r, rid)
    {
      ReservedSeatsNotSwept(s, now, rid);
    }
  }

  /** No reserved seat belongs to a pending hold, so the sweep leaves it alone. */
  lemma ReservedSeatsNotSwept(s: Service, now: int, rid: nat)
    requires Inv(s) && rid in s.reservationsMap
    ensures forall k :: 0 <= k < |s.reservationsMap[rid].seatsHold| ==>
              s.reservationsMap[rid].seatsHold[k] !in ExpiredSeatsBelow(s, now, s.nextSeatHoldId)
  {
  }

  /** Once the sweep has dropped a hold, confirming it is refused. */
  lemma SweptHoldCannotBeReserved(s: Service, now: int, seatHoldId: int, customerEmail: string, validEmail: string -> bool)
    requires Inv(s) && seatHoldId in s.seatHoldMap && Expired(s, s.seatHoldMap[seatHoldId], now)
    ensures HoldsInVenue(s)
    ensures var r := CollectExpiredSeatHolds(s, now);
            HoldsInVenue(r) && ReserveSeats(r, seatHoldId, customerEmail, validEmail) == (r, None)
  {
    CollectExpiredSeatHoldsSpec(s, now);
  }

  // Any sequence of calls.

  /** One call of `findAndHoldSeats`, `reserveSeats` or
      `collectExpiredSeatHolds`, as a value. The public `findBestSeat` is not
      among them: called from outside it breaks the invariant
      (`BestSeatStrands`). */
  datatype Call =
    | FindAndHold(numSeats: int, customerEmail: string, now: int)
    | Reserve(seatHoldId: int, customerEmail: string)
    | CollectExpired(now: int)

  function Perform(s: Service, call: Call, validEmail: string -> bool): (r: Service)
    requires Inv(s)
    ensures Inv(r)
    ensures r.nextSeatHoldId >= s.nextSeatHoldId && r.nextReservationId >= s.nextReservationId
  {
    match call
    case FindAndHold(n, e, now) =>
      FindAndHoldSeatsKeepsInv(s, n, e, validEmail, now);
      FindAndHoldSeats(s, n, e, validEmail, now).0
    case Reserve(id, e) =>
      ReserveSeatsKeepsInv(s, id, e, validEmail);
      ReserveSeats(s, id, e, validEmail).0
    case CollectExpired(now) =>
      CollectExpiredSeatHoldsKeepsInv(s, now);
      CollectExpiredSeatHolds(s, now)
  }

  /** The calls in order. Every state reached keeps the invariant: no seat is
      left PROCESSING, pending holds are HOLD and disjoint, confirmed holds are
      RESERVED, every HOLD or RESERVED seat belongs to one hold, and the id
      counters never go back. */
  function Run(s: Service, calls: seq<Call>, validEmail: string -> bool): (r: Service)
    requires Inv(s)
    ensures Inv(r)
    ensures r.nextSeatHoldId >= s.nextSeatHoldId && r.nextReservationId >= s.nextReservationId
    decreases |calls|
  {
    if |calls| == 0 then s else Run(Perform(s, calls[0], validEmail), calls[1..], validEmail)
  }

  /** From a fresh venue, the invariant holds after any sequence of
      `findAndHoldSeats`, `reserveSeats` and `collectExpiredSeatHolds` calls. */
  lemma InvariantAlwaysHolds(row: int, column: int, seatHoldTimeOut: int, calls: seq<Call>, validEmail: string -> bool)
    ensures Create(Some(Venues.Create(row, column)), seatHoldTimeOut).Success?
    ensures var s := Create(Some(Venues.Create(row, column)), seatHoldTimeOut).value;
            Inv(s) && Inv(Run(s, calls, validEmail))
  {
    CreateEstablishesInv(row, column, seatHoldTimeOut);
  }

  // findBestSeat called from outside the service.

  /** The public `findBestSeat` on the service: the first OPEN seat moves to
      PROCESSING and is returned, but no hold records it. Nothing else in the
      service changes; with no OPEN seat nothing changes at all. */
  function ServiceFindBestSeat(s: Service): (r: (Service, Option<SeatRef>))
    ensures r.0.seatHoldMap == s.seatHoldMap && r.0.reservationsMap == s.reservationsMap
    ensures r.0.nextSeatHoldId == s.nextSeatHoldId && r.0.nextReservationId == s.nextReservationId
    ensures r.0.seatHoldTimeOut == s.seatHoldTimeOut
    ensures r.1.None? ==> r.0 == s
    ensures SameShape(r.0.venue, s.venue)
    ensures r.1.Some? ==> r.1.value < |s.venue.cells| && s.venue.cells[r.1.value].state == Open
                          && r.0.venue.cells[r.1.value].state == Processing
    ensures Inv(s) && r.1.Some? ==> !Inv(r.0)
  {
    var (w, m) := FindBestSeat(s.venue);
    (s.(venue := w), m)
  }

  /** With no hold pending, one outside call of `findBestSeat` strands a seat:
      it is PROCESSING and owned by no hold, so it is counted as neither
      available nor held, the service leaves its invariant, and the sweep
      never reopens the seat. When it was the last OPEN seat, no hold can be
      made any more. */
  lemma BestSeatStrands(s: Service, now: int, customerEmail: string, validEmail: string -> bool)
    requires Valid(s.venue) && s.seatHoldMap == map[] && NumSeatsAvailable(s) > 0
    ensures var (t, m) := ServiceFindBestSeat(s);
            && m.Some? && m.value < |t.venue.cells| && !Inv(t)
            && t.venue.cells[m.value].state == Processing && t.seatHoldMap == map[]
            && NumSeatsAvailable(t) == NumSeatsAvailable(s) - 1
            && t.venue.heldSeatCount == s.venue.heldSeatCount
            && CollectExpiredSeatHolds(t, now).venue.cells[m.value].state == Processing
            && (NumSeatsAvailable(s) == 1 ==> FindAndHoldSeats(t, 1, customerEmail, validEmail, now).1.None?)
  {
    FindBestSeatCounts(s.venue);
    var t := ServiceFindBestSeat(s).0;
    SweepNoHolds(t, 0, now);
  }

  /** With no hold pending, the sweep changes nothing. */
  lemma {:induction false} SweepNoHolds(s: Service, id: nat, now: int)
    requires s.seatHoldMap == map[]
    ensures SweepFrom(s, id, now) == s
    decreases s.nextSeatHoldId - id
  {
    if id < s.nextSeatHoldId {
      assert ExpireHold(s, id, now) == s;
      SweepNoHolds(s, id + 1, now);
    }
  }

  /** A fresh 1 x 1 venue, which starts in the invariant by
      `CreateEstablishesInv`, meets `BestSeatStrands` with its last OPEN
      seat: after one outside `findBestSeat`, seat 0 is stranded for good. */
  lemma DirectBestSeatStrandsSeat(s: Service, seatHoldTimeOut: int, now: int, customerEmail: string, validEmail: string -> bool)
    requires Create(Some(Venues.Create(1, 1)), seatHoldTimeOut) == Success(s)
    ensures s.venue.cells == [Seat(1, 1, Open)] && ServiceFindBestSeat(s).1 == Some(0)
    ensures var t := ServiceFindBestSeat(s).0;
            && !Inv(t) && t.venue.cells[0].state == Processing
            && NumSeatsAvailable(t) == 0 && t.venue.heldSeatCount == 0
            && CollectExpiredSeatHolds(t, now).venue.cells[0].state == Processing
            && FindAndHoldSeats(t, 1, customerEmail, validEmail, now).1.None?
  {
    Venues.CreateOneByOne();
    BestSeatStrands(s, now, customerEmail, validEmail);
  }

  /** Every pending hold id was issued, i.e. lies below the next hold id. */
  predicate IdsIssued(s: Service) {
    forall id :: id in s.seatHoldMap ==> id < s.nextSeatHoldId
  }

  /** One successful hold of `n >= 0` seats moves `n` seats from OPEN to HOLD
      and registers a hold of `n` seats for the customer under the next hold
      id, keeping every pending hold already registered. */
  lemma HoldLowersAvailable(s: Service, n: nat, customerEmail: string, validEmail: string -> bool, now: int)
    requires Valid(s.venue) && IdsIssued(s) && n <= NumSeatsAvailable(s) && validEmail(customerEmail)
    ensures var r := FindAndHoldSeats(s, n, customerEmail, validEmail, now).0;
            && Valid(r.venue) && IdsIssued(r)
            && NumSeatsAvailable(r) == NumSeatsAvailable(s) - n
            && r.venue.heldSeatCount == s.venue.heldSeatCount + n
            && r.venue.reservedSeatCount == s.venue.reservedSeatCount
            && r.nextSeatHoldId == s.nextSeatHoldId + 1
            && Keeps(s.seatHoldMap, r.seatHoldMap)
            && s.nextSeatHoldId in r.seatHoldMap
            && |r.seatHoldMap[s.nextSeatHoldId].seatsHold| == n
            && r.seatHoldMap[s.nextSeatHoldId].customerEmail == customerEmail
  {
    FindAndHoldSeatsHoldsFirstOpen(s, n, customerEmail, validEmail, now);
  }

  /** The arguments of one `findAndHoldSeats` call. */
  datatype Request = Request(numSeats: nat, customerEmail: string)

  /** The seats asked for by all of `reqs`. */
  function Asked(reqs: seq<Request>): nat {
    if |reqs| == 0 then 0 else reqs[0].numSeats + Asked(reqs[1..])
  }

  /** Requests split anywhere ask for as many seats as they do together. */
  lemma {:induction false} AskedPrefix(reqs: seq<Request>, j: nat)
    requires j <= |reqs|
    ensures Asked(reqs) == Asked(reqs[..j]) + Asked(reqs[j..])
    decreases j
  {
    if j > 0 {
      AskedPrefix(reqs[1..], j - 1);
      assert reqs[..j][1..] == reqs[1..][..j - 1];
      assert reqs[1..][j - 1..] == reqs[j..];
    } else {
      assert reqs[j..] == reqs;
    }
  }

  predicate AllValid(reqs: seq<Request>, validEmail: string -> bool) {
    forall k :: 0 <= k < |reqs| ==> validEmail(reqs[k].customerEmail)
  }

  /** `findAndHoldSeats` for each request of `reqs`, in order. */
  function HoldAll(s: Service, reqs: seq<Request>, validEmail: string -> bool, now: int): Service
    decreases |reqs|
  {
    if |reqs| == 0 then s
    else
      var t := FindAndHoldSeats(s, reqs[0].numSeats, reqs[0].customerEmail, validEmail, now).0;
      HoldAll(t, reqs[1..], validEmail, now)
  }

  /** The holds `base`, `base + 1`, … are registered in `m` with the counts
      and emails of `reqs`. */
  predicate Registered(m: map<int, SeatHold>, base: int, reqs: seq<Request>)
    decreases |reqs|
  {
    |reqs| == 0 ||
      (&& base in m && |m[base].seatsHold| == reqs[0].numSeats && m[base].customerEmail == reqs[0].customerEmail
       && Registered(m, base + 1, reqs[1..]))
  }

  /** While the requests ask for at most the OPEN seats, all with valid
      emails, every hold succeeds: the holds get the next hold ids in order,
      each with its own count and email, and the seats asked for move from
      OPEN to HOLD. */
  lemma {:induction false} HoldAllSpec(s: Service, reqs: seq<Request>, validEmail: string -> bool, now: int)
    requires Valid(s.venue) && IdsIssued(s) && Asked(reqs) <= NumSeatsAvailable(s)
    requires AllValid(reqs, validEmail)
    ensures var r := HoldAll(s, reqs, validEmail, now);
            && Valid(r.venue) && IdsIssued(r)
            && r.venue.openSeatCount == s.venue.openSeatCount - Asked(reqs)
            && r.venue.heldSeatCount == s.venue.heldSeatCount + Asked(reqs)
            && r.venue.reservedSeatCount == s.venue.reservedSeatCount
            && r.nextSeatHoldId == s.nextSeatHoldId + |reqs|
            && Keeps(s.seatHoldMap, r.seatHoldMap)
            && Registered(r.seatHoldMap, s.nextSeatHoldId, reqs)
    decreases |reqs|
  {
    if |reqs| > 0 {
      HoldLowersAvailable(s, reqs[0].numSeats, reqs[0].customerEmail, validEmail, now);
      var t := FindAndHoldSeats(s, reqs[0].numSeats, reqs[0].customerEmail, validEmail, now).0;
      HoldAllSpec(t, reqs[1..], validEmail, now);
    }
  }

  lemma {:induction false} HoldAllKeepsInv(s: Service, reqs: seq<Request>, validEmail: string -> bool, now: int)
    requires Inv(s)
    ensures Inv(HoldAll(s, reqs, validEmail, now))
    decreases |reqs|
  {
    if |reqs| > 0 {
      FindAndHoldSeatsKeepsInv(s, reqs[0].numSeats, reqs[0].customerEmail, validEmail, now);
      var t := FindAndHoldSeats(s, reqs[0].numSeats, reqs[0].customerEmail, validEmail, now).0;
      HoldAllKeepsInv(t, reqs[1..], validEmail, now);
    }
  }

  /** Every entry of `m` is still in `m'`, unchanged. */
  predicate Keeps(m: map<int, SeatHold>, m': map<int, SeatHold>) {
    forall id :: id in m ==> id in m' && m'[id] == m[id]
  }

  /** Confirming a pending hold of the same customer succeeds, keeps the
      invariant and moves its seats from HOLD to RESERVED. */
  lemma ReserveConfirms(s: Service, seatHoldId: int, customerEmail: string, validEmail: string -> bool)
    requires Inv(s) && validEmail(customerEmail)
    requires seatHoldId in s.seatHoldMap && s.seatHoldMap[seatHoldId].customerEmail == customerEmail
    ensures HoldsInVenue(s)
    ensures var (r, rid) := ReserveSeats(s, seatHoldId, customerEmail, validEmail);
            var k := |s.seatHoldMap[seatHoldId].seatsHold|;
            && rid.Some? && Inv(r)
            && r.venue.openSeatCount == s.venue.openSeatCount
            && r.venue.heldSeatCount == s.venue.heldSeatCount - k
            && r.venue.reservedSeatCount == s.venue.reservedSeatCount + k
            && r.seatHoldMap == s.seatHoldMap - {seatHoldId}
  {
    ReserveSeatsMovesHeldToReserved(s, seatHoldId, customerEmail, validEmail);
    ReserveSeatsKeepsInv(s, seatHoldId, customerEmail, validEmail);
  }

  /** `reserveSeats` for each hold id of `ids`, in order, with the ids it returns. */
  function ReserveAll(s: Service, ids: seq<int>, customerEmail: string, validEmail: string -> bool): (r: (Service, seq<Option<nat>>))
    requires HoldsInVenue(s)
    ensures HoldsInVenue(r.0) && |r.1| == |ids|
    decreases |ids|
  {
    if |ids| == 0 then (s, [])
    else
      var (t, rid) := ReserveSeats(s, ids[0], customerEmail, validEmail);
      var (u, rids) := ReserveAll(t, ids[1..], customerEmail, validEmail);
      (u, [rid] + rids)
  }

  /** `ids` are distinct hold ids, each pending in `m` for the customer. */
  predicate PendingFor(m: map<int, SeatHold>, ids: seq<int>, customerEmail: string)
    decreases |ids|
  {
    |ids| == 0 ||
      (&& ids[0] in m && m[ids[0]].customerEmail == customerEmail && ids[0] !in ids[1..]
       && PendingFor(m, ids[1..], customerEmail))
  }

  /** The total number of seats of the pending holds `ids`. */
  function HeldSum(m: map<int, SeatHold>, ids: seq<int>): nat
    decreases |ids|
  {
    if |ids| == 0 then 0 else (if ids[0] in m then |m[ids[0]].seatsHold| else 0) + HeldSum(m, ids[1..])
  }

  /** Dropping a hold that is not among `ids` changes neither the pending
      status nor the seat total of `ids`. */
  lemma {:induction false} PendingForFrame(m: map<int, SeatHold>, id: int, ids: seq<int>, customerEmail: string)
    requires PendingFor(m, ids, customerEmail) && id !in ids
    ensures PendingFor(m - {id}, ids, customerEmail)
    ensures HeldSum(m - {id}, ids) == HeldSum(m, ids)
    decreases |ids|
  {
    if |ids| > 0 {
      assert id !in ids[1..];
      PendingForFrame(m, id, ids[1..], customerEmail);
    }
  }

  /** Confirming distinct pending holds of one customer, one after the other:
      each confirmation succeeds, and the seats of all of them move from HOLD
      to RESERVED. */
  lemma {:induction false} ReserveAllSpec(s: Service, ids: seq<int>, customerEmail: string, validEmail: string -> bool)
    requires Inv(s) && validEmail(customerEmail) && PendingFor(s.seatHoldMap, ids, customerEmail)
    ensures HoldsInVenue(s)
    ensures var (r, rids) := ReserveAll(s, ids, customerEmail, validEmail);
            && Inv(r) && None !in rids
            && r.venue.openSeatCount == s.venue.openSeatCount
            && r.venue.heldSeatCount == s.venue.heldSeatCount - HeldSum(s.seatHoldMap, ids)
            && r.venue.reservedSeatCount == s.venue.reservedSeatCount + HeldSum(s.seatHoldMap, ids)
    decreases |ids|
  {
    InvHoldsInVenue(s);
    if |ids| > 0 {
      ReserveConfirms(s, ids[0], customerEmail, validEmail);
      var t := ReserveSeats(s, ids[0], customerEmail, validEmail).0;
      PendingForFrame(s.seatHoldMap, ids[0], ids[1..], customerEmail);
      ReserveAllSpec(t, ids[1..], customerEmail, validEmail);
    }
  }

  /** The OPEN count after a run of holds that all succeed. */
  lemma HoldAllAvailable(s: Service, reqs: seq<Request>, validEmail: string -> bool, now: int)
    requires Valid(s.venue) && IdsIssued(s) && Asked(reqs) <= NumSeatsAvailable(s)
    requires AllValid(reqs, validEmail)
    ensures NumSeatsAvailable(HoldAll(s, reqs, validEmail, now)) == NumSeatsAvailable(s) - Asked(reqs)
  {
    HoldAllSpec(s, reqs, validEmail, now);
  }

  /** Every prefix of a batch of holds that fits leaves the seats it asked
      for taken. */
  lemma HoldAllPrefix(s: Service, reqs: seq<Request>, j: nat, validEmail: string -> bool, now: int)
    requires Valid(s.venue) && IdsIssued(s) && Asked(reqs) <= NumSeatsAvailable(s)
    requires AllValid(reqs, validEmail) && j <= |reqs|
    ensures NumSeatsAvailable(HoldAll(s, reqs[..j], validEmail, now)) == NumSeatsAvailable(s) - Asked(reqs[..j])
  {
    AskedPrefix(reqs, j);
    HoldAllAvailable(s, reqs[..j], validEmail, now);
  }

  /** A service on a fresh venue satisfies the invariant, has no pending
      hold, and has every seat of the clamped grid available. */
  lemma FreshService(row: int, column: int, seatHoldTimeOut: int)
    ensures var r := Create(Some(Venues.Create(row, column)), seatHoldTimeOut);
            && r.Success? && Inv(r.value) && r.value.seatHoldMap == map[]
            && NumSeatsAvailable(r.value) == (if row <= 0 then 1 else row) * (if column <= 0 then 1 else column)
  {
    CreateEstablishesInv(row, column, seatHoldTimeOut);
  }

  /** Holding 2, 5, 2 and 6 seats for four customers, starting from 16
      available seats (a fresh 4 × 4 venue, by `FreshService`): after the
      first j holds, 14, 9, 7 and then 1 seat are left, as in the service
      tests. */
  lemma HoldingScenario(s0: Service, validEmail: string -> bool)
    requires Valid(s0.venue) && NumSeatsAvailable(s0) == 16 && s0.seatHoldMap == map[]
    requires AllValid(FourHolds(), validEmail)
    ensures forall j :: 0 <= j <= 4 ==> NumSeatsAvailable(HoldAll(s0, FourHolds()[..j], validEmail, 0)) == SeatsLeft()[j]
  {
    var reqs := FourHolds();
    assert Asked(reqs) == 15;
    forall j | 0 <= j <= 4
      ensures NumSeatsAvailable(HoldAll(s0, reqs[..j], validEmail, 0)) == SeatsLeft()[j]
    {
      HoldAllPrefix(s0, reqs, j, validEmail, 0);
      FourHoldsAsk(j);
    }
  }

  /** The available counts the service tests expect after each hold. */
  function SeatsLeft(): seq<int> {
    [16, 14, 9, 7, 1]
  }

  lemma FourHoldsAsk(j: nat)
    requires j <= 4
    ensures Asked(FourHolds()[..j]) == 16 - SeatsLeft()[j]
  {
    var reqs := FourHolds();
    if j == 0 {
      assert reqs[..0] == [];
    } else if j == 1 {
      assert reqs[..1] == [reqs[0]];
    } else if j == 2 {
      assert reqs[..2] == [reqs[0], reqs[1]] && reqs[..2][1..] == [reqs[1]];
      assert Asked([reqs[1]]) == 5;
    } else if j == 3 {
      AskedPrefix(reqs, 3);
      assert reqs[3..] == [reqs[3]];
      assert Asked(reqs) == 15;
    } else {
      assert reqs[..4] == reqs;
    }
  }

  function FourHolds(): seq<Request> {
    [Request(2, "abcd@gmail.com"), Request(5, "efgh@gmail.com"), Request(2, "ijkl@gmail.com"), Request(6, "mnop@gmail.com")]
  }

  /** Five holds of 3, 6, 4, 8 and 4 seats for one customer fill a 5 × 5
      venue; confirming the second moves its 6 seats to RESERVED, and
      confirming the other four moves all 25 there, as in the service tests. */
  lemma ReservingScenario(s0: Service, validEmail: string -> bool)
    requires Inv(s0) && s0.seatHoldMap == map[] && s0.nextSeatHoldId == 0
    requires s0.venue.openSeatCount == 25 && s0.venue.heldSeatCount == 0 && s0.venue.reservedSeatCount == 0
    requires validEmail(Customer)
    ensures var s5 := HoldAll(s0, FiveHolds(), validEmail, 0);
            && s5.venue.openSeatCount == 0 && s5.venue.heldSeatCount == 25 && s5.venue.reservedSeatCount == 0
            && HoldsInVenue(s5)
            && var (t1, rids1) := ReserveAll(s5, [1], Customer, validEmail);
            && None !in rids1
            && t1.venue.openSeatCount == 0 && t1.venue.heldSeatCount == 19 && t1.venue.reservedSeatCount == 6
            && var (t5, rids2) := ReserveAll(t1, [0, 2, 3, 4], Customer, validEmail);
            && None !in rids2
            && t5.venue.openSeatCount == 0 && t5.venue.heldSeatCount == 0 && t5.venue.reservedSeatCount == 25
  {
    var s5 := HoldFive(s0, validEmail);
    var t1 := ReserveSecond(s5, validEmail);
    ReserveAllSpec(t1, [0, 2, 3, 4], Customer, validEmail);
  }

  const Customer: string := "anupam.gupta@gmail.com"

  function FiveHolds(): seq<Request> {
    [Request(3, Customer), Request(6, Customer), Request(4, Customer), Request(8, Customer), Request(4, Customer)]
  }

  lemma {:induction false} RegisteredAt(m: map<int, SeatHold>, base: int, reqs: seq<Request>, k: nat)
    requires Registered(m, base, reqs) && k < |reqs|
    ensures base + k in m && |m[base + k].seatsHold| == reqs[k].numSeats && m[base + k].customerEmail == reqs[k].customerEmail
    decreases k
  {
    if k > 0 {
      RegisteredAt(m, base + 1, reqs[1..], k - 1);
    }
  }

  lemma HoldFive(s0: Service, validEmail: string -> bool) returns (s5: Service)
    requires Inv(s0) && s0.seatHoldMap == map[] && s0.nextSeatHoldId == 0
    requires s0.venue.openSeatCount == 25 && s0.venue.heldSeatCount == 0 && s0.venue.reservedSeatCount == 0
    requires validEmail(Customer)
    ensures s5 == HoldAll(s0, FiveHolds(), validEmail, 0)
    ensures Inv(s5) && s5.venue.openSeatCount == 0 && s5.venue.heldSeatCount == 25 && s5.venue.reservedSeatCount == 0
    ensures PendingFor(s5.seatHoldMap, [1], Customer) && HeldSum(s5.seatHoldMap, [1]) == 6
    ensures PendingFor(s5.seatHoldMap - {1}, [0, 2, 3, 4], Customer) && HeldSum(s5.seatHoldMap - {1}, [0, 2, 3, 4]) == 19
  {
    var reqs := FiveHolds();
    FiveHoldsAsk(validEmail);
    HoldAllSpec(s0, reqs, validEmail, 0);
    HoldAllKeepsInv(s0, reqs, validEmail, 0);
    s5 := HoldAll(s0, reqs, validEmail, 0);
    FiveHoldsPending(s5.seatHoldMap);
  }

  lemma FiveHoldsAsk(validEmail: string -> bool)
    requires validEmail(Customer)
    ensures Asked(FiveHolds()) == 25 && AllValid(FiveHolds(), validEmail)
  {
  }

  lemma FiveHoldsPending(m: map<int, SeatHold>)
    requires Registered(m, 0, FiveHolds())
    ensures PendingFor(m, [1], Customer) && HeldSum(m, [1]) == 6
    ensures PendingFor(m - {1}, [0, 2, 3, 4], Customer) && HeldSum(m - {1}, [0, 2, 3, 4]) == 19
  {
    var reqs := FiveHolds();
    RegisteredAt(m, 0, reqs, 0);
    RegisteredAt(m, 0, reqs, 1);
    RegisteredAt(m, 0, reqs, 2);
    RegisteredAt(m, 0, reqs, 3);
    RegisteredAt(m, 0, reqs, 4);
    var m' := m - {1};
    assert [0, 2, 3, 4][1..] == [2, 3, 4] && [2, 3, 4][1..] == [3, 4] && [3, 4][1..] == [4];
    assert HeldSum(m', [4]) == 4;
    assert HeldSum(m', [3, 4]) == 12;
    assert HeldSum(m', [2, 3, 4]) == 16;
  }

  lemma ReserveSecond(s5: Service, validEmail: string -> bool) returns (t1: Service)
    requires Inv(s5) && s5.venue.openSeatCount == 0 && s5.venue.heldSeatCount == 25 && s5.venue.reservedSeatCount == 0
    requires validEmail(Customer)
    requires PendingFor(s5.seatHoldMap, [1], Customer) && HeldSum(s5.seatHoldMap, [1]) == 6
    requires PendingFor(s5.seatHoldMap - {1}, [0, 2, 3, 4], Customer) && HeldSum(s5.seatHoldMap - {1}, [0, 2, 3, 4]) == 19
    ensures HoldsInVenue(s5)
    ensures var (t, rids) := ReserveAll(s5, [1], Customer, validEmail);
            t1 == t && None !in rids
    ensures Inv(t1) && t1.venue.openSeatCount == 0 && t1.venue.heldSeatCount == 19 && t1.venue.reservedSeatCount == 6
    ensures PendingFor(t1.seatHoldMap, [0, 2, 3, 4], Customer) && HeldSum(t1.seatHoldMap, [0, 2, 3, 4]) == 19
  {
    InvHoldsInVenue(s5);
    ReserveAllSpec(s5, [1], Customer, validEmail);
    ReserveConfirms(s5, 1, Customer, validEmail);
    t1 := ReserveAll(s5, [1], Customer, validEmail).0;
    assert t1 == ReserveSeats(s5, 1, Customer, validEmail).0;
  }
}
