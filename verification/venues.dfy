/** The venue: a rows × columns grid of seats with running OPEN, HOLD and
    RESERVED counters, changed only through `ProcessSeats`. */
module Venues {
  import opened Wrappers
  import opened Seats

  /** The two exception classes the venue raises. */
  datatype Error = IllegalArgument | TicketReservation

  /** A seat of the venue, named by its row-major grid position
      `row * cols + column`. Seats are never told apart by `Seat.id`: every
      seat the constructor makes carries the same labels. */
  type SeatRef = nat

  /** The grid is kept row-major in `cells`; row `r` is
      `cells[r * cols .. (r + 1) * cols]`. */
  datatype Venue = Venue(
    rows: nat,
    cols: nat,
    cells: seq<Seat>,
    maxOccupancy: int,
    openSeatCount: int,
    heldSeatCount: int,
    reservedSeatCount: int)

  predicate WellShaped(v: Venue) {
    v.rows >= 1 && v.cols >= 1 && |v.cells| == v.rows * v.cols && v.maxOccupancy == |v.cells|
  }

  /** Same dimensions and the same seat labels, position by position. */
  predicate SameShape(a: Venue, b: Venue) {
    && a.rows == b.rows && a.cols == b.cols && a.maxOccupancy == b.maxOccupancy
    && |a.cells| == |b.cells|
    && (forall i :: 0 <= i < |a.cells| ==> a.cells[i].row == b.cells[i].row && a.cells[i].seatNum == b.cells[i].seatNum)
  }

  /** Number of seats in state `st`. */
  function Count(cells: seq<Seat>, st: SeatState): (n: nat)
    ensures n <= |cells|
  {
    if |cells| == 0 then 0 else (if cells[0].state == st then 1 else 0) + Count(cells[1..], st)
  }

  /** The counter invariant: each counter equals the number of seats in its state. */
  predicate Valid(v: Venue) {
    && WellShaped(v)
    && v.openSeatCount == Count(v.cells, Open)
    && v.heldSeatCount == Count(v.cells, Hold)
    && v.reservedSeatCount == Count(v.cells, Reserved)
  }

  /** Every reference of the batch names a seat of this venue. */
  predicate InVenue(v: Venue, batch: seq<SeatRef>) {
    forall k :: 0 <= k < |batch| ==> batch[k] < |v.cells|
  }

  function Elems(batch: seq<SeatRef>): set<SeatRef> {
    set x | x in batch
  }

  /** Reference meaning of a batch transition: the picked seats take the target
      state, every other seat is left as it was. */
  function Mark(cells: seq<Seat>, picked: set<SeatRef>, target: SeatState): (r: seq<Seat>)
    ensures |r| == |cells|
  {
    seq(|cells|, i requires 0 <= i < |cells| => if i in picked then SetState(cells[i], target) else cells[i])
  }

  // Construction and lookup.

  /** Non-positive dimensions are clamped to 1. Every seat starts OPEN and, as
      in the source, is labelled with the clamped dimensions rather than with its
      own position. */
  function Create(row: int, column: int): (v: Venue)
    ensures Valid(v)
    ensures v.rows == (if row <= 0 then 1 else row) && v.cols == (if column <= 0 then 1 else column)
    ensures v.maxOccupancy == v.rows * v.cols && v.openSeatCount == v.maxOccupancy
    ensures v.heldSeatCount == 0 && v.reservedSeatCount == 0
    ensures forall i :: 0 <= i < |v.cells| ==> v.cells[i] == NewSeat(v.rows, v.cols)
  {
    var r: nat := if row <= 0 then 1 else row;
    var c: nat := if column <= 0 then 1 else column;
    var cells := seq(r * c, _ => NewSeat(r, c));
    CountUniform(cells, Open);
    Venue(r, c, cells, r * c, r * c, 0, 0)
  }

  /** The 1 x 1 venue: its one seat, numbered as every seat of a fresh venue is, is OPEN. */
  lemma CreateOneByOne()
    ensures Create(1, 1).cells == [Seat(1, 1, Open)]
  {
    var v := Create(1, 1);
    assert v.rows == 1 && v.cols == 1 && |v.cells| == 1;
    assert v.cells[0] == NewSeat(1, 1) == Seat(1, 1, Open);
    assert v.cells == [v.cells[0]];
  }

  lemma {:induction false} CountUniform(cells: seq<Seat>, st: SeatState)
    requires forall i :: 0 <= i < |cells| ==> cells[i].state == st
    ensures forall t :: Count(cells, t) == if t == st then |cells| else 0
    decreases |cells|
  {
    if |cells| > 0 {
      CountUniform(cells[1..], st);
    }
  }

  /** All seats of a freshly built venue are equal under the seat's `equals`. */
  lemma CreatedSeatsShareId(row: int, column: int, i: nat, j: nat)
    requires i < |Create(row, column).cells| && j < |Create(row, column).cells|
    ensures SeatEquals(Create(row, column).cells[i], Create(row, column).cells[j])
  {
  }

  lemma PositionInGrid(rows: nat, cols: nat, row: int, column: int)
    requires 0 <= row < rows && 0 <= column < cols
    ensures 0 <= row * cols + column < rows * cols
  {
    assert row * cols <= (rows - 1) * cols;
  }

  /** The seat at (row, column), or `None` outside the grid; never an error. */
  function GetSeat(v: Venue, row: int, column: int): (r: Option<Seat>)
    requires WellShaped(v)
    ensures r.Some? <==> 0 <= row < v.rows && 0 <= column < v.cols
    ensures r.Some? ==> row * v.cols + column < |v.cells| && r.value == v.cells[row * v.cols + column]
  {
    if row >= 0 && column >= 0 && row < v.rows && column < v.cols then
      PositionInGrid(v.rows, v.cols, row, column);
      Some(v.cells[row * v.cols + column])
    else None
  }

  /** Every seat of the grid is reachable by `GetSeat` at exactly one position. */
  lemma GetSeatCoversGrid(v: Venue, i: nat)
    requires WellShaped(v) && i < |v.cells|
    ensures GetSeat(v, i / v.cols, i % v.cols) == Some(v.cells[i])
    ensures forall row, column :: GetSeat(v, row, column).Some? && row * v.cols + column == i ==>
              row == i / v.cols && column == i % v.cols
  {
    var r := i / v.cols;
    var c := i % v.cols;
    assert i == r * v.cols + c;
    forall row, column | GetSeat(v, row, column).Some? && row * v.cols + column == i
      ensures row == r && column == c
    {
      DivModUnique(i, v.cols, row, column);
    }
  }

  lemma DivModUnique(i: nat, cols: nat, row: int, column: int)
    requires cols >= 1 && 0 <= row && 0 <= column < cols && i == row * cols + column
    ensures row == i / cols && column == i % cols
  {
    var r := i / cols;
    var c := i % cols;
    assert (row - r) * cols == c - column;
    MulSign(row - r, cols);
  }

  lemma MulSign(a: int, cols: nat)
    requires cols >= 1
    ensures a >= 1 ==> a * cols >= cols
    ensures a <= -1 ==> a * cols <= 0 - cols as int
  {
  }

  // The batch transition.

  /** One iteration of the `processSeats` loop: a seat already in the target
      state is skipped; otherwise it moves, the target's counter goes up and the
      previous state's counter goes down (PROCESSING has no counter). */
  function StepSeat(v: Venue, i: SeatRef, target: SeatState): (r: Venue)
    requires i < |v.cells|
    ensures r.cells == v.cells[i := SetState(v.cells[i], target)]
    ensures SameShape(r, v)
  {
    var prev := v.cells[i].state;
    if prev == target then
      assert v.cells[i := SetState(v.cells[i], target)] == v.cells;
      v
    else
      v.(cells := v.cells[i := SetState(v.cells[i], target)],
         openSeatCount := v.openSeatCount + (if target == Open then 1 else 0) - (if prev == Open then 1 else 0),
         heldSeatCount := v.heldSeatCount + (if target == Hold then 1 else 0) - (if prev == Hold then 1 else 0),
         reservedSeatCount := v.reservedSeatCount + (if target == Reserved then 1 else 0) - (if prev == Reserved then 1 else 0))
  }

  lemma {:induction false} CountUpdate(cells: seq<Seat>, i: nat, x: Seat, st: SeatState)
    requires i < |cells|
    ensures Count(cells[i := x], st)
            == Count(cells, st) - (if cells[i].state == st then 1 else 0) + (if x.state == st then 1 else 0)
    decreases |cells|
  {
    if i > 0 {
      assert cells[i := x][1..] == cells[1..][i - 1 := x];
      CountUpdate(cells[1..], i - 1, x, st);
    } else {
      assert cells[i := x][1..] == cells[1..];
    }
  }

  /** The counter bookkeeping of one step keeps the counter invariant. */
  lemma StepSeatKeepsCounters(v: Venue, i: SeatRef, target: SeatState)
    requires i < |v.cells|
    ensures Valid(v) ==> Valid(StepSeat(v, i, target))
  {
    if Valid(v) {
      var x := SetState(v.cells[i], target);
      CountUpdate(v.cells, i, x, Open);
      CountUpdate(v.cells, i, x, Hold);
      CountUpdate(v.cells, i, x, Reserved);
    }
  }

  /** The `for (Seat seat : seats)` loop of `processSeats`, in batch order, so a
      seat listed twice is skipped the second time. */
  function ApplyAll(v: Venue, batch: seq<SeatRef>, target: SeatState): (r: Venue)
    requires InVenue(v, batch)
    ensures r.cells == Mark(v.cells, Elems(batch), target)
    ensures SameShape(r, v)
    ensures Valid(v) ==> Valid(r)
    decreases |batch|
  {
    if |batch| == 0 then
      MarkNothing(v.cells, target);
      v
    else
      StepSeatKeepsCounters(v, batch[0], target);
      var w := StepSeat(v, batch[0], target);
      StepThenMark(v.cells, batch, target);
      ApplyAll(w, batch[1..], target)
  }

  lemma MarkNothing(cells: seq<Seat>, target: SeatState)
    ensures Mark(cells, {}, target) == cells
  {
  }

  lemma StepThenMark(cells: seq<Seat>, batch: seq<SeatRef>, target: SeatState)
    requires |batch| > 0 && batch[0] < |cells|
    ensures Mark(cells[batch[0] := SetState(cells[batch[0]], target)], Elems(batch[1..]), target)
            == Mark(cells, Elems(batch), target)
  {
  }

  /** `processSeats`: a null or empty batch, or a null target state, raises
      IllegalArgumentException before anything changes. Otherwise every seat of
      the batch ends in the target state, every other seat is untouched, and the
      counter invariant is kept. */
  function ProcessSeats(v: Venue, batch: seq<SeatRef>, target: Option<SeatState>): (r: Result<Venue, Error>)
    requires InVenue(v, batch)
    ensures r.Failure? <==> |batch| == 0 || target.None?
    ensures r.Failure? ==> r.error == IllegalArgument
    ensures r.Success? ==> r.value.cells == Mark(v.cells, Elems(batch), target.value) && SameShape(r.value, v)
    ensures r.Success? ==> forall k :: 0 <= k < |batch| ==> r.value.cells[batch[k]].state == target.value
    ensures r.Success? && Valid(v) ==> Valid(r.value)
  {
    if |batch| == 0 then Failure(IllegalArgument)
    else if target.None? then Failure(IllegalArgument)
    else Success(ApplyAll(v, batch, target.value))
  }

  /** `processSeat`: the one-seat batch. */
  function ProcessSeat(v: Venue, seat: SeatRef, target: Option<SeatState>): (r: Result<Venue, Error>)
    requires seat < |v.cells|
    ensures r.Failure? <==> target.None?
    ensures r.Success? ==> r.value.cells == v.cells[seat := SetState(v.cells[seat], target.value)]
    ensures r.Success? && Valid(v) ==> Valid(r.value)
  {
    var r := ProcessSeats(v, [seat], target);
    assert Elems([seat]) == {seat};
    if r.Success? then
      assert r.value.cells == v.cells[seat := SetState(v.cells[seat], target.value)];
      r
    else r
  }

  /** A `processSeats` call whose exception the caller catches and ignores:
      on rejection the venue is unchanged, because the rejection happens before
      any seat moves. */
  function ProcessSeatsQuietly(v: Venue, batch: seq<SeatRef>, target: SeatState): (r: Venue)
    requires InVenue(v, batch)
    ensures r.cells == Mark(v.cells, Elems(batch), target)
    ensures SameShape(r, v)
    ensures Valid(v) ==> Valid(r)
    ensures |batch| == 0 ==> r == v
  {
    match ProcessSeats(v, batch, Some(target))
    case Success(w) => w
    case Failure(_) =>
      MarkNothing(v.cells, target);
      v
  }

  /** A `processSeats` call whose failure is answered by reopening the batch,
      a failure of which is ignored in turn. Either way the batch ends in the
      target state: the only rejection left is the empty batch, which changes
      nothing. */
  function ProcessSeatsOrReopen(v: Venue, batch: seq<SeatRef>, target: SeatState): (r: Venue)
    requires InVenue(v, batch)
    ensures r.cells == Mark(v.cells, Elems(batch), target)
    ensures SameShape(r, v)
    ensures Valid(v) ==> Valid(r)
  {
    match ProcessSeats(v, batch, Some(target))
    case Success(w) => w
    case Failure(_) =>
      MarkNothing(v.cells, target);
      ProcessSeatsQuietly(v, batch, Open)
  }

  /** `openSelectedSeats`: a null or empty list raises TicketReservationException
      (the empty case by wrapping the IllegalArgumentException); otherwise all
      listed seats end OPEN. */
  function OpenSelectedSeats(v: Venue, seats: seq<SeatRef>): (r: Result<Venue, Error>)
    requires InVenue(v, seats)
    ensures r.Failure? <==> |seats| == 0
    ensures r.Failure? ==> r.error == TicketReservation
    ensures r.Success? ==> r.value.cells == Mark(v.cells, Elems(seats), Open)
    ensures r.Success? ==> forall k :: 0 <= k < |seats| ==> r.value.cells[seats[k]].state == Open
    ensures r.Success? && Valid(v) ==> Valid(r.value)
  {
    match ProcessSeats(v, seats, Some(Open))
    case Success(w) => Success(w)
    case Failure(_) => Failure(TicketReservation)
  }

  // Properties of the batch transition.

  lemma {:induction false} ApplyAllSkipsSettled(v: Venue, batch: seq<SeatRef>, target: SeatState)
    requires InVenue(v, batch)
    requires forall k :: 0 <= k < |batch| ==> v.cells[batch[k]].state == target
    ensures ApplyAll(v, batch, target) == v
    decreases |batch|
  {
    if |batch| > 0 {
      assert StepSeat(v, batch[0], target) == v;
      ApplyAllSkipsSettled(v, batch[1..], target);
    }
  }

  /** Applying the same batch and state a second time changes neither seats
      nor counters. */
  lemma ProcessSeatsIdempotent(v: Venue, batch: seq<SeatRef>, target: Option<SeatState>)
    requires InVenue(v, batch)
    requires ProcessSeats(v, batch, target).Success?
    ensures var w := ProcessSeats(v, batch, target).value;
            InVenue(w, batch) && ProcessSeats(w, batch, target) == Success(w)
  {
    var w := ProcessSeats(v, batch, target).value;
    ApplyAllSkipsSettled(w, batch, target.value);
  }

  lemma {:induction false} CountPartition(cells: seq<Seat>)
    ensures Count(cells, Open) + Count(cells, Hold) + Count(cells, Reserved) + Count(cells, Processing) == |cells|
    decreases |cells|
  {
    if |cells| > 0 {
      CountPartition(cells[1..]);
    }
  }

  /** With the counter invariant, the three counters and the PROCESSING seats
      add up to the venue's capacity. */
  lemma CountersAddUp(v: Venue)
    requires Valid(v)
    ensures v.openSeatCount + v.heldSeatCount + v.reservedSeatCount + Count(v.cells, Processing) == v.maxOccupancy
  {
    CountPartition(v.cells);
  }

  predicate NoDup(batch: seq<SeatRef>) {
    forall k, j :: 0 <= k < j < |batch| ==> batch[k] != batch[j]
  }

  /** Every seat of the batch lies in the venue and is in state `st`. */
  predicate AllInState(cells: seq<Seat>, batch: seq<SeatRef>, st: SeatState) {
    forall k :: 0 <= k < |batch| ==> batch[k] < |cells| && cells[batch[k]].state == st
  }

  lemma MarkOneMore(cells: seq<Seat>, picked: set<SeatRef>, x: SeatRef, target: SeatState)
    requires x < |cells| && x !in picked
    ensures Mark(cells, picked + {x}, target) == Mark(cells, picked, target)[x := SetState(cells[x], target)]
  {
  }

  /** Moving `n` distinct seats out of state `from` into `target` shifts the
      two states' counts by `n` and leaves the other counts alone. */
  lemma {:induction false} CountMark(cells: seq<Seat>, batch: seq<SeatRef>, from: SeatState, target: SeatState, st: SeatState)
    requires NoDup(batch) && AllInState(cells, batch, from) && from != target
    ensures Count(Mark(cells, Elems(batch), target), st)
            == Count(cells, st) - (if st == from then |batch| else 0) + (if st == target then |batch| else 0)
    decreases |batch|
  {
    if |batch| == 0 {
      assert Elems(batch) == {};
      MarkNothing(cells, target);
    } else {
      var n := |batch| - 1;
      var init := batch[..n];
      var x := batch[n];
      assert Elems(batch) == Elems(init) + {x} by {
        assert batch == init + [x];
      }
      assert x !in Elems(init);
      CountMark(cells, init, from, target, st);
      MarkOneMore(cells, Elems(init), x, target);
      var m := Mark(cells, Elems(init), target);
      assert m[x] == cells[x];
      CountUpdate(m, x, SetState(cells[x], target), st);
    }
  }

  /** `processSeats` on distinct seats all in state `from`: the counters of
      `from` and `target` move by the batch size, the third is unchanged. */
  lemma ProcessSeatsShiftsCounters(v: Venue, batch: seq<SeatRef>, from: SeatState, target: SeatState)
    requires Valid(v) && NoDup(batch) && AllInState(v.cells, batch, from) && from != target && |batch| > 0
    ensures var r := ProcessSeats(v, batch, Some(target));
            && r.Success?
            && r.value.openSeatCount == v.openSeatCount - (if from == Open then |batch| else 0) + (if target == Open then |batch| else 0)
            && r.value.heldSeatCount == v.heldSeatCount - (if from == Hold then |batch| else 0) + (if target == Hold then |batch| else 0)
            && r.value.reservedSeatCount == v.reservedSeatCount - (if from == Reserved then |batch| else 0) + (if target == Reserved then |batch| else 0)
  {
    CountMark(v.cells, batch, from, target, Open);
    CountMark(v.cells, batch, from, target, Hold);
    CountMark(v.cells, batch, from, target, Reserved);
  }
}
