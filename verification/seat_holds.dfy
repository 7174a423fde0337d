/** A seat hold: the seats one customer holds, stamped with its creation time,
    later given a reservation id when it is confirmed. */
module SeatHolds {
  import opened Wrappers
  import opened Venues

  datatype SeatHold = SeatHold(
    seatHoldId: int,
    customerEmail: string,
    seatsHold: seq<SeatRef>,
    creationTS: int,
    reservationId: Option<nat>)

  /** The constructor keeps the id and email verbatim, copies the seat list
      (same seats, same order), stamps `now` as the creation time and has no
      reservation id yet. It never fails, although its Java signature declares
      TicketReservationException. */
  function NewSeatHold(seatHoldId: int, customerEmail: string, seats: seq<SeatRef>, now: int): (h: SeatHold)
    ensures h.seatHoldId == seatHoldId && h.customerEmail == customerEmail
    ensures |h.seatsHold| == |seats| && forall k :: 0 <= k < |seats| ==> h.seatsHold[k] == seats[k]
    ensures h.creationTS == now && h.reservationId.None?
  {
    SeatHold(seatHoldId, customerEmail, seats, now, None)
  }

  /** `setReservationId` overwrites the reservation id and nothing else. */
  function SetReservationId(h: SeatHold, reservationId: nat): (r: SeatHold)
    ensures r.reservationId == Some(reservationId)
    ensures r.seatHoldId == h.seatHoldId && r.customerEmail == h.customerEmail
    ensures r.seatsHold == h.seatsHold && r.creationTS == h.creationTS
  {
    h.(reservationId := Some(reservationId))
  }

  /** A second `setReservationId` wins over the first. */
  lemma SetReservationIdOverwrites(h: SeatHold, first: nat, second: nat)
    ensures SetReservationId(SetReservationId(h, first), second) == SetReservationId(h, second)
  {
  }
}
