/** A seat: two integer labels fixed at construction, an id derived from them,
    and a state that the four setters overwrite without any transition guard. */
module Seats {
  import opened Wrappers
  import Decimal

  /** OPEN, HOLD, RESERVED and PROCESSING. PROCESSING marks a seat that the
      best-seat scan has claimed but not yet placed in a hold. */
  datatype SeatState = Open | Hold | Reserved | Processing

  /** Java stores the id string as a field; here it is derived by `Id`, which
      is the same value because labels never change after construction. */
  datatype Seat = Seat(row: int, seatNum: int, state: SeatState)

  /** "row-seatNum" with both numbers in `%d` form, e.g. "2-5" or "-2--8",
      taking the default locale to write ASCII digits. */
  function Id(s: Seat): string {
    Decimal.IntToString(s.row) + "-" + Decimal.IntToString(s.seatNum)
  }

  /** A new seat stores its labels verbatim, whatever their sign, and is OPEN;
      its id reads back as exactly those labels. */
  function NewSeat(row: int, seatNum: int): (s: Seat)
    ensures s.state == Open
    ensures ParseId(Id(s)) == Some((row, seatNum))
  {
    IdRoundTrip(Seat(row, seatNum, Open));
    Seat(row, seatNum, Open)
  }

  /** The four setters `setStateToOpen`, `setStateToHold`, `setStateToReserved`
      and `setStateToProcessing` are this function with the matching state. */
  function SetState(s: Seat, target: SeatState): (r: Seat)
    ensures r.state == target
    ensures Id(r) == Id(s) && r.row == s.row && r.seatNum == s.seatNum
  {
    s.(state := target)
  }

  /** Java's `equals`: two seats are equal when their ids are. */
  predicate SeatEquals(a: Seat, b: Seat) {
    Id(a) == Id(b)
  }

  // Reading an id back into its labels.

  /** Index of the first '-' at or after `from`, or `|str|` when there is none. */
  function FindDash(str: string, from: nat): (k: nat)
    requires from <= |str|
    ensures from <= k <= |str|
    ensures k < |str| ==> str[k] == '-'
    ensures forall j :: from <= j < k ==> str[j] != '-'
    decreases |str| - from
  {
    if from == |str| || str[from] == '-' then from else FindDash(str, from + 1)
  }

  /** The separator is the first '-' after position 0 (position 0 may hold the
      row's own minus sign). */
  function ParseId(id: string): Option<(int, int)> {
    if |id| == 0 then None
    else
      var k := FindDash(id, 1);
      if k == |id| then None
      else
        match (Decimal.ParseInt(id[..k]), Decimal.ParseInt(id[k + 1..]))
        case (Some(r), Some(c)) => Some((r, c))
        case _ => None
  }

  lemma IdRoundTrip(s: Seat)
    ensures ParseId(Id(s)) == Some((s.row, s.seatNum))
  {
    var a := Decimal.IntToString(s.row);
    var b := Decimal.IntToString(s.seatNum);
    var id := Id(s);
    assert id == a + "-" + b;
    var k := FindDash(id, 1);
    assert id[|a|] == '-';
    assert k == |a|;
    assert id[..k] == a;
    assert id[k + 1..] == b;
    Decimal.IntToStringRoundTrip(s.row);
    Decimal.IntToStringRoundTrip(s.seatNum);
  }

  /** Ids of seats with labels of either sign. */
  lemma IdExamples()
    ensures Id(NewSeat(2, 5)) == "2-5" && Id(NewSeat(0, 0)) == "0-0"
    ensures Id(NewSeat(-2, -8)) == "-2--8" && Id(NewSeat(-5, 9)) == "-5-9"
  {
    assert Decimal.IntToString(2) == "2" && Decimal.IntToString(5) == "5" && Decimal.IntToString(0) == "0";
    assert Decimal.IntToString(-2) == "-2" && Decimal.IntToString(-8) == "-8";
    assert Decimal.IntToString(-5) == "-5" && Decimal.IntToString(9) == "9";
  }

  /** Seat equality is equality of the two labels; the state plays no part. */
  lemma SeatEqualsIffSameLabels(a: Seat, b: Seat)
    ensures SeatEquals(a, b) <==> a.row == b.row && a.seatNum == b.seatNum
  {
    IdRoundTrip(a);
    IdRoundTrip(b);
  }

  // Java's `hashCode`, delegated to `String.hashCode` of the id.

  const TwoTo32: int := 0x1_0000_0000

  /** Two's-complement wrap-around of Java `int` arithmetic. */
  function ToInt32(x: int): (r: int)
    ensures -0x8000_0000 <= r < 0x8000_0000
    ensures (r - x) % TwoTo32 == 0
  {
    (x + 0x8000_0000) % TwoTo32 - 0x8000_0000
  }

  /** `h = 31 * h + c` over the characters, in 32-bit arithmetic. */
  function JavaStringHash(str: string): (h: int)
    ensures -0x8000_0000 <= h < 0x8000_0000
    decreases |str|
  {
    if |str| == 0 then 0
    else ToInt32(31 * JavaStringHash(str[..|str| - 1]) + str[|str| - 1] as int)
  }

  function HashCode(s: Seat): int {
    JavaStringHash(Id(s))
  }

  /** Equal seats hash alike, and a state change does not move a seat's hash. */
  lemma HashCodeFollowsEquals(a: Seat, b: Seat, target: SeatState)
    ensures SeatEquals(a, b) ==> HashCode(a) == HashCode(b)
    ensures HashCode(SetState(a, target)) == HashCode(a)
  {
  }
}
