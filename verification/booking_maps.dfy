/**
 * The two pieces of booking state of the page as values: `bookings`
 * (day -> (seat -> employee name)) and `lunchCounters` (day -> number), the
 * queries on them, the updates the handlers make, and the invariants those keep.
 */
module BookingMaps {
  import opened Wrappers
  import opened JsStrings
  import opened Days

  type Seat = int
  type Bookings = map<Day, map<Seat, string>>
  type LunchCounters = map<Day, int>

  /** The seat map of a day, with a missing day read as `{}` (as `...prev[day]` spreads it). */
  function SeatsOn(b: Bookings, day: Day): map<Seat, string> {
    if day in b then b[day] else map[]
  }

  /** `bookings[day]?.[seat]`: the stored name, or None for undefined. */
  function Lookup(b: Bookings, day: Day, seat: Seat): Option<string> {
    var seats := SeatsOn(b, day);
    if seat in seats then Some(seats[seat]) else None
  }

  /** The number of seats booked on a day. */
  function SeatsBooked(b: Bookings, day: Day): nat {
    |SeatsOn(b, day)|
  }

  /** `isSeatTaken`: the lookup is not undefined. */
  function IsSeatTaken(b: Bookings, day: Day, seat: Seat): (taken: bool)
    ensures taken <==> day in b && seat in b[day]
  {
    Lookup(b, day, seat) != None
  }

  /** `getSeatOwner`: the lookup, with a falsy (undefined or empty) name read as "". */
  function SeatOwner(b: Bookings, day: Day, seat: Seat): (owner: string)
    ensures IsSeatTaken(b, day, seat) ==> owner == b[day][seat]
    ensures !IsSeatTaken(b, day, seat) ==> owner == ""
  {
    var stored := Lookup(b, day, seat);
    if stored.Some? && stored.value != "" then stored.value else ""
  }

  /** `lunchCounters[day] || 0`: a missing (or zero) counter reads as 0. */
  function LunchCount(c: LunchCounters, day: Day): (n: int)
    ensures day in c ==> n == c[day]
    ensures day !in c ==> n == 0
  {
    if day in c && c[day] != 0 then c[day] else 0
  }

  /** No day key maps to an empty seat map. */
  ghost predicate NoEmptyDays(b: Bookings) {
    forall d :: d in b ==> b[d] != map[]
  }

  /** Every stored name is non-empty and already trimmed. */
  ghost predicate NamesTrimmed(b: Bookings) {
    forall d, s :: Lookup(b, d, s).Some? ==> Lookup(b, d, s).value != "" && Trim(Lookup(b, d, s).value) == Lookup(b, d, s).value
  }

  /** Every stored counter is at least 0. */
  ghost predicate CountersNonNegative(c: LunchCounters) {
    forall d :: d in c ==> c[d] >= 0
  }

  /** Each day's lunch counter equals the number of seats booked on that day. */
  ghost predicate CountsMatch(b: Bookings, c: LunchCounters) {
    forall d :: LunchCount(c, d) == SeatsBooked(b, d)
  }

  /**
   * The bookings update of `handleBookSeat`: `{...prev, [day]: {...prev[day], [seat]: name}}`.
   * The seat now holds name and the day is a key; `BookKeepsOthers` states that every
   * other (day, seat) pair reads as before.
   */
  function WithBooking(b: Bookings, day: Day, seat: Seat, name: string): (r: Bookings)
    ensures Lookup(r, day, seat) == Some(name)
    ensures r.Keys == b.Keys + {day}
  {
    b[day := SeatsOn(b, day)[seat := name]]
  }

  /** A booking changes no other seat of its day and no other day's seat map. */
  lemma BookKeepsOthers(b: Bookings, day: Day, seat: Seat, name: string)
    ensures forall d, s :: d != day || s != seat ==> Lookup(WithBooking(b, day, seat, name), d, s) == Lookup(b, d, s)
    ensures forall d :: d != day ==> SeatsOn(WithBooking(b, day, seat, name), d) == SeatsOn(b, d)
  {
  }

  /**
   * The bookings update of `handleCancelBooking`: when the day has a seat map, the seat
   * is deleted from it and the day key is deleted once no seat is left.
   * Afterwards the seat is free and no other day's entry has changed.
   */
  function WithoutBooking(b: Bookings, day: Day, seat: Seat): (r: Bookings)
    ensures Lookup(r, day, seat) == None
    ensures r - {day} == b - {day}
  {
    if day in b then
      var remaining := b[day] - {seat};
      if remaining.Keys == {} then
        b - {day}
      else
        b[day := remaining]
    else
      b
  }

  /** Cancelling frees only the one seat: every other (day, seat) pair reads as before. */
  lemma {:induction false} CancelKeepsOthers(b: Bookings, day: Day, seat: Seat)
    ensures SeatsOn(WithoutBooking(b, day, seat), day) == SeatsOn(b, day) - {seat}
    ensures forall d :: d != day ==> SeatsOn(WithoutBooking(b, day, seat), d) == SeatsOn(b, d)
    ensures forall d, s :: d != day || s != seat ==>
              Lookup(WithoutBooking(b, day, seat), d, s) == Lookup(b, d, s)
  {
    var r := WithoutBooking(b, day, seat);
    assert SeatsOn(r, day) == SeatsOn(b, day) - {seat};
    forall d | d != day
      ensures SeatsOn(r, d) == SeatsOn(b, d)
    {
      assert d in r <==> d in r - {day};
      assert d in b <==> d in b - {day};
      if d in b {
        assert r[d] == (r - {day})[d] == (b - {day})[d] == b[d];
      }
    }
  }

  /** Cancelling never takes a free seat. */
  lemma CancelKeepsFree(b: Bookings, day: Day, seat: Seat, d: Day, s: Seat)
    requires !IsSeatTaken(b, d, s)
    ensures !IsSeatTaken(WithoutBooking(b, day, seat), d, s)
  {
    CancelKeepsOthers(b, day, seat);
  }

  /** Booking keeps the shape invariants, given a non-empty trimmed name. */
  lemma BookKeepsShape(b: Bookings, day: Day, seat: Seat, name: string)
    requires NoEmptyDays(b) && NamesTrimmed(b)
    requires name != "" && Trim(name) == name
    ensures NoEmptyDays(WithBooking(b, day, seat, name)) && NamesTrimmed(WithBooking(b, day, seat, name))
  {
    BookKeepsOthers(b, day, seat, name);
  }

  /** Cancelling keeps the shape invariants. */
  lemma CancelKeepsShape(b: Bookings, day: Day, seat: Seat)
    requires NoEmptyDays(b) && NamesTrimmed(b)
    ensures NoEmptyDays(WithoutBooking(b, day, seat)) && NamesTrimmed(WithoutBooking(b, day, seat))
  {
    CancelKeepsOthers(b, day, seat);
  }

  /** The counter update of `handleBookSeat`: the day's count goes up by exactly 1. */
  function Incremented(c: LunchCounters, day: Day): (r: LunchCounters)
    ensures LunchCount(r, day) == LunchCount(c, day) + 1
    ensures forall d :: d != day ==> LunchCount(r, d) == LunchCount(c, d)
    ensures r.Keys == c.Keys + {day}
    ensures CountersNonNegative(c) ==> CountersNonNegative(r)
  {
    c[day := LunchCount(c, day) + 1]
  }

  /** `Math.max`. */
  function Max(a: int, b: int): int {
    if a >= b then a else b
  }

  /**
   * The counter update of `handleCancelBooking`: the day's count goes down by 1 but
   * never below 0, whether or not a booking was removed.
   */
  function Decremented(c: LunchCounters, day: Day): (r: LunchCounters)
    ensures LunchCount(c, day) >= 1 ==> LunchCount(r, day) == LunchCount(c, day) - 1
    ensures LunchCount(c, day) < 1 ==> LunchCount(r, day) == 0
    ensures forall d :: d != day ==> LunchCount(r, d) == LunchCount(c, d)
    ensures r.Keys == c.Keys + {day}
    ensures CountersNonNegative(c) ==> CountersNonNegative(r)
  {
    c[day := Max(LunchCount(c, day) - 1, 0)]
  }

  /**
   * Cancelling keeps the day key exactly when another seat is still booked on that day,
   * and cancelling a seat that is not booked changes nothing (given no empty day maps).
   */
  lemma {:induction false} CancelDayKey(b: Bookings, day: Day, seat: Seat)
    ensures day in WithoutBooking(b, day, seat) <==> exists s :: s != seat && IsSeatTaken(b, day, s)
    ensures NoEmptyDays(b) && !IsSeatTaken(b, day, seat) ==> WithoutBooking(b, day, seat) == b
  {
    if day in b {
      var remaining := b[day] - {seat};
      if remaining.Keys == {} {
        assert forall s :: s != seat && IsSeatTaken(b, day, s) ==> s in remaining.Keys;
      } else {
        assert exists s :: s in remaining.Keys by {
          if forall s :: s !in remaining.Keys {
            assert false;
          }
        }
        var s :| s in remaining.Keys;
        assert s != seat && IsSeatTaken(b, day, s);
      }
      if NoEmptyDays(b) && !IsSeatTaken(b, day, seat) {
        assert remaining == b[day];
      }
    }
  }

  /** Removing a present key from a seat map lowers its size by exactly one. */
  lemma RemoveSeatSize(m: map<Seat, string>, seat: Seat)
    requires seat in m
    ensures |m - {seat}| == |m| - 1
  {
  }

  /** The seat map of a day after a booking has one more seat when the seat was free. */
  lemma BookedSeatCount(b: Bookings, day: Day, seat: Seat, name: string)
    ensures !IsSeatTaken(b, day, seat) ==> SeatsBooked(WithBooking(b, day, seat, name), day) == SeatsBooked(b, day) + 1
    ensures IsSeatTaken(b, day, seat) ==> SeatsBooked(WithBooking(b, day, seat, name), day) == SeatsBooked(b, day)
  {
  }

  /** Booking a free seat keeps every counter equal to its day's number of booked seats. */
  lemma {:induction false} BookKeepsCounts(b: Bookings, c: LunchCounters, day: Day, seat: Seat, name: string)
    requires CountsMatch(b, c)
    requires !IsSeatTaken(b, day, seat)
    ensures CountsMatch(WithBooking(b, day, seat, name), Incremented(c, day))
  {
    var b', c' := WithBooking(b, day, seat, name), Incremented(c, day);
    BookKeepsOthers(b, day, seat, name);
    BookedSeatCount(b, day, seat, name);
    assert LunchCount(c', day) == SeatsBooked(b', day);
  }

  /**
   * Booking a seat that is already taken overwrites its owner but still adds 1 to the
   * counter, so the counter no longer matches: the guard in `handleSeatClick` is what
   * keeps the counts right.
   */
  lemma OverwriteBreaksCounts(b: Bookings, c: LunchCounters, day: Day, seat: Seat, name: string)
    requires CountsMatch(b, c)
    requires IsSeatTaken(b, day, seat)
    ensures SeatOwner(WithBooking(b, day, seat, name), day, seat) == name
    ensures !CountsMatch(WithBooking(b, day, seat, name), Incremented(c, day))
  {
  }

  /** Cancelling a taken seat keeps every counter equal to its day's number of booked seats. */
  lemma {:induction false} CancelKeepsCounts(b: Bookings, c: LunchCounters, day: Day, seat: Seat)
    requires CountsMatch(b, c)
    requires IsSeatTaken(b, day, seat)
    ensures CountsMatch(WithoutBooking(b, day, seat), Decremented(c, day))
  {
    var b', c' := WithoutBooking(b, day, seat), Decremented(c, day);
    CancelKeepsOthers(b, day, seat);
    RemoveSeatSize(b[day], seat);
    assert LunchCount(c, day) == |b[day]|;
    assert LunchCount(c', day) == SeatsBooked(b', day);
  }

  /**
   * Cancelling a booking just made on a free seat restores the bookings exactly (given
   * no empty day maps) and every day's counter as it reads, given a non-negative count.
   */
  lemma {:induction false} CancelUndoesBook(b: Bookings, c: LunchCounters, day: Day, seat: Seat, name: string)
    requires NoEmptyDays(b) && !IsSeatTaken(b, day, seat)
    ensures WithoutBooking(WithBooking(b, day, seat, name), day, seat) == b
    ensures LunchCount(c, day) >= 0 ==>
              forall d :: LunchCount(Decremented(Incremented(c, day), day), d) == LunchCount(c, d)
  {
    var b' := WithBooking(b, day, seat, name);
    var remaining := b'[day] - {seat};
    assert remaining == SeatsOn(b, day);
    if day in b {
      assert b'[day := remaining] == b;
    } else {
      assert remaining.Keys == {};
      assert b' - {day} == b;
    }
  }
}
