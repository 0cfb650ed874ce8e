/**
 * The state machine of the seat-booking page: the component's state fields and the
 * event handlers that update them, without the rendering. Each handler is one atomic
 * transition; the clock is the `weekday` parameter of a form submission.
 */
module BookingPage {
  import opened Wrappers
  import opened Days
  import opened JsStrings
  import opened BookingMaps

  /** `!selectedSeat`: no seat is selected, or the selected number is the falsy 0. */
  predicate NoSeatSelected(selectedSeat: Option<Seat>) {
    selectedSeat.None? || selectedSeat.value == 0
  }

  /** Every booked seat is one of the desks the grid shows. */
  ghost predicate BookedSeatsInGrid(b: Bookings) {
    forall d, s :: IsSeatTaken(b, d, s) ==> IsDesk(s)
  }

  /** Booking a desk of the grid keeps every booked seat on the grid. */
  lemma BookKeepsInGrid(b: Bookings, day: Day, seat: Seat, name: string)
    requires BookedSeatsInGrid(b) && IsDesk(seat)
    ensures BookedSeatsInGrid(WithBooking(b, day, seat, name))
  {
    var r := WithBooking(b, day, seat, name);
    BookKeepsOthers(b, day, seat, name);
    forall d, s | IsSeatTaken(r, d, s)
      ensures IsDesk(s)
    {
      if d != day || s != seat {
        assert Lookup(r, d, s) == Lookup(b, d, s);
        assert IsSeatTaken(b, d, s);
      }
    }
  }

  /** Cancelling a booking keeps every remaining booked seat on the grid. */
  lemma CancelKeepsInGrid(b: Bookings, day: Day, seat: Seat)
    requires BookedSeatsInGrid(b)
    ensures BookedSeatsInGrid(WithoutBooking(b, day, seat))
  {
    CancelKeepsOthers(b, day, seat);
    var r := WithoutBooking(b, day, seat);
    forall d, s | IsSeatTaken(r, d, s)
      ensures IsDesk(s)
    {
      assert Lookup(r, d, s) == Lookup(b, d, s);
      assert IsSeatTaken(b, d, s);
    }
  }

  /** The values of the component's state hooks. */
  datatype PageState = PageState(
    selectedDay: Day,
    bookings: Bookings,
    lunchCounters: LunchCounters,
    selectedSeat: Option<Seat>,
    employeeName: string,
    showDialog: bool,
    showAlert: bool)
  {
    /** What every handler keeps, in any order of events. */
    ghost predicate Valid() {
      NoEmptyDays(bookings) && NamesTrimmed(bookings) && CountersNonNegative(lunchCounters)
    }

    /**
     * What holds as long as events come only from the rendered page (bookings from the
     * dialog, which a click on a free desk opens; cancellations from clicks on taken
     * desks): each day's counter equals its number of booked seats, every booked seat is
     * a desk of the grid, and an open dialog is for a free desk of the grid.
     */
    ghost predicate Consistent() {
      Valid() && CountsMatch(bookings, lunchCounters) && BookedSeatsInGrid(bookings)
      && (showDialog ==> selectedSeat.Some? && IsDesk(selectedSeat.value)
                         && !IsSeatTaken(bookings, selectedDay, selectedSeat.value))
    }
  }

  /** The initial values of the `useState` hooks. */
  const Initial := PageState(Monday, map[], map[], None, "", false, false)

  /** `handleSeatClick`: a free seat is selected, the name cleared and the dialog opened. */
  function SeatClickStep(st: PageState, seat: Seat): PageState {
    if IsSeatTaken(st.bookings, st.selectedDay, seat) then st
    else st.(selectedSeat := Some(seat), employeeName := "", showDialog := true)
  }

  /**
   * `handleBookSeat` with the clock reading `weekday`: a submission without a seat or
   * with a blank name is ignored; booking Monday on a Monday shows the alert and closes
   * the dialog; otherwise the trimmed name is stored, the counter raised and the form
   * cleared.
   */
  function BookSeatStep(st: PageState, weekday: JsWeekday): PageState {
    if NoSeatSelected(st.selectedSeat) || Trim(st.employeeName) == [] then
      st
    else if st.selectedDay == Monday && GetCurrentDay(weekday) == Monday then
      st.(showAlert := true, showDialog := false)
    else
      st.(bookings := WithBooking(st.bookings, st.selectedDay, st.selectedSeat.value, Trim(st.employeeName)),
          lunchCounters := Incremented(st.lunchCounters, st.selectedDay),
          showDialog := false, selectedSeat := None, employeeName := "")
  }

  /** `handleCancelBooking(day, seat)`. */
  function CancelStep(st: PageState, day: Day, seat: Seat): PageState {
    st.(bookings := WithoutBooking(st.bookings, day, seat),
        lunchCounters := Decremented(st.lunchCounters, day))
  }

  /** A click on a desk of the grid: cancel a taken desk, open the form for a free one. */
  function SpotClickStep(st: PageState, seat: Seat): PageState {
    if IsSeatTaken(st.bookings, st.selectedDay, seat) then CancelStep(st, st.selectedDay, seat)
    else SeatClickStep(st, seat)
  }

  /**
   * A submission of the form. It is ignored when no seat is selected or the name is blank.
   * It is rejected when the selected day and today are both Monday: the maps stay as they
   * were, the alert shows and the dialog closes. Otherwise the seat is taken by the
   * trimmed name (whether or not it was taken before), the day's counter goes up by
   * exactly 1, nothing else in either map changes and the form is cleared.
   */
  lemma BookSeatOutcome(st: PageState, weekday: JsWeekday)
    ensures var r := BookSeatStep(st, weekday);
            (NoSeatSelected(st.selectedSeat) || AllWhitespace(st.employeeName) ==> r == st)
    ensures var r := BookSeatStep(st, weekday);
            (!NoSeatSelected(st.selectedSeat) && !AllWhitespace(st.employeeName)
             && st.selectedDay == Monday && weekday == 1
             ==> r.bookings == st.bookings && r.lunchCounters == st.lunchCounters
                 && r.showAlert && !r.showDialog)
    ensures !NoSeatSelected(st.selectedSeat) && !AllWhitespace(st.employeeName)
            && !(st.selectedDay == Monday && weekday == 1)
            ==> var r := BookSeatStep(st, weekday);
                var day, seat := st.selectedDay, st.selectedSeat.value;
                (IsSeatTaken(r.bookings, day, seat) && SeatOwner(r.bookings, day, seat) == Trim(st.employeeName)
                 && LunchCount(r.lunchCounters, day) == LunchCount(st.lunchCounters, day) + 1
                 && (forall d, s :: d != day || s != seat ==> Lookup(r.bookings, d, s) == Lookup(st.bookings, d, s))
                 && (forall d :: d != day ==> LunchCount(r.lunchCounters, d) == LunchCount(st.lunchCounters, d))
                 && r.selectedSeat == None && r.employeeName == "" && !r.showDialog)
  {
    if !NoSeatSelected(st.selectedSeat) {
      BookKeepsOthers(st.bookings, st.selectedDay, st.selectedSeat.value, Trim(st.employeeName));
    }
  }

  /**
   * After a cancellation the seat is free, every other (day, seat) pair reads as before,
   * the day's counter is one less but never below 0, and, given no empty day maps,
   * cancelling a seat that was not booked leaves the bookings as they were.
   */
  lemma CancelOutcome(st: PageState, day: Day, seat: Seat)
    ensures var r := CancelStep(st, day, seat);
            !IsSeatTaken(r.bookings, day, seat)
            && (forall d, s :: d != day || s != seat ==> Lookup(r.bookings, d, s) == Lookup(st.bookings, d, s))
            && LunchCount(r.lunchCounters, day) == Max(LunchCount(st.lunchCounters, day) - 1, 0)
    ensures st.Valid() && !IsSeatTaken(st.bookings, day, seat) ==> CancelStep(st, day, seat).bookings == st.bookings
  {
    CancelKeepsOthers(st.bookings, day, seat);
    CancelDayKey(st.bookings, day, seat);
  }

  /**
   * Booking the free desk of the open dialog and then clicking that desk in the grid
   * cancels the booking again: the bookings are as before and every day's counter reads
   * as before.
   */
  lemma {:induction false} ClickUndoesBooking(st: PageState, weekday: JsWeekday)
    requires st.Consistent() && st.showDialog && !AllWhitespace(st.employeeName)
    requires !(st.selectedDay == Monday && weekday == 1)
    ensures var r := SpotClickStep(BookSeatStep(st, weekday), st.selectedSeat.value);
            r.bookings == st.bookings
            && forall d :: LunchCount(r.lunchCounters, d) == LunchCount(st.lunchCounters, d)
  {
    TrimShape(st.employeeName);
    var day, seat, name := st.selectedDay, st.selectedSeat.value, Trim(st.employeeName);
    var booked := BookSeatStep(st, weekday);
    assert booked.bookings == WithBooking(st.bookings, day, seat, name);
    assert booked.lunchCounters == Incremented(st.lunchCounters, day);
    assert IsSeatTaken(booked.bookings, booked.selectedDay, seat);
    CancelUndoesBook(st.bookings, st.lunchCounters, day, seat, name);
  }

  /** Every handler keeps Valid, so counters never go below 0 and no day map is left empty. */
  lemma BookSeatKeepsValid(st: PageState, weekday: JsWeekday)
    requires st.Valid()
    ensures BookSeatStep(st, weekday).Valid()
  {
    if !NoSeatSelected(st.selectedSeat) && Trim(st.employeeName) != [] {
      TrimIdempotent(st.employeeName);
      BookKeepsShape(st.bookings, st.selectedDay, st.selectedSeat.value, Trim(st.employeeName));
    }
  }

  lemma CancelKeepsValid(st: PageState, day: Day, seat: Seat)
    requires st.Valid()
    ensures CancelStep(st, day, seat).Valid()
  {
    CancelKeepsShape(st.bookings, day, seat);
  }

  /** Submitting the open dialog keeps the counters equal to the numbers of booked seats. */
  lemma BookSeatKeepsConsistent(st: PageState, weekday: JsWeekday)
    requires st.Consistent() && st.showDialog
    ensures BookSeatStep(st, weekday).Consistent()
  {
    BookSeatKeepsValid(st, weekday);
    if !NoSeatSelected(st.selectedSeat) && Trim(st.employeeName) != [] {
      BookKeepsCounts(st.bookings, st.lunchCounters, st.selectedDay, st.selectedSeat.value, Trim(st.employeeName));
      BookKeepsInGrid(st.bookings, st.selectedDay, st.selectedSeat.value, Trim(st.employeeName));
    }
  }

  /** Cancelling a taken seat keeps the counters equal to the numbers of booked seats. */
  lemma CancelKeepsConsistent(st: PageState, day: Day, seat: Seat)
    requires st.Consistent() && IsSeatTaken(st.bookings, day, seat)
    ensures CancelStep(st, day, seat).Consistent()
  {
    CancelKeepsValid(st, day, seat);
    CancelKeepsCounts(st.bookings, st.lunchCounters, day, seat);
    CancelKeepsInGrid(st.bookings, day, seat);
    if st.showDialog {
      CancelKeepsFree(st.bookings, day, seat, st.selectedDay, st.selectedSeat.value);
    }
  }

  /** A grid click keeps Consistent: a click on a taken desk cancels a booking that exists. */
  lemma SpotClickKeepsConsistent(st: PageState, seat: Seat)
    requires st.Consistent() && IsDesk(seat)
    ensures SpotClickStep(st, seat).Consistent()
  {
    if IsSeatTaken(st.bookings, st.selectedDay, seat) {
      CancelKeepsConsistent(st, st.selectedDay, seat);
    }
  }

  /** The events the page reacts to. */
  datatype Event =
    | ChooseDay(day: Day)            // a day button
    | TypeName(name: string)         // the name field's onChange
    | DismissDialog                  // the dialog's Cancel button or onOpenChange(false)
    | AlertTimeout                   // the 3000 ms timer after the alert
    | ClickSpot(seat: Seat)          // a desk of the grid
    | Submit(weekday: JsWeekday)     // Book Seat button or Enter, with the clock's weekday
    | CancelSeat(day: Day, seat: Seat)  // handleCancelBooking called directly
    | OpenForm(seat: Seat)           // handleSeatClick called directly

  function Step(st: PageState, e: Event): PageState {
    match e
    case ChooseDay(day) => st.(selectedDay := day)
    case TypeName(name) => st.(employeeName := name)
    case DismissDialog => st.(showDialog := false)
    case AlertTimeout => st.(showAlert := false)
    case ClickSpot(seat) => SpotClickStep(st, seat)
    case Submit(weekday) => BookSeatStep(st, weekday)
    case CancelSeat(day, seat) => CancelStep(st, day, seat)
    case OpenForm(seat) => SeatClickStep(st, seat)
  }

  function Run(st: PageState, events: seq<Event>): PageState
    decreases |events|
  {
    if events == [] then st else Run(Step(st, events[0]), events[1..])
  }

  /**
   * Events the rendered page can deliver in a state: only the desks of the grid can be
   * clicked (`OfficeSpotsAreDesks`), the form is submitted only while the dialog is
   * open, a day is chosen only while the (modal) dialog is closed, and the handlers are
   * reached only through the grid, never called directly.
   */
  predicate Deliverable(st: PageState, e: Event) {
    match e
    case ClickSpot(seat) => IsDesk(seat)
    case Submit(_) => st.showDialog
    case ChooseDay(_) => !st.showDialog
    case CancelSeat(_, _) => false
    case OpenForm(_) => false
    case _ => true
  }

  predicate DeliverableRun(st: PageState, events: seq<Event>)
    decreases |events|
  {
    events == [] || (Deliverable(st, events[0]) && DeliverableRun(Step(st, events[0]), events[1..]))
  }

  lemma StepKeepsValid(st: PageState, e: Event)
    requires st.Valid()
    ensures Step(st, e).Valid()
  {
    match e
    case ClickSpot(seat) =>
      if IsSeatTaken(st.bookings, st.selectedDay, seat) {
        CancelKeepsValid(st, st.selectedDay, seat);
      }
    case Submit(weekday) => BookSeatKeepsValid(st, weekday);
    case CancelSeat(day, seat) => CancelKeepsValid(st, day, seat);
    case _ =>
  }

  /** After any sequence of events, direct handler calls included, Valid still holds: no counter is negative. */
  lemma {:induction false} RunKeepsValid(st: PageState, events: seq<Event>)
    requires st.Valid()
    ensures Run(st, events).Valid()
    ensures forall d :: LunchCount(Run(st, events).lunchCounters, d) >= 0
    decreases |events|
  {
    if events != [] {
      StepKeepsValid(st, events[0]);
      RunKeepsValid(Step(st, events[0]), events[1..]);
    }
  }

  lemma StepKeepsConsistent(st: PageState, e: Event)
    requires st.Consistent() && Deliverable(st, e)
    ensures Step(st, e).Consistent()
  {
    match e
    case ClickSpot(seat) => SpotClickKeepsConsistent(st, seat);
    case Submit(weekday) => BookSeatKeepsConsistent(st, weekday);
    case _ =>
  }

  /**
   * Along any run the page can deliver, from the initial state, each day's lunch counter
   * equals the number of seats booked on that day and no day maps to an empty seat map.
   */
  lemma {:induction false} DeliverableRunKeepsCounts(st: PageState, events: seq<Event>)
    requires st.Consistent() && DeliverableRun(st, events)
    ensures Run(st, events).Consistent()
    ensures forall d :: LunchCount(Run(st, events).lunchCounters, d) == SeatsBooked(Run(st, events).bookings, d)
    decreases |events|
  {
    if events != [] {
      StepKeepsConsistent(st, events[0]);
      DeliverableRunKeepsCounts(Step(st, events[0]), events[1..]);
    }
  }

  lemma InitialIsConsistent()
    ensures Initial.Consistent()
  {
  }

  /** The component `SeatBookingApp`: its state fields and its handlers. */
  class SeatBookingApp {
    var selectedDay: Day
    var bookings: Bookings
    var lunchCounters: LunchCounters
    var selectedSeat: Option<Seat>
    var employeeName: string
    var showDialog: bool
    var showAlert: bool

    /** The component's state as a value. */
    ghost function State(): PageState
      reads this
    {
      PageState(selectedDay, bookings, lunchCounters, selectedSeat, employeeName, showDialog, showAlert)
    }

    ghost predicate Valid()
      reads this
    {
      State().Valid()
    }

    ghost predicate Consistent()
      reads this
    {
      State().Consistent()
    }

    /** The initial state of the `useState` hooks. */
    constructor ()
      ensures State() == Initial && Consistent()
    {
      selectedDay := Monday;
      bookings := map[];
      lunchCounters := map[];
      selectedSeat := None;
      employeeName := "";
      showDialog := false;
      showAlert := false;
    }

    /** A click on a day button. */
    method SelectDay(day: Day)
      requires Valid()
      modifies this
      ensures State() == Step(old(State()), ChooseDay(day))
      ensures Valid()
      ensures old(Consistent()) && !old(showDialog) ==> Consistent()
    {
      selectedDay := day;
    }

    /** Typing in the name field. */
    method SetEmployeeName(name: string)
      requires Valid()
      modifies this
      ensures State() == Step(old(State()), TypeName(name))
      ensures Valid()
      ensures old(Consistent()) ==> Consistent()
    {
      employeeName := name;
    }

    /** Dismissing the dialog (its Cancel button, Escape or a click outside it). */
    method CloseDialog()
      requires Valid()
      modifies this
      ensures State() == Step(old(State()), DismissDialog)
      ensures Valid()
      ensures old(Consistent()) ==> Consistent()
    {
      showDialog := false;
    }

    /** The alert timer firing. */
    method DismissAlert()
      requires Valid()
      modifies this
      ensures State() == Step(old(State()), AlertTimeout)
      ensures Valid()
      ensures old(Consistent()) ==> Consistent()
    {
      showAlert := false;
    }

    /** `handleSeatClick`: a taken seat changes nothing; a free seat opens the form for it. */
    method SeatClick(seat: Seat)
      requires Valid()
      modifies this
      ensures State() == SeatClickStep(old(State()), seat)
      ensures Valid()
      ensures old(Consistent()) && IsDesk(seat) ==> Consistent()
    {
      if IsSeatTaken(bookings, selectedDay, seat) {
        return;
      }
      selectedSeat := Some(seat);
      employeeName := "";
      showDialog := true;
    }

    /** `handleBookSeat`, with `weekday` the clock's `getDay()`. */
    method BookSeat(weekday: JsWeekday)
      requires Valid()
      modifies this
      ensures State() == BookSeatStep(old(State()), weekday)
      ensures Valid()
      ensures old(Consistent()) && old(showDialog) ==> Consistent()
    {
      ghost var st := State();
      var trimmed := Trim(employeeName);
      if NoSeatSelected(selectedSeat) || trimmed == [] {
        assert BookSeatStep(st, weekday) == st;
      } else {
        var isBookingForToday := selectedDay == Monday && GetCurrentDay(weekday) == Monday;
        if isBookingForToday {
          assert BookSeatStep(st, weekday) == st.(showAlert := true, showDialog := false);
          showAlert := true;
          showDialog := false;
        } else {
          ghost var seat, name := selectedSeat.value, trimmed;
          assert BookSeatStep(st, weekday) == st.(bookings := WithBooking(st.bookings, st.selectedDay, seat, name),
            lunchCounters := Incremented(st.lunchCounters, st.selectedDay),
            showDialog := false, selectedSeat := None, employeeName := "");
          CommitBooking(selectedSeat.value, trimmed);
        }
      }
      assert State() == BookSeatStep(st, weekday);
      BookSeatKeepsValid(st, weekday);
      if st.Consistent() && st.showDialog {
        BookSeatKeepsConsistent(st, weekday);
      }
    }

    /**
     * The setters an accepted booking calls (`setBookings`, `setLunchCounters`,
     * `setShowDialog(false)`, `setSelectedSeat(null)`, `setEmployeeName("")`), which
     * React applies together as one update of the component.
     */
    method CommitBooking(seat: Seat, name: string)
      modifies this
      ensures State() == old(State()).(bookings := WithBooking(old(bookings), old(selectedDay), seat, name),
        lunchCounters := Incremented(old(lunchCounters), old(selectedDay)),
        showDialog := false, selectedSeat := None, employeeName := "")
    {
      bookings := WithBooking(bookings, selectedDay, seat, name);
      lunchCounters := Incremented(lunchCounters, selectedDay);
      showDialog := false;
      selectedSeat := None;
      employeeName := "";
    }

    /** `handleCancelBooking`: free the seat and lower the day's counter, floored at 0. */
    method CancelBooking(day: Day, seat: Seat)
      requires Valid()
      modifies this
      ensures State() == CancelStep(old(State()), day, seat)
      ensures Valid()
      ensures old(Consistent()) && old(IsSeatTaken(bookings, day, seat)) ==> Consistent()
    {
      ghost var st := State();
      bookings := WithoutBooking(bookings, day, seat);
      lunchCounters := Decremented(lunchCounters, day);
      assert State() == CancelStep(st, day, seat);
      CancelKeepsValid(st, day, seat);
      if st.Consistent() && IsSeatTaken(st.bookings, day, seat) {
        CancelKeepsConsistent(st, day, seat);
      }
    }

    /** The grid's onClick: a taken desk is cancelled at once, a free desk opens the form. */
    method SpotClick(seat: Seat)
      requires Valid()
      modifies this
      ensures State() == SpotClickStep(old(State()), seat)
      ensures Valid()
      ensures old(Consistent()) && IsDesk(seat) ==> Consistent()
    {
      ghost var st := State();
      if st.Consistent() && IsDesk(seat) {
        SpotClickKeepsConsistent(st, seat);
      }
      if IsSeatTaken(bookings, selectedDay, seat) {
        CancelBooking(selectedDay, seat);
      } else {
        SeatClick(seat);
      }
    }
  }
}
