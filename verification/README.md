# Seat booking page: a verified model of its booking state machine

The office seat-booking page (`app/page.tsx`) is one React component. It shows seven
day buttons, a grid of 20 desks and a lunch counter for the selected day. A click on a
free desk opens a dialog that asks for an employee name. A click on a taken desk cancels
that booking at once. Submitting the dialog stores the trimmed name and adds 1 to the
day's lunch counter. The exception is booking Monday on a Monday: that is refused with
an alert.

This project models the component's state and its handlers, without the rendering:

- `wrappers.dfy`, module `Wrappers`: the `Option` type, standing for JavaScript's
  `undefined`/`null`.
- `days.dfy`, module `Days`: the seven day labels as an enumeration, the `getDay()`
  numbering of the clock, `getCurrentDay` and the desk numbers of the grid.
- `js_strings.dfy`, module `JsStrings`: `String.prototype.trim`, with the whitespace
  and line-terminator characters of the ECMAScript language specification written out.
- `booking_maps.dfy`, module `BookingMaps`:
  - the two maps `bookings` (day → seat → name) and `lunchCounters` (day → number) as
    values;
  - the queries `isSeatTaken` and `getSeatOwner`;
  - the map updates each handler makes, and the lemmas about them.
- `booking_page.dfy`, module `BookingPage`:
  - the component state as a value (`PageState`);
  - each handler as a step function on that value;
  - the events of the page, and the invariants every run and every run the page can
    deliver keep;
  - the component itself as the class `SeatBookingApp`. Its fields are the seven state
    hooks and its methods are the handlers.

Each method of the class is proved to leave the component in the state that its step
function computes from the old state. It is also proved to keep the invariants that the
lemmas establish for that step.

Two invariants are proved:

- `PageState.Valid`. No counter is negative, no day key maps to an empty seat map, and
  every stored name is non-empty and trimmed. This holds after any sequence of events,
  including direct calls of the handlers.
- `PageState.Consistent`. Every day's lunch counter equals the number of seats booked on
  that day, every booked seat is a desk of the grid, and an open dialog is for a free
  desk. This holds for every sequence of events the rendered page can deliver:
  - desks are clicked only in the grid;
  - the form is submitted only from the open dialog;
  - no day button is reachable while the modal dialog is open.

Three points of the code that the model keeps as written:

- `handleBookSeat` does not check that the seat is free; only `handleSeatClick` does
  (`app/page.tsx:50`). `BookingMaps.OverwriteBreaksCounts` shows the effect of
  submitting the form for a taken seat: the owner is overwritten and the counter no
  longer matches.
- Booking Monday on a Monday leaves both maps unchanged, but it does change the page: it
  sets the alert flag and closes the dialog (`app/page.tsx:63-68`).
- `handleCancelBooking` removes a day key once its seat map is empty
  (`app/page.tsx:95-97`). Since day maps are created only with a seat in them, no day
  key ever maps to an empty seat map, after any sequence of events, so cancelling a
  booking that does not exist leaves `bookings` unchanged.

## Model

| member | source | states |
|---|---|---|
| Days.CurrentDayIndex | app/page.tsx:36-39 | The index into the day labels is always valid, and the label at it is the day that the clock's `getDay()` value denotes (Sunday is 0), so Sunday maps to index 6 and Monday to index 0 |
| Days.WeekdayOfIndex | app/page.tsx:36-39 | Every index of the day labels is reached by some `getDay()` value, so the mapping covers the whole week |
| Days.GetCurrentDay | app/page.tsx:36-39 | The current day is one of the seven labels, is the day the clock's weekday denotes, and is Monday exactly when `getDay()` is 1 |
| Days.LabelInjective | app/page.tsx:13 | Distinct days have distinct labels, so the labels can serve as map keys in place of the strings |
| Days.OfficeSpotsAreDesks | app/page.tsx:15 | The grid's desks are exactly the numbers 1 to 20 |
| JsStrings.Trim | app/page.tsx:59 | `employeeName.trim()`: the text without the whitespace at either end; its behaviour is stated by TrimShape and TrimIdempotent |
| JsStrings.TrimShape | app/page.tsx:59 | `trim()` gives the empty string exactly when the text is all whitespace; otherwise the result neither starts nor ends with whitespace, and it is a contiguous part of the text with only whitespace cut on either side |
| JsStrings.TrimIdempotent | app/page.tsx:75 | Trimming a stored (already trimmed) name changes nothing |
| BookingMaps.IsSeatTaken | app/page.tsx:41-43 | A seat is taken exactly when the bookings have an entry for that day and that seat |
| BookingMaps.SeatOwner | app/page.tsx:45-47 | The owner is the stored name when the seat is taken, and "" otherwise |
| BookingMaps.LunchCount | app/page.tsx:82 | A counter reads as its stored value, or as 0 when the day has no entry |
| BookingMaps.WithBooking | app/page.tsx:71-77 | After the bookings update the seat holds the given name and the day is a key |
| BookingMaps.BookKeepsOthers | app/page.tsx:71-77 | The bookings update changes no other seat of that day and no other day's seat map |
| BookingMaps.BookedSeatCount | app/page.tsx:71-77 | Booking a free seat adds exactly one seat to the day; booking a taken seat leaves the day's number of seats as it was |
| BookingMaps.BookKeepsShape | app/page.tsx:71-77 | Storing a non-empty trimmed name keeps every day map non-empty and every stored name non-empty and trimmed |
| BookingMaps.Incremented | app/page.tsx:80-83 | The day's counter goes up by exactly 1 (from 0 when it had no entry), every other counter is unchanged, and non-negative counters stay non-negative |
| BookingMaps.WithoutBooking | app/page.tsx:91-100 | After the cancellation the seat is free, and only the entry for that day can have changed |
| BookingMaps.CancelKeepsOthers | app/page.tsx:91-100 | The day's seat map loses exactly that seat, every other day's seat map is unchanged, and every other (day, seat) pair reads as before |
| BookingMaps.CancelKeepsFree | app/page.tsx:91-100 | A seat that was free stays free after any cancellation |
| BookingMaps.CancelDayKey | app/page.tsx:93-97 | The day key survives a cancellation exactly when another seat is still booked on that day; with no empty day maps, cancelling a seat that is not booked leaves the bookings unchanged |
| BookingMaps.CancelKeepsShape | app/page.tsx:93-97 | Cancelling keeps every day map non-empty and every stored name non-empty and trimmed |
| BookingMaps.Decremented | app/page.tsx:103-106 | The day's counter goes down by 1 when it was at least 1 and is 0 otherwise; the other counters are unchanged and non-negative counters stay non-negative |
| BookingMaps.BookKeepsCounts | app/page.tsx:71-83 | Booking a free seat keeps every day's counter equal to that day's number of booked seats |
| BookingMaps.OverwriteBreaksCounts | app/page.tsx:58-83 | Submitting the form for a seat that is already taken overwrites its owner and still adds 1 to the counter, so the counter no longer equals the number of booked seats |
| BookingMaps.CancelKeepsCounts | app/page.tsx:90-106 | Cancelling a taken seat keeps every day's counter equal to that day's number of booked seats |
| BookingMaps.CancelUndoesBook | app/page.tsx:71-106 | Given no empty day maps, cancelling a booking just made on a free seat restores the bookings exactly, and every counter reads as before when the day's count was not negative |
| BookingPage.BookKeepsInGrid | app/page.tsx:170-187 | Booking a desk of the grid keeps every booked seat a desk of the grid |
| BookingPage.CancelKeepsInGrid | app/page.tsx:90-100 | Cancelling keeps every remaining booked seat a desk of the grid |
| BookingPage.SeatClickStep | app/page.tsx:49-56 | `handleSeatClick` on the state as a value: a taken seat changes nothing, a free seat becomes the selection with an empty name and an open dialog; SpotClickKeepsConsistent states that this keeps the page consistent |
| BookingPage.BookSeatStep | app/page.tsx:58-88 | `handleBookSeat` on the state as a value; its three branches are stated by BookSeatOutcome |
| BookingPage.CancelStep | app/page.tsx:90-107 | `handleCancelBooking` on the state as a value; its effect is stated by CancelOutcome, and the removal of an emptied day key by BookingMaps.CancelDayKey |
| BookingPage.SpotClickStep | app/page.tsx:185-187 | The grid's onClick on the state as a value: cancel a taken desk of the selected day, open the form for a free one; SpotClickKeepsConsistent and ClickUndoesBooking state its effect |
| BookingPage.BookSeatOutcome | app/page.tsx:58-88 | A submission with no seat (null or 0) or a blank name changes nothing. Booking Monday on a Monday leaves both maps unchanged, sets the alert and closes the dialog. Otherwise the seat is taken by the trimmed name, the day's counter goes up by exactly 1, no other seat or counter changes, and the form is cleared |
| BookingPage.ClickUndoesBooking | app/page.tsx:185-187 | Booking the dialog's free desk and then clicking that desk in the grid restores the bookings and every counter |
| BookingPage.CancelOutcome | app/page.tsx:90-107 | After a cancellation the seat is free, no other (day, seat) pair changes, and the counter becomes max(old − 1, 0); cancelling a booking that does not exist leaves the bookings unchanged |
| BookingPage.BookSeatKeepsValid | app/page.tsx:58-88 | A submission keeps counters non-negative, day maps non-empty and stored names trimmed |
| BookingPage.CancelKeepsValid | app/page.tsx:90-107 | A cancellation keeps counters non-negative, day maps non-empty and stored names trimmed |
| BookingPage.BookSeatKeepsConsistent | app/page.tsx:58-88 | Submitting the open dialog keeps the counters equal to the numbers of booked seats, every booked seat on the grid and the dialog's desk free |
| BookingPage.CancelKeepsConsistent | app/page.tsx:90-107 | Cancelling a taken seat keeps the counters equal to the numbers of booked seats and keeps an open dialog's desk free |
| BookingPage.SpotClickKeepsConsistent | app/page.tsx:185-187 | A click on a desk of the grid, which cancels a taken desk or opens the form for a free one, keeps the page consistent |
| BookingPage.StepKeepsValid | app/page.tsx:49-107 | Every event, direct handler calls included, keeps the page valid |
| BookingPage.RunKeepsValid | app/page.tsx:49-107 | After any sequence of events no lunch counter is negative, no day map is empty and every stored name is trimmed |
| BookingPage.StepKeepsConsistent | app/page.tsx:49-187 | Every event the rendered page can deliver keeps the page consistent |
| BookingPage.DeliverableRunKeepsCounts | app/page.tsx:49-187 | From a consistent state (the initial one is), along every sequence of events the page can deliver, each day's lunch counter equals the number of seats booked on that day and the page stays consistent |
| BookingPage.InitialIsConsistent | app/page.tsx:28-34 | The initial state of the hooks is consistent |
| BookingPage.SeatBookingApp.constructor | app/page.tsx:28-34 | The component starts on Monday with no bookings, no counters, no selected seat, an empty name and neither dialog nor alert shown, which is a consistent state |
| BookingPage.SeatBookingApp.SelectDay | app/page.tsx:141 | A day button changes only the selected day, and keeps the page consistent while the dialog is closed |
| BookingPage.SeatBookingApp.SetEmployeeName | app/page.tsx:225 | Typing changes only the name field |
| BookingPage.SeatBookingApp.CloseDialog | app/page.tsx:234 | Dismissing the dialog changes only the dialog flag |
| BookingPage.SeatBookingApp.DismissAlert | app/page.tsx:65 | The alert timer changes only the alert flag |
| BookingPage.SeatBookingApp.SeatClick | app/page.tsx:49-56 | A taken seat changes nothing; a free seat becomes the selection, the name is cleared and the dialog opens |
| BookingPage.SeatBookingApp.BookSeat | app/page.tsx:58-88 | The handler leaves the component in the state `BookSeatStep` computes (see BookSeatOutcome), keeps it valid, and keeps it consistent when submitted from the open dialog |
| BookingPage.SeatBookingApp.CommitBooking | app/page.tsx:70-87 | The accepted booking's setters store the name, raise the counter and clear the form, and nothing else changes |
| BookingPage.SeatBookingApp.CancelBooking | app/page.tsx:90-107 | The handler leaves the component in the state `CancelStep` computes (see CancelOutcome), keeps it valid, and keeps it consistent when the seat was taken |
| BookingPage.SeatBookingApp.SpotClick | app/page.tsx:185-187 | A click on a taken desk of the selected day cancels it; a click on a free desk opens the form; a click on a desk of the grid keeps the page consistent |

## Left out

- The rendering (JSX, Tailwind classes and the UI components `Card`, `Dialog`, `Alert`,
  `Badge`, `Button`, `Input`). The model keeps only the state the rendering reads. The
  dialog's modality and the grid's desk numbers appear only in `Deliverable`, the set
  of events the page can deliver.
- The clock. `new Date().getDay()` becomes the `weekday` parameter (0 to 6) of
  `BookSeat` and of the `Submit` event.
- The 3000 ms timer that clears the alert. Its firing is the `AlertTimeout` event
  (`DismissAlert`), which may come at any point of a run; a timer from an earlier alert
  that clears a later one is not distinguished.
- React's scheduling. Each handler is one atomic transition, and the updater functions
  passed to `setBookings` and `setLunchCounters` are applied to the state at the start of
  the handler.
- The in-place `delete` on the inner seat object, which the outer spread shares with the
  previous state (`app/page.tsx:94`). The model builds new maps; the resulting values
  are the same, but the aliasing with the previous render's object is not captured.
- Day keys are the seven-valued `Day` type, not arbitrary strings. Only the labels of
  `DAYS_OF_WEEK` ever reach the state, and `Days.LabelInjective` shows the labels
  identify the days.
- Seat keys are integers. JavaScript stores them as the property names "1" to "20",
  which identify the same seats.
- Counters and seat numbers are unbounded integers. JavaScript's double-precision
  numbers, and NaN, are not modelled.
- `Deliverable` does not let a day be chosen while the dialog is open, because the dialog
  is modal. This is an assumption about the UI library, not something the component
  checks.
- Strings are sequences of Unicode scalar values. JavaScript strings are sequences of
  UTF-16 code units, so a name holding a lone surrogate cannot be represented. `trim()`
  is unaffected: every whitespace and line-terminator character it removes lies in the
  Basic Multilingual Plane.
