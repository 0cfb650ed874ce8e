/**
 * The fixed day labels and desk numbers of the booking page, and the mapping
 * from the clock's weekday to a Monday-first day label.
 */
module Days {
  /** The seven days the page offers. Every day key the page uses is one of them. */
  datatype Day = Monday | Tuesday | Wednesday | Thursday | Friday | Saturday | Sunday

  /** The label the page shows for a day (and uses as its key). */
  function Label(d: Day): string {
    match d
    case Monday => "Monday"
    case Tuesday => "Tuesday"
    case Wednesday => "Wednesday"
    case Thursday => "Thursday"
    case Friday => "Friday"
    case Saturday => "Saturday"
    case Sunday => "Sunday"
  }

  /** `DAYS_OF_WEEK`: the days, Monday first. */
  const DaysOfWeek: seq<Day> := [Monday, Tuesday, Wednesday, Thursday, Friday, Saturday, Sunday]

  /** `OFFICE_SPOTS`: the desk numbers shown in the grid, 1 to 20. */
  const OfficeSpots: seq<int> := seq(20, i => i + 1)

  /** A value of JavaScript's `Date.prototype.getDay()`: 0 is Sunday, 6 is Saturday. */
  type JsWeekday = w: int | 0 <= w <= 6

  /**
   * The day that `getDay()` denotes, in its own Sunday-first numbering.
   * This is the reference against which the Monday-first remapping is checked.
   */
  function JsDay(weekday: JsWeekday): Day {
    [Sunday, Monday, Tuesday, Wednesday, Thursday, Friday, Saturday][weekday]
  }

  /** Index into DaysOfWeek of today's day: Sunday (0) wraps to 6, every other day moves down by one. */
  function CurrentDayIndex(weekday: JsWeekday): (i: nat)
    ensures i < |DaysOfWeek|
    ensures DaysOfWeek[i] == JsDay(weekday)
  {
    if weekday == 0 then 6 else weekday - 1
  }

  /** The inverse of CurrentDayIndex: the `getDay()` value of the i-th day of DaysOfWeek. */
  function WeekdayOfIndex(i: nat): (weekday: JsWeekday)
    requires i < |DaysOfWeek|
    ensures CurrentDayIndex(weekday) == i
    ensures JsDay(weekday) == DaysOfWeek[i]
  {
    (i + 1) % 7
  }

  /** `getCurrentDay`: the day the clock's weekday denotes. */
  function GetCurrentDay(weekday: JsWeekday): (day: Day)
    ensures day in DaysOfWeek
    ensures day == JsDay(weekday)
    ensures day == Monday <==> weekday == 1
  {
    DaysOfWeek[CurrentDayIndex(weekday)]
  }

  /** Distinct days have distinct labels, so comparing days is comparing their labels. */
  lemma LabelInjective(d1: Day, d2: Day)
    ensures Label(d1) == Label(d2) <==> d1 == d2
  {
  }

  /** A desk number the grid renders. */
  predicate IsDesk(seat: int) {
    1 <= seat <= 20
  }

  /** The grid's desks are exactly the numbers 1 to 20. */
  lemma OfficeSpotsAreDesks(seat: int)
    ensures seat in OfficeSpots <==> IsDesk(seat)
  {
    if 1 <= seat <= 20 {
      assert OfficeSpots[seat - 1] == seat;
    }
  }
}
