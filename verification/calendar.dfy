/** Instants and day numbers. An instant is a number of milliseconds since
    1970-01-01T00:00; its day number counts whole days since then (day 0 was a
    Thursday). Local time and UTC are not told apart. */
module Calendar {

  type Instant = int

  const DayMs: int := 86400000

  /** Day number of an instant (floor division). */
  function DayOf(t: Instant): int {
    t / DayMs
  }

  /** `setHours(23, 59, 59, 999)` on any instant of the given day. */
  function EndOfDay(day: int): Instant {
    day * DayMs + (DayMs - 1)
  }

  /** `setDate(getDate() + n)`: the same time of day, n calendar days later. */
  function AddDays(t: Instant, n: int): Instant {
    t + n * DayMs
  }

  /** `getDay()`: 0 is Sunday, 6 is Saturday. */
  function Weekday(day: int): (w: int)
    ensures 0 <= w < 7
  {
    (day + 4) % 7
  }

  /** `isWeekend`: Saturday or Sunday. */
  predicate IsWeekend(day: int) {
    Weekday(day) == 0 || Weekday(day) == 6
  }

  lemma DayOfEndOfDay(day: int)
    ensures DayOf(EndOfDay(day)) == day
  {
  }

  lemma DayOfAddDays(t: Instant, n: int)
    ensures DayOf(AddDays(t, n)) == DayOf(t) + n
  {
  }

  /** The weekday advances by one each day. */
  lemma WeekdayNext(day: int)
    ensures Weekday(day + 1) == (Weekday(day) + 1) % 7
  {
  }

  /** Number of weekdays in the half-open range (a, b]. */
  function WeekdaysBetween(a: int, b: int): nat
    decreases b - a
  {
    if b <= a then 0 else WeekdaysBetween(a, b - 1) + (if IsWeekend(b) then 0 else 1)
  }

  lemma {:induction false} WeekdaysBetweenMonotone(a: int, d: int, e: int)
    requires d <= e
    ensures WeekdaysBetween(a, d) <= WeekdaysBetween(a, e)
    decreases e - d
  {
    if d < e {
      WeekdaysBetweenMonotone(a, d, e - 1);
    }
  }
}
