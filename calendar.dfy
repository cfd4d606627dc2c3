/**
 * Sunday-start calendar arithmetic (`day_of_week_sunday_start`,
 * `get_week_sunday`, the week-of-month number). A timestamp is a whole number
 * of minutes since 0001-01-01 00:00, the earliest instant a Python `datetime`
 * holds; that day is a Monday, so `datetime.weekday()` is the day count mod 7.
 * Order dates carry no seconds, so minutes lose nothing.
 */
module Calendar {

  type Minutes = int

  const MinutesPerDay: int := 1440
  const MinutesPerWeek: int := 7 * MinutesPerDay

  /** `datetime.weekday()`: Monday = 0 ... Sunday = 6. */
  function Weekday(t: Minutes): int {
    (t / MinutesPerDay) % 7
  }

  predicate IsMidnight(t: Minutes) {
    t % MinutesPerDay == 0
  }

  predicate IsMidnightSunday(t: Minutes) {
    IsMidnight(t) && Weekday(t) == 6
  }

  /** `day_of_week_sunday_start`: the number of whole days since the most recent Sunday. */
  function DayOfWeek(t: Minutes): (d: int)
    ensures 0 <= d < 7
    ensures Weekday(t - d * MinutesPerDay) == 6
    ensures (d == 0) == (Weekday(t) == 6)
  {
    (Weekday(t) + 1) % 7
  }

  /** `get_week_sunday`: midnight of the Sunday that starts the week holding `t`. */
  function WeekSunday(t: Minutes): (s: Minutes)
    ensures IsMidnightSunday(s)
    ensures s <= t < s + MinutesPerWeek
    ensures t - s == DayOfWeek(t) * MinutesPerDay + t % MinutesPerDay
  {
    (t / MinutesPerDay - DayOfWeek(t)) * MinutesPerDay
  }

  /** Only one midnight Sunday starts a week that holds `t`. */
  lemma WeekSundayUnique(t: Minutes, s: Minutes)
    requires IsMidnightSunday(s) && s <= t < s + MinutesPerWeek
    ensures WeekSunday(t) == s
  {
    var w := WeekSunday(t);
    var a := s / MinutesPerDay;
    var b := w / MinutesPerDay;
    assert s == a * MinutesPerDay && w == b * MinutesPerDay;
    assert a % 7 == 6 && b % 7 == 6;
    assert -7 < a - b < 7;
    assert (a - b) % 7 == 0;
  }

  /** A timestamp lies in the window `[s, s + 7 days)` of a midnight Sunday `s` exactly when its week starts at `s`. */
  lemma InWindowIffWeek(t: Minutes, s: Minutes)
    requires IsMidnightSunday(s)
    ensures (s <= t < s + MinutesPerWeek) == (WeekSunday(t) == s)
  {
    if s <= t < s + MinutesPerWeek {
      WeekSundayUnique(t, s);
    }
  }

  /** Inside the window of a midnight Sunday `s`, the day of week counts whole days since `s`. */
  lemma DayOfWeekInWindow(t: Minutes, s: Minutes)
    requires IsMidnightSunday(s) && s <= t < s + MinutesPerWeek
    ensures DayOfWeek(t) == (t - s) / MinutesPerDay
  {
    WeekSundayUnique(t, s);
  }

  /** The week-of-month number `(day - 1) // 7 + 1`: the 7-day span of the month, counted from day 1, that holds `day`. */
  function WeekOfMonth(day: int): (n: int)
    requires 1 <= day <= 31
    ensures 1 <= n <= 5
    ensures 7 * (n - 1) < day <= 7 * n
  {
    (day - 1) / 7 + 1
  }
}
