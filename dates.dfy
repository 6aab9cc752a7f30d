/**
 * Calendar arithmetic used by the practice handlers.
 *
 * A date is a day number in Python's proleptic ordinal numbering
 * (day 1 is 0001-01-01, a Monday), so `date.weekday()` is `(d + 6) % 7`
 * with Monday as 0. An instant is a number of seconds on the same time
 * line: day `d` covers the instants `d * 86400 .. d * 86400 + 86399`.
 */
module Dates {

  type Date = int
  type Instant = int

  const SecondsPerDay: int := 86400

  /** The calendar date of an instant (`datetime.date()`). */
  function DateOf(t: Instant): (d: Date)
    ensures d * SecondsPerDay <= t < (d + 1) * SecondsPerDay
  {
    t / SecondsPerDay
  }

  /** `date.weekday()`: 0 for Monday up to 6 for Sunday. */
  function Weekday(d: Date): (w: int)
    ensures 0 <= w < 7
    ensures (d - w + 6) % 7 == 0
  {
    (d + 6) % 7
  }

  predicate IsMonday(d: Date) {
    Weekday(d) == 0
  }

  /**
   * `get_week_start`: the Monday of the week of `d`, obtained by going
   * back `weekday()` days.
   */
  function WeekStart(d: Date): (m: Date)
    ensures IsMonday(m)
    ensures m <= d <= m + 6
  {
    d - Weekday(d)
  }

  /** The Monday on or before `d` is unique: any Monday in the six days up to `d` is it. */
  lemma {:induction false} WeekStartUnique(d: Date, m: Date)
    requires IsMonday(m) && m <= d <= m + 6
    ensures WeekStart(d) == m
  {
    var w := WeekStart(d);
    assert (m + 6) % 7 == 0 && (w + 6) % 7 == 0;
    assert (w - m) % 7 == 0 by {
      assert w - m == (w + 6) - (m + 6);
    }
    assert -6 <= w - m <= 6;
  }

  /** Two dates lie in the same week exactly when they have the same week start. */
  lemma {:induction false} SameWeek(d1: Date, d2: Date)
    ensures WeekStart(d1) == WeekStart(d2) <==> (WeekStart(d1) <= d2 <= WeekStart(d1) + 6)
  {
    if WeekStart(d1) <= d2 <= WeekStart(d1) + 6 {
      WeekStartUnique(d2, WeekStart(d1));
    }
  }

  /** Going back to Monday twice changes nothing. */
  lemma {:induction false} WeekStartIdempotent(d: Date)
    ensures WeekStart(WeekStart(d)) == WeekStart(d)
  {
    WeekStartUnique(WeekStart(d), WeekStart(d));
  }

  /** Week starts are monotone in the date. */
  lemma {:induction false} WeekStartMonotone(d1: Date, d2: Date)
    requires d1 <= d2
    ensures WeekStart(d1) <= WeekStart(d2)
  {
    if WeekStart(d2) < WeekStart(d1) {
      assert WeekStart(d1) <= d2 <= WeekStart(d1) + 6;
      WeekStartUnique(d2, WeekStart(d1));
    }
  }
}
