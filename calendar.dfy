/**
 * An idealised local Gregorian calendar standing in for Foundation's
 * `Calendar.current`: proleptic Gregorian, no time zones, no daylight saving,
 * whole seconds. A point in time (Foundation's `Date`) is represented by its
 * local calendar fields; `Instant` gives the number of seconds since
 * 0001-01-01T00:00:00 and is what `<` on dates compares.
 */
module Calendar {
  import opened Wrappers

  datatype DateTime = DateTime(year: int, month: int, day: int, hour: int, minute: int, second: int)

  /** The calendar units the app refers to (part of Foundation's `Calendar.Component`). */
  datatype Component = Era | Year | Month | WeekOfYear | Day | Hour | Minute | Second | Nanosecond

  /** Foundation's `DateComponents` restricted to the fields the app sets: any of them may be absent. */
  datatype DateComponents = DateComponents(year: Option<int>, month: Option<int>, day: Option<int>)

  predicate IsLeapYear(y: int) {
    (y % 4 == 0 && y % 100 != 0) || y % 400 == 0
  }

  function DaysInYear(y: int): int {
    if IsLeapYear(y) then 366 else 365
  }

  function DaysInMonth(y: int, m: int): (n: int)
    requires 1 <= m <= 12
    ensures 28 <= n <= 31
    ensures n == 29 <==> m == 2 && IsLeapYear(y)
  {
    if m == 2 then (if IsLeapYear(y) then 29 else 28)
    else if m == 4 || m == 6 || m == 9 || m == 11 then 30
    else 31
  }

  /** The longest a month can be in any year: February counts 29 days. */
  function MaxDaysInMonth(m: int): (n: int)
    requires 1 <= m <= 12
    ensures forall y :: DaysInMonth(y, m) <= n
    ensures DaysInMonth(2000, m) == n
  {
    if m == 2 then 29 else DaysInMonth(1, m)
  }

  predicate IsValid(d: DateTime) {
    && 1 <= d.month <= 12
    && 1 <= d.day <= DaysInMonth(d.year, d.month)
    && 0 <= d.hour < 24
    && 0 <= d.minute < 60
    && 0 <= d.second < 60
  }

  /** A point in time, given by its local calendar fields. */
  type Date = d: DateTime | IsValid(d) witness DateTime(1, 1, 1, 0, 0, 0)

  /** Days from 0001-01-01 to January 1 of year `y` (negative before year 1). */
  function DaysBeforeYear(y: int): int
    decreases if y >= 1 then y - 1 else 1 - y
  {
    if y == 1 then 0
    else if y > 1 then DaysBeforeYear(y - 1) + DaysInYear(y - 1)
    else DaysBeforeYear(y + 1) - DaysInYear(y)
  }

  /** Days from January 1 of year `y` to the first of month `m`. */
  function DaysBeforeMonth(y: int, m: int): int
    requires 1 <= m <= 12
  {
    var common :=
      if m == 1 then 0 else if m == 2 then 31 else if m == 3 then 59
      else if m == 4 then 90 else if m == 5 then 120 else if m == 6 then 151
      else if m == 7 then 181 else if m == 8 then 212 else if m == 9 then 243
      else if m == 10 then 273 else if m == 11 then 304 else 334;
    common + (if m > 2 && IsLeapYear(y) then 1 else 0)
  }

  function DayNumber(d: Date): int {
    DaysBeforeYear(d.year) + DaysBeforeMonth(d.year, d.month) + d.day - 1
  }

  function SecondOfDay(d: Date): (s: int)
    ensures 0 <= s < 86400
  {
    d.hour * 3600 + d.minute * 60 + d.second
  }

  /** Seconds since 0001-01-01T00:00:00: the instant the fields denote. */
  function Instant(d: Date): int {
    DayNumber(d) * 86400 + d.hour * 3600 + d.minute * 60 + d.second
  }

  /** Within one year, the seconds between two dates come from the days of the year and the times of day alone. */
  lemma SameYearInstants(a: Date, b: Date)
    requires a.year == b.year
    ensures Instant(b) - Instant(a)
            == (DaysBeforeMonth(b.year, b.month) + b.day - DaysBeforeMonth(a.year, a.month) - a.day) * 86400
               + SecondOfDay(b) - SecondOfDay(a)
  {
  }

  /** Foundation's `<` on `Date`. */
  predicate Before(a: Date, b: Date) {
    Instant(a) < Instant(b)
  }

  /** Lexicographic order of the calendar fields. */
  predicate LexLess(a: DateTime, b: DateTime) {
    || a.year < b.year
    || (a.year == b.year && a.month < b.month)
    || (a.year == b.year && a.month == b.month && a.day < b.day)
    || (a.year == b.year && a.month == b.month && a.day == b.day && a.hour < b.hour)
    || (a.year == b.year && a.month == b.month && a.day == b.day && a.hour == b.hour && a.minute < b.minute)
    || (a.year == b.year && a.month == b.month && a.day == b.day && a.hour == b.hour && a.minute == b.minute
        && a.second < b.second)
  }

  /** A year adds its own length to the day count. */
  lemma YearStep(y: int)
    ensures DaysBeforeYear(y + 1) == DaysBeforeYear(y) + DaysInYear(y)
  {
  }

  lemma {:induction false} YearsOrdered(a: int, b: int)
    requires a < b
    ensures DaysBeforeYear(a) + DaysInYear(a) <= DaysBeforeYear(b)
    decreases b - a
  {
    YearStep(a);
    if a + 1 < b {
      YearsOrdered(a + 1, b);
    }
  }

  lemma MonthStep(y: int, m: int)
    requires 1 <= m < 12
    ensures DaysBeforeMonth(y, m) + DaysInMonth(y, m) == DaysBeforeMonth(y, m + 1)
  {
  }

  lemma {:induction false} MonthsOrdered(y: int, a: int, b: int)
    requires 1 <= a < b <= 12
    ensures DaysBeforeMonth(y, a) + DaysInMonth(y, a) <= DaysBeforeMonth(y, b)
    decreases b - a
  {
    MonthStep(y, a);
    if a + 1 < b {
      MonthsOrdered(y, a + 1, b);
    }
  }

  /** Every day of a year lies before January 1 of the next one. */
  lemma DayWithinYear(d: Date)
    ensures DaysBeforeYear(d.year) <= DayNumber(d) < DaysBeforeYear(d.year + 1)
  {
    YearStep(d.year);
    if d.month < 12 {
      MonthsOrdered(d.year, d.month, 12);
    }
  }

  /** An earlier day means an earlier instant, whatever the times of day. */
  lemma EarlierDay(a: Date, b: Date)
    requires DayNumber(a) < DayNumber(b)
    ensures Before(a, b)
  {
    var da, db := DayNumber(a), DayNumber(b);
    assert da * 86400 + 86400 <= db * 86400;
  }

  lemma EarlierYearEarlierDay(a: Date, b: Date)
    requires a.year < b.year
    ensures DayNumber(a) < DayNumber(b)
  {
    DayWithinYear(a);
    DayWithinYear(b);
    if a.year + 1 < b.year {
      YearsOrdered(a.year + 1, b.year);
      YearStep(a.year + 1);
    }
  }

  lemma EarlierMonthEarlierDay(a: Date, b: Date)
    requires a.year == b.year && a.month < b.month
    ensures DayNumber(a) < DayNumber(b)
  {
    MonthsOrdered(a.year, a.month, b.month);
  }

  /** Calendar order and time order agree: fields in lexicographic order denote instants in that order. */
  lemma LexLessIsBefore(a: Date, b: Date)
    requires LexLess(a, b)
    ensures Before(a, b)
  {
    if a.year < b.year {
      EarlierYearEarlierDay(a, b);
      EarlierDay(a, b);
    } else if a.year == b.year && a.month < b.month {
      EarlierMonthEarlierDay(a, b);
      EarlierDay(a, b);
    } else if a.day < b.day {
      EarlierDay(a, b);
    } else {
      assert DayNumber(a) == DayNumber(b);
    }
  }

  /** `Before` is exactly the lexicographic order of the calendar fields. */
  lemma BeforeIffLexLess(a: Date, b: Date)
    ensures Before(a, b) <==> LexLess(a, b)
  {
    if LexLess(a, b) {
      LexLessIsBefore(a, b);
    } else if LexLess(b, a) {
      LexLessIsBefore(b, a);
    } else {
      assert a == b;
    }
  }

  /** Distinct dates denote distinct instants. */
  lemma InstantInjective(a: Date, b: Date)
    requires Instant(a) == Instant(b)
    ensures a == b
  {
    BeforeIffLexLess(a, b);
    BeforeIffLexLess(b, a);
  }

  /** `calendar.startOfDay(for:)`: local midnight of the same day. */
  function StartOfDay(d: Date): (r: Date)
    ensures r.year == d.year && r.month == d.month && r.day == d.day
    ensures r.hour == 0 && r.minute == 0 && r.second == 0
    ensures Instant(r) <= Instant(d) < Instant(r) + 86400
  {
    DateTime(d.year, d.month, d.day, 0, 0, 0)
  }

  /** `calendar.dateComponents([.year, .month, .day], from:)`. */
  function YearMonthDay(d: Date): DateComponents {
    DateComponents(Some(d.year), Some(d.month), Some(d.day))
  }

  /**
   * `calendar.date(from:)` on year/month/day components, at midnight.
   * Rules of this model (Foundation leaves them to its lenient conversion):
   * a missing year counts as year 1; a missing month or day, a month outside
   * 1...12 or a day outside 1...MaxDaysInMonth(month) forms no date; and a
   * February 29 in a common year is clamped to February 28.
   */
  function DateFrom(c: DateComponents): (r: Option<Date>)
    ensures r.Some? <==> (c.month.Some? && c.day.Some? && 1 <= c.month.value <= 12
                          && 1 <= c.day.value <= MaxDaysInMonth(c.month.value))
    ensures r.Some? ==> && r.value.year == c.year.GetOr(1)
                        && r.value.month == c.month.value
                        && r.value == StartOfDay(r.value)
    ensures r.Some? && c.day.value <= DaysInMonth(r.value.year, r.value.month) ==> r.value.day == c.day.value
    ensures r.Some? && c.day.value > DaysInMonth(r.value.year, r.value.month) ==>
              c.month.value == 2 && c.day.value == 29 && !IsLeapYear(r.value.year) && r.value.day == 28
  {
    match (c.month, c.day)
    case (Some(m), Some(d)) =>
      if 1 <= m <= 12 && 1 <= d <= MaxDaysInMonth(m) then
        var y := c.year.GetOr(1);
        Some(DateTime(y, m, if d <= DaysInMonth(y, m) then d else DaysInMonth(y, m), 0, 0, 0))
      else
        None
    case _ => None
  }

  // ---------------------------------------------------------------------------
  // `calendar.dateComponents(_:from:to:)`: the difference between two dates
  // ---------------------------------------------------------------------------

  /** The components a difference can carry; a unit not requested is 0. */
  datatype Difference = Difference(months: int, days: int, hours: int, minutes: int, seconds: int)

  /** Integer division truncating toward zero, the way a difference keeps its sign. */
  function TruncDiv(a: int, b: int): (q: int)
    requires b > 0
    ensures a >= 0 ==> 0 <= q && 0 <= a - q * b < b
    ensures a <= 0 ==> q <= 0 && -b < a - q * b <= 0
  {
    if a >= 0 then a / b else -((-a) / b)
  }

  /** Days, hours, minutes and seconds in a non-negative number of seconds. */
  function SplitMagnitude(t: nat): (r: Difference)
    ensures r.months == 0
    ensures r.days * 86400 + r.hours * 3600 + r.minutes * 60 + r.seconds == t
    ensures 0 <= r.days && 0 <= r.hours < 24 && 0 <= r.minutes < 60 && 0 <= r.seconds < 60
  {
    var partDay := t % 86400;
    var partHour := partDay % 3600;
    Difference(0, t / 86400, partDay / 3600, partHour / 60, partHour % 60)
  }

  /** A whole number of days splits into days alone. */
  lemma SplitWholeDays(n: nat)
    ensures SplitSeconds(n * 86400) == Difference(0, n, 0, 0, 0)
  {
    var r := SplitSeconds(n * 86400);
    assert 0 <= r.hours * 3600 + r.minutes * 60 + r.seconds < 86400;
    assert r.days == n;
  }

  /**
   * Splits a number of seconds into days, hours, minutes and seconds, each the
   * remainder of the larger ones; a negative number splits into negated parts.
   */
  function SplitSeconds(total: int): (r: Difference)
    ensures r.months == 0
    ensures r.days * 86400 + r.hours * 3600 + r.minutes * 60 + r.seconds == total
    ensures total >= 0 ==> && 0 <= r.days && 0 <= r.hours < 24 && 0 <= r.minutes < 60 && 0 <= r.seconds < 60
    ensures total <= 0 ==> && r.days <= 0 && -24 < r.hours <= 0 && -60 < r.minutes <= 0 && -60 < r.seconds <= 0
  {
    if total >= 0 then SplitMagnitude(total)
    else
      var m := SplitMagnitude(-total);
      Difference(0, -m.days, -m.hours, -m.minutes, -m.seconds)
  }

  /** Months counted from year 0: the position of a date's month on a single scale. */
  function MonthIndex(d: DateTime): int {
    d.year * 12 + d.month - 1
  }

  /** `calendar.date(byAdding: .month, value: n, to: d)`: the day is clamped to the target month's length. */
  function AddMonths(d: Date, n: int): (r: Date)
    ensures MonthIndex(r) == MonthIndex(d) + n
    ensures r.day == (if d.day <= DaysInMonth(r.year, r.month) then d.day else DaysInMonth(r.year, r.month))
    ensures SecondOfDay(r) == SecondOfDay(d)
  {
    var index := MonthIndex(d) + n;
    var y, m := index / 12, index % 12 + 1;
    DateTime(y, m, if d.day <= DaysInMonth(y, m) then d.day else DaysInMonth(y, m), d.hour, d.minute, d.second)
  }

  lemma AddNoMonths(d: Date)
    ensures AddMonths(d, 0) == d
  {
  }

  /** A date whose month comes earlier on the month scale is earlier. */
  lemma EarlierMonthIndex(a: Date, b: Date)
    requires MonthIndex(a) < MonthIndex(b)
    ensures Before(a, b)
  {
    assert LexLess(a, b);
    LexLessIsBefore(a, b);
  }

  /** Forward count: the month of `to` is reached or missed by one. */
  function MonthsForward(from: Date, to: Date): (n: int)
    requires !Before(to, from)
    ensures 0 <= n && !Before(to, AddMonths(from, n)) && Before(to, AddMonths(from, n + 1))
  {
    var guess := MonthIndex(to) - MonthIndex(from);
    if guess < 0 then
      EarlierMonthIndex(to, from);
      assert false; 0
    else
      EarlierMonthIndex(to, AddMonths(from, guess + 1));
      if Before(to, AddMonths(from, guess)) then
        AddNoMonths(from);
        EarlierMonthIndex(AddMonths(from, guess - 1), to);
        guess - 1
      else
        guess
  }

  /** Backward count, the mirror image of `MonthsForward`. */
  function MonthsBackward(from: Date, to: Date): (n: int)
    requires Before(to, from)
    ensures n <= 0 && !Before(AddMonths(from, n), to) && Before(AddMonths(from, n - 1), to)
  {
    var guess := MonthIndex(to) - MonthIndex(from);
    if guess > 0 then
      EarlierMonthIndex(from, to);
      assert false; 0
    else
      EarlierMonthIndex(AddMonths(from, guess - 1), to);
      if Before(AddMonths(from, guess), to) then
        AddNoMonths(from);
        EarlierMonthIndex(to, AddMonths(from, guess + 1));
        guess + 1
      else
        guess
  }

  /**
   * The number of whole months from `from` to `to`: the most months that can be
   * added to `from` without passing `to` (counted negatively, and towards the
   * past, when `to` is earlier).
   */
  function MonthsBetween(from: Date, to: Date): int {
    if Before(to, from) then MonthsBackward(from, to) else MonthsForward(from, to)
  }

  /** Towards the future, `MonthsBetween` is the largest count of months that does not pass `to`. */
  lemma MonthsBetweenForward(from: Date, to: Date)
    requires !Before(to, from)
    ensures var n := MonthsBetween(from, to);
            0 <= n && !Before(to, AddMonths(from, n)) && Before(to, AddMonths(from, n + 1))
  {
  }

  /** Towards the past, `MonthsBetween` is the count of months, at most 0, closest to 0 that does not pass `to`. */
  lemma MonthsBetweenBackward(from: Date, to: Date)
    requires Before(to, from)
    ensures var n := MonthsBetween(from, to);
            n <= 0 && !Before(AddMonths(from, n), to) && Before(AddMonths(from, n - 1), to)
  {
  }

  /** `dateComponents([.day, .hour, .minute, .second], from:, to:)`. */
  function DayTimeDifference(from: Date, to: Date): (r: Difference)
    ensures r.months == 0
    ensures r.days * 86400 + r.hours * 3600 + r.minutes * 60 + r.seconds == Instant(to) - Instant(from)
    ensures !Before(to, from) ==> && 0 <= r.days && 0 <= r.hours < 24 && 0 <= r.minutes < 60 && 0 <= r.seconds < 60
    ensures Before(to, from) ==> && r.days <= 0 && -24 < r.hours <= 0 && -60 < r.minutes <= 0 && -60 < r.seconds <= 0
  {
    SplitSeconds(Instant(to) - Instant(from))
  }

  /**
   * `dateComponents([.month, .day, .hour, .minute, .second], from:, to:)`: whole
   * months first, as many as can be added without passing `to`, then the rest
   * split into days, hours, minutes and seconds.
   */
  function FullDifference(from: Date, to: Date): (r: Difference)
    ensures Instant(AddMonths(from, r.months)) + r.days * 86400 + r.hours * 3600 + r.minutes * 60 + r.seconds
            == Instant(to)
    ensures !Before(to, from) ==> && 0 <= r.months && 0 <= r.days && 0 <= r.hours < 24
                                  && 0 <= r.minutes < 60 && 0 <= r.seconds < 60
    ensures Before(to, from) ==> && r.months <= 0 && r.days <= 0 && -24 < r.hours <= 0
                                 && -60 < r.minutes <= 0 && -60 < r.seconds <= 0
  {
    var months := MonthsBetween(from, to);
    var rest := SplitSeconds(Instant(to) - Instant(AddMonths(from, months)));
    if Before(to, from) then
      MonthsBetweenBackward(from, to);
      rest.(months := months)
    else
      MonthsBetweenForward(from, to);
      rest.(months := months)
  }

  /** The months of the breakdown are those counted by `MonthsBetween`. */
  lemma FullDifferenceMonths(from: Date, to: Date)
    ensures FullDifference(from, to).months == MonthsBetween(from, to)
  {
  }

  /**
   * Towards the future the months of the breakdown are whole months: one more
   * month would pass `to`, so the days, hours, minutes and seconds add up to
   * less than a month.
   */
  lemma FullDifferenceMonthsForward(from: Date, to: Date)
    requires !Before(to, from)
    ensures Before(to, AddMonths(from, FullDifference(from, to).months + 1))
  {
    FullDifferenceMonths(from, to);
    MonthsBetweenForward(from, to);
  }

  /** Towards the past, the mirror image: one more month back would pass `to`. */
  lemma FullDifferenceMonthsBackward(from: Date, to: Date)
    requires Before(to, from)
    ensures Before(AddMonths(from, FullDifference(from, to).months - 1), to)
  {
    FullDifferenceMonths(from, to);
    MonthsBetweenBackward(from, to);
  }

  /** Less than a month ahead, the difference has no months and splits the seconds between the two dates. */
  lemma WithinAMonth(from: Date, to: Date)
    requires !Before(to, from) && Before(to, AddMonths(from, 1))
    ensures MonthsBetween(from, to) == 0
    ensures FullDifference(from, to) == SplitSeconds(Instant(to) - Instant(from))
  {
    MonthsBetweenForward(from, to);
    var n := MonthsBetween(from, to);
    if n >= 2 {
      EarlierMonthIndex(AddMonths(from, 1), AddMonths(from, n));
      assert false;
    } else if n == 1 {
      assert false;
    }
    NoMonthsDifference(from, to);
  }

  /** With no whole month between them, the difference is the seconds between the two dates, split into units. */
  lemma NoMonthsDifference(from: Date, to: Date)
    requires MonthsBetween(from, to) == 0
    ensures FullDifference(from, to) == SplitSeconds(Instant(to) - Instant(from))
  {
    AddNoMonths(from);
  }

  /** `dateComponents([c], from:, to:).value(for: c)`: the difference counted in the single unit `c`. */
  function SingleDifference(c: Component, from: Date, to: Date): int {
    var total := Instant(to) - Instant(from);
    match c
    case Era => 0
    case Year => TruncDiv(MonthsBetween(from, to), 12)
    case Month => MonthsBetween(from, to)
    case WeekOfYear => TruncDiv(total, 7 * 86400)
    case Day => TruncDiv(total, 86400)
    case Hour => TruncDiv(total, 3600)
    case Minute => TruncDiv(total, 60)
    case Second => total
    case Nanosecond => total * 1000000000
  }

  /** The units of a fixed length in seconds: day, hour, minute and second. */
  predicate IsTimeUnit(c: Component) {
    c == Day || c == Hour || c == Minute || c == Second
  }

  /** The length in seconds of a day, an hour, a minute and a second. */
  function UnitLength(c: Component): (n: int)
    requires IsTimeUnit(c)
    ensures n > 0
  {
    match c
    case Day => 86400
    case Hour => 3600
    case Minute => 60
    case _ => 1
  }

  /**
   * Counted in days, hours, minutes or seconds alone, the difference is the
   * number of whole units in the time between, truncated toward zero.
   */
  lemma SingleDifferenceCountsWholeUnits(c: Component, from: Date, to: Date)
    requires IsTimeUnit(c)
    ensures var v, u, t := SingleDifference(c, from, to), UnitLength(c), Instant(to) - Instant(from);
            && (t >= 0 ==> 0 <= v && 0 <= t - v * u < u)
            && (t <= 0 ==> v <= 0 && -u < t - v * u <= 0)
  {
  }

  /** Counted in months alone, the difference is the month count of the full breakdown. */
  lemma SingleMonthDifference(from: Date, to: Date)
    ensures SingleDifference(Month, from, to) == FullDifference(from, to).months
  {
  }

  /** The five units a `Difference` carries. */
  predicate IsDifferenceUnit(c: Component) {
    c == Month || c == Day || c == Hour || c == Minute || c == Second
  }

  /** `DateComponents.value(for:)` on a difference that holds unit `c`. */
  function ValueFor(d: Difference, c: Component): int
    requires IsDifferenceUnit(c)
  {
    match c
    case Month => d.months
    case Day => d.days
    case Hour => d.hours
    case Minute => d.minutes
    case Second => d.seconds
  }
}
