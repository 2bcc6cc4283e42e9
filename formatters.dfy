/**
 * `BirthdayRelativeDateFormatter`: the countdown texts shown for a birthday.
 * The formatter reads the clock; here the current time is the parameter `now`.
 */
module Formatters {
  import opened Calendar
  import opened Numerals

  /** The text `short` shows once the birthday has arrived. */
  const Celebration: string := "\U{1F973} Happy Birthday"

  /** A rendered number with its unit label, the `(value: String, unit: String)` pair. */
  datatype Labelled = Labelled(value: string, unit: string)

  /** What `difference(date:component:)` returns for a unit it does not show. */
  const DefaultReturn: Labelled := Labelled("0", "NaN")

  /** The units of the multi-unit display, in display order. */
  const BreakdownUnits: seq<Component> := [Month, Day, Hour, Minute, Second]

  /** The components `getUnitName` knows a name for. */
  predicate HasUnitName(c: Component) {
    IsDifferenceUnit(c) || c == Nanosecond
  }

  /** The singular name of each named unit. */
  function SingularName(c: Component): string
    requires HasUnitName(c)
  {
    match c
    case Month => "month"
    case Day => "day"
    case Hour => "hour"
    case Minute => "minute"
    case Second => "second"
    case Nanosecond => "nanosecond"
  }

  /** `getUnitName(for:value:)`. */
  function UnitName(component: Component, value: int): (r: string)
    ensures HasUnitName(component) ==> r == if value == 1 then SingularName(component) else SingularName(component) + "s"
    ensures !HasUnitName(component) ==> r == "NaN"
  {
    match component
    case Month => if value != 1 then "months" else "month"
    case Day => if value != 1 then "days" else "day"
    case Hour => if value != 1 then "hours" else "hour"
    case Minute => if value != 1 then "minutes" else "minute"
    case Second => if value != 1 then "seconds" else "second"
    case Nanosecond => if value != 1 then "nanoseconds" else "nanosecond"
    case _ => "NaN"
  }

  /** The singular name is chosen exactly when the value is one. */
  lemma UnitNameSingularExactly(c: Component, value: int)
    requires HasUnitName(c)
    ensures UnitName(c, value) == SingularName(c) <==> value == 1
  {
    if value != 1 {
      assert |UnitName(c, value)| == |SingularName(c)| + 1;
    }
  }

  /** `"\(n) \(getUnitName(for: c, value: n))"`. */
  function Render(c: Component, n: int): (r: string)
    ensures |r| > 0 && (IsDigit(r[0]) || r[0] == '-')
  {
    IntToString(n) + " " + UnitName(c, n)
  }

  /** A rendered count never reads as the celebration text. */
  lemma RenderIsNotCelebration(c: Component, n: int)
    ensures Render(c, n) != Celebration
  {
    assert Celebration[0] == '\U{1F973}';
  }

  /** `short(date:)`: one unit of the time left, by the `> 2` cascade over day, hour, minute and second. */
  function Short(date: Date, now: Date): string {
    var dateDifference := DayTimeDifference(now, date);
    var days, hours, minutes, seconds :=
      dateDifference.days, dateDifference.hours, dateDifference.minutes, dateDifference.seconds;
    if days <= 0 && hours <= 0 && minutes <= 0 && seconds <= 0 then Celebration
    else if days > 2 then Render(Day, days)
    else if hours > 2 then Render(Hour, hours)
    else if minutes > 2 then Render(Minute, minutes)
    else Render(Second, seconds)
  }

  /** `short` celebrates exactly when the date is not after now. */
  lemma ShortCelebratesExactly(date: Date, now: Date)
    ensures Short(date, now) == Celebration <==> !Before(now, date)
  {
    var d := DayTimeDifference(now, date);
    assert (d.days <= 0 && d.hours <= 0 && d.minutes <= 0 && d.seconds <= 0) <==> !Before(now, date);
    RenderIsNotCelebration(Day, d.days);
    RenderIsNotCelebration(Hour, d.hours);
    RenderIsNotCelebration(Minute, d.minutes);
    RenderIsNotCelebration(Second, d.seconds);
  }

  /**
   * `short` in terms of the seconds left, `t`: whole days when at least three
   * are left; otherwise the hours of the part-day, if at least three; otherwise
   * the minutes of the part-hour, if at least three; otherwise the seconds of
   * the part-minute. Months never appear.
   */
  lemma ShortByRemainingSeconds(date: Date, now: Date)
    ensures var t := Instant(date) - Instant(now);
            Short(date, now) ==
              if t <= 0 then Celebration
              else if t >= 3 * 86400 then Render(Day, t / 86400)
              else if t % 86400 >= 3 * 3600 then Render(Hour, t % 86400 / 3600)
              else if t % 86400 % 3600 >= 3 * 60 then Render(Minute, t % 86400 % 3600 / 60)
              else Render(Second, t % 86400 % 3600 % 60)
  {
    var t := Instant(date) - Instant(now);
    ShortCelebratesExactly(date, now);
    if t > 0 {
      var d := DayTimeDifference(now, date);
      assert d == SplitMagnitude(t);
      assert d.days > 2 <==> t >= 3 * 86400;
      assert d.hours > 2 <==> t % 86400 >= 3 * 3600;
      assert d.minutes > 2 <==> t % 86400 % 3600 >= 3 * 60;
    }
  }

  /**
   * Every other text `short` returns reads "N unit": the day, hour, minute or
   * second component N of the difference, labelled for N itself.
   */
  lemma ShortShowsOneComponent(date: Date, now: Date)
    ensures Short(date, now) != Celebration ==>
              exists c :: IsTimeUnit(c) && Short(date, now) == Render(c, ValueFor(DayTimeDifference(now, date), c))
  {
    var d := DayTimeDifference(now, date);
    if Short(date, now) != Celebration {
      if d.days > 2 {
        assert IsTimeUnit(Day) && Short(date, now) == Render(Day, ValueFor(d, Day));
      } else if d.hours > 2 {
        assert IsTimeUnit(Hour) && Short(date, now) == Render(Hour, ValueFor(d, Hour));
      } else if d.minutes > 2 {
        assert IsTimeUnit(Minute) && Short(date, now) == Render(Minute, ValueFor(d, Minute));
      } else {
        assert IsTimeUnit(Second) && Short(date, now) == Render(Second, ValueFor(d, Second));
      }
    }
  }

  /** A number's decimal text, as `"\(value)"` writes it, and the unit name that fits it; the text reads back as the number. */
  function Entry(component: Component, value: int): (r: Labelled)
    ensures r.value == IntToString(value)
    ensures IsDecimal(r.value) && ParseInt(r.value) == value
    ensures r.unit == UnitName(component, value)
  {
    ParseIntToString(value);
    Labelled(IntToString(value), UnitName(component, value))
  }

  /** `difference(date:component:)`: the difference counted in one unit, or ("0", "NaN") for any other component. */
  function DifferenceIn(date: Date, component: Component, now: Date): (r: Labelled)
    ensures IsDifferenceUnit(component) ==>
              && IsDecimal(r.value)
              && ParseInt(r.value) == SingleDifference(component, now, date)
              && r.unit == UnitName(component, ParseInt(r.value))
    ensures IsDifferenceUnit(component) ==> r.value == IntToString(SingleDifference(component, now, date))
    ensures !IsDifferenceUnit(component) ==> r == DefaultReturn
  {
    var difference := SingleDifference(component, now, date);
    match component
    case Month => Entry(Month, difference)
    case Day => Entry(Day, difference)
    case Hour => Entry(Hour, difference)
    case Minute => Entry(Minute, difference)
    case Second => Entry(Second, difference)
    case _ => DefaultReturn
  }

  /**
   * `difference(date:)`: five entries, month, day, hour, minute and second in
   * that order, each labelled for its own value; the values are those of one
   * `FullDifference`, the remainder decomposition of the time left.
   */
  method Differences(date: Date, now: Date) returns (result: seq<Labelled>)
    ensures |result| == |BreakdownUnits|
    ensures forall i :: 0 <= i < |result| ==>
              && IsDecimal(result[i].value)
              && result[i].unit == UnitName(BreakdownUnits[i], ParseInt(result[i].value))
              && ParseInt(result[i].value) == ValueFor(FullDifference(now, date), BreakdownUnits[i])
    ensures forall i :: 0 <= i < |result| ==>
              result[i] == Entry(BreakdownUnits[i], ValueFor(FullDifference(now, date), BreakdownUnits[i]))
  {
    var dateDifference := FullDifference(now, date);
    result := [];
    for i := 0 to |BreakdownUnits|
      invariant |result| == i
      invariant forall j :: 0 <= j < i ==> result[j] == Entry(BreakdownUnits[j], ValueFor(dateDifference, BreakdownUnits[j]))
    {
      var component := BreakdownUnits[i];
      var value := ValueFor(dateDifference, component);
      result := result + [Entry(component, value)];
    }
  }

  /** Length of the text before the first space. */
  function SpaceIndex(r: string): (n: nat)
    ensures n <= |r|
  {
    if r == [] || r[0] == ' ' then 0 else 1 + SpaceIndex(r[1..])
  }

  lemma {:induction false} SpaceIndexAfterWord(s: string, u: string)
    requires forall i :: 0 <= i < |s| ==> s[i] != ' '
    ensures SpaceIndex(s + " " + u) == |s|
  {
    if s != [] {
      assert (s + " " + u)[1..] == s[1..] + " " + u;
      SpaceIndexAfterWord(s[1..], u);
    }
  }

  /** The rendered text determines the number it shows. */
  lemma RenderDeterminesNumber(c1: Component, n1: int, c2: Component, n2: int)
    requires Render(c1, n1) == Render(c2, n2)
    ensures n1 == n2
  {
    var s1, s2 := IntToString(n1), IntToString(n2);
    var r := Render(c1, n1);
    SpaceIndexAfterWord(s1, UnitName(c1, n1));
    SpaceIndexAfterWord(s2, UnitName(c2, n2));
    assert s1 == r[..|s1|] == s2;
    IntToStringInjective(n1, n2);
  }

  // ---------------------------------------------------------------------------
  // Worked examples
  // ---------------------------------------------------------------------------

  /** From March 1 to March 15 of the same year, both at midnight, the breakdown is 14 days and nothing else. */
  lemma FourteenDaysBreakdown(now: Date, date: Date)
    requires now.year == date.year && now.month == 3 && date.month == 3
    requires now.day == 1 && date.day == 15 && SecondOfDay(now) == 0 && SecondOfDay(date) == 0
    ensures FullDifference(now, date) == Difference(0, 14, 0, 0, 0)
  {
    EarlierMonthIndex(date, AddMonths(now, 1));
    WithinAMonth(now, date);
    SameYearInstants(now, date);
    SplitWholeDays(14);
  }

  /** Fourteen days ahead, `short` reads "14 days". */
  lemma FourteenDaysShort(now: Date, date: Date)
    requires now.year == date.year && now.month == 3 && date.month == 3
    requires now.day == 1 && date.day == 15 && SecondOfDay(now) == 0 && SecondOfDay(date) == 0
    ensures Short(date, now) == "14 days"
  {
    SameYearInstants(now, date);
    SplitWholeDays(14);
    assert DayTimeDifference(now, date) == Difference(0, 14, 0, 0, 0);
    assert Render(Day, 14) == "14 days";
  }

  /** `short` never counts months: from March 1 to April 10, forty days ahead, it reads "40 days". */
  lemma FortyDaysAhead(now: Date, date: Date)
    requires now.year == date.year && now.month == 3 && date.month == 4
    requires now.day == 1 && date.day == 10 && SecondOfDay(now) == 0 && SecondOfDay(date) == 0
    ensures Short(date, now) == "40 days"
  {
    SameYearInstants(now, date);
    SplitWholeDays(40);
    assert DayTimeDifference(now, date) == Difference(0, 40, 0, 0, 0);
    assert Render(Day, 40) == "40 days";
  }

  // ---------------------------------------------------------------------------
  // The `> 2` cascade compares remainders, not totals
  // ---------------------------------------------------------------------------

  /**
   * `short` as evidently intended: the first of days, hours and minutes of
   * which more than two WHOLE units are left, else the seconds left.
   */
  function ShortIntended(date: Date, now: Date): (r: string)
    ensures r == Celebration <==> !Before(now, date)
    ensures r != Celebration ==>
              exists c :: IsTimeUnit(c) && SingleDifference(c, now, date) > 0
                          && r == Render(c, SingleDifference(c, now, date))
  {
    var days, hours := SingleDifference(Day, now, date), SingleDifference(Hour, now, date);
    var minutes, seconds := SingleDifference(Minute, now, date), SingleDifference(Second, now, date);
    RenderIsNotCelebration(Day, days);
    RenderIsNotCelebration(Hour, hours);
    RenderIsNotCelebration(Minute, minutes);
    RenderIsNotCelebration(Second, seconds);
    if seconds <= 0 then Celebration
    else if days > 2 then Render(Day, days)
    else if hours > 2 then Render(Hour, hours)
    else if minutes > 2 then Render(Minute, minutes)
    else Render(Second, seconds)
  }

  /**
   * The corrected `short` in terms of the seconds left, `t`: whole days when at
   * least three are left; otherwise whole hours, if at least three; otherwise
   * whole minutes, if at least three; otherwise the seconds.
   */
  lemma ShortIntendedByRemainingSeconds(date: Date, now: Date)
    ensures var t := Instant(date) - Instant(now);
            ShortIntended(date, now) ==
              if t <= 0 then Celebration
              else if t >= 3 * 86400 then Render(Day, t / 86400)
              else if t >= 3 * 3600 then Render(Hour, t / 3600)
              else if t >= 3 * 60 then Render(Minute, t / 60)
              else Render(Second, t)
  {
    var t := Instant(date) - Instant(now);
    if t > 0 {
      assert SingleDifference(Day, now, date) == t / 86400;
      assert SingleDifference(Hour, now, date) == t / 3600;
      assert SingleDifference(Minute, now, date) == t / 60;
    }
  }

  /** `now` is 23:59:30 on March 12 and `date` is midnight on March 15 of the same year. */
  predicate LateOnMarchTwelfth(now: Date, date: Date) {
    && now.year == date.year && now.month == 3 && date.month == 3
    && now.day == 12 && now.hour == 23 && now.minute == 59 && now.second == 30
    && date.day == 15 && SecondOfDay(date) == 0
  }

  /** From 23:59:30 on March 12 to midnight on March 15 of the same year, two days and thirty seconds are left. */
  lemma TwoDaysThirtySecondsLeft(now: Date, date: Date)
    requires LateOnMarchTwelfth(now, date)
    ensures Instant(date) - Instant(now) == 2 * 86400 + 30
  {
    SameYearInstants(now, date);
  }

  /** At 23:59:30 on March 12, two days and thirty seconds before a birthday at midnight on March 15, `short` reads "30 seconds". */
  lemma ShortShowsThirtySeconds(now: Date, date: Date)
    requires LateOnMarchTwelfth(now, date)
    ensures Short(date, now) == Render(Second, 30)
  {
    TwoDaysThirtySecondsLeft(now, date);
    var t := 2 * 86400 + 30;
    assert t / 86400 == 2 && t % 86400 == 30;
    var d := DayTimeDifference(now, date);
    assert d == SplitMagnitude(t);
    assert d == Difference(0, 2, 0, 0, 30);
  }

  /** Exactly two days ahead, `short` falls through to the seconds: it reads "0 seconds", not "2 days". */
  lemma TwoDaysShowZeroSeconds(now: Date, date: Date)
    requires Instant(date) - Instant(now) == 2 * 86400
    ensures Short(date, now) == "0 seconds"
  {
    var d := DayTimeDifference(now, date);
    assert d == SplitMagnitude(2 * 86400);
    assert d == Difference(0, 2, 0, 0, 0);
    assert Render(Second, 0) == "0 seconds";
  }

  /**
   * At 23:59:30 on March 12, before a birthday at midnight on March 15, `short` shows a number that
   * no day, hour, minute or second count of the time left has.
   */
  lemma ShortLosesTheDays(now: Date, date: Date)
    requires LateOnMarchTwelfth(now, date)
    ensures !(exists c :: IsTimeUnit(c) && Short(date, now) == Render(c, SingleDifference(c, now, date)))
  {
    TwoDaysThirtySecondsLeft(now, date);
    ShortShowsThirtySeconds(now, date);
    assert SingleDifference(Day, now, date) == 2;
    assert SingleDifference(Hour, now, date) == 48;
    assert SingleDifference(Minute, now, date) == 2880;
    assert SingleDifference(Second, now, date) == 2 * 86400 + 30;
    forall c | IsTimeUnit(c) && Short(date, now) == Render(c, SingleDifference(c, now, date))
      ensures false
    {
      RenderDeterminesNumber(Second, 30, c, SingleDifference(c, now, date));
    }
  }

  /** At 23:59:30 on March 12, before a birthday at midnight on March 15, the intended `short` reads "48 hours". */
  lemma ShortIntendedKeepsTheDays(now: Date, date: Date)
    requires LateOnMarchTwelfth(now, date)
    ensures ShortIntended(date, now) == Render(Hour, 48)
  {
    TwoDaysThirtySecondsLeft(now, date);
    assert SingleDifference(Day, now, date) == 2;
    assert SingleDifference(Hour, now, date) == 48;
  }
}
