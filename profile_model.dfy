/**
 * `Profile`: a person with a birthday, and the rule for the next time that
 * birthday comes round.
 */
module ProfileModel {
  import opened Wrappers
  import opened Calendar

  /** Where a profile comes from: the app's own store, or the address book (with the contact's identifier). */
  datatype ProfileType = ContactProfile(identifier: string) | StoredProfile

  /** The `name`, `birthday` and `type` fields of a profile; the image is not modelled. */
  datatype Profile = Profile(name: string, birthday: Date, kind: ProfileType)

  /**
   * The birthday's month and day in `year`, at midnight: the birthday's
   * year/month/day components with the year overwritten, turned back into a
   * date (February 29 becomes February 28 in a common year).
   */
  function BirthdayIn(year: int, birthday: Date): (r: Date)
    ensures r.year == year && r.month == birthday.month && r == StartOfDay(r)
    ensures r.day == if birthday.day <= DaysInMonth(year, birthday.month) then birthday.day
                     else DaysInMonth(year, birthday.month)
  {
    var components := YearMonthDay(birthday).(year := Some(year));
    DateFrom(components).value
  }

  /**
   * The next birthday, stated on calendar fields: this year's, unless its
   * month and day come before today's, in which case next year's.
   */
  function NextBirthdayOf(birthday: Date, now: Date): Date {
    var thisYear := BirthdayIn(now.year, birthday);
    var passed := thisYear.month < now.month || (thisYear.month == now.month && thisYear.day < now.day);
    BirthdayIn(if passed then now.year + 1 else now.year, birthday)
  }

  /**
   * `nextBirthday`: build the birthday in the year of midnight today and move
   * it on a year if it lies strictly before midnight today.
   */
  method NextBirthday(birthday: Date, now: Date) returns (upcomingBirthday: Date)
    ensures upcomingBirthday == NextBirthdayOf(birthday, now)
  {
    var midnightToday := StartOfDay(now);
    var currentYear := midnightToday.year;
    var components := YearMonthDay(birthday);
    components := components.(year := Some(currentYear));
    upcomingBirthday := DateFrom(components).value;
    BeforeIffLexLess(upcomingBirthday, midnightToday);
    if Before(upcomingBirthday, midnightToday) {
      components := components.(year := Some(currentYear + 1));
      upcomingBirthday := DateFrom(components).value;
    }
  }

  /** The next birthday is never before midnight today. */
  lemma NextBirthdayNotBeforeToday(birthday: Date, now: Date)
    ensures !Before(NextBirthdayOf(birthday, now), StartOfDay(now))
  {
    BeforeIffLexLess(NextBirthdayOf(birthday, now), StartOfDay(now));
  }

  /**
   * The next birthday is a midnight with the birthday's month and day (the
   * birth year plays no part), in this year or the next; the day differs only
   * for February 29, which becomes February 28 in a common year.
   */
  lemma NextBirthdayFields(birthday: Date, now: Date)
    ensures var r := NextBirthdayOf(birthday, now);
            && (r.year == now.year || r.year == now.year + 1)
            && r.month == birthday.month
            && r == StartOfDay(r)
            && (r.day == birthday.day || (birthday.month == 2 && birthday.day == 29 && r.day == 28 && !IsLeapYear(r.year)))
  {
  }

  /** A birthday that falls today gives today at midnight, not next year. */
  lemma BirthdayToday(birthday: Date, now: Date)
    requires birthday.month == now.month && birthday.day == now.day
    ensures NextBirthdayOf(birthday, now) == StartOfDay(now)
  {
  }

  /** Next year's birthday is taken exactly when this year's lies before midnight today. */
  lemma NextYearExactlyWhenPassed(birthday: Date, now: Date)
    ensures NextBirthdayOf(birthday, now).year == now.year + 1
            <==> Before(BirthdayIn(now.year, birthday), StartOfDay(now))
  {
    BeforeIffLexLess(BirthdayIn(now.year, birthday), StartOfDay(now));
  }

  /** The next birthday is the earliest occurrence of the birthday, in any year, that is not before midnight today. */
  lemma NextBirthdayIsEarliest(birthday: Date, now: Date, year: int)
    requires !Before(BirthdayIn(year, birthday), StartOfDay(now))
    ensures !Before(BirthdayIn(year, birthday), NextBirthdayOf(birthday, now))
  {
    var r, candidate, today := NextBirthdayOf(birthday, now), BirthdayIn(year, birthday), StartOfDay(now);
    BeforeIffLexLess(candidate, today);
    BeforeIffLexLess(candidate, r);
    NextYearExactlyWhenPassed(birthday, now);
  }

  /** Only the calendar day of `now` matters, not its time of day. */
  lemma NextBirthdayIgnoresTimeOfDay(birthday: Date, now: Date, later: Date)
    requires StartOfDay(later) == StartOfDay(now)
    ensures NextBirthdayOf(birthday, later) == NextBirthdayOf(birthday, now)
  {
  }

  /** Asking again on the day found gives that same day: the birthday has arrived, it is not a year off. */
  lemma NextBirthdayIdempotent(birthday: Date, now: Date)
    ensures NextBirthdayOf(birthday, NextBirthdayOf(birthday, now)) == NextBirthdayOf(birthday, now)
  {
  }

  /** The next birthday is at most a year away: no later than the same calendar day next year. */
  lemma NextBirthdayWithinAYear(birthday: Date, now: Date)
    ensures !Before(AddMonths(StartOfDay(now), 12), NextBirthdayOf(birthday, now))
  {
    var a, r := AddMonths(StartOfDay(now), 12), NextBirthdayOf(birthday, now);
    assert a.year == now.year + 1 && a.month == now.month;
    BeforeIffLexLess(a, r);
  }
}
