# Birthday app core in Dafny

A model of the logic behind a small birthday-reminder app. It covers:

- **Next birthday.** `Profile.nextBirthday` gives the next midnight on which a profile's birthday falls. It takes this year's month and day. If that date lies strictly before midnight today, it takes next year's instead.
- **Optional birthday.** The Core Data variant of `Profile` may have no birthday, and then it has no next birthday.
- **Collecting profiles.** `ProfileManager.collectProfiles` starts from an empty list. It appends the stored profiles, then appends one profile per address-book contact whose birthday forms a date. Finally it sorts the list by next birthday.
- **Countdown texts.** `BirthdayRelativeDateFormatter` writes the countdown texts:
  - `short` gives one unit of the time left, or a celebration once the birthday has arrived;
  - `difference(date:component:)` gives the difference in a single unit;
  - `difference(date:)` gives a five-unit breakdown for a display grid;
  - `getUnitName` gives the singular or plural unit label.

Foundation's `Calendar.current` is modelled in `calendar.dfy`:

- It is an idealised local Gregorian calendar with whole seconds and no time zones.
- A `Date` is given by its calendar fields.
- `Instant` counts seconds since 0001-01-01T00:00:00 and is what `Date`'s `<` compares.
- `BeforeIffLexLess` proves that this order is the lexicographic order of the fields.

Other pieces of Foundation are modelled as follows:

- `dateComponents(_:from:to:)` has three forms:
  - `DayTimeDifference` for day, hour, minute and second;
  - `FullDifference` for month, day, hour, minute and second;
  - `SingleDifference` for one unit.

  `DayTimeDifference` and `FullDifference` are remainder decompositions: their parts sum exactly to the time between the two dates. `SingleDifference` is different. It counts the whole units between the two dates, truncated toward zero, and drops the remainder, so it is exact only for seconds. Whole months are the largest number of months that can be added without passing the target date. Negative differences have parts that are all non-positive.
- `date(from:)` is `DateFrom`:
  - a missing year counts as year 1;
  - a missing or out-of-range month or day forms no date;
  - February 29 is clamped to February 28 in a common year. The app's `!` on this call never fails for a real birthday's components, and clamping keeps that true.
  - A contact's February 29 without a year is therefore imported as February 28 of year 1, a common year. From then on its next birthday falls on February 28 in every year, leap years included (`ProfileManagement.YearlessLeapDay`). Foundation's lenient conversion would instead roll such a date over to March 1. Either way the contact is never shown on February 29.
- The clock is the parameter `now`, and so are the results of the store fetch and the contact request. For those two, `None` stands for a request that threw.

The two difference operations of the formatter behave as follows:

- `difference(date:)` asks the calendar once for all five units, so its entries form one remainder decomposition. They are not five independent per-unit totals.
- For a date in the past, `difference(date:)` shows the negative components. It is `short` that shows the celebration once every day/hour/minute/second component is at most zero.

Modules:

- `Wrappers`: `Option`.
- `Calendar`: the calendar.
- `Numerals`: decimal text of integers and its parser.
- `Formatters`: the formatter.
- `ProfileModel`: `Profile` and `nextBirthday`.
- `ProfileCoreData`: the optional-birthday variant.
- `ProfileManagement`: the contact import, the sort and the `ProfileManager` class.

The next-birthday rule is specified by the function `ProfileModel.NextBirthdayOf`, which works on calendar fields. It compares this year's month and day with today's. The method `ProfileModel.NextBirthday` follows the source step by step: it compares instants with `<`. Its `ensures` ties it to that function.

## Model

| member | source | states |
|---|---|---|
| Calendar.DaysInMonth | Geburtstags-App/ProfileModel.swift:36 | every month has 28 to 31 days, and has 29 exactly in February of a leap year |
| Calendar.MaxDaysInMonth | Geburtstags-App/Geburtstags_AppApp.swift:75 | the longest a month can be in any year, reached in a leap year |
| Calendar.SecondOfDay | Geburtstags-App/Formatters.swift:14 | the time of day lies in 0 to 86399 seconds |
| Calendar.SameYearInstants | Geburtstags-App/Formatters.swift:14 | within one year, the seconds between two dates come from their days of the year and times of day alone |
| Calendar.Before | Geburtstags-App/ProfileModel.swift:38 | `Date`'s `<`, the order of instants; `BeforeIffLexLess` states that it is the lexicographic order of the fields |
| Calendar.LexLessIsBefore | Geburtstags-App/ProfileModel.swift:38 | fields in lexicographic order denote instants in that order |
| Calendar.BeforeIffLexLess | Geburtstags-App/ProfileModel.swift:38 | `<` on dates holds exactly when the fields are in lexicographic order |
| Calendar.InstantInjective | Geburtstags-App/ProfileModel.swift:38 | two dates at the same instant are the same date |
| Calendar.StartOfDay | Geburtstags-App/ProfileModel.swift:31 | midnight of the same calendar day, at most one day before the given time and never after it |
| Calendar.DateFrom | Geburtstags-App/Geburtstags_AppApp.swift:74-76 | a date is formed exactly when month and day are present and in range; it has the given year (1 if missing) and month, is at midnight, and keeps the day except Feb 29 becoming Feb 28 in a common year |
| Calendar.TruncDiv | Geburtstags-App/Formatters.swift:40-41 | truncation toward zero: the remainder has the sign of the dividend and is smaller than the divisor |
| Calendar.SplitMagnitude | Geburtstags-App/Formatters.swift:14 | no months; days, hours, minutes and seconds that sum to the number of seconds, each below the next unit up |
| Calendar.SplitSeconds | Geburtstags-App/Formatters.swift:14 | the parts sum to the total and all share its sign, each smaller than the next unit up |
| Calendar.SplitWholeDays | Geburtstags-App/Formatters.swift:14 | a whole number of days splits into days alone |
| Calendar.AddMonths | Geburtstags-App/Formatters.swift:66 | adding n months moves the month scale by n, clamps the day to the target month and keeps the time of day |
| Calendar.AddNoMonths | Geburtstags-App/Formatters.swift:66 | adding no months leaves the date as it is |
| Calendar.EarlierMonthIndex | Geburtstags-App/Formatters.swift:66 | a date in an earlier month is an earlier instant |
| Calendar.MonthsForward | Geburtstags-App/Formatters.swift:66 | towards the future: a non-negative count of months that does not pass the target, while one more month does |
| Calendar.MonthsBackward | Geburtstags-App/Formatters.swift:66 | towards the past: a non-positive count of months that does not pass the target, while one more month back does |
| Calendar.MonthsBetweenForward | Geburtstags-App/Formatters.swift:40-41 | for a later date the whole-month count is the largest one that does not pass it |
| Calendar.MonthsBetweenBackward | Geburtstags-App/Formatters.swift:40-41 | for an earlier date the whole-month count is the one closest to zero that does not pass it |
| Calendar.MonthsBetween | Geburtstags-App/Formatters.swift:66 | the whole-month count of a difference; its meaning (the most months that do not pass the target, in either direction) is stated by `MonthsBetweenForward` and `MonthsBetweenBackward` |
| Calendar.DayTimeDifference | Geburtstags-App/Formatters.swift:14 | no months; days, hours, minutes and seconds summing to the seconds between the dates, all sharing the direction's sign, with hours below 24 and minutes and seconds below 60 in magnitude |
| Calendar.FullDifference | Geburtstags-App/Formatters.swift:66 | adding the months to the start and then the remaining parts reaches the target exactly; all parts share the direction's sign; hours are below 24 and minutes and seconds below 60 in magnitude; `FullDifferenceMonthsForward` and `FullDifferenceMonthsBackward` state that the months are whole |
| Calendar.FullDifferenceMonths | Geburtstags-App/Formatters.swift:66 | the breakdown's months are the count `MonthsBetween` gives |
| Calendar.FullDifferenceMonthsForward | Geburtstags-App/Formatters.swift:66 | towards the future one more month would pass the target, so the days and smaller parts add up to less than a month |
| Calendar.FullDifferenceMonthsBackward | Geburtstags-App/Formatters.swift:66 | towards the past one more month back would pass the target |
| Calendar.WithinAMonth | Geburtstags-App/Formatters.swift:66 | less than a month ahead there are no months, and the rest is the plain split of the seconds left |
| Calendar.NoMonthsDifference | Geburtstags-App/Formatters.swift:66 | with no whole month in between, the breakdown is the split of the seconds between the dates |
| Calendar.SingleDifference | Geburtstags-App/Formatters.swift:40-41 | the difference counted in one unit; `SingleDifferenceCountsWholeUnits` and `SingleMonthDifference` state its meaning |
| Calendar.SingleDifferenceCountsWholeUnits | Geburtstags-App/Formatters.swift:40-41 | in days, hours, minutes or seconds alone, the count is the whole number of units in the time between, truncated toward zero |
| Calendar.SingleMonthDifference | Geburtstags-App/Formatters.swift:40-41 | in months alone, the count is the month count of the full breakdown |
| Numerals.NatToString | Geburtstags-App/Formatters.swift:72 | the decimal text of a natural number is a non-empty string of digits |
| Numerals.IntToString | Geburtstags-App/Formatters.swift:72 | the decimal text of an integer is decimal, with a leading minus exactly when it is negative |
| Numerals.ParseNatToString | Geburtstags-App/Formatters.swift:72 | reading the digits of a natural number's text back gives the number |
| Numerals.ParseIntToString | Geburtstags-App/Formatters.swift:44 | the text of any integer reads back as that integer |
| Numerals.IntToStringInjective | Geburtstags-App/Formatters.swift:72 | different integers have different texts |
| Formatters.UnitName | Geburtstags-App/Formatters.swift:78-95 | for month to nanosecond, the singular name when the value is 1 and the plural otherwise; "NaN" for any other component |
| Formatters.UnitNameSingularExactly | Geburtstags-App/Formatters.swift:80-91 | the singular label is given exactly when the value is 1 |
| Formatters.Render | Geburtstags-App/Formatters.swift:25 | "N unit" text starts with a digit or a minus |
| Formatters.RenderIsNotCelebration | Geburtstags-App/Formatters.swift:22-31 | no count text equals the celebration text |
| Formatters.Short | Geburtstags-App/Formatters.swift:11-33 | `short(date:)`; its meaning is stated by `ShortCelebratesExactly`, `ShortByRemainingSeconds` and `ShortShowsOneComponent` |
| Formatters.ShortCelebratesExactly | Geburtstags-App/Formatters.swift:22-23 | `short` shows the celebration exactly when the date is not after now |
| Formatters.ShortByRemainingSeconds | Geburtstags-App/Formatters.swift:14-31 | `short` in terms of the seconds left t: whole days if at least 3, else hours of the part-day if at least 3, else minutes of the part-hour if at least 3, else seconds of the part-minute; never months |
| Formatters.ShortShowsOneComponent | Geburtstags-App/Formatters.swift:24-31 | every non-celebration text is "N unit" with N the day, hour, minute or second component, labelled for N |
| Formatters.Entry | Geburtstags-App/Formatters.swift:72 | an entry's text is the value's decimal text (no leading zeros, a minus only for negatives), reads back as the value, and its label is the unit name for that value |
| Formatters.DifferenceIn | Geburtstags-App/Formatters.swift:35-59 | for month, day, hour, minute and second, the text is the decimal text of the single-unit difference, reads back as it, and carries its label; ("0", "NaN") for any other component |
| Formatters.Differences | Geburtstags-App/Formatters.swift:62-76 | five entries for month, day, hour, minute and second in that order; each is the `Entry` of that unit's part of one full breakdown: its decimal text, which reads back as it, and its label |
| Formatters.SpaceIndexAfterWord | Geburtstags-App/Formatters.swift:25 | in "N unit" the first space comes right after the number |
| Formatters.RenderDeterminesNumber | Geburtstags-App/Formatters.swift:25-31 | equal "N unit" texts show equal numbers |
| Formatters.FourteenDaysBreakdown | Geburtstags-App/Formatters.swift:66 | from March 1 to March 15 of any year at midnight, the breakdown is 0 months and 14 days |
| Formatters.FourteenDaysShort | Geburtstags-App/Formatters.swift:24-25 | fourteen days ahead, `short` reads "14 days" |
| Formatters.FortyDaysAhead | Geburtstags-App/Formatters.swift:24-25 | from March 1 to April 10, `short` reads "40 days": it never counts months |
| Formatters.TwoDaysShowZeroSeconds | Geburtstags-App/Formatters.swift:24-31 | exactly two days ahead, `short` reads "0 seconds" |
| Formatters.TwoDaysThirtySecondsLeft | Geburtstags-App/Formatters.swift:14 | from 23:59:30 on March 12 to midnight on March 15, 2 days and 30 seconds are left |
| Formatters.ShortShowsThirtySeconds | Geburtstags-App/Formatters.swift:24-31 | with 2 days and 30 seconds left, `short` reads "30 seconds" |
| Formatters.ShortLosesTheDays | Geburtstags-App/Formatters.swift:24-31 | with 2 days and 30 seconds left, `short` agrees with no day, hour, minute or second count of the time left |
| Formatters.ShortIntended | Geburtstags-App/Formatters.swift:22-31 | corrected `short`: the celebration exactly when the date is not after now, otherwise a day, hour, minute or second total that is positive, rendered with its label |
| Formatters.ShortIntendedByRemainingSeconds | Geburtstags-App/Formatters.swift:22-31 | the corrected `short` in terms of the seconds left t: whole days if at least 3, else whole hours if at least 3, else whole minutes if at least 3, else the seconds; the celebration for t at most 0 |
| Formatters.ShortIntendedKeepsTheDays | Geburtstags-App/Formatters.swift:24-27 | with 2 days and 30 seconds left, the corrected `short` reads "48 hours" |
| ProfileModel.NextBirthdayOf | Geburtstags-App/ProfileModel.swift:31-41 | the next-birthday rule on calendar fields; `NextBirthday` is proved equal to it, and the lemmas below state its properties |
| ProfileModel.BirthdayIn | Geburtstags-App/ProfileModel.swift:34-36 | the birthday's month and day in the given year at midnight, with Feb 29 clamped to Feb 28 in a common year |
| ProfileModel.NextBirthday | Geburtstags-App/ProfileModel.swift:29-44 | the method that compares instants gives the same date as the field-based next-birthday rule |
| ProfileModel.NextBirthdayNotBeforeToday | Geburtstags-App/ProfileModel.swift:38-41 | the next birthday is never before midnight today |
| ProfileModel.NextBirthdayFields | Geburtstags-App/ProfileModel.swift:32-41 | a midnight in this year or the next, with the birthday's month, and its day except Feb 29 becoming Feb 28 in a common year |
| ProfileModel.BirthdayToday | Geburtstags-App/ProfileModel.swift:38 | a birthday that falls today gives midnight today, not next year |
| ProfileModel.NextYearExactlyWhenPassed | Geburtstags-App/ProfileModel.swift:38-41 | next year's birthday is taken exactly when this year's lies before midnight today |
| ProfileModel.NextBirthdayIsEarliest | Geburtstags-App/ProfileModel.swift:31-41 | no occurrence of the birthday in any year that is not before midnight today comes before the next birthday |
| ProfileModel.NextBirthdayIgnoresTimeOfDay | Geburtstags-App/ProfileModel.swift:31 | two times on the same day give the same next birthday |
| ProfileModel.NextBirthdayIdempotent | Geburtstags-App/ProfileModel.swift:31-41 | asking again on the day found gives that same day |
| ProfileModel.NextBirthdayWithinAYear | Geburtstags-App/ProfileModel.swift:32-41 | the next birthday is no later than the same calendar day next year |
| ProfileCoreData.NextBirthdayIfKnown | Profile+CoreDataClass.swift:14-31 | nothing exactly when the birthday is missing; otherwise the next birthday of the stored one |
| ProfileManagement.ProfileFromContact | Geburtstags-App/Geburtstags_AppApp.swift:74-83 | the profile made from one contact; `ContactProfileShape` and `YearlessLeapDay` state its fields |
| ProfileManagement.YearlessLeapDay | Geburtstags-App/Geburtstags_AppApp.swift:74-76 | a February 29 without a year is imported as February 28 of year 1, and its next birthday is a February 28 in every year |
| ProfileManagement.ImportedProfiles | Geburtstags-App/Geburtstags_AppApp.swift:73-85 | the import yields at most one profile per contact |
| ProfileManagement.ImportedMembership | Geburtstags-App/Geburtstags_AppApp.swift:73-84 | a profile is imported exactly when some contact has a birthday that forms a date and the profile is made from it |
| ProfileManagement.ImportedConcat | Geburtstags-App/Geburtstags_AppApp.swift:73-85 | importing two lists of contacts one after the other gives the two imports one after the other |
| ProfileManagement.ImportedAll | Geburtstags-App/Geburtstags_AppApp.swift:74-84 | when every contact has a usable birthday, no contact is dropped |
| ProfileManagement.ImportedCount | Geburtstags-App/Geburtstags_AppApp.swift:73-85 | exactly one profile per contact with a usable birthday |
| ProfileManagement.ContactProfileShape | Geburtstags-App/Geburtstags_AppApp.swift:78-83 | an imported profile has the contact's full name, a contact reference with its identifier, and its birthday's year (1 if missing) and month at midnight |
| ProfileManagement.InIncreasingOrderMeans | Geburtstags-App/Geburtstags_AppApp.swift:90 | the sort's order holds exactly when the second next birthday is not earlier than the first, and it is total |
| ProfileManagement.InsertionKeepsProfiles | Geburtstags-App/Geburtstags_AppApp.swift:90 | inserting a profile adds just that profile |
| ProfileManagement.InsertionKeepsOrder | Geburtstags-App/Geburtstags_AppApp.swift:90 | inserting at the found position keeps a list sorted |
| ProfileManagement.InsertByNextBirthday | Geburtstags-App/Geburtstags_AppApp.swift:90 | the result is sorted and holds the old profiles plus the new one |
| ProfileManagement.SortByNextBirthday | Geburtstags-App/Geburtstags_AppApp.swift:90 | the result is sorted by next birthday and is a permutation of the input |
| ProfileManagement.SortedFirstIsSoonest | Geburtstags-App/Geburtstags_AppApp.swift:90 | in the sorted list no profile's next birthday comes before the first one's |
| ProfileManagement.ProfileManager.constructor | Geburtstags-App/Geburtstags_AppApp.swift:51-56 | a new manager holds the collected profiles, as `CollectProfiles` states |
| ProfileManagement.ProfileManager.CollectProfiles | Geburtstags-App/Geburtstags_AppApp.swift:58-91 | the list is a permutation of the stored profiles (none if the fetch fails) plus the imported contacts (none if the request fails), one per usable contact, sorted by next birthday |

## Left out

- Time zones, daylight saving and calendars other than the proleptic Gregorian one. `Calendar.current` is an idealised local calendar whose days are all 86400 seconds long.
- Sub-second precision. Instants are whole seconds, and the nanosecond count of a single-unit difference is the seconds times 10^9.
- `Era` and `WeekOfYear` single-unit differences are simplified, to 0 and to whole weeks. The formatter only ever shows "0"/"NaN" for them.
- Calendar.DateFrom: Foundation's lenient conversion is not modelled. Foundation fills a missing month or day with 1, carries a month outside 1...12 into a neighbouring year, and rolls a day past the month's end into the next month. Here such components form no date, except Feb 29 in a common year, which is clamped. So a contact whose birthday components are, say, (1985, 4, no day) or (1985, 13, 1) is imported by the app (Geburtstags_AppApp.swift:74-84) but skipped by `ProfileFromContact`.
- The `NumberFormatter` in `difference(date:component:)` uses decimal style, which groups thousands in some locales. The model writes plain digits. Its `guard … else return defaultReturn` branch never fires for an integer, so it is not modelled.
- Profile images, JPEG encoding and `imageData` are I/O and not logic.
- Core Data and the Contacts framework are inputs:
  - the fetched profiles and the contact list are parameters;
  - a thrown error is `None`;
  - logging with `print` is dropped;
  - managed-object identity and the temporary context are not modelled.
- Each of `short`, `difference`, `nextBirthday` and `collectProfiles` reads the clock. The model takes `now` as a parameter, and uses one `now` for the whole sort. The source reads the clock again for every comparison.
- ProfileManagement.SortByNextBirthday: Swift's own sort algorithm, and where profiles with the same next birthday end up, are not modelled. The stated contract is "sorted and a permutation". An insertion sort stands in for it.
- `profiles.sort { $1.nextBirthday >= $0.nextBirthday }` passes a non-strict predicate, which `sort(by:)` does not allow. The model uses the total order it evidently means.
- `ProfileType` is not persisted in the source, so a fetched profile always reads `.storedProfile`. The model stores the `kind` field as given.
- SwiftUI views, `@Published` change notification and the app's scene set-up are not part of this model.

## Findings

| source | as written | input that shows it | evidently intended | confidence | as-written member | corrected member |
|---|---|---|---|---|---|---|
| Geburtstags-App/Formatters.swift:24-31 | the `> 2` cascade tests the day, hour and minute components of one remainder decomposition, so with at most two whole days left the whole days are dropped and a part-day remainder is shown | now 2024-03-12T23:59:30, birthday 2024-03-15T00:00:00 (2 days 30 seconds left): `short` reads "30 seconds"; exactly 2 days left reads "0 seconds" | show the first unit of which more than two whole units are left, counting the total time left ("48 hours"), as `Formatters.ShortIntendedByRemainingSeconds` states in the seconds left | not executed | Formatters.ShortLosesTheDays | Formatters.ShortIntended |
