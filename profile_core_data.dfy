/** The Core Data variant of `Profile`, whose stored birthday may be missing. */
module ProfileCoreData {
  import opened Wrappers
  import opened Calendar
  import opened ProfileModel

  /**
   * `nextBirthday` on a profile whose birthday is optional: nothing when the
   * birthday is missing, otherwise the same rule as for a profile with a
   * birthday (the two source bodies are the same code).
   */
  method NextBirthdayIfKnown(birthday: Option<Date>, now: Date) returns (r: Option<Date>)
    ensures r.None? <==> birthday.None?
    ensures birthday.Some? ==> r == Some(NextBirthdayOf(birthday.value, now))
  {
    if birthday.None? {
      return None;
    }
    var upcomingBirthday := NextBirthday(birthday.value, now);
    r := Some(upcomingBirthday);
  }
}
