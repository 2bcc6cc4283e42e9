/**
 * `ProfileManager`: the app's list of profiles, gathered from the store and
 * the address book and kept in order of the next birthday.
 */
module ProfileManagement {
  import opened Wrappers
  import opened Calendar
  import opened ProfileModel

  /** The fields of an address-book contact that the import reads. */
  datatype Contact = Contact(identifier: string, givenName: string, familyName: string, birthday: Option<DateComponents>)

  /** The profile made from a contact, when the contact has a birthday that forms a date. */
  function ProfileFromContact(c: Contact): Option<Profile> {
    if c.birthday.None? then None
    else
      var birthday := DateFrom(c.birthday.value);
      if birthday.None? then None
      else Some(Profile(c.givenName + " " + c.familyName, birthday.value, ContactProfile(c.identifier)))
  }

  /** The profiles made from `contacts`, in the contacts' order, skipping contacts without a usable birthday. */
  function ImportedProfiles(contacts: seq<Contact>): (r: seq<Profile>)
    ensures |r| <= |contacts|
  {
    if contacts == [] then []
    else
      var prefix := ImportedProfiles(contacts[..|contacts| - 1]);
      var last := ProfileFromContact(contacts[|contacts| - 1]);
      if last.None? then prefix else prefix + [last.value]
  }

  /** A profile is imported exactly when some contact has a birthday that forms a date and the profile is made from it. */
  lemma {:induction false} ImportedMembership(contacts: seq<Contact>, p: Profile)
    ensures p in ImportedProfiles(contacts)
            <==> exists i :: 0 <= i < |contacts| && ProfileFromContact(contacts[i]) == Some(p)
  {
    if contacts != [] {
      var n := |contacts| - 1;
      var prefix := contacts[..n];
      ImportedMembership(prefix, p);
      var last := ProfileFromContact(contacts[n]);
      assert ImportedProfiles(contacts) == ImportedProfiles(prefix) + (if last.None? then [] else [last.value]);
      if p in ImportedProfiles(contacts) {
        if p in ImportedProfiles(prefix) {
          var i :| 0 <= i < n && ProfileFromContact(prefix[i]) == Some(p);
          assert contacts[i] == prefix[i];
        } else {
          assert last == Some(p);
        }
      }
      if exists i :: 0 <= i < |contacts| && ProfileFromContact(contacts[i]) == Some(p) {
        var i :| 0 <= i < |contacts| && ProfileFromContact(contacts[i]) == Some(p);
        if i < n {
          assert prefix[i] == contacts[i];
        }
      }
    }
  }

  /** Importing a contact list in two parts gives the two imports one after the other. */
  lemma {:induction false} ImportedConcat(a: seq<Contact>, b: seq<Contact>)
    ensures ImportedProfiles(a + b) == ImportedProfiles(a) + ImportedProfiles(b)
  {
    if b != [] {
      var n := |b| - 1;
      assert (a + b)[..|a + b| - 1] == a + b[..n];
      assert (a + b)[|a + b| - 1] == b[n];
      ImportedConcat(a, b[..n]);
    } else {
      assert a + b == a;
    }
  }

  /** Every contact with a usable birthday gives a profile: none is dropped when all have one. */
  lemma {:induction false} ImportedAll(contacts: seq<Contact>)
    requires forall i :: 0 <= i < |contacts| ==> ProfileFromContact(contacts[i]).Some?
    ensures |ImportedProfiles(contacts)| == |contacts|
  {
    if contacts != [] {
      var n := |contacts| - 1;
      assert forall i :: 0 <= i < n ==> contacts[..n][i] == contacts[i];
      ImportedAll(contacts[..n]);
    }
  }

  /** The number of contacts with a birthday that forms a date, counted from the front. */
  function UsableCount(contacts: seq<Contact>): nat {
    if contacts == [] then 0
    else (if ProfileFromContact(contacts[0]).Some? then 1 else 0) + UsableCount(contacts[1..])
  }

  /** One profile is imported per contact with a usable birthday. */
  lemma {:induction false} ImportedCount(contacts: seq<Contact>)
    ensures |ImportedProfiles(contacts)| == UsableCount(contacts)
  {
    if contacts != [] {
      var first, rest := contacts[..1], contacts[1..];
      assert first + rest == contacts;
      assert first[..0] == [];
      ImportedConcat(first, rest);
      ImportedCount(rest);
    }
  }

  /** The imported profile for a contact: its full name, its birthday at midnight, and a reference to the contact. */
  lemma ContactProfileShape(c: Contact)
    requires ProfileFromContact(c).Some?
    ensures var p := ProfileFromContact(c).value;
            && p.name == c.givenName + " " + c.familyName
            && p.kind == ContactProfile(c.identifier)
            && p.birthday.year == c.birthday.value.year.GetOr(1)
            && p.birthday.month == c.birthday.value.month.value
            && p.birthday == StartOfDay(p.birthday)
  {
  }

  /**
   * A contact's February 29 without a year is imported in year 1, a common
   * year, as February 28, and that profile's next birthday is a February 28
   * in every year, leap years included.
   */
  lemma YearlessLeapDay(c: Contact, now: Date)
    requires c.birthday == Some(DateComponents(None, Some(2), Some(29)))
    ensures ProfileFromContact(c).Some?
    ensures var b := ProfileFromContact(c).value.birthday;
            && b.year == 1 && b.month == 2 && b.day == 28
            && NextBirthdayOf(b, now).month == 2 && NextBirthdayOf(b, now).day == 28
  {
  }

  /** The sort key: the instant of the profile's next birthday. */
  function Key(p: Profile, now: Date): int {
    Instant(NextBirthdayOf(p.birthday, now))
  }

  /** The order the list is sorted by: `a` may come before `b` when `b`'s next birthday is not earlier than `a`'s. */
  predicate InIncreasingOrder(a: Profile, b: Profile, now: Date) {
    Key(a, now) <= Key(b, now)
  }

  /** The order compares next birthdays, and is total. */
  lemma InIncreasingOrderMeans(a: Profile, b: Profile, now: Date)
    ensures InIncreasingOrder(a, b, now) <==> !Before(NextBirthdayOf(b.birthday, now), NextBirthdayOf(a.birthday, now))
    ensures InIncreasingOrder(a, b, now) || InIncreasingOrder(b, a, now)
  {
  }

  /** Every profile's next birthday is no earlier than that of any profile before it. */
  predicate SortedByNextBirthday(ps: seq<Profile>, now: Date) {
    forall i, j :: 0 <= i < j < |ps| ==> InIncreasingOrder(ps[i], ps[j], now)
  }

  /** Insert `p` into a sorted list after every profile whose next birthday is not later than its own. */
  method InsertByNextBirthday(sorted: seq<Profile>, p: Profile, now: Date) returns (r: seq<Profile>)
    requires SortedByNextBirthday(sorted, now)
    ensures SortedByNextBirthday(r, now)
    ensures multiset(r) == multiset(sorted) + multiset{p} && |r| == |sorted| + 1
  {
    var i := 0;
    while i < |sorted| && InIncreasingOrder(sorted[i], p, now)
      invariant 0 <= i <= |sorted|
      invariant forall k :: 0 <= k < i ==> InIncreasingOrder(sorted[k], p, now)
    {
      i := i + 1;
    }
    r := sorted[..i] + [p] + sorted[i..];
    InsertionKeepsOrder(sorted, p, i, now);
    InsertionKeepsProfiles(sorted, p, i);
  }

  /** Placing `p` anywhere in a list adds just `p` to its profiles. */
  lemma InsertionKeepsProfiles(sorted: seq<Profile>, p: Profile, i: int)
    requires 0 <= i <= |sorted|
    ensures multiset(sorted[..i] + [p] + sorted[i..]) == multiset(sorted) + multiset{p}
  {
    assert sorted == sorted[..i] + sorted[i..];
  }

  /** Placing `p` after the profiles that may precede it and before the first that may not keeps a list sorted. */
  lemma InsertionKeepsOrder(sorted: seq<Profile>, p: Profile, i: int, now: Date)
    requires SortedByNextBirthday(sorted, now) && 0 <= i <= |sorted|
    requires forall k :: 0 <= k < i ==> InIncreasingOrder(sorted[k], p, now)
    requires i < |sorted| ==> !InIncreasingOrder(sorted[i], p, now)
    ensures SortedByNextBirthday(sorted[..i] + [p] + sorted[i..], now)
  {
    var r := sorted[..i] + [p] + sorted[i..];
    forall a, b | 0 <= a < b < |r|
      ensures InIncreasingOrder(r[a], r[b], now)
    {
      if b > i {
        assert r[b] == sorted[b - 1];
        if a < i {
          assert r[a] == sorted[a];
        } else if a == i {
          assert InIncreasingOrder(sorted[i], sorted[b - 1], now) || i == b - 1;
        } else {
          assert r[a] == sorted[a - 1];
        }
      } else if b == i {
        assert r[a] == sorted[a];
      } else {
        assert r[a] == sorted[a] && r[b] == sorted[b];
      }
    }
  }

  /** The sort of `collectProfiles`: the same profiles, ordered by next birthday. */
  method SortByNextBirthday(ps: seq<Profile>, now: Date) returns (sorted: seq<Profile>)
    ensures SortedByNextBirthday(sorted, now)
    ensures multiset(sorted) == multiset(ps) && |sorted| == |ps|
  {
    sorted := [];
    for i := 0 to |ps|
      invariant SortedByNextBirthday(sorted, now)
      invariant multiset(sorted) == multiset(ps[..i]) && |sorted| == i
    {
      sorted := InsertByNextBirthday(sorted, ps[i], now);
      assert ps[..i + 1] == ps[..i] + [ps[i]];
    }
    assert ps[..|ps|] == ps;
  }

  /** In a sorted list the first profile has the soonest next birthday of all. */
  lemma SortedFirstIsSoonest(ps: seq<Profile>, now: Date, p: Profile)
    requires SortedByNextBirthday(ps, now) && p in ps
    ensures !Before(NextBirthdayOf(p.birthday, now), NextBirthdayOf(ps[0].birthday, now))
  {
    var j :| 0 <= j < |ps| && ps[j] == p;
    if j > 0 {
      assert InIncreasingOrder(ps[0], ps[j], now);
    }
    InIncreasingOrderMeans(ps[0], p, now);
  }

  /** The app's profile list. */
  class ProfileManager {
    var profiles: seq<Profile>

    /**
     * A fresh manager collects its profiles at once. The store's fetch and the
     * address book's contact list are inputs; `None` stands for a request that
     * failed.
     */
    constructor(stored: Option<seq<Profile>>, contacts: Option<seq<Contact>>, now: Date)
      ensures multiset(profiles) == multiset(stored.GetOr([]) + ImportedProfiles(contacts.GetOr([])))
      ensures |profiles| == |stored.GetOr([])| + UsableCount(contacts.GetOr([]))
      ensures SortedByNextBirthday(profiles, now)
    {
      profiles := [];
      new;
      CollectProfiles(stored, contacts, now);
    }

    /**
     * `collectProfiles`: start from an empty list, add the stored profiles
     * (none when the fetch fails), add a profile for every contact whose
     * birthday forms a date (none when the contact request fails), and sort
     * the result by next birthday.
     */
    method CollectProfiles(stored: Option<seq<Profile>>, contacts: Option<seq<Contact>>, now: Date)
      modifies this
      ensures multiset(profiles) == multiset(stored.GetOr([]) + ImportedProfiles(contacts.GetOr([])))
      ensures |profiles| == |stored.GetOr([])| + UsableCount(contacts.GetOr([]))
      ensures SortedByNextBirthday(profiles, now)
    {
      ImportedCount(contacts.GetOr([]));
      profiles := [];
      if stored.Some? {
        profiles := profiles + stored.value;
      }
      if contacts.Some? {
        var cs := contacts.value;
        for i := 0 to |cs|
          invariant profiles == stored.GetOr([]) + ImportedProfiles(cs[..i])
        {
          assert cs[..i + 1][..i] == cs[..i];
          var contact := cs[i];
          if contact.birthday.None? {
            assert ProfileFromContact(contact).None?;
            continue;
          }
          var birthday := DateFrom(contact.birthday.value);
          if birthday.None? {
            assert ProfileFromContact(contact).None?;
            continue;
          }
          var newProfile := Profile(contact.givenName + " " + contact.familyName, birthday.value,
                                    ContactProfile(contact.identifier));
          assert ProfileFromContact(contact) == Some(newProfile);
          profiles := profiles + [newProfile];
        }
        assert cs[..|cs|] == cs;
      } else {
        assert profiles == stored.GetOr([]) + [];
      }
      assert |profiles| == |stored.GetOr([])| + UsableCount(contacts.GetOr([]));
      profiles := SortByNextBirthday(profiles, now);
    }
  }
}
