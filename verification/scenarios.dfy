/**
 Worked examples: a ranked search over three cardiologists in one city, and a
 booking for a future and for a past date.
 */
module Scenarios {
  import opened Wrappers
  import opened Text
  import opened Dates
  import opened DateNormalizer
  import opened Schema
  import opened Directory
  import opened Ledger

  function Cardiologist(id: int, experience: int): Doctor
  {
    Doctor(id, "Dr. A", "Cardiologist", experience, "Mumbai", "City Hospital, Mumbai", 800,
      Hours(["Mon", "Wed"], 9, 12))
  }

  lemma CardiologistMatches(id: int, experience: int)
    ensures Admits(Cardiologist(id, experience), "Cardiologist", "Mumbai")
  {
    var folded := Lower("Cardiologist");
    assert forall i :: 0 <= i < |folded| ==> folded[i] != PHYSICIAN[0];
    MissingFirstChar(folded, PHYSICIAN);
    ContainsSelf(folded);
    ContainsSelf(Lower("Mumbai"));
  }

  lemma SubMultisetOfSameSize<T>(x: multiset<T>, y: multiset<T>)
    requires x <= y && |x| == |y|
    ensures x == y
  {
    assert |y - x| == |y| - |x|;
  }

  /** Three doctors with distinct experience, in some order, ranked from most to least. */
  lemma {:induction false} ThreeRanked(ds: seq<Doctor>, a: Doctor, b: Doctor, c: Doctor)
    requires |ds| == 3 && multiset(ds) == multiset([a, b, c])
    requires MoreExperienced(ds[0], ds[1]) && MoreExperienced(ds[1], ds[2])
    requires b.experience > c.experience > a.experience
    ensures ds == [b, c, a]
  {
    assert ds[0] in multiset([a, b, c]) && ds[1] in multiset([a, b, c]) && ds[2] in multiset([a, b, c]);
    assert a in multiset(ds) && b in multiset(ds) && c in multiset(ds);
  }

  /**
   When exactly three doctors of the directory pass the filters, with 10, 20
   and 15 years, they come back as 20, 15, 10, whatever other doctors the
   directory holds.
   */
  lemma RankedSearch(s: Store, a: Doctor, b: Doctor, c: Doctor, specialization: string, location: string)
    requires multiset(Matching(s.doctors, specialization, location)) == multiset([a, b, c])
    requires a.experience == 10 && b.experience == 20 && c.experience == 15
    ensures Search(s, specialization, location) == Found([b, c, a])
  {
    var m := Matching(s.doctors, specialization, location);
    assert a in multiset(m);
    assert a in s.doctors && Admits(a, specialization, location);
    var r := Search(s, specialization, location);
    assert r.Found?;
    SearchIsTopFive(s, specialization, location);
    var ds := r.doctors;
    assert |m| == |multiset(m)| == 3;
    assert |ds| == 3;
    SubMultisetOfSameSize(multiset(ds), multiset([a, b, c]));
    ThreeRanked(ds, a, b, c);
  }

  /** The cardiologists of Mumbai with 10, 20 and 15 years come back as 20, 15, 10. */
  lemma RankedSearchExample()
    ensures Search(Store([Cardiologist(1, 10), Cardiologist(2, 20), Cardiologist(3, 15)], [], 4, 1),
                   "Cardiologist", "Mumbai")
         == Found([Cardiologist(2, 20), Cardiologist(3, 15), Cardiologist(1, 10)])
  {
    var ds := [Cardiologist(1, 10), Cardiologist(2, 20), Cardiologist(3, 15)];
    CardiologistMatches(1, 10);
    CardiologistMatches(2, 20);
    CardiologistMatches(3, 15);
    AllAdmittedMatchAll(ds, "Cardiologist", "Mumbai");
    RankedSearch(Store([Cardiologist(1, 10), Cardiologist(2, 20), Cardiologist(3, 15)], [], 4, 1),
      Cardiologist(1, 10), Cardiologist(2, 20), Cardiologist(3, 15), "Cardiologist", "Mumbai");
  }

  /**
   Booking doctor 7 for "next Friday" at "10 AM", when the grammar reads the
   day as 2025-01-17 and that day has not passed, confirms that date and the
   time as given.
   */
  lemma FutureBookingExample(s: Store, today: CalendarDate, parse: string -> Option<CalendarDate>)
    requires HasDoctor(s.doctors, 7)
    requires parse(NormalizeText("next Friday")) == Some(Date(2025, 1, 17))
    requires !Before(Date(2025, 1, 17), today)
    ensures var b := Book(s, 7, "Asha Rao", "next Friday", "10 AM", today, parse);
      && b.reply.Success?
      && b.reply.confirmation.date == "2025-01-17"
      && b.reply.confirmation.time == "10 AM"
      && b.reply.confirmation.patientName == "Asha Rao"
  {
    assert Iso(Date(2025, 1, 17)) == "2025-01-17";
  }

  /**
   Booking doctor 7 for "2020-01-01" after that day fails with the past-date
   message and writes nothing.
   */
  lemma PastBookingExample(s: Store, today: CalendarDate, parse: string -> Option<CalendarDate>)
    requires HasDoctor(s.doctors, 7)
    requires parse(NormalizeText("2020-01-01")) == Some(Date(2020, 1, 1))
    requires Before(Date(2020, 1, 1), today)
    ensures var b := Book(s, 7, "Asha Rao", "2020-01-01", "10 AM", today, parse);
      && b.store == s
      && b.reply.Failed?
      && StartsWith(b.reply.message, PAST_HEAD)
  {
    var d: CalendarDate := Date(2020, 1, 1);
    assert PAST_HEAD + LongForm(d) + PAST_TAIL == PAST_HEAD + (LongForm(d) + PAST_TAIL);
  }
}
