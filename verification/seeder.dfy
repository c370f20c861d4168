/**
 The directory seeder (`generate_and_populate_doctors`): when the doctors table
 is empty it inserts `count` synthetic doctors whose numeric fields lie in fixed
 ranges. The random choices and the generated names are not modelled as a
 process: each doctor's choices arrive as a `Draw`, and `DrawInRange` states
 the ranges `random.randint`, `random.choice` and `random.sample` keep to.
 */
module Seeder {
  import opened Text
  import opened Sorting
  import opened Schema

  const SPECIALIZATIONS: seq<string> := [
    "Cardiologist", "Neurologist", "Dermatologist", "Orthopedic Surgeon", "General Physician",
    "Pediatrician", "Oncologist", "Endocrinologist", "Gastroenterologist"]
  const LOCATIONS: seq<string> := [
    "Mumbai", "Delhi", "Bangalore", "Chennai", "Kolkata", "Hyderabad", "Pune", "Ahmedabad"]
  const HOSPITALS: seq<string> := [
    "City Hospital", "Apollo Clinic", "Fortis Health", "Manipal Center", "Max Healthcare",
    "Global Medical", "Sunrise Institute"]
  const WEEKDAYS: seq<string> := ["Mon", "Tue", "Wed", "Thu", "Fri", "Sat"]

  /** The number of doctors the bootstrap asks for. */
  const DEFAULT_COUNT: nat := 1000

  /**
   The random choices behind one doctor: indices into the fixed lists, the
   generated first and last name, and the sampled numbers and weekdays.
   */
  datatype Draw = Draw(
    specialization: int,
    firstName: string,
    lastName: string,
    experience: int,
    location: int,
    hospital: int,
    feeUnits: int,
    startHour: int,
    span: int,
    days: seq<string>)

  /** The ranges the random calls keep to. */
  predicate DrawInRange(d: Draw)
  {
    && 0 <= d.specialization < |SPECIALIZATIONS|
    && 5 <= d.experience <= 25
    && 0 <= d.location < |LOCATIONS|
    && 0 <= d.hospital < |HOSPITALS|
    && 8 <= d.feeUnits <= 25
    && 9 <= d.startHour <= 14
    && 2 <= d.span <= 4
    && 3 <= |d.days| <= 5
    && (forall i :: 0 <= i < |d.days| ==> d.days[i] in WEEKDAYS)
    && Distinct(d.days)
  }

  /** Each day strictly before the next in text order. */
  predicate Alphabetical(s: seq<string>)
  {
    forall i, j :: 0 <= i < j < |s| ==> StrLess(s[i], s[j])
  }

  /** The shape of every seeded doctor. */
  predicate SeededShape(doc: Doctor)
  {
    && doc.specialization in SPECIALIZATIONS
    && doc.location in LOCATIONS
    && (exists h :: h in HOSPITALS && doc.hospital == h + ", " + doc.location)
    && 5 <= doc.experience <= 25
    && doc.fee % 100 == 0 && 800 <= doc.fee <= 2500
    && 9 <= doc.hours.startHour <= 14
    && doc.hours.startHour + 2 <= doc.hours.endHour <= doc.hours.startHour + 4
    && 3 <= |doc.hours.days| <= 5
    && (forall i :: 0 <= i < |doc.hours.days| ==> doc.hours.days[i] in WEEKDAYS)
    && Alphabetical(doc.hours.days)
  }

  lemma StrLessEqIsPreorder()
    ensures TotalPreorder(StrLessEq)
  {
    forall a, b
      ensures StrLessEq(a, b) || StrLessEq(b, a)
    {
      StrLessTotal(a, b);
    }
    forall a, b, c | StrLessEq(a, b) && StrLessEq(b, c)
      ensures StrLessEq(a, c)
    {
      StrLessTransitive(a, b, c);
    }
  }

  /**
   `sorted(random.sample(days, k))`: the sampled weekdays in text order, which
   is alphabetical ("Fri" < "Mon" < "Sat" < "Thu" < "Tue" < "Wed"), not
   calendar order.
   */
  function SortDays(days: seq<string>): (r: seq<string>)
    requires Distinct(days)
    ensures multiset(r) == multiset(days)
    ensures Alphabetical(r)
  {
    var r := SortBy(days, StrLessEq);
    StrLessEqIsPreorder();
    PermutationKeepsDistinct(days, r);
    r
  }

  /** Sorting a valid sample of weekdays keeps 3 to 5 listed weekdays. */
  lemma SortedDaysInRange(sample: seq<string>)
    requires Distinct(sample)
    requires 3 <= |sample| <= 5
    requires forall i :: 0 <= i < |sample| ==> sample[i] in WEEKDAYS
    ensures var days := SortDays(sample);
      && 3 <= |days| <= 5
      && (forall i :: 0 <= i < |days| ==> days[i] in WEEKDAYS)
  {
    var days := SortDays(sample);
    forall i | 0 <= i < |days|
      ensures days[i] in WEEKDAYS
    {
      assert days[i] in multiset(sample);
    }
    assert |days| == |multiset(days)| == |sample|;
  }

  /** The row built from one draw, with key `id`. */
  function NewDoctor(id: int, d: Draw): (doc: Doctor)
    requires DrawInRange(d)
    ensures doc.id == id
    ensures SeededShape(doc)
  {
    var location := LOCATIONS[d.location];
    var hospital := HOSPITALS[d.hospital];
    var days := SortDays(d.days);
    SortedDaysInRange(d.days);
    assert hospital in HOSPITALS && location in LOCATIONS;
    assert SPECIALIZATIONS[d.specialization] in SPECIALIZATIONS;
    Doctor(
      id,
      "Dr. " + d.firstName + " " + d.lastName,
      SPECIALIZATIONS[d.specialization],
      d.experience,
      location,
      hospital + ", " + location,
      d.feeUnits * 100,
      Hours(days, d.startHour, d.startHour + d.span))
  }

  /** The rows built from the draws, keyed consecutively from `firstId`. */
  function NewDoctors(firstId: int, draws: seq<Draw>): (r: seq<Doctor>)
    requires forall i :: 0 <= i < |draws| ==> DrawInRange(draws[i])
    ensures |r| == |draws|
    ensures forall i :: 0 <= i < |r| ==> r[i].id == firstId + i && SeededShape(r[i])
    decreases |draws|
  {
    if |draws| == 0 then []
    else [NewDoctor(firstId, draws[0])] + NewDoctors(firstId + 1, draws[1..])
  }

  /**
   Seeding: nothing changes when the doctors table already has rows; otherwise
   exactly `count` doctors of the seeded shape are inserted under consecutive
   fresh keys, and the appointments are untouched.
   */
  function SeedIfEmpty(s: Store, count: nat, draws: seq<Draw>): (r: Store)
    requires |draws| == count
    requires forall i :: 0 <= i < |draws| ==> DrawInRange(draws[i])
    ensures |s.doctors| > 0 ==> r == s
    ensures |s.doctors| == 0 ==>
      && |r.doctors| == count
      && r.appointments == s.appointments
      && r.nextAppointmentId == s.nextAppointmentId
      && r.nextDoctorId == s.nextDoctorId + count
      && (forall i :: 0 <= i < count ==> r.doctors[i].id == s.nextDoctorId + i)
      && (forall d :: d in r.doctors ==> SeededShape(d))
  {
    if |s.doctors| > 0 then s
    else
      var added := NewDoctors(s.nextDoctorId, draws);
      s.(doctors := s.doctors + added, nextDoctorId := s.nextDoctorId + count)
  }

  /** Seeding twice populates once, provided the first pass inserted something. */
  lemma SeedTwice(s: Store, n: nat, first: seq<Draw>, m: nat, second: seq<Draw>)
    requires |first| == n && |second| == m
    requires forall i :: 0 <= i < n ==> DrawInRange(first[i])
    requires forall i :: 0 <= i < m ==> DrawInRange(second[i])
    requires |s.doctors| > 0 || n > 0
    ensures SeedIfEmpty(SeedIfEmpty(s, n, first), m, second) == SeedIfEmpty(s, n, first)
  {
  }

  /** Seeding keeps a well-formed store well formed. */
  lemma SeedPreservesWellFormed(s: Store, count: nat, draws: seq<Draw>)
    requires WellFormed(s)
    requires |draws| == count
    requires forall i :: 0 <= i < |draws| ==> DrawInRange(draws[i])
    ensures WellFormed(SeedIfEmpty(s, count, draws))
  {
    var r := SeedIfEmpty(s, count, draws);
    if |s.doctors| == 0 {
      assert forall a :: a in s.appointments ==> !HasDoctor(s.doctors, a.doctorId);
      forall d | d in r.doctors
        ensures 1 <= d.id < r.nextDoctorId
      {
        var i :| 0 <= i < |r.doctors| && r.doctors[i] == d;
      }
    }
  }

  /**
   The bootstrap (`initialize_database`): fresh tables seeded with the default
   count hold exactly that many doctors, keyed 1 to 1000, no appointments, and
   the store is well formed.
   */
  lemma BootstrapDirectory(draws: seq<Draw>)
    requires |draws| == DEFAULT_COUNT
    requires forall i :: 0 <= i < |draws| ==> DrawInRange(draws[i])
    ensures var s := SeedIfEmpty(EmptyStore(), DEFAULT_COUNT, draws);
      && |s.doctors| == DEFAULT_COUNT
      && (forall i :: 0 <= i < DEFAULT_COUNT ==> s.doctors[i].id == i + 1)
      && s.appointments == []
      && s.nextDoctorId == DEFAULT_COUNT + 1
      && WellFormed(s)
  {
    EmptyStoreWellFormed();
    SeedPreservesWellFormed(EmptyStore(), DEFAULT_COUNT, draws);
  }
}
