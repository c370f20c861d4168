/**
 The booking ledger: booking an appointment (`_book_appointment_in_db`) and a
 patient's appointment history (`_get_appointments_for_user_db`).
 */
module Ledger {
  import opened Wrappers
  import opened Text
  import opened Sorting
  import opened Dates
  import opened DateNormalizer
  import opened Schema

  /** `SELECT ... FROM doctors WHERE id = ?`, first row. */
  function FindDoctor(doctors: seq<Doctor>, id: int): (r: Option<Doctor>)
    ensures r.Some? ==> r.value in doctors && r.value.id == id
    ensures r.None? <==> !HasDoctor(doctors, id)
    decreases |doctors|
  {
    if |doctors| == 0 then None
    else if doctors[0].id == id then Some(doctors[0])
    else
      assert forall d :: d in doctors ==> d == doctors[0] || d in doctors[1..];
      FindDoctor(doctors[1..], id)
  }

  /** The fields a successful booking echoes back. */
  datatype Confirmation = Confirmation(
    appointmentId: int,
    doctorName: string,
    patientName: string,
    date: string,
    time: string)

  datatype BookReply =
    | UnknownDoctor(doctorId: int)
    | Failed(message: string)
    | Success(confirmation: Confirmation)

  /** The store after a booking, and the booking's answer. */
  datatype Booking = Booking(store: Store, reply: BookReply)

  /**
   Books `doctorId` for `patient` on the day `dateText` names, at the verbatim
   `time`. An unknown doctor or a rejected date leaves the store as it was;
   otherwise exactly one `Booked` row is appended under the next key, with the
   canonical date of the accepted day, and the confirmation echoes that row.
   */
  function Book(
    s: Store, doctorId: int, patient: string, dateText: string, time: string,
    today: CalendarDate, parse: string -> Option<CalendarDate>): (b: Booking)
    ensures !HasDoctor(s.doctors, doctorId) ==> b == Booking(s, UnknownDoctor(doctorId))
    ensures HasDoctor(s.doctors, doctorId) && !CheckDate(dateText, today, parse).Accepted? ==>
      && b.store == s
      && b.reply == Failed(Reply(CheckDate(dateText, today, parse)))
      && StartsWith(b.reply.message, ERROR_TAG)
    ensures b.reply.Success? <==>
      HasDoctor(s.doctors, doctorId) && CheckDate(dateText, today, parse).Accepted?
    ensures b.reply.Success? ==>
      var c := b.reply.confirmation;
      && b.store.doctors == s.doctors
      && b.store.appointments ==
           s.appointments + [Appointment(c.appointmentId, doctorId, patient, c.date, c.time, Booked)]
      && c.appointmentId == s.nextAppointmentId
      && b.store.nextAppointmentId == s.nextAppointmentId + 1
      && b.store.nextDoctorId == s.nextDoctorId
      && c.date == Iso(CheckDate(dateText, today, parse).date)
      && c.time == time
      && c.patientName == patient
      && (exists d :: d in s.doctors && d.id == doctorId && d.name == c.doctorName)
  {
    match FindDoctor(s.doctors, doctorId)
    case None => Booking(s, UnknownDoctor(doctorId))
    case Some(doctor) =>
      var parsed := ParseDate(dateText, today, parse);
      ReplyTagged(CheckDate(dateText, today, parse));
      if StartsWith(parsed, ERROR_TAG) then
        Booking(s, Failed(parsed))
      else
        var id := s.nextAppointmentId;
        // the insert names no status, so the column default `Booked` applies
        var row := Appointment(id, doctorId, patient, parsed, time, Booked);
        Booking(
          s.(appointments := s.appointments + [row], nextAppointmentId := id + 1),
          Success(Confirmation(id, doctor.name, patient, parsed, time)))
  }

  /** A booked date is never earlier, as canonical text, than the day of booking. */
  lemma BookedNotInPast(
    s: Store, doctorId: int, patient: string, dateText: string, time: string,
    today: CalendarDate, parse: string -> Option<CalendarDate>)
    requires Book(s, doctorId, patient, dateText, time, today, parse).reply.Success?
    ensures var c := Book(s, doctorId, patient, dateText, time, today, parse).reply.confirmation;
      IsCanonical(c.date) && !StrLess(c.date, Iso(today))
  {
    var d := CheckDate(dateText, today, parse).date;
    IsoRoundTrip(d);
    IsoOrder(d, today);
  }

  /**
   Booking keeps the store well formed; the new key is one no earlier
   appointment carries.
   */
  lemma BookPreservesWellFormed(
    s: Store, doctorId: int, patient: string, dateText: string, time: string,
    today: CalendarDate, parse: string -> Option<CalendarDate>)
    requires WellFormed(s)
    ensures WellFormed(Book(s, doctorId, patient, dateText, time, today, parse).store)
    ensures var b := Book(s, doctorId, patient, dateText, time, today, parse);
      b.reply.Success? ==> forall a :: a in s.appointments ==> a.id != b.reply.confirmation.appointmentId
  {
    var b := Book(s, doctorId, patient, dateText, time, today, parse);
    if b.reply.Success? {
      BookedNotInPast(s, doctorId, patient, dateText, time, today, parse);
      var t := b.store;
      var n := |s.appointments|;
      assert forall a :: a in t.appointments ==> a in s.appointments || a == t.appointments[n];
    }
  }

  /** A row of the history answer. */
  datatype Entry = Entry(doctorName: string, hospital: string, date: string, time: string, fee: int)

  /** The columns the history query selects from an appointment and its doctor. */
  function EntryOf(a: Appointment, d: Doctor): Entry
  {
    Entry(d.name, d.hospital, a.date, a.time, d.fee)
  }

  /** The join condition and the patient filter of the history query. */
  predicate Joins(a: Appointment, d: Doctor, patient: string)
  {
    a.patient == patient && a.doctorId == d.id
  }

  /** The joined rows of one appointment: one per doctor row with its key. */
  function JoinRow(a: Appointment, doctors: seq<Doctor>): (r: seq<Entry>)
    ensures forall e :: e in r ==> exists d :: d in doctors && a.doctorId == d.id && e == EntryOf(a, d)
    ensures forall d :: d in doctors && a.doctorId == d.id ==> EntryOf(a, d) in r
    decreases |doctors|
  {
    if |doctors| == 0 then []
    else
      assert forall d :: d in doctors ==> d == doctors[0] || d in doctors[1..];
      (if doctors[0].id == a.doctorId then [EntryOf(a, doctors[0])] else [])
      + JoinRow(a, doctors[1..])
  }

  /** `appointments JOIN doctors ... WHERE patient_name = ?`, before ordering. */
  function Joined(appointments: seq<Appointment>, doctors: seq<Doctor>, patient: string): (r: seq<Entry>)
    ensures forall e :: e in r ==>
      exists a, d :: a in appointments && d in doctors && Joins(a, d, patient) && e == EntryOf(a, d)
    ensures forall a, d :: a in appointments && d in doctors && Joins(a, d, patient) ==> EntryOf(a, d) in r
    decreases |appointments|
  {
    if |appointments| == 0 then []
    else
      assert forall a :: a in appointments ==> a == appointments[0] || a in appointments[1..];
      (if appointments[0].patient == patient then JoinRow(appointments[0], doctors) else [])
      + Joined(appointments[1..], doctors, patient)
  }

  /** A join row of an appointment whose doctor key no doctor row carries: none. */
  lemma JoinRowNone(a: Appointment, doctors: seq<Doctor>)
    requires !HasDoctor(doctors, a.doctorId)
    ensures JoinRow(a, doctors) == []
  {
    var r := JoinRow(a, doctors);
    assert forall e :: e !in r;
  }

  /**
   With unique doctor keys an appointment joins to exactly one row: the one
   of the doctor it references.
   */
  lemma {:induction false} JoinRowUnique(a: Appointment, doctors: seq<Doctor>, d: Doctor)
    requires forall i, j :: 0 <= i < j < |doctors| ==> doctors[i].id != doctors[j].id
    requires d in doctors && d.id == a.doctorId
    ensures JoinRow(a, doctors) == [EntryOf(a, d)]
    decreases |doctors|
  {
    var rest := doctors[1..];
    if doctors[0].id == a.doctorId {
      forall k | 0 < k < |doctors|
        ensures doctors[k] != d
      {
        assert doctors[0].id != doctors[k].id;
      }
      assert d == doctors[0];
      forall x | x in rest
        ensures x.id != a.doctorId
      {
        var k :| 0 <= k < |rest| && rest[k] == x;
        assert doctors[0].id != doctors[k + 1].id;
      }
      JoinRowNone(a, rest);
    } else {
      assert d in rest;
      JoinRowUnique(a, rest, d);
    }
  }

  /** Joining one more appointment adds that appointment's rows at the end. */
  lemma {:induction false} JoinedAppend(appointments: seq<Appointment>, row: Appointment, doctors: seq<Doctor>, patient: string)
    ensures Joined(appointments + [row], doctors, patient) ==
      Joined(appointments, doctors, patient) + (if row.patient == patient then JoinRow(row, doctors) else [])
    decreases |appointments|
  {
    var all := appointments + [row];
    if |appointments| == 0 {
      assert all == [row] && all[1..] == [];
    } else {
      assert all[0] == appointments[0];
      assert all[1..] == appointments[1..] + [row];
      JoinedAppend(appointments[1..], row, doctors, patient);
    }
  }

  /** `ORDER BY appointment_date, appointment_time`, both compared as text. */
  predicate EarlierOrSame(x: Entry, y: Entry)
  {
    StrLess(x.date, y.date) || (x.date == y.date && StrLessEq(x.time, y.time))
  }

  lemma EarlierOrSameIsPreorder()
    ensures TotalPreorder(EarlierOrSame)
  {
    forall x, y
      ensures EarlierOrSame(x, y) || EarlierOrSame(y, x)
    {
      StrLessTotal(x.date, y.date);
      StrLessTotal(x.time, y.time);
    }
    forall x, y, z | EarlierOrSame(x, y) && EarlierOrSame(y, z)
      ensures EarlierOrSame(x, z)
    {
      StrLessTransitive(x.date, y.date, z.date);
      StrLessTransitive(x.time, y.time, z.time);
    }
  }

  datatype HistoryReply =
    | NoAppointments(patient: string)
    | Appointments(entries: seq<Entry>)

  /**
   A patient's history: the "no appointments" answer exactly when none of the
   patient's appointments joins to a doctor; otherwise every joined row, each
   as often as the join yields it, ordered by date and then time as text.
   */
  function History(s: Store, patient: string): (r: HistoryReply)
    ensures r.NoAppointments? <==>
      forall a, d :: a in s.appointments && d in s.doctors ==> !Joins(a, d, patient)
    ensures r.NoAppointments? ==> r.patient == patient
    ensures r.Appointments? ==>
      && multiset(r.entries) == multiset(Joined(s.appointments, s.doctors, patient))
      && Sorted(r.entries, EarlierOrSame)
  {
    var joined := Joined(s.appointments, s.doctors, patient);
    var ordered := SortBy(joined, EarlierOrSame);
    EarlierOrSameIsPreorder();
    if |ordered| == 0 then
      assert |joined| == |multiset(joined)| == 0;
      NoAppointments(patient)
    else
      assert joined[0] in joined;
      Appointments(ordered)
  }

  /** Every history row belongs to the patient and to a booked appointment of theirs. */
  lemma HistoryRowsArePatients(s: Store, patient: string, e: Entry)
    requires History(s, patient).Appointments?
    requires e in History(s, patient).entries
    ensures exists a, d :: a in s.appointments && d in s.doctors && Joins(a, d, patient) && e == EntryOf(a, d)
  {
    var r := History(s, patient).entries;
    assert e in multiset(r);
    assert e in Joined(s.appointments, s.doctors, patient);
  }

  /**
   In a well-formed store every history date is canonical, so the text order
   of the history is chronological: no row is dated after a later row.
   */
  lemma HistoryChronological(s: Store, patient: string, i: int, j: int)
    requires WellFormed(s)
    requires History(s, patient).Appointments?
    requires 0 <= i < j < |History(s, patient).entries|
    ensures var es := History(s, patient).entries;
      && IsCanonical(es[i].date) && IsCanonical(es[j].date)
      && !Before(ParseIso(es[j].date).value, ParseIso(es[i].date).value)
  {
    var es := History(s, patient).entries;
    HistoryRowsArePatients(s, patient, es[i]);
    HistoryRowsArePatients(s, patient, es[j]);
    var di, dj := ParseIso(es[i].date).value, ParseIso(es[j].date).value;
    ParseIsoCanonical(es[i].date, di);
    ParseIsoCanonical(es[j].date, dj);
    IsoOrder(dj, di);
    assert EarlierOrSame(es[i], es[j]);
    StrLessAsymmetric(es[i].date, es[j].date);
    StrLessIrreflexive(es[i].date);
  }

  /**
   Round trip: after a successful booking the patient's history has a row with
   the confirmed doctor, date and time.
   */
  lemma BookThenHistory(
    s: Store, doctorId: int, patient: string, dateText: string, time: string,
    today: CalendarDate, parse: string -> Option<CalendarDate>)
    requires Book(s, doctorId, patient, dateText, time, today, parse).reply.Success?
    ensures var b := Book(s, doctorId, patient, dateText, time, today, parse);
      var c := b.reply.confirmation;
      var h := History(b.store, c.patientName);
      && h.Appointments?
      && exists e :: e in h.entries && e.doctorName == c.doctorName && e.date == c.date && e.time == c.time
  {
    var b := Book(s, doctorId, patient, dateText, time, today, parse);
    var c := b.reply.confirmation;
    var t := b.store;
    var row := t.appointments[|t.appointments| - 1];
    var d :| d in s.doctors && d.id == doctorId && d.name == c.doctorName;
    assert row in t.appointments && d in t.doctors && Joins(row, d, patient);
    var joined := Joined(t.appointments, t.doctors, patient);
    assert EntryOf(row, d) in joined;
    var h := History(t, patient);
    assert h.Appointments?;
    assert EntryOf(row, d) in multiset(h.entries);
    assert EntryOf(row, d) in h.entries;
  }

  /** The rows a history answer lists: none for the "no appointments" answer. */
  function Listed(h: HistoryReply): seq<Entry>
  {
    if h.Appointments? then h.entries else []
  }

  /** The history lists every joined row, each as often as the join yields it. */
  lemma ListedIsJoined(s: Store, patient: string)
    ensures multiset(Listed(History(s, patient))) == multiset(Joined(s.appointments, s.doctors, patient))
  {
    var joined := Joined(s.appointments, s.doctors, patient);
    assert History(s, patient).NoAppointments? ==> forall e :: e !in joined;
  }

  /**
   In a well-formed store a successful booking adds exactly one row to the
   booking patient's history, with the booked doctor's name, hospital and fee
   and the confirmed date and time, and leaves every other patient's history
   as it was. Two identical bookings are listed twice.
   */
  lemma BookAddsOneHistoryRow(
    s: Store, doctorId: int, patient: string, dateText: string, time: string,
    today: CalendarDate, parse: string -> Option<CalendarDate>, who: string)
    requires WellFormed(s)
    requires Book(s, doctorId, patient, dateText, time, today, parse).reply.Success?
    ensures var b := Book(s, doctorId, patient, dateText, time, today, parse);
      var c := b.reply.confirmation;
      var d := FindDoctor(s.doctors, doctorId).value;
      && d.name == c.doctorName
      && multiset(Listed(History(b.store, who))) ==
         multiset(Listed(History(s, who)))
         + (if who == patient then multiset{Entry(d.name, d.hospital, c.date, c.time, d.fee)} else multiset{})
  {
    var b := Book(s, doctorId, patient, dateText, time, today, parse);
    var c := b.reply.confirmation;
    var d := FindDoctor(s.doctors, doctorId).value;
    var row := Appointment(c.appointmentId, doctorId, patient, c.date, c.time, Booked);
    JoinedAppend(s.appointments, row, s.doctors, who);
    if who == patient {
      JoinRowUnique(row, s.doctors, d);
    }
    ListedIsJoined(s, who);
    ListedIsJoined(b.store, who);
  }
}
