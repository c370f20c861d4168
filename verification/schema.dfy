/**
 The two tables of the appointment store (`create_tables`), held in memory: the
 doctors, the appointments, and the next value of each `AUTOINCREMENT` key.
 */
module Schema {
  import opened Dates

  /**
   The single visiting-hours entry of a doctor: the weekday abbreviations that
   form its key, and the hours of its `HH:00-HH:00` range.
   */
  datatype Hours = Hours(days: seq<string>, startHour: int, endHour: int)

  /** A row of `doctors`. */
  datatype Doctor = Doctor(
    id: int,
    name: string,
    specialization: string,
    experience: int,
    location: string,
    hospital: string,
    fee: int,
    hours: Hours)

  /** `status` of an appointment; the column default is the only value ever written. */
  datatype Status = Booked

  /** A row of `appointments`; `date` is the text stored, `time` is free text. */
  datatype Appointment = Appointment(
    id: int,
    doctorId: int,
    patient: string,
    date: string,
    time: string,
    status: Status)

  datatype Store = Store(
    doctors: seq<Doctor>,
    appointments: seq<Appointment>,
    nextDoctorId: int,
    nextAppointmentId: int)

  /** Freshly created tables: no rows, and both keys start at 1. */
  function EmptyStore(): Store
  {
    Store([], [], 1, 1)
  }

  /** Some doctor row carries the key `id`. */
  predicate HasDoctor(doctors: seq<Doctor>, id: int)
  {
    exists d :: d in doctors && d.id == id
  }

  /**
   What the operations of this subsystem keep true of the store: keys are
   unique and below the next key, every appointment refers to an existing
   doctor, and every stored date is canonical `YYYY-MM-DD` text.
   */
  predicate WellFormed(s: Store)
  {
    && 1 <= s.nextDoctorId && 1 <= s.nextAppointmentId
    && (forall i, j :: 0 <= i < j < |s.doctors| ==> s.doctors[i].id != s.doctors[j].id)
    && (forall d :: d in s.doctors ==> 1 <= d.id < s.nextDoctorId)
    && (forall i, j :: 0 <= i < j < |s.appointments| ==> s.appointments[i].id != s.appointments[j].id)
    && (forall a :: a in s.appointments ==> 1 <= a.id < s.nextAppointmentId)
    && (forall a :: a in s.appointments ==> HasDoctor(s.doctors, a.doctorId))
    && (forall a :: a in s.appointments ==> IsCanonical(a.date))
  }

  lemma EmptyStoreWellFormed()
    ensures WellFormed(EmptyStore())
  {
  }
}
