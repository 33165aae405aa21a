/**
 * The read-only views of the store: `advancedPatientSearch`,
 * `advancedAppointmentSearch` and the date and status filter of the
 * appointments table (`filterAppointments`). An empty text filter, a zero
 * age bound or a missing date is a filter that is not set, as a falsy value
 * is in the source. `today` and the time of day stand for `new Date()`.
 */
module Search {
  import opened Wrappers
  import opened Seqs
  import opened Text
  import opened Calendar
  import opened Records

  /** Case-insensitive `includes`, as `a.toLowerCase().includes(b.toLowerCase())`. */
  predicate IncludesIgnoringCase(s: string, part: string)
  {
    Includes(Lower(s), Lower(part))
  }

  lemma LowerIdempotent(s: string)
    ensures Lower(Lower(s)) == Lower(s)
  {
    assert forall i :: 0 <= i < |s| ==> LowerChar(LowerChar(s[i])) == LowerChar(s[i]);
  }

  /* ---------- advancedPatientSearch ---------- */

  datatype PatientFilters = PatientFilters(name: string, dni: string, gender: string, ageMin: int, ageMax: int)

  const NoPatientFilters := PatientFilters("", "", "", 0, 0)

  /** The patient passes every filter that is set. */
  predicate PatientMatches(p: Patient, f: PatientFilters, today: Date)
  {
    (f.name == "" || IncludesIgnoringCase(p.name, f.name))
    && (f.dni == "" || Includes(p.dni, f.dni))
    && (f.gender == "" || p.gender == f.gender)
    && (f.ageMin == 0 || CalculateAge(p.birthDate, today) >= f.ageMin)
    && (f.ageMax == 0 || CalculateAge(p.birthDate, today) <= f.ageMax)
  }

  /** `advancedPatientSearch`: the matching patients, in store order. */
  function AdvancedPatientSearch(patients: seq<Patient>, f: PatientFilters, today: Date): (r: seq<Patient>)
    ensures forall i :: 0 <= i < |r| ==> r[i] in patients && PatientMatches(r[i], f, today)
    ensures forall i :: 0 <= i < |patients| && PatientMatches(patients[i], f, today) ==> patients[i] in r
    ensures SubsequenceAt(r, patients, KeptIndices((p: Patient) => PatientMatches(p, f, today), patients))
  {
    FilterKeepsOrder((p: Patient) => PatientMatches(p, f, today), patients);
    Filter((p: Patient) => PatientMatches(p, f, today), patients)
  }

  /** With no filter set every patient is returned, in order. */
  lemma PatientSearchWithoutFilters(patients: seq<Patient>, today: Date)
    ensures AdvancedPatientSearch(patients, NoPatientFilters, today) == patients
  {
    FilterAll((p: Patient) => PatientMatches(p, NoPatientFilters, today), patients);
  }

  /** Setting one more filter can only narrow the result. */
  lemma PatientSearchNarrows(patients: seq<Patient>, f: PatientFilters, g: PatientFilters, today: Date)
    requires forall p: Patient :: PatientMatches(p, g, today) ==> PatientMatches(p, f, today)
    ensures forall i :: 0 <= i < |AdvancedPatientSearch(patients, g, today)| ==>
      AdvancedPatientSearch(patients, g, today)[i] in AdvancedPatientSearch(patients, f, today)
    ensures |AdvancedPatientSearch(patients, g, today)| <= |AdvancedPatientSearch(patients, f, today)|
  {
    FilterMonotone((p: Patient) => PatientMatches(p, g, today), (p: Patient) => PatientMatches(p, f, today), patients);
  }

  /** The name filter ignores case: a lower-cased query finds the same patients. */
  lemma NameFilterIgnoresCase(p: Patient, f: PatientFilters, today: Date)
    requires f.name != ""
    ensures PatientMatches(p, f.(name := Lower(f.name)), today) == PatientMatches(p, f, today)
  {
    LowerIdempotent(f.name);
  }

  /** An age window keeps exactly the patients whose completed years lie in it. */
  lemma AgeWindow(p: Patient, lo: int, hi: int, today: Date)
    requires lo != 0 && hi != 0
    ensures PatientMatches(p, PatientFilters("", "", "", lo, hi), today)
        <==> lo <= CalculateAge(p.birthDate, today) <= hi
  {
  }

  /* ---------- advancedAppointmentSearch ---------- */

  datatype AppointmentFilters = AppointmentFilters(
    patientName: string,
    doctor: string,
    specialty: string,
    status: string,
    dateFrom: Option<Date>,
    dateTo: Option<Date>)

  const NoAppointmentFilters := AppointmentFilters("", "", "", "", None, None)

  /** The appointment passes every filter that is set; dates compare as ISO strings. */
  predicate AppointmentMatches(a: Appointment, f: AppointmentFilters)
  {
    (f.patientName == "" || IncludesIgnoringCase(a.patientName, f.patientName))
    && (f.doctor == "" || IncludesIgnoringCase(a.doctor, f.doctor))
    && (f.specialty == "" || a.specialty == f.specialty)
    && (f.status == "" || a.status == f.status)
    && (f.dateFrom.None? || DateLeq(f.dateFrom.value, a.date))
    && (f.dateTo.None? || DateLeq(a.date, f.dateTo.value))
  }

  /** `advancedAppointmentSearch`: the matching appointments, in store order. */
  function AdvancedAppointmentSearch(appointments: seq<Appointment>, f: AppointmentFilters): (r: seq<Appointment>)
    ensures forall i :: 0 <= i < |r| ==> r[i] in appointments && AppointmentMatches(r[i], f)
    ensures forall i :: 0 <= i < |appointments| && AppointmentMatches(appointments[i], f) ==> appointments[i] in r
    ensures SubsequenceAt(r, appointments, KeptIndices((a: Appointment) => AppointmentMatches(a, f), appointments))
  {
    FilterKeepsOrder((a: Appointment) => AppointmentMatches(a, f), appointments);
    Filter((a: Appointment) => AppointmentMatches(a, f), appointments)
  }

  lemma AppointmentSearchWithoutFilters(appointments: seq<Appointment>)
    ensures AdvancedAppointmentSearch(appointments, NoAppointmentFilters) == appointments
  {
    FilterAll((a: Appointment) => AppointmentMatches(a, NoAppointmentFilters), appointments);
  }

  /**
   * A date range whose ends are valid dates keeps exactly the appointments
   * dated between them, both ends included, and none when the range is
   * empty (the start after the end).
   */
  lemma DateRangeSearch(appointments: seq<Appointment>, from: Date, to: Date)
    requires ValidDate(from) && ValidDate(to)
    requires forall i :: 0 <= i < |appointments| ==> ValidDate(appointments[i].date)
    ensures var f := NoAppointmentFilters.(dateFrom := Some(from), dateTo := Some(to));
      forall i :: 0 <= i < |AdvancedAppointmentSearch(appointments, f)| ==>
        DayNumber(from) <= DayNumber(AdvancedAppointmentSearch(appointments, f)[i].date) <= DayNumber(to)
    ensures !ValidateDateRange(Some(from), Some(to)) ==>
      AdvancedAppointmentSearch(appointments, NoAppointmentFilters.(dateFrom := Some(from), dateTo := Some(to))) == []
  {
    var f := NoAppointmentFilters.(dateFrom := Some(from), dateTo := Some(to));
    var r := AdvancedAppointmentSearch(appointments, f);
    forall i | 0 <= i < |r|
      ensures DayNumber(from) <= DayNumber(r[i].date) <= DayNumber(to)
    {
      var k :| 0 <= k < |appointments| && appointments[k] == r[i];
      DayNumberOrder(from, r[i].date);
      DayNumberOrder(r[i].date, to);
    }
    if r != [] {
      assert DayNumber(from) <= DayNumber(r[0].date) <= DayNumber(to);
    }
  }

  /* ---------- filterAppointments ---------- */

  /** The date selector of the appointments table. */
  datatype DateFilter = AnyDate | Today | Tomorrow | ThisWeek

  const MsPerDay := 86400000

  /**
   * The week test as the source writes it: `new Date(apt.date)` is midnight
   * of that date, `today` is the current instant (`msOfDay` milliseconds
   * into the current day), and the week ends seven days after that instant.
   */
  predicate InWeekAsWritten(d: Date, today: Date, msOfDay: int)
  {
    var appointmentInstant := DayNumber(d) * MsPerDay;
    var now := DayNumber(today) * MsPerDay + msOfDay;
    now <= appointmentInstant <= now + 7 * MsPerDay
  }

  /** The week test as intended: from today to seven days later, both included. */
  predicate InWeek(d: Date, today: Date)
  {
    DayNumber(today) <= DayNumber(d) <= DayNumber(today) + 7
  }

  /**
   * Past midnight the written test leaves out every appointment of the
   * current day, although the "today" choice shows it.
   */
  lemma WeekAsWrittenMissesToday(today: Date, msOfDay: int)
    requires 0 < msOfDay < MsPerDay
    ensures !InWeekAsWritten(today, today, msOfDay)
    ensures InWeek(today, today)
  {
  }

  /** Past midnight the written test is the intended week without its first day. */
  lemma WeekAsWrittenShifted(d: Date, today: Date, msOfDay: int)
    requires 0 < msOfDay < MsPerDay
    ensures InWeekAsWritten(d, today, msOfDay) <==> InWeek(d, today) && DayNumber(d) != DayNumber(today)
  {
    var n, t := DayNumber(d), DayNumber(today);
    if n <= t {
      assert n * MsPerDay <= t * MsPerDay;
    } else if n > t + 7 {
      assert n * MsPerDay >= (t + 8) * MsPerDay;
    } else {
      assert n * MsPerDay >= (t + 1) * MsPerDay;
      assert n * MsPerDay <= (t + 7) * MsPerDay;
    }
  }

  /** The corrected week contains the "today" and the "tomorrow" choices. */
  lemma WeekCoversTodayAndTomorrow(d: Date, today: Date)
    ensures d == today ==> InWeek(d, today)
    ensures DayNumber(d) == DayNumber(today) + 1 ==> InWeek(d, today)
  {
  }

  /** The date choice with the intended week. */
  predicate InDateFilter(d: Date, filter: DateFilter, today: Date)
  {
    match filter
    case AnyDate => true
    case Today => d == today
    case Tomorrow => DayNumber(d) == DayNumber(today) + 1
    case ThisWeek => InWeek(d, today)
  }

  /** The date choice as the source writes it, `msOfDay` milliseconds into the current day. */
  predicate InDateFilterAsWritten(d: Date, filter: DateFilter, today: Date, msOfDay: int)
  {
    match filter
    case AnyDate => true
    case Today => d == today
    case Tomorrow => DayNumber(d) == DayNumber(today) + 1
    case ThisWeek => InWeekAsWritten(d, today, msOfDay)
  }

  /**
   * The two passes of `filterAppointments`: a date pass when a date choice
   * is made (`anyDate` false), then a status pass when a status is chosen.
   */
  function ByDateAndStatus(appointments: seq<Appointment>, inDate: Date -> bool, anyDate: bool, status: string): (r: seq<Appointment>)
    ensures |r| <= |appointments|
    ensures forall i :: 0 <= i < |r| ==>
      r[i] in appointments && (anyDate || inDate(r[i].date)) && (status == "" || r[i].status == status)
    ensures forall i :: 0 <= i < |appointments| ==>
      (anyDate || inDate(appointments[i].date)) && (status == "" || appointments[i].status == status)
      ==> appointments[i] in r
    ensures SubsequenceAt(r, appointments,
      KeptIndices((a: Appointment) => (anyDate || inDate(a.date)) && (status == "" || a.status == status), appointments))
  {
    var byDate := if anyDate then appointments else Filter((a: Appointment) => inDate(a.date), appointments);
    var r := if status == "" then byDate else Filter((a: Appointment) => a.status == status, byDate);
    var both := (a: Appointment) => (anyDate || inDate(a.date)) && (status == "" || a.status == status);
    OptionalFilters((a: Appointment) => inDate(a.date), anyDate, (a: Appointment) => a.status == status, status == "", both, appointments);
    FilterKeepsOrder(both, appointments);
    r
  }

  /** Date tests that agree on every appointment's date give the same result. */
  lemma ByDateAndStatusExt(appointments: seq<Appointment>, p: Date -> bool, q: Date -> bool, anyDate: bool, status: string)
    requires forall i :: 0 <= i < |appointments| ==> p(appointments[i].date) == q(appointments[i].date)
    ensures ByDateAndStatus(appointments, p, anyDate, status) == ByDateAndStatus(appointments, q, anyDate, status)
  {
    FilterExt((a: Appointment) => p(a.date), (a: Appointment) => q(a.date), appointments);
  }

  /**
   * `filterAppointments` with the intended week: the date choice, then the
   * status choice (`""` for all statuses).
   */
  function FilterAppointments(appointments: seq<Appointment>, filter: DateFilter, status: string, today: Date): (r: seq<Appointment>)
    ensures |r| <= |appointments|
    ensures forall i :: 0 <= i < |r| ==>
      r[i] in appointments && InDateFilter(r[i].date, filter, today) && (status == "" || r[i].status == status)
    ensures forall i :: 0 <= i < |appointments| ==>
      InDateFilter(appointments[i].date, filter, today) && (status == "" || appointments[i].status == status)
      ==> appointments[i] in r
    ensures SubsequenceAt(r, appointments,
      KeptIndices((a: Appointment) => InDateFilter(a.date, filter, today) && (status == "" || a.status == status), appointments))
  {
    KeptIndicesExt((a: Appointment) => (filter == AnyDate || ((d: Date) => InDateFilter(d, filter, today))(a.date)) && (status == "" || a.status == status),
      (a: Appointment) => InDateFilter(a.date, filter, today) && (status == "" || a.status == status), appointments);
    ByDateAndStatus(appointments, (d: Date) => InDateFilter(d, filter, today), filter == AnyDate, status)
  }

  /** `filterAppointments` as written, with the week test of the source. */
  function FilterAppointmentsAsWritten(appointments: seq<Appointment>, filter: DateFilter, status: string, today: Date, msOfDay: int): (r: seq<Appointment>)
    ensures |r| <= |appointments|
    ensures forall i :: 0 <= i < |r| ==>
      r[i] in appointments && InDateFilterAsWritten(r[i].date, filter, today, msOfDay) && (status == "" || r[i].status == status)
    ensures forall i :: 0 <= i < |appointments| ==>
      InDateFilterAsWritten(appointments[i].date, filter, today, msOfDay) && (status == "" || appointments[i].status == status)
      ==> appointments[i] in r
    ensures SubsequenceAt(r, appointments,
      KeptIndices((a: Appointment) => InDateFilterAsWritten(a.date, filter, today, msOfDay) && (status == "" || a.status == status), appointments))
  {
    KeptIndicesExt((a: Appointment) => (filter == AnyDate || ((d: Date) => InDateFilterAsWritten(d, filter, today, msOfDay))(a.date)) && (status == "" || a.status == status),
      (a: Appointment) => InDateFilterAsWritten(a.date, filter, today, msOfDay) && (status == "" || a.status == status), appointments);
    ByDateAndStatus(appointments, (d: Date) => InDateFilterAsWritten(d, filter, today, msOfDay), filter == AnyDate, status)
  }

  /**
   * The two filters differ only in the week choice, and there exactly on
   * today's appointments: after midnight the source's week drops them, the
   * intended week keeps them.
   */
  lemma FilterAsWrittenDropsToday(appointments: seq<Appointment>, filter: DateFilter, status: string, today: Date, msOfDay: int)
    requires 0 < msOfDay < MsPerDay
    ensures filter != ThisWeek ==>
      FilterAppointmentsAsWritten(appointments, filter, status, today, msOfDay) == FilterAppointments(appointments, filter, status, today)
    ensures forall i :: 0 <= i < |appointments| && appointments[i].date == today ==>
      appointments[i] !in FilterAppointmentsAsWritten(appointments, ThisWeek, status, today, msOfDay)
      && (status == "" || appointments[i].status == status ==> appointments[i] in FilterAppointments(appointments, ThisWeek, status, today))
  {
    if filter != ThisWeek {
      ByDateAndStatusExt(appointments, (d: Date) => InDateFilterAsWritten(d, filter, today, msOfDay),
                         (d: Date) => InDateFilter(d, filter, today), filter == AnyDate, status);
    }
    forall i | 0 <= i < |appointments| && appointments[i].date == today
      ensures appointments[i] !in FilterAppointmentsAsWritten(appointments, ThisWeek, status, today, msOfDay)
    {
      WeekAsWrittenMissesToday(today, msOfDay);
    }
  }

  /** With neither choice made the table shows every appointment, in order. */
  lemma FilterAppointmentsWithoutChoice(appointments: seq<Appointment>, today: Date)
    ensures FilterAppointments(appointments, AnyDate, "", today) == appointments
  {
  }
}
