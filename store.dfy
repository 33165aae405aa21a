/**
 * The in-memory record store: the patient and appointment arrays, the two
 * identifier counters, and the four handlers that change them
 * (`handlePatientSubmit`, `deletePatient`, `handleAppointmentSubmit`,
 * `deleteAppointment`). Each handler is a method of `RecordStore` whose new
 * state is the value of a step function of the old state; the lemmas about
 * the step functions say what a handler keeps and what it changes.
 */
module Store {
  import opened Wrappers
  import opened Seqs
  import opened Calendar
  import opened Records
  import opened Scheduling

  /* ---------- Invariants of the store ---------- */

  /** Two patients may coexist: different identifiers and different DNIs. */
  predicate DistinctPatients(a: Patient, b: Patient)
  {
    a.id != b.id && a.dni != b.dni
  }

  /** Every identifier was handed out by the counter; identifiers and DNIs are unique. */
  ghost predicate PatientsValid(patients: seq<Patient>, counter: int)
  {
    0 <= counter
    && (forall i :: 0 <= i < |patients| ==> 1 <= patients[i].id <= counter)
    && Pairwise(patients, DistinctPatients)
  }

  /** Two non-cancelled appointments hold the same doctor at the same date and time. */
  predicate Clash(a: Appointment, b: Appointment)
  {
    a.doctor == b.doctor && a.date == b.date && a.time == b.time
    && a.status != Cancelled && b.status != Cancelled
  }

  /** Two appointments may coexist: different identifiers and no double booking. */
  predicate DistinctAppointments(a: Appointment, b: Appointment)
  {
    a.id != b.id && !Clash(a, b)
  }

  /** Every identifier was handed out by the counter; identifiers are unique; no doctor is booked twice. */
  ghost predicate AppointmentsValid(appointments: seq<Appointment>, counter: int)
  {
    0 <= counter
    && (forall i :: 0 <= i < |appointments| ==> 1 <= appointments[i].id <= counter)
    && Pairwise(appointments, DistinctAppointments)
  }

  /* ---------- handlePatientSubmit ---------- */

  /** Another patient (identifier other than `id`) already has this DNI. */
  function DniTaken(patients: seq<Patient>, dni: string, id: int): (taken: bool)
    ensures taken <==> exists i :: 0 <= i < |patients| && patients[i].dni == dni && patients[i].id != id
  {
    FirstIndex((p: Patient) => p.dni == dni && p.id != id, patients).Some?
  }

  datatype PatientOutcome = PatientCreated | PatientUpdated | DuplicateDni | PatientNotFound

  datatype PatientStep = PatientStep(patients: seq<Patient>, counter: int, outcome: PatientOutcome)

  /**
   * `handlePatientSubmit`. With no identifier in the form (`editId == None`)
   * the counter is incremented first and its new value is the identifier,
   * even when the DNI check then refuses the record. A DNI held by another
   * patient refuses the submission. Otherwise a new patient is appended, or
   * the record with the edited identifier is overwritten; an edited
   * identifier that no record has changes nothing.
   */
  function SubmitPatientStep(patients: seq<Patient>, counter: int, editId: Option<int>, form: PatientForm): PatientStep
  {
    var newCounter := if editId.None? then counter + 1 else counter;
    var id := if editId.None? then newCounter else editId.value;
    if DniTaken(patients, form.dni, id) then PatientStep(patients, newCounter, DuplicateDni)
    else if editId.None? then PatientStep(patients + [PatientOf(id, form)], newCounter, PatientCreated)
    else match FirstIndex((p: Patient) => p.id == id, patients)
      case None => PatientStep(patients, newCounter, PatientNotFound)
      case Some(k) => PatientStep(patients[k := PatientOf(id, form)], newCounter, PatientUpdated)
  }

  /** What a patient submission does to a valid store, case by case. */
  lemma SubmitPatientEffect(patients: seq<Patient>, counter: int, editId: Option<int>, form: PatientForm)
    requires PatientsValid(patients, counter)
    ensures var r := SubmitPatientStep(patients, counter, editId, form);
      var id := if editId.None? then counter + 1 else editId.value;
      && r.counter == (if editId.None? then counter + 1 else counter)
      && (r.outcome == DuplicateDni <==> exists i :: 0 <= i < |patients| && patients[i].dni == form.dni && patients[i].id != id)
      && (r.outcome in {DuplicateDni, PatientNotFound} ==> r.patients == patients)
      && (r.outcome == PatientNotFound <==> editId.Some? && r.outcome != DuplicateDni && forall i :: 0 <= i < |patients| ==> patients[i].id != id)
      && (r.outcome == PatientCreated <==> editId.None? && r.outcome != DuplicateDni)
      && (r.outcome == PatientCreated ==> r.patients == patients + [PatientOf(counter + 1, form)])
      && (r.outcome == PatientUpdated ==>
            |r.patients| == |patients|
            && forall i :: 0 <= i < |patients| ==>
                 r.patients[i] == if patients[i].id == id then PatientOf(id, form) else patients[i])
  {
    var r := SubmitPatientStep(patients, counter, editId, form);
    var newCounter := if editId.None? then counter + 1 else counter;
    var id := if editId.None? then newCounter else editId.value;
    if r.outcome == PatientUpdated {
      var k := FirstIndex((p: Patient) => p.id == id, patients).value;
      assert patients[k].id == id;
      forall i | 0 <= i < |patients| && i != k
        ensures patients[i].id != id
      {
        assert DistinctPatients(patients[i], patients[k]);
      }
    }
  }

  /** A submission keeps identifiers handed out by the counter, unique, and DNIs unique. */
  lemma SubmitPatientKeepsValid(patients: seq<Patient>, counter: int, editId: Option<int>, form: PatientForm)
    requires PatientsValid(patients, counter)
    ensures var r := SubmitPatientStep(patients, counter, editId, form);
      PatientsValid(r.patients, r.counter)
  {
    var r := SubmitPatientStep(patients, counter, editId, form);
    var newCounter := if editId.None? then counter + 1 else counter;
    var id := if editId.None? then newCounter else editId.value;
    var record := PatientOf(id, form);
    if r.outcome == PatientCreated {
      forall i | 0 <= i < |patients|
        ensures DistinctPatients(patients[i], record) && DistinctPatients(record, patients[i])
      {
        assert patients[i].id <= counter < id;
      }
      PairwiseSnoc(patients, record, DistinctPatients);
    } else if r.outcome == PatientUpdated {
      var k := FirstIndex((p: Patient) => p.id == id, patients).value;
      forall i | 0 <= i < |patients| && i != k
        ensures DistinctPatients(patients[i], record) && DistinctPatients(record, patients[i])
      {
        assert DistinctPatients(patients[i], patients[k]);
      }
      PairwiseUpdate(patients, k, record, DistinctPatients);
    }
  }

  /* ---------- deletePatient ---------- */

  /** Some appointment of the patient is still `Programada`. */
  function HasScheduledAppointments(appointments: seq<Appointment>, patientId: int): (scheduled: bool)
    ensures scheduled <==>
      (exists i :: 0 <= i < |appointments| && appointments[i].patientId == patientId && appointments[i].status == Scheduled)
  {
    FirstIndex((a: Appointment) => a.patientId == patientId && a.status == Scheduled, appointments).Some?
  }

  /**
   * `deletePatient`: refused while the patient has a scheduled appointment;
   * otherwise every record with that identifier is dropped. The patient's
   * completed and cancelled appointments are left in place.
   */
  function DeletePatientStep(patients: seq<Patient>, appointments: seq<Appointment>, id: int): (r: Option<seq<Patient>>)
  {
    if HasScheduledAppointments(appointments, id) then None
    else Some(Filter((p: Patient) => p.id != id, patients))
  }

  /**
   * A deletion is refused exactly when a scheduled appointment names the
   * patient; an accepted one removes the identifier and keeps every other
   * patient, in order, and keeps the store valid.
   */
  lemma DeletePatientEffect(patients: seq<Patient>, appointments: seq<Appointment>, id: int, counter: int)
    requires PatientsValid(patients, counter)
    ensures DeletePatientStep(patients, appointments, id).None?
        <==> (exists i :: 0 <= i < |appointments| && appointments[i].patientId == id && appointments[i].status == Scheduled)
    ensures match DeletePatientStep(patients, appointments, id)
      case None => true
      case Some(rest) =>
        && (forall i :: 0 <= i < |rest| ==> rest[i].id != id && rest[i] in patients)
        && (forall i :: 0 <= i < |patients| && patients[i].id != id ==> patients[i] in rest)
        && SubsequenceAt(rest, patients, KeptIndices((p: Patient) => p.id != id, patients))
        && (forall j :: 0 <= j < |patients| && patients[j].id != id ==> j in KeptIndices((p: Patient) => p.id != id, patients))
        && PatientsValid(rest, counter)
  {
    if !HasScheduledAppointments(appointments, id) {
      FilterPairwise((p: Patient) => p.id != id, patients, DistinctPatients);
      FilterKeepsOrder((p: Patient) => p.id != id, patients);
    }
  }

  /**
   * Only a scheduled appointment protects a patient: one whose appointments
   * are all completed or cancelled is deleted, and those appointments go on
   * naming an identifier that no patient has.
   */
  lemma DeletionLeavesHistory(patients: seq<Patient>, appointments: seq<Appointment>, id: int, j: nat)
    requires j < |appointments| && appointments[j].patientId == id
    requires forall i :: 0 <= i < |appointments| && appointments[i].patientId == id ==> appointments[i].status != Scheduled
    ensures DeletePatientStep(patients, appointments, id).Some?
    ensures var rest := DeletePatientStep(patients, appointments, id).value;
      forall i :: 0 <= i < |rest| ==> rest[i].id != appointments[j].patientId
  {
  }

  /* ---------- handleAppointmentSubmit ---------- */

  /**
   * The conflict test of the submit handler: another appointment (identifier
   * other than the candidate's), not cancelled, holds the candidate's
   * doctor, date and time.
   */
  function HasConflict(appointments: seq<Appointment>, candidate: Appointment): bool
  {
    FirstIndex((a: Appointment) =>
        a.doctor == candidate.doctor && a.date == candidate.date && a.time == candidate.time
        && a.id != candidate.id && a.status != Cancelled,
      appointments).Some?
  }

  /** The handler's inline conflict test is `isDoctorAvailable` with the candidate excluded. */
  lemma ConflictIsUnavailability(appointments: seq<Appointment>, candidate: Appointment)
    ensures HasConflict(appointments, candidate)
        <==> !IsDoctorAvailable(appointments, candidate.doctor, candidate.date, candidate.time, Some(candidate.id))
  {
    var p := (a: Appointment) =>
        a.doctor == candidate.doctor && a.date == candidate.date && a.time == candidate.time
        && a.id != candidate.id && a.status != Cancelled;
    assert forall i :: 0 <= i < |appointments| ==>
      (p(appointments[i]) <==> Occupies(appointments[i], candidate.doctor, candidate.date, candidate.time, Some(candidate.id)));
  }

  datatype AppointmentOutcome = AppointmentCreated | AppointmentUpdated | InvalidPatient | SlotTaken | AppointmentNotFound

  datatype AppointmentStep = AppointmentStep(appointments: seq<Appointment>, counter: int, outcome: AppointmentOutcome)

  /**
   * `handleAppointmentSubmit`. A patient identifier no patient has refuses
   * the submission before anything changes. Then, for a new appointment,
   * the counter is incremented and gives the identifier, even if the
   * conflict test refuses the record. The patient's current name is copied
   * into the record. The daily limit is not consulted.
   */
  function SubmitAppointmentStep(appointments: seq<Appointment>, patients: seq<Patient>, counter: int,
                                 editId: Option<int>, form: AppointmentForm): AppointmentStep
  {
    match FirstIndex((p: Patient) => p.id == form.patientId, patients)
    case None => AppointmentStep(appointments, counter, InvalidPatient)
    case Some(k) =>
      var newCounter := if editId.None? then counter + 1 else counter;
      var id := if editId.None? then newCounter else editId.value;
      var record := AppointmentOf(id, form, patients[k].name);
      if HasConflict(appointments, record) then AppointmentStep(appointments, newCounter, SlotTaken)
      else if editId.None? then AppointmentStep(appointments + [record], newCounter, AppointmentCreated)
      else match FirstIndex((a: Appointment) => a.id == id, appointments)
        case None => AppointmentStep(appointments, newCounter, AppointmentNotFound)
        case Some(j) => AppointmentStep(appointments[j := record], newCounter, AppointmentUpdated)
  }

  /**
   * What an appointment submission does to a valid store, case by case:
   * an unknown patient and a taken slot are the only refusals; otherwise a
   * new appointment is created, and an edit updates the record with its
   * identifier, or finds none.
   */
  lemma SubmitAppointmentEffect(appointments: seq<Appointment>, patients: seq<Patient>, counter: int,
                                editId: Option<int>, form: AppointmentForm)
    requires AppointmentsValid(appointments, counter)
    ensures var r := SubmitAppointmentStep(appointments, patients, counter, editId, form);
      var id := if editId.None? then counter + 1 else editId.value;
      && (r.outcome == InvalidPatient <==> forall i :: 0 <= i < |patients| ==> patients[i].id != form.patientId)
      && (r.outcome == InvalidPatient ==> r.counter == counter)
      && (r.outcome != InvalidPatient ==> r.counter == if editId.None? then counter + 1 else counter)
      && (r.outcome in {InvalidPatient, SlotTaken, AppointmentNotFound} ==> r.appointments == appointments)
      && (r.outcome != InvalidPatient ==>
            (r.outcome == SlotTaken <==>
               (exists i :: 0 <= i < |appointments|
                  && appointments[i].doctor == form.doctor && appointments[i].date == form.date
                  && appointments[i].time == form.time && appointments[i].id != id
                  && appointments[i].status != Cancelled)))
      && (r.outcome in {AppointmentCreated, AppointmentUpdated} ==>
            exists k :: 0 <= k < |patients| && patients[k].id == form.patientId
              && AppointmentOf(id, form, patients[k].name) in r.appointments)
      && (r.outcome == AppointmentCreated ==>
            editId.None? && |r.appointments| == |appointments| + 1 && r.appointments[..|appointments|] == appointments)
      && (r.outcome == AppointmentUpdated ==>
            |r.appointments| == |appointments|
            && forall i :: 0 <= i < |appointments| && appointments[i].id != id ==> r.appointments[i] == appointments[i])
    ensures var r := SubmitAppointmentStep(appointments, patients, counter, editId, form);
      var id := if editId.None? then counter + 1 else editId.value;
      && (r.outcome == AppointmentCreated <==> editId.None? && r.outcome !in {InvalidPatient, SlotTaken})
      && (r.outcome == AppointmentUpdated <==>
            editId.Some? && r.outcome !in {InvalidPatient, SlotTaken}
            && exists i :: 0 <= i < |appointments| && appointments[i].id == id)
      && (r.outcome == AppointmentNotFound <==>
            editId.Some? && r.outcome !in {InvalidPatient, SlotTaken}
            && forall i :: 0 <= i < |appointments| ==> appointments[i].id != id)
  {
    var r := SubmitAppointmentStep(appointments, patients, counter, editId, form);
    var found := FirstIndex((p: Patient) => p.id == form.patientId, patients);
    if found.Some? {
      var k := found.value;
      var id := if editId.None? then counter + 1 else editId.value;
      var record := AppointmentOf(id, form, patients[k].name);
      if r.outcome == AppointmentCreated {
        assert r.appointments == appointments + [record];
        assert r.appointments[|appointments|] == record;
      } else if r.outcome == AppointmentUpdated {
        var j := FirstIndex((a: Appointment) => a.id == id, appointments).value;
        assert r.appointments[j] == record;
      }
    }
  }

  /** A submission keeps identifiers handed out by the counter, unique, and no doctor booked twice. */
  lemma SubmitAppointmentKeepsValid(appointments: seq<Appointment>, patients: seq<Patient>, counter: int,
                                    editId: Option<int>, form: AppointmentForm)
    requires AppointmentsValid(appointments, counter)
    ensures var r := SubmitAppointmentStep(appointments, patients, counter, editId, form);
      AppointmentsValid(r.appointments, r.counter)
  {
    var r := SubmitAppointmentStep(appointments, patients, counter, editId, form);
    var found := FirstIndex((p: Patient) => p.id == form.patientId, patients);
    if found.Some? {
      var id := if editId.None? then counter + 1 else editId.value;
      var record := AppointmentOf(id, form, patients[found.value].name);
      if r.outcome == AppointmentCreated {
        forall i | 0 <= i < |appointments|
          ensures DistinctAppointments(appointments[i], record) && DistinctAppointments(record, appointments[i])
        {
          assert appointments[i].id <= counter < id;
        }
        PairwiseSnoc(appointments, record, DistinctAppointments);
      } else if r.outcome == AppointmentUpdated {
        var j := FirstIndex((a: Appointment) => a.id == id, appointments).value;
        forall i | 0 <= i < |appointments| && i != j
          ensures DistinctAppointments(appointments[i], record) && DistinctAppointments(record, appointments[i])
        {
          assert DistinctAppointments(appointments[i], appointments[j]);
        }
        PairwiseUpdate(appointments, j, record, DistinctAppointments);
      }
    }
  }

  /**
   * An edited patient keeps its numeric identifier, so it can still be
   * deleted by that identifier once it has no scheduled appointment.
   */
  lemma EditedPatientDeletable(patients: seq<Patient>, counter: int, id: int, form: PatientForm,
                               appointments: seq<Appointment>)
    requires PatientsValid(patients, counter)
    requires SubmitPatientStep(patients, counter, Some(id), form).outcome == PatientUpdated
    requires !HasScheduledAppointments(appointments, id)
    ensures var edited := SubmitPatientStep(patients, counter, Some(id), form).patients;
      && (exists i :: 0 <= i < |edited| && edited[i].id == id)
      && DeletePatientStep(edited, appointments, id).Some?
      && forall i :: 0 <= i < |DeletePatientStep(edited, appointments, id).value| ==>
           DeletePatientStep(edited, appointments, id).value[i].id != id
  {
    var k := FirstIndex((p: Patient) => p.id == id, patients).value;
    var edited := SubmitPatientStep(patients, counter, Some(id), form).patients;
    assert edited[k].id == id;
  }

  /** An edited patient can still be chosen in the appointment form. */
  lemma EditedPatientBookable(patients: seq<Patient>, counter: int, id: int, form: PatientForm,
                              appointments: seq<Appointment>, appointmentCounter: int,
                              editId: Option<int>, appointmentForm: AppointmentForm)
    requires PatientsValid(patients, counter)
    requires SubmitPatientStep(patients, counter, Some(id), form).outcome == PatientUpdated
    requires appointmentForm.patientId == id
    ensures var edited := SubmitPatientStep(patients, counter, Some(id), form).patients;
      SubmitAppointmentStep(appointments, edited, appointmentCounter, editId, appointmentForm).outcome != InvalidPatient
  {
    var k := FirstIndex((p: Patient) => p.id == id, patients).value;
    var edited := SubmitPatientStep(patients, counter, Some(id), form).patients;
    assert edited[k].id == id;
  }

  /**
   * The handler does not enforce the two-per-day cap: with two counting
   * appointments already booked for the patient that day, a third at a
   * free time is created, after which the cap no longer holds.
   */
  lemma ThirdSameDayAccepted(appointments: seq<Appointment>, patients: seq<Patient>, counter: int,
                             form: AppointmentForm, i: nat, j: nat)
    requires AppointmentsValid(appointments, counter)
    requires exists k :: 0 <= k < |patients| && patients[k].id == form.patientId
    requires i < j < |appointments|
    requires CountsTowardLimit(appointments[i], form.patientId, form.date, None)
    requires CountsTowardLimit(appointments[j], form.patientId, form.date, None)
    requires IsDoctorAvailable(appointments, form.doctor, form.date, form.time, None)
    ensures var r := SubmitAppointmentStep(appointments, patients, counter, None, form);
      r.outcome == AppointmentCreated
      && !ValidatePatientDailyLimit(r.appointments, form.patientId, form.date, None)
  {
    var r := SubmitAppointmentStep(appointments, patients, counter, None, form);
    var k := FirstIndex((p: Patient) => p.id == form.patientId, patients).value;
    var record := AppointmentOf(counter + 1, form, patients[k].name);
    ConflictIsUnavailability(appointments, record);
    assert !HasConflict(appointments, record) by {
      forall n | 0 <= n < |appointments|
        ensures !Occupies(appointments[n], record.doctor, record.date, record.time, Some(record.id))
      {
        assert !Occupies(appointments[n], form.doctor, form.date, form.time, None);
      }
    }
    assert r.appointments == appointments + [record];
    assert r.appointments[i] == appointments[i] && r.appointments[j] == appointments[j];
    DailyLimitMeansNoPair(r.appointments, form.patientId, form.date, None);
  }

  /* ---------- deleteAppointment ---------- */

  /** `deleteAppointment`: drop every appointment with the identifier. */
  function DeleteAppointmentStep(appointments: seq<Appointment>, id: int): seq<Appointment>
  {
    Filter((a: Appointment) => a.id != id, appointments)
  }

  /**
   * Deleting removes the identifier, keeps every other appointment in its
   * original order, and keeps the store valid.
   */
  lemma DeleteAppointmentEffect(appointments: seq<Appointment>, id: int, counter: int)
    requires AppointmentsValid(appointments, counter)
    ensures var rest := DeleteAppointmentStep(appointments, id);
      && (forall i :: 0 <= i < |rest| ==> rest[i].id != id && rest[i] in appointments)
      && (forall i :: 0 <= i < |appointments| && appointments[i].id != id ==> appointments[i] in rest)
      && SubsequenceAt(rest, appointments, KeptIndices((a: Appointment) => a.id != id, appointments))
      && (forall j :: 0 <= j < |appointments| && appointments[j].id != id ==>
            j in KeptIndices((a: Appointment) => a.id != id, appointments))
      && AppointmentsValid(rest, counter)
  {
    FilterPairwise((a: Appointment) => a.id != id, appointments, DistinctAppointments);
    FilterKeepsOrder((a: Appointment) => a.id != id, appointments);
  }

  /**
   * Deleting a non-cancelled appointment frees its slot: the doctor was
   * unavailable at that date and time before, and is available after.
   */
  lemma SlotFreedByDelete(appointments: seq<Appointment>, counter: int, k: nat)
    requires AppointmentsValid(appointments, counter)
    requires k < |appointments| && appointments[k].status != Cancelled
    ensures var a := appointments[k];
      !IsDoctorAvailable(appointments, a.doctor, a.date, a.time, None)
    ensures var a := appointments[k];
      IsDoctorAvailable(DeleteAppointmentStep(appointments, a.id), a.doctor, a.date, a.time, None)
  {
    var a := appointments[k];
    var keep := (x: Appointment) => x.id != a.id;
    var rest := DeleteAppointmentStep(appointments, a.id);
    FilterKeepsOrder(keep, appointments);
    forall i | 0 <= i < |rest|
      ensures !Occupies(rest[i], a.doctor, a.date, a.time, None)
    {
      var j := KeptIndices(keep, appointments)[i];
      assert rest[i] == appointments[j] && j != k;
      assert DistinctAppointments(appointments[j], a);
    }
  }

  /**
   * Cancelling by editing frees the slot too: resubmitting a non-cancelled
   * appointment under its own identifier, with the same doctor, date and
   * time and the status `Cancelada`, is accepted as an update, and the
   * doctor is then available at that date and time.
   */
  lemma SlotFreedByCancel(appointments: seq<Appointment>, patients: seq<Patient>, counter: int, k: nat,
                          form: AppointmentForm)
    requires AppointmentsValid(appointments, counter)
    requires k < |appointments| && appointments[k].status != Cancelled
    requires form.doctor == appointments[k].doctor && form.date == appointments[k].date
    requires form.time == appointments[k].time && form.status == Cancelled
    requires exists i :: 0 <= i < |patients| && patients[i].id == form.patientId
    ensures var r := SubmitAppointmentStep(appointments, patients, counter, Some(appointments[k].id), form);
      r.outcome == AppointmentUpdated
      && IsDoctorAvailable(r.appointments, form.doctor, form.date, form.time, None)
  {
    var a := appointments[k];
    var found := FirstIndex((p: Patient) => p.id == form.patientId, patients);
    var record := AppointmentOf(a.id, form, patients[found.value].name);
    forall i | 0 <= i < |appointments| && i != k
      ensures !Occupies(appointments[i], a.doctor, a.date, a.time, None)
    {
      assert DistinctAppointments(appointments[i], a);
    }
    assert !HasConflict(appointments, record) by {
      ConflictIsUnavailability(appointments, record);
    }
    var j := FirstIndex((x: Appointment) => x.id == a.id, appointments).value;
    assert j == k;
    var updated := appointments[k := record];
    forall i | 0 <= i < |updated|
      ensures !Occupies(updated[i], a.doctor, a.date, a.time, None)
    {
    }
  }

  /* ---------- The store ---------- */

  /**
   * `patientsDB`, `appointmentsDB`, `patientIdCounter` and
   * `appointmentIdCounter`, with the handlers that update them.
   */
  class RecordStore {
    var patients: seq<Patient>
    var appointments: seq<Appointment>
    var patientIdCounter: int
    var appointmentIdCounter: int

    ghost predicate Valid()
      reads this
    {
      PatientsValid(patients, patientIdCounter) && AppointmentsValid(appointments, appointmentIdCounter)
    }

    /** The seed records; each counter starts at the number of seed records. */
    constructor (seedPatients: seq<Patient>, seedAppointments: seq<Appointment>)
      requires PatientsValid(seedPatients, |seedPatients|)
      requires AppointmentsValid(seedAppointments, |seedAppointments|)
      ensures patients == seedPatients && appointments == seedAppointments
      ensures patientIdCounter == |seedPatients| && appointmentIdCounter == |seedAppointments|
      ensures Valid()
    {
      patients := seedPatients;
      appointments := seedAppointments;
      patientIdCounter := |seedPatients|;
      appointmentIdCounter := |seedAppointments|;
    }

    /** `handlePatientSubmit`; `editId` is the hidden identifier field, `None` when it is empty. */
    method SubmitPatient(editId: Option<int>, form: PatientForm) returns (outcome: PatientOutcome)
      requires Valid()
      modifies this
      ensures var r := SubmitPatientStep(old(patients), old(patientIdCounter), editId, form);
        patients == r.patients && patientIdCounter == r.counter && outcome == r.outcome
      ensures appointments == old(appointments) && appointmentIdCounter == old(appointmentIdCounter)
      ensures Valid()
    {
      SubmitPatientKeepsValid(patients, patientIdCounter, editId, form);
      var id: int;
      if editId.None? {
        patientIdCounter := patientIdCounter + 1;
        id := patientIdCounter;
      } else {
        id := editId.value;
      }
      var record := PatientOf(id, form);
      if DniTaken(patients, form.dni, id) {
        return DuplicateDni;
      }
      if editId.Some? {
        var index := FirstIndex((p: Patient) => p.id == id, patients);
        if index.Some? {
          patients := patients[index.value := record];
          outcome := PatientUpdated;
        } else {
          outcome := PatientNotFound;
        }
      } else {
        patients := patients + [record];
        outcome := PatientCreated;
      }
    }

    /** `deletePatient`; returns whether the patient was removed. */
    method DeletePatient(id: int) returns (deleted: bool)
      requires Valid()
      modifies this
      ensures match DeletePatientStep(old(patients), old(appointments), id)
        case None => !deleted && patients == old(patients)
        case Some(rest) => deleted && patients == rest
      ensures appointments == old(appointments)
      ensures patientIdCounter == old(patientIdCounter) && appointmentIdCounter == old(appointmentIdCounter)
      ensures Valid()
    {
      DeletePatientEffect(patients, appointments, id, patientIdCounter);
      if HasScheduledAppointments(appointments, id) {
        return false;
      }
      patients := Filter((p: Patient) => p.id != id, patients);
      deleted := true;
    }

    /** `handleAppointmentSubmit`; `editId` is the hidden identifier field, `None` when it is empty. */
    method SubmitAppointment(editId: Option<int>, form: AppointmentForm) returns (outcome: AppointmentOutcome)
      requires Valid()
      modifies this
      ensures var r := SubmitAppointmentStep(old(appointments), old(patients), old(appointmentIdCounter), editId, form);
        appointments == r.appointments && appointmentIdCounter == r.counter && outcome == r.outcome
      ensures patients == old(patients) && patientIdCounter == old(patientIdCounter)
      ensures Valid()
    {
      SubmitAppointmentKeepsValid(appointments, patients, appointmentIdCounter, editId, form);
      var found := FirstIndex((p: Patient) => p.id == form.patientId, patients);
      if found.None? {
        return InvalidPatient;
      }
      var patient := patients[found.value];
      var id: int;
      if editId.None? {
        appointmentIdCounter := appointmentIdCounter + 1;
        id := appointmentIdCounter;
      } else {
        id := editId.value;
      }
      var record := AppointmentOf(id, form, patient.name);
      if HasConflict(appointments, record) {
        return SlotTaken;
      }
      if editId.Some? {
        var index := FirstIndex((a: Appointment) => a.id == id, appointments);
        if index.Some? {
          appointments := appointments[index.value := record];
          outcome := AppointmentUpdated;
        } else {
          outcome := AppointmentNotFound;
        }
      } else {
        appointments := appointments + [record];
        outcome := AppointmentCreated;
      }
    }

    /** `deleteAppointment`. */
    method DeleteAppointment(id: int)
      requires Valid()
      modifies this
      ensures appointments == DeleteAppointmentStep(old(appointments), id)
      ensures patients == old(patients)
      ensures patientIdCounter == old(patientIdCounter) && appointmentIdCounter == old(appointmentIdCounter)
      ensures Valid()
    {
      DeleteAppointmentEffect(appointments, id, appointmentIdCounter);
      appointments := Filter((a: Appointment) => a.id != id, appointments);
    }
  }
}
