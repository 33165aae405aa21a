/**
 * The two kinds of record the front desk keeps, the form data a submit
 * handler receives, the appointment statuses and the two display helpers
 * `getStatusColor` and `formatPhoneNumber`.
 */
module Records {
  import opened Text
  import opened Calendar

  /** A patient record; `id` is assigned by the store and never reused. */
  datatype Patient = Patient(
    id: int,
    name: string,
    dni: string,
    birthDate: Date,
    gender: string,
    phone: string,
    email: string,
    address: string)

  /** The fields of the patient form, everything but the identifier. */
  datatype PatientForm = PatientForm(
    name: string,
    dni: string,
    birthDate: Date,
    gender: string,
    phone: string,
    email: string,
    address: string)

  /**
   * An appointment; `patientName` is copied from the patient when the
   * appointment is written and is not updated when the patient changes.
   */
  datatype Appointment = Appointment(
    id: int,
    patientId: int,
    patientName: string,
    doctor: string,
    specialty: string,
    date: Date,
    time: string,
    status: string,
    notes: string)

  /** The fields of the appointment form; the patient is chosen by identifier. */
  datatype AppointmentForm = AppointmentForm(
    patientId: int,
    doctor: string,
    specialty: string,
    date: Date,
    time: string,
    status: string,
    notes: string)

  const Scheduled := "Programada"
  const Completed := "Completada"
  const Cancelled := "Cancelada"

  /** The record a patient form becomes under identifier `id`. */
  function PatientOf(id: int, f: PatientForm): (p: Patient)
    ensures p.id == id && p.dni == f.dni && p.name == f.name
  {
    Patient(id, f.name, f.dni, f.birthDate, f.gender, f.phone, f.email, f.address)
  }

  /** The record an appointment form becomes under `id`, for the patient called `patientName`. */
  function AppointmentOf(id: int, f: AppointmentForm, patientName: string): (a: Appointment)
    ensures a.id == id && a.patientId == f.patientId && a.patientName == patientName
    ensures a.doctor == f.doctor && a.date == f.date && a.time == f.time && a.status == f.status
  {
    Appointment(id, f.patientId, patientName, f.doctor, f.specialty, f.date, f.time, f.status, f.notes)
  }

  /**
   * `getStatusColor`: the badge colour of a status. The three statuses get
   * three different colours; every other string gets the default one.
   */
  function StatusColor(status: string): (colour: string)
    ensures colour == "secondary" <==> status !in {Scheduled, Completed, Cancelled}
    ensures status == Scheduled ==> colour == "warning"
    ensures status == Completed ==> colour == "success"
    ensures status == Cancelled ==> colour == "danger"
  {
    match status
    case "Programada" => "warning"
    case "Completada" => "success"
    case "Cancelada" => "danger"
    case _ => "secondary"
  }

  /**
   * `formatPhoneNumber`: an empty phone stays empty; a phone with exactly
   * nine digits (anything else stripped) becomes `"ddd ddd ddd"`; any other
   * phone is returned as it was given.
   */
  function FormatPhoneNumber(phone: string): (r: string)
    ensures phone == "" ==> r == ""
    ensures phone != "" && |KeepDigits(phone)| == 9 ==>
      |r| == 11 && r[3] == ' ' && r[7] == ' ' && r[..3] + r[4..7] + r[8..] == KeepDigits(phone)
    ensures phone != "" && |KeepDigits(phone)| != 9 ==> r == phone
  {
    if phone == "" then ""
    else
      var numbers := KeepDigits(phone);
      if |numbers| == 9 then
        var r := numbers[..3] + " " + numbers[3..6] + " " + numbers[6..];
        assert r[..3] == numbers[..3] && r[4..7] == numbers[3..6] && r[8..] == numbers[6..];
        assert numbers[..3] + numbers[3..6] + numbers[6..] == numbers;
        r
      else phone
  }
}
