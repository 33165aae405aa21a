/**
 * The scheduling rules: whether a doctor is free at a date and time, the
 * patient's daily appointment cap, the national identity number (DNI)
 * check, and the generation of a doctor's free time slots for a day.
 */
module Scheduling {
  import opened Wrappers
  import opened Seqs
  import opened Text
  import opened Clock
  import opened Calendar
  import opened Records
  import opened Arith

  /**
   * Appointment `a` holds the doctor's slot: same doctor, date and time, not
   * cancelled, and not the appointment being edited. With no exclusion
   * (`null` in the source) no identifier is excluded.
   */
  predicate Occupies(a: Appointment, doctor: string, date: Date, time: string, exclude: Option<int>)
  {
    a.doctor == doctor && a.date == date && a.time == time && a.status != Cancelled
    && !(exclude.Some? && a.id == exclude.value)
  }

  /** `isDoctorAvailable`: no appointment holds the slot. */
  function IsDoctorAvailable(appointments: seq<Appointment>, doctor: string, date: Date, time: string, exclude: Option<int>): (free: bool)
    ensures free <==> forall i :: 0 <= i < |appointments| ==> !Occupies(appointments[i], doctor, date, time, exclude)
    decreases |appointments|
  {
    appointments == []
    || (!Occupies(appointments[0], doctor, date, time, exclude)
        && IsDoctorAvailable(appointments[1..], doctor, date, time, exclude))
  }

  /**
   * Booking a non-cancelled appointment takes the slot away; a cancelled one
   * changes nothing; all other slots keep their availability.
   */
  lemma AvailabilityAfterBooking(appointments: seq<Appointment>, a: Appointment, doctor: string, date: Date, time: string, exclude: Option<int>)
    ensures IsDoctorAvailable(appointments + [a], doctor, date, time, exclude)
        <==> IsDoctorAvailable(appointments, doctor, date, time, exclude) && !Occupies(a, doctor, date, time, exclude)
    ensures a.status == Cancelled ==>
      IsDoctorAvailable(appointments + [a], doctor, date, time, exclude) == IsDoctorAvailable(appointments, doctor, date, time, exclude)
    ensures a.status != Cancelled && exclude != Some(a.id) ==> !IsDoctorAvailable(appointments + [a], a.doctor, a.date, a.time, exclude)
  {
    var s := appointments + [a];
    assert s[|appointments|] == a;
    assert forall i :: 0 <= i < |appointments| ==> s[i] == appointments[i];
  }

  const DailyLimit := 2

  /** Appointment `a` counts toward the patient's cap for that day. */
  predicate CountsTowardLimit(a: Appointment, patientId: int, date: Date, exclude: Option<int>)
  {
    a.patientId == patientId && a.date == date && a.status != Cancelled
    && !(exclude.Some? && a.id == exclude.value)
  }

  /** `validatePatientDailyLimit`: fewer than two counting appointments that day. */
  function ValidatePatientDailyLimit(appointments: seq<Appointment>, patientId: int, date: Date, exclude: Option<int>): bool
  {
    |Filter(a => CountsTowardLimit(a, patientId, date, exclude), appointments)| < DailyLimit
  }

  /** The cap holds exactly when no two distinct appointments both count toward it. */
  lemma DailyLimitMeansNoPair(appointments: seq<Appointment>, patientId: int, date: Date, exclude: Option<int>)
    ensures ValidatePatientDailyLimit(appointments, patientId, date, exclude)
        <==> !exists i, j :: 0 <= i < j < |appointments|
               && CountsTowardLimit(appointments[i], patientId, date, exclude)
               && CountsTowardLimit(appointments[j], patientId, date, exclude)
  {
    FilterAtLeastTwo(a => CountsTowardLimit(a, patientId, date, exclude), appointments);
  }

  /** `/^\d{8}$/`. */
  predicate IsEightDigits(dni: string)
  {
    |dni| == 8 && IsDigits(dni)
  }

  /** `/^(\d)\1{7}$/`: one digit written eight times. */
  predicate IsRepeatedDigit(dni: string)
  {
    |dni| == 8 && IsDigit(dni[0]) && forall i :: 1 <= i < 8 ==> dni[i] == dni[0]
  }

  /** `validatePeruvianDNI`: eight digits, not all the same. */
  function ValidatePeruvianDNI(dni: string): bool
  {
    if !IsEightDigits(dni) then false
    else if IsRepeatedDigit(dni) then false
    else true
  }

  /** A DNI is accepted exactly when it is eight digits of which some two differ. */
  lemma DniAcceptance(dni: string)
    ensures ValidatePeruvianDNI(dni)
        <==> |dni| == 8 && IsDigits(dni) && exists i, j :: 0 <= i < j < 8 && dni[i] != dni[j]
  {
    if ValidatePeruvianDNI(dni) {
      var k :| 1 <= k < 8 && dni[k] != dni[0];
      assert 0 < k && dni[0] != dni[k];
    }
  }

  lemma DniExamples()
    ensures !ValidatePeruvianDNI("11111111")
    ensures ValidatePeruvianDNI("12345678")
    ensures !ValidatePeruvianDNI("1234567")
    ensures !ValidatePeruvianDNI("1234567a")
  {
    assert "12345678"[1] != "12345678"[0];
    assert !IsDigit("1234567a"[7]);
  }

  /** The `workingHours` configuration: times as `"HH:MM"`, the slot length in minutes. */
  datatype WorkingHours = WorkingHours(
    start: string,
    end: string,
    lunchBreakStart: string,
    lunchBreakEnd: string,
    appointmentDuration: int)

  const DefaultWorkingHours := WorkingHours("08:00", "18:00", "12:00", "13:00", 30)

  /** Inside `[lunchStart, lunchEnd)`; a bound that reads as `NaN` makes the test false. */
  predicate InBreak(lunchStart: Option<nat>, lunchEnd: Option<nat>, m: int)
  {
    lunchStart.Some? && lunchEnd.Some? && lunchStart.value <= m < lunchEnd.value
  }

  /**
   * The five numbers `generateTimeSlots` reads from the configuration
   * before its loop, in minutes; `None` is a time that reads as `NaN`.
   */
  datatype DayPlan = DayPlan(start: Option<nat>, end: Option<nat>, lunchStart: Option<nat>, lunchEnd: Option<nat>, duration: int)

  function ReadHours(hours: WorkingHours): DayPlan
  {
    DayPlan(TimeToMinutes(hours.start), TimeToMinutes(hours.end),
            TimeToMinutes(hours.lunchBreakStart), TimeToMinutes(hours.lunchBreakEnd), hours.appointmentDuration)
  }

  /** The loop's candidate time `time` is kept: outside the break and free. */
  predicate Keeps(appointments: seq<Appointment>, plan: DayPlan, date: Date, doctor: string, time: nat)
  {
    !InBreak(plan.lunchStart, plan.lunchEnd, time) && IsDoctorAvailable(appointments, doctor, date, MinutesToTime(time), None)
  }

  /**
   * Minute `m` is one of the slots `generateTimeSlots` offers: a step of
   * the duration from the start, before the end, outside the lunch break,
   * and free for the doctor. A start or end that reads as `NaN` gives no
   * slots at all.
   */
  predicate IsSlot(appointments: seq<Appointment>, plan: DayPlan, date: Date, doctor: string, m: int)
    requires plan.duration > 0
  {
    plan.start.Some? && plan.end.Some?
    && plan.start.value <= m < plan.end.value && (m - plan.start.value) % plan.duration == 0
    && Keeps(appointments, plan, date, doctor, m)
  }

  /**
   * The times the loop collects from `time` on, up to `end`, stepping by
   * `d`: each candidate is kept when `keep` says so.
   */
  function StepsFrom(keep: nat -> bool, d: int, time: nat, end: int): seq<nat>
    requires d > 0
    decreases end - time
  {
    if time >= end then []
    else (if keep(time) then [time] else []) + StepsFrom(keep, d, time + d, end)
  }

  /** The slots of a day, as minutes; none when the start or the end reads as `NaN`. */
  function SlotMinutes(appointments: seq<Appointment>, plan: DayPlan, date: Date, doctor: string): seq<nat>
    requires plan.duration > 0
  {
    if plan.start.None? || plan.end.None? then []
    else StepsFrom((t: nat) => Keeps(appointments, plan, date, doctor, t), plan.duration, plan.start.value, plan.end.value)
  }

  /** Moving by one duration does not change the remainder. */
  lemma ShiftMod(x: int, d: int)
    requires d > 0
    ensures (x - d) % d == x % d
  {
    var q, r := x / d, x % d;
    assert x == q * d + r;
    assert x - d == (q - 1) * d + r;
    DivModUnique(x - d, q - 1, r, d);
  }

  lemma NoMultipleBetween(s: int, t: int, d: int, m: int)
    requires d > 0 && (t - s) % d == 0 && t < m < t + d
    ensures (m - s) % d != 0
  {
    var q := (t - s) / d;
    assert t - s == q * d;
    assert m - s == q * d + (m - t);
    DivModUnique(m - s, q, m - t, d);
  }

  /** Every collected time is a step from `time`, before `end`, and kept. */
  lemma {:induction false} StepsFromSound(keep: nat -> bool, d: int, time: nat, end: int)
    requires d > 0
    ensures forall i :: 0 <= i < |StepsFrom(keep, d, time, end)| ==>
      var m := StepsFrom(keep, d, time, end)[i];
      time <= m < end && (m - time) % d == 0 && keep(m)
    decreases end - time
  {
    if time < end {
      var next := time + d;
      StepsFromSound(keep, d, next, end);
      var rest := StepsFrom(keep, d, next, end);
      var head: seq<nat> := if keep(time) then [time] else [];
      var all := StepsFrom(keep, d, time, end);
      assert all == head + rest;
      forall i | 0 <= i < |all|
        ensures time <= all[i] < end && (all[i] - time) % d == 0 && keep(all[i])
      {
        if i >= |head| {
          var m := rest[i - |head|];
          assert all[i] == m;
          ShiftMod(m - time, d);
        } else {
          assert (time - time) % d == 0;
        }
      }
    }
  }

  /** The collected times ascend strictly. */
  lemma {:induction false} StepsFromAscending(keep: nat -> bool, d: int, time: nat, end: int)
    requires d > 0
    ensures forall i, j :: 0 <= i < j < |StepsFrom(keep, d, time, end)| ==>
      StepsFrom(keep, d, time, end)[i] < StepsFrom(keep, d, time, end)[j]
    decreases end - time
  {
    if time < end {
      var next := time + d;
      StepsFromSound(keep, d, next, end);
      StepsFromAscending(keep, d, next, end);
      var rest := StepsFrom(keep, d, next, end);
      var head: seq<nat> := if keep(time) then [time] else [];
      assert StepsFrom(keep, d, time, end) == head + rest;
      assert forall k :: 0 <= k < |rest| ==> rest[k] >= next;
    }
  }

  /** Every kept step from `time` before `end` is collected. */
  lemma {:induction false} StepsFromComplete(keep: nat -> bool, d: int, time: nat, end: int, m: int)
    requires d > 0
    requires time <= m < end && (m - time) % d == 0 && keep(m)
    ensures m in StepsFrom(keep, d, time, end)
    decreases end - time
  {
    if m != time {
      var next := time + d;
      if m < next {
        NoMultipleBetween(time, time, d, m);
      }
      ShiftMod(m - time, d);
      StepsFromComplete(keep, d, next, end, m);
    }
  }

  lemma StepsFromSoundAt(keep: nat -> bool, d: int, time: nat, end: int, i: nat)
    requires d > 0 && i < |StepsFrom(keep, d, time, end)|
    ensures var m := StepsFrom(keep, d, time, end)[i];
      time <= m < end && (m - time) % d == 0 && keep(m)
  {
    StepsFromSound(keep, d, time, end);
  }

  /** Every minute `generateTimeSlots` returns is a slot. */
  lemma SlotMinutesSound(appointments: seq<Appointment>, plan: DayPlan, date: Date, doctor: string)
    requires plan.duration > 0
    ensures forall i :: 0 <= i < |SlotMinutes(appointments, plan, date, doctor)| ==>
      IsSlot(appointments, plan, date, doctor, SlotMinutes(appointments, plan, date, doctor)[i])
  {
    if plan.start.Some? && plan.end.Some? {
      var keep := (t: nat) => Keeps(appointments, plan, date, doctor, t);
      var slots := StepsFrom(keep, plan.duration, plan.start.value, plan.end.value);
      forall i | 0 <= i < |slots|
        ensures IsSlot(appointments, plan, date, doctor, slots[i])
      {
        StepsFromSoundAt(keep, plan.duration, plan.start.value, plan.end.value, i);
      }
    }
  }

  /** Every slot is returned. */
  lemma SlotMinutesComplete(appointments: seq<Appointment>, plan: DayPlan, date: Date, doctor: string, m: int)
    requires plan.duration > 0
    requires IsSlot(appointments, plan, date, doctor, m)
    ensures m in SlotMinutes(appointments, plan, date, doctor)
  {
    StepsFromComplete((t: nat) => Keeps(appointments, plan, date, doctor, t), plan.duration, plan.start.value, plan.end.value, m);
  }

  /** The slots come out in strictly ascending order, so none is repeated. */
  lemma SlotMinutesAscending(appointments: seq<Appointment>, plan: DayPlan, date: Date, doctor: string)
    requires plan.duration > 0
    ensures forall i, j :: 0 <= i < j < |SlotMinutes(appointments, plan, date, doctor)| ==>
      SlotMinutes(appointments, plan, date, doctor)[i] < SlotMinutes(appointments, plan, date, doctor)[j]
  {
    if plan.start.Some? && plan.end.Some? {
      StepsFromAscending((t: nat) => Keeps(appointments, plan, date, doctor, t), plan.duration, plan.start.value, plan.end.value);
    }
  }

  /** Each time written out by `format`, in order. */
  function Formatted(format: nat -> string, s: seq<nat>): seq<string>
    decreases |s|
  {
    if s == [] then [] else Formatted(format, s[..|s| - 1]) + [format(s[|s| - 1])]
  }

  lemma {:induction false} FormattedPointwise(format: nat -> string, s: seq<nat>)
    ensures |Formatted(format, s)| == |s|
    ensures forall i :: 0 <= i < |s| ==> Formatted(format, s)[i] == format(s[i])
    decreases |s|
  {
    if s != [] {
      FormattedPointwise(format, s[..|s| - 1]);
    }
  }

  /**
   * The loop of `generateTimeSlots`: walk from `first` towards `last` in
   * steps of `d`, and for each time that `keep` accepts append its
   * `format`ted form.
   */
  method WalkSteps(keep: nat -> bool, format: nat -> string, d: int, first: nat, last: int)
    returns (labels: seq<string>)
    requires d > 0
    ensures |labels| == |StepsFrom(keep, d, first, last)|
    ensures forall i :: 0 <= i < |labels| ==> labels[i] == format(StepsFrom(keep, d, first, last)[i])
  {
    labels := [];
    ghost var taken: seq<nat> := [];
    var time: nat := first;
    while time < last
      invariant taken + StepsFrom(keep, d, time, last) == StepsFrom(keep, d, first, last)
      invariant labels == Formatted(format, taken)
      decreases last - time
    {
      ghost var head: seq<nat> := if keep(time) then [time] else [];
      ghost var rest := StepsFrom(keep, d, time + d, last);
      assert taken + (head + rest) == (taken + head) + rest;
      if keep(time) {
        ghost var next := taken + [time];
        assert next[..|next| - 1] == taken;
        labels := labels + [format(time)];
        assert labels == Formatted(format, next);
        taken := next;
      } else {
        assert taken + head == taken;
      }
      time := time + d;
    }
    assert StepsFrom(keep, d, time, last) == [];
    FormattedPointwise(format, taken);
  }

  /**
   * `generateTimeSlots`: read the start and the end of the day, then walk it
   * in `appointmentDuration` steps keeping the times outside the lunch break
   * at which the doctor is free, as `"HH:MM"` strings.
   */
  method GenerateTimeSlots(appointments: seq<Appointment>, hours: WorkingHours, date: Date, doctor: string)
    returns (slots: seq<string>)
    requires hours.appointmentDuration > 0
    ensures |slots| == |SlotMinutes(appointments, ReadHours(hours), date, doctor)|
    ensures forall i :: 0 <= i < |slots| ==> slots[i] == MinutesToTime(SlotMinutes(appointments, ReadHours(hours), date, doctor)[i])
  {
    var start := TimeToMinutes(hours.start);
    var end := TimeToMinutes(hours.end);
    var lunchStart := TimeToMinutes(hours.lunchBreakStart);
    var lunchEnd := TimeToMinutes(hours.lunchBreakEnd);
    var duration := hours.appointmentDuration;
    var plan := DayPlan(start, end, lunchStart, lunchEnd, duration);
    if start.None? || end.None? {
      return [];
    }
    slots := WalkSteps((t: nat) => Keeps(appointments, plan, date, doctor, t), MinutesToTime, duration, start.value, end.value);
  }

  /**
   * A slot lies in the working day on a step from its start, outside a lunch
   * break that reads as numbers, and at no time that a non-cancelled
   * appointment already holds for the doctor on that date.
   */
  lemma SlotProperties(appointments: seq<Appointment>, plan: DayPlan, date: Date, doctor: string, m: int)
    requires plan.duration > 0
    requires IsSlot(appointments, plan, date, doctor, m)
    ensures plan.start.Some? && plan.end.Some?
    ensures plan.start.value <= m < plan.end.value
    ensures (m - plan.start.value) % plan.duration == 0
    ensures plan.lunchStart.Some? && plan.lunchEnd.Some? ==> !(plan.lunchStart.value <= m < plan.lunchEnd.value)
    ensures forall a :: a in appointments && a.doctor == doctor && a.date == date && a.status != Cancelled
              ==> a.time != MinutesToTime(m)
  {
    var time := MinutesToTime(m);
    forall a | a in appointments && a.doctor == doctor && a.date == date && a.status != Cancelled
      ensures a.time != time
    {
      var i :| 0 <= i < |appointments| && appointments[i] == a;
      assert !Occupies(appointments[i], doctor, date, time, None);
    }
  }

  lemma DefaultStartRead()
    ensures TimeToMinutes(DefaultWorkingHours.start) == Some(480)
  {
    ClockTimeValue("08:00");
  }

  lemma DefaultEndRead()
    ensures TimeToMinutes(DefaultWorkingHours.end) == Some(1080)
  {
    ClockTimeValue("18:00");
  }

  lemma DefaultLunchStartRead()
    ensures TimeToMinutes(DefaultWorkingHours.lunchBreakStart) == Some(720)
  {
    ClockTimeValue("12:00");
  }

  lemma DefaultLunchEndRead()
    ensures TimeToMinutes(DefaultWorkingHours.lunchBreakEnd) == Some(780)
  {
    ClockTimeValue("13:00");
  }

  /** The shipped configuration reads as 08:00-18:00 with lunch 12:00-13:00, in half hours. */
  lemma DefaultPlan()
    ensures ReadHours(DefaultWorkingHours) == DayPlan(Some(480), Some(1080), Some(720), Some(780), 30)
  {
    DefaultStartRead();
    DefaultEndRead();
    DefaultLunchStartRead();
    DefaultLunchEndRead();
  }

  /**
   * Under the shipped configuration a slot is a half hour from 08:00 up to
   * but not including 18:00, never in 12:00-13:00, and never a time at which
   * a non-cancelled appointment already holds the doctor.
   */
  lemma DefaultSlots(appointments: seq<Appointment>, date: Date, doctor: string, m: int)
    requires IsSlot(appointments, ReadHours(DefaultWorkingHours), date, doctor, m)
    ensures 480 <= m < 1080 && m % 30 == 0
    ensures !(720 <= m < 780)
    ensures forall a :: a in appointments && a.doctor == doctor && a.date == date && a.status != Cancelled
              ==> a.time != MinutesToTime(m)
  {
    DefaultPlan();
    SlotProperties(appointments, ReadHours(DefaultWorkingHours), date, doctor, m);
    var q := (m - 480) / 30;
    assert m == q * 30 + 480;
    DivModUnique(m, q + 16, 0, 30);
  }
}
