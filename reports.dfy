/**
 * The statistics of the reports page: `getMonthlyStats`, the per-specialty
 * and per-doctor tallies and `getPatientsAgeDistribution`. Each tally is a
 * loop over the records, as in the source; each is proved against `Count`,
 * the number of records with a given key.
 */
module Reports {
  import opened Seqs
  import opened Calendar
  import opened Records

  /** How many elements of `s` have key `k`: `s.filter(x => f(x) === k).length`. */
  function Count<T, K(==)>(f: T -> K, s: seq<T>, k: K): nat
  {
    |Filter((x: T) => f(x) == k, s)|
  }

  lemma CountSnoc<T, K>(f: T -> K, s: seq<T>, x: T, k: K)
    ensures Count(f, s + [x], k) == Count(f, s, k) + (if f(x) == k then 1 else 0)
  {
    FilterSnoc((y: T) => f(y) == k, s, x);
  }

  /** A key is counted at least once exactly when some element has it. */
  lemma CountPositive<T, K>(f: T -> K, s: seq<T>, k: K)
    ensures Count(f, s, k) > 0 <==> exists i :: 0 <= i < |s| && f(s[i]) == k
  {
    var r := Filter((x: T) => f(x) == k, s);
    if |r| > 0 {
      assert r[0] in s;
      var i :| 0 <= i < |s| && s[i] == r[0];
      assert f(s[i]) == k;
    }
  }

  /* ---------- getAppointmentsBySpecialty / getAppointmentsByDoctor ---------- */

  /** `counts` is the tally of `s` by `keyOf`. */
  ghost predicate Tallies<T>(counts: map<string, nat>, keyOf: T -> string, s: seq<T>)
  {
    && (forall k :: k in counts <==> Count(keyOf, s, k) > 0)
    && (forall k :: k in counts ==> counts[k] == Count(keyOf, s, k))
  }

  /** One more occurrence of `key`: `if (!t[key]) t[key] = 0; t[key]++`. */
  function Bump(counts: map<string, nat>, key: string): (r: map<string, nat>)
  {
    counts[key := (if key in counts then counts[key] else 0) + 1]
  }

  /** Some key of a non-empty set of keys. */
  ghost function Pick(keys: set<string>): (k: string)
    requires keys != {}
    ensures k in keys
  {
    var k :| k in keys; k
  }

  /** The sum of the values of `counts`. */
  ghost function MapSum(counts: map<string, nat>): nat
    decreases counts.Keys
  {
    if counts == map[] then 0
    else
      var k := Pick(counts.Keys);
      counts[k] + MapSum(counts - {k})
  }

  /** The sum may take its keys in any order: it is any one value plus the sum of the others. */
  lemma {:induction false} MapSumRemove(counts: map<string, nat>, k: string)
    requires k in counts
    ensures MapSum(counts) == counts[k] + MapSum(counts - {k})
    decreases counts.Keys
  {
    var j := Pick(counts.Keys);
    if j != k {
      var rest := counts - {j};
      MapSumRemove(rest, k);
      MapSumRemove(counts - {k}, j);
      assert rest - {k} == (counts - {k}) - {j};
    }
  }

  /** `Bump` adds one to the sum of the values. */
  lemma MapSumBump(counts: map<string, nat>, key: string)
    ensures MapSum(Bump(counts, key)) == MapSum(counts) + 1
  {
    var bumped := Bump(counts, key);
    MapSumRemove(bumped, key);
    if key in counts {
      MapSumRemove(counts, key);
      assert bumped - {key} == counts - {key};
    } else {
      assert bumped - {key} == counts;
    }
  }

  /** The two statements of the loop body, a missing key first set to zero. */
  method Increment(counts: map<string, nat>, key: string) returns (r: map<string, nat>)
    ensures r == Bump(counts, key)
  {
    r := counts;
    if key !in r {
      r := r[key := 0];
    }
    r := r[key := r[key] + 1];
  }

  /** One more element of `items` counted: the prefix grows by `items[i]`. */
  lemma CountPrefixStep<T, K>(f: T -> K, items: seq<T>, i: nat, k: K)
    requires i < |items|
    ensures Count(f, items[..i + 1], k) == Count(f, items[..i], k) + (if f(items[i]) == k then 1 else 0)
  {
    assert items[..i + 1] == items[..i] + [items[i]];
    CountSnoc(f, items[..i], items[i], k);
  }

  /** The loop step of `Tally` at position `i`. */
  lemma TallyStep<T>(counts: map<string, nat>, keyOf: T -> string, items: seq<T>, i: nat)
    requires i < |items| && Tallies(counts, keyOf, items[..i])
    ensures Tallies(Bump(counts, keyOf(items[i])), keyOf, items[..i + 1])
  {
    forall k ensures Count(keyOf, items[..i + 1], k) == Count(keyOf, items[..i], k) + (if keyOf(items[i]) == k then 1 else 0) {
      CountPrefixStep(keyOf, items, i, k);
    }
  }

  /**
   * The object-as-dictionary tally of `forEach`: a key is present exactly
   * when some element has it, and then it holds the number of such elements;
   * the counts add up to the number of elements.
   */
  method Tally<T>(items: seq<T>, keyOf: T -> string) returns (counts: map<string, nat>)
    ensures forall k :: k in counts <==> Count(keyOf, items, k) > 0
    ensures forall k :: k in counts ==> counts[k] == Count(keyOf, items, k)
    ensures MapSum(counts) == |items|
  {
    counts := map[];
    var i := 0;
    while i < |items|
      invariant 0 <= i <= |items|
      invariant Tallies(counts, keyOf, items[..i])
      invariant MapSum(counts) == i
    {
      TallyStep(counts, keyOf, items, i);
      MapSumBump(counts, keyOf(items[i]));
      counts := Increment(counts, keyOf(items[i]));
      i := i + 1;
    }
    assert items[..i] == items;
  }

  function SpecialtyOf(a: Appointment): string { a.specialty }

  function DoctorOf(a: Appointment): string { a.doctor }

  /** `getAppointmentsBySpecialty`: the number of appointments of each specialty that occurs. */
  method AppointmentsBySpecialty(appointments: seq<Appointment>) returns (counts: map<string, nat>)
    ensures forall k :: k in counts <==> exists i :: 0 <= i < |appointments| && appointments[i].specialty == k
    ensures forall k :: k in counts ==> counts[k] == Count(SpecialtyOf, appointments, k)
    ensures MapSum(counts) == |appointments|
  {
    counts := Tally(appointments, SpecialtyOf);
    forall k ensures Count(SpecialtyOf, appointments, k) > 0 <==> exists i :: 0 <= i < |appointments| && appointments[i].specialty == k {
      CountPositive(SpecialtyOf, appointments, k);
    }
  }

  /** `getAppointmentsByDoctor`: the number of appointments of each doctor that occurs. */
  method AppointmentsByDoctor(appointments: seq<Appointment>) returns (counts: map<string, nat>)
    ensures forall k :: k in counts <==> exists i :: 0 <= i < |appointments| && appointments[i].doctor == k
    ensures forall k :: k in counts ==> counts[k] == Count(DoctorOf, appointments, k)
    ensures MapSum(counts) == |appointments|
  {
    counts := Tally(appointments, DoctorOf);
    forall k ensures Count(DoctorOf, appointments, k) > 0 <==> exists i :: 0 <= i < |appointments| && appointments[i].doctor == k {
      CountPositive(DoctorOf, appointments, k);
    }
  }

  /* ---------- getMonthlyStats ---------- */

  /**
   * `apt.date.startsWith(`${year}-${pad2(month)}`)`: on a date written as
   * `YYYY-MM-DD` the prefix test is equality of year and month.
   */
  predicate InMonth(a: Appointment, year: int, month: int)
  {
    a.date.year == year && a.date.month == month
  }

  function StatusOf(a: Appointment): string { a.status }

  datatype MonthlyStats = MonthlyStats(
    totalAppointments: nat,
    completedAppointments: nat,
    canceledAppointments: nat,
    pendingAppointments: nat,
    appointmentsBySpecialty: map<string, nat>,
    appointmentsByDoctor: map<string, nat>)

  /** The appointments of one month, in store order. */
  function MonthAppointments(appointments: seq<Appointment>, year: int, month: int): (r: seq<Appointment>)
    ensures forall i :: 0 <= i < |r| ==> r[i] in appointments && InMonth(r[i], year, month)
    ensures forall i :: 0 <= i < |appointments| && InMonth(appointments[i], year, month) ==> appointments[i] in r
    ensures SubsequenceAt(r, appointments, KeptIndices((a: Appointment) => InMonth(a, year, month), appointments))
  {
    FilterKeepsOrder((a: Appointment) => InMonth(a, year, month), appointments);
    Filter((a: Appointment) => InMonth(a, year, month), appointments)
  }

  /** `getMonthlyStats`: the month's appointments counted in total, by status, by specialty and by doctor. */
  method GetMonthlyStats(appointments: seq<Appointment>, year: int, month: int) returns (stats: MonthlyStats)
    ensures var monthly := MonthAppointments(appointments, year, month);
      && stats.totalAppointments == |monthly|
      && stats.completedAppointments == Count(StatusOf, monthly, Completed)
      && stats.canceledAppointments == Count(StatusOf, monthly, Cancelled)
      && stats.pendingAppointments == Count(StatusOf, monthly, Scheduled)
      && (forall k :: k in stats.appointmentsBySpecialty <==> Count(SpecialtyOf, monthly, k) > 0)
      && (forall k :: k in stats.appointmentsBySpecialty ==> stats.appointmentsBySpecialty[k] == Count(SpecialtyOf, monthly, k))
      && (forall k :: k in stats.appointmentsByDoctor <==> Count(DoctorOf, monthly, k) > 0)
      && (forall k :: k in stats.appointmentsByDoctor ==> stats.appointmentsByDoctor[k] == Count(DoctorOf, monthly, k))
      && MapSum(stats.appointmentsBySpecialty) == stats.totalAppointments
      && MapSum(stats.appointmentsByDoctor) == stats.totalAppointments
  {
    var monthly := MonthAppointments(appointments, year, month);
    var bySpecialty := Tally(monthly, SpecialtyOf);
    var byDoctor := Tally(monthly, DoctorOf);
    stats := MonthlyStats(
      |monthly|,
      Count(StatusOf, monthly, Completed),
      Count(StatusOf, monthly, Cancelled),
      Count(StatusOf, monthly, Scheduled),
      bySpecialty,
      byDoctor);
  }

  /**
   * The three status counts never exceed the total, and add up to it when
   * every appointment has one of the three statuses.
   */
  lemma {:induction false} StatusCountsPartition(s: seq<Appointment>)
    ensures Count(StatusOf, s, Completed) + Count(StatusOf, s, Cancelled) + Count(StatusOf, s, Scheduled) <= |s|
    ensures (forall i :: 0 <= i < |s| ==> s[i].status in {Completed, Cancelled, Scheduled}) ==>
      Count(StatusOf, s, Completed) + Count(StatusOf, s, Cancelled) + Count(StatusOf, s, Scheduled) == |s|
    decreases |s|
  {
    if s != [] {
      var init, last := s[..|s| - 1], s[|s| - 1];
      StatusCountsPartition(init);
      assert init + [last] == s;
      CountSnoc(StatusOf, init, last, Completed);
      CountSnoc(StatusOf, init, last, Cancelled);
      CountSnoc(StatusOf, init, last, Scheduled);
      if forall i :: 0 <= i < |s| ==> s[i].status in {Completed, Cancelled, Scheduled} {
        assert forall i :: 0 <= i < |init| ==> init[i] == s[i];
      }
    }
  }

  /** The month's tallies count each appointment of the month under its specialty and its doctor. */
  lemma MonthlyTallyCoversMonth(appointments: seq<Appointment>, year: int, month: int, i: nat)
    requires i < |appointments| && InMonth(appointments[i], year, month)
    ensures Count(SpecialtyOf, MonthAppointments(appointments, year, month), appointments[i].specialty) > 0
    ensures Count(DoctorOf, MonthAppointments(appointments, year, month), appointments[i].doctor) > 0
  {
    var monthly := MonthAppointments(appointments, year, month);
    var j :| 0 <= j < |monthly| && monthly[j] == appointments[i];
    CountPositive(SpecialtyOf, monthly, appointments[i].specialty);
    CountPositive(DoctorOf, monthly, appointments[i].doctor);
  }

  /* ---------- getPatientsAgeDistribution ---------- */

  /** The labels of the five age groups, in the order of `AgeGroup`. */
  const AgeGroupLabels: seq<string> := ["0-18", "19-30", "31-50", "51-70", "71+"]

  /** The group an age falls in: the first upper bound it does not exceed. */
  function AgeGroup(age: int): (g: nat)
    ensures g < 5
  {
    if age <= 18 then 0
    else if age <= 30 then 1
    else if age <= 50 then 2
    else if age <= 70 then 3
    else 4
  }

  /** Each group is an interval of ages, and the groups follow one another. */
  lemma AgeGroupBounds(age: int)
    ensures AgeGroup(age) == 0 <==> age <= 18
    ensures AgeGroup(age) == 1 <==> 19 <= age <= 30
    ensures AgeGroup(age) == 2 <==> 31 <= age <= 50
    ensures AgeGroup(age) == 3 <==> 51 <= age <= 70
    ensures AgeGroup(age) == 4 <==> 71 <= age
  {
  }

  /** Older never means a younger group. */
  lemma AgeGroupMonotone(a: int, b: int)
    requires a <= b
    ensures AgeGroup(a) <= AgeGroup(b)
  {
  }

  /** The age group of a patient on `today`. */
  function GroupOf(today: Date): Patient -> nat
  {
    (p: Patient) => AgeGroup(CalculateAge(p.birthDate, today))
  }

  /** `groups` holds, for each of the five groups, the number of elements of `s` in it. */
  ghost predicate Distributes<T>(groups: seq<nat>, group: T -> nat, s: seq<T>)
  {
    |groups| == 5 && forall g :: 0 <= g < 5 ==> groups[g] == Count(group, s, g)
  }

  lemma DistributeStep<T>(groups: seq<nat>, group: T -> nat, s: seq<T>, x: T)
    requires Distributes(groups, group, s) && group(x) < 5
    ensures Distributes(groups[group(x) := groups[group(x)] + 1], group, s + [x])
  {
    forall g | 0 <= g < 5 ensures Count(group, s + [x], g) == Count(group, s, g) + (if group(x) == g then 1 else 0) {
      CountSnoc(group, s, x, g);
    }
  }

  /**
   * `getPatientsAgeDistribution`: for each of the five groups, in the
   * order of `AgeGroupLabels`, the number of patients whose age on `today`
   * falls in it.
   */
  method PatientsAgeDistribution(patients: seq<Patient>, today: Date) returns (groups: seq<nat>)
    ensures |groups| == |AgeGroupLabels|
    ensures forall g: nat :: g < |groups| ==> groups[g] == Count(GroupOf(today), patients, g)
  {
    groups := [0, 0, 0, 0, 0];
    var i := 0;
    while i < |patients|
      invariant 0 <= i <= |patients|
      invariant Distributes(groups, GroupOf(today), patients[..i])
    {
      ghost var before := groups;
      var age := CalculateAge(patients[i].birthDate, today);
      if age <= 18 {
        groups := groups[0 := groups[0] + 1];
      } else if age <= 30 {
        groups := groups[1 := groups[1] + 1];
      } else if age <= 50 {
        groups := groups[2 := groups[2] + 1];
      } else if age <= 70 {
        groups := groups[3 := groups[3] + 1];
      } else {
        groups := groups[4 := groups[4] + 1];
      }
      assert GroupOf(today)(patients[i]) == AgeGroup(age);
      DistributeStep(before, GroupOf(today), patients[..i], patients[i]);
      assert patients[..i + 1] == patients[..i] + [patients[i]];
      i := i + 1;
    }
    assert patients[..i] == patients;
    assert Distributes(groups, GroupOf(today), patients);
    assert |AgeGroupLabels| == 5;
  }

  /** Every element falls in exactly one of five groups, so the five counts add up to the whole. */
  lemma {:induction false} FiveGroupsPartition<T>(group: T -> nat, s: seq<T>)
    requires forall x :: group(x) < 5
    ensures Count(group, s, 0) + Count(group, s, 1) + Count(group, s, 2) + Count(group, s, 3) + Count(group, s, 4) == |s|
    decreases |s|
  {
    if s != [] {
      var init, last := s[..|s| - 1], s[|s| - 1];
      FiveGroupsPartition(group, init);
      assert init + [last] == s;
      CountSnoc(group, init, last, 0);
      CountSnoc(group, init, last, 1);
      CountSnoc(group, init, last, 2);
      CountSnoc(group, init, last, 3);
      CountSnoc(group, init, last, 4);
    }
  }

  /** The age distribution counts every patient exactly once. */
  lemma AgeDistributionCoversAll(patients: seq<Patient>, today: Date)
    ensures Count(GroupOf(today), patients, 0) + Count(GroupOf(today), patients, 1) + Count(GroupOf(today), patients, 2)
      + Count(GroupOf(today), patients, 3) + Count(GroupOf(today), patients, 4) == |patients|
  {
    FiveGroupsPartition(GroupOf(today), patients);
  }
}
