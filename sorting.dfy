/**
 * The order in which the appointment tables are drawn: newest first by
 * `new Date(date + ' ' + time)`, with `Array.prototype.sort`, which works in
 * place and is stable. `SortKey` is that instant in minutes. The sort itself
 * is stated for any key: `SortDesc` is the stable descending insertion sort
 * that specifies the in-place method.
 */
module Sorting {
  import opened Seqs
  import opened Wrappers
  import opened Clock
  import opened Calendar
  import opened Records

  /** The instant of an appointment, in minutes; a time that does not read as a number counts as midnight. */
  function SortKey(a: Appointment): int
  {
    DayNumber(a.date) * MinutesPerDay + match TimeToMinutes(a.time) case Some(m) => m case None => 0
  }

  /** Newest first: keys never increase along the sequence. */
  ghost predicate SortedDesc<T>(key: T -> int, s: seq<T>)
  {
    forall i, j :: 0 <= i < j < |s| ==> key(s[i]) >= key(s[j])
  }

  /** Insert `x` after every element at least as new as it, before the first older one. */
  function Insert<T>(key: T -> int, x: T, s: seq<T>): seq<T>
    decreases |s|
  {
    if s == [] then [x]
    else if key(s[0]) < key(x) then [x] + s
    else [s[0]] + Insert(key, x, s[1..])
  }

  /** Insertion sort from left to right: each element goes into the sorted prefix before it. */
  function SortDesc<T>(key: T -> int, s: seq<T>): seq<T>
    decreases |s|
  {
    if s == [] then [] else Insert(key, s[|s| - 1], SortDesc(key, s[..|s| - 1]))
  }

  lemma SortedTail<T>(key: T -> int, s: seq<T>)
    requires s != [] && SortedDesc(key, s)
    ensures SortedDesc(key, s[1..])
  {
    var tail := s[1..];
    forall i, j | 0 <= i < j < |tail| ensures key(tail[i]) >= key(tail[j]) {
      assert tail[i] == s[i + 1] && tail[j] == s[j + 1];
    }
  }

  /** Every key in `s` is at most `v`. */
  ghost predicate Bounded<T>(key: T -> int, s: seq<T>, v: int)
  {
    forall i :: 0 <= i < |s| ==> key(s[i]) <= v
  }

  lemma SortedBounded<T>(key: T -> int, s: seq<T>)
    requires s != [] && SortedDesc(key, s)
    ensures Bounded(key, s, key(s[0]))
  {
  }

  lemma ConsSorted<T>(key: T -> int, h: T, s: seq<T>)
    requires SortedDesc(key, s) && Bounded(key, s, key(h))
    ensures SortedDesc(key, [h] + s)
  {
    var t := [h] + s;
    forall i, j | 0 <= i < j < |t| ensures key(t[i]) >= key(t[j]) {
      assert t[j] == s[j - 1];
      if i > 0 {
        assert t[i] == s[i - 1];
      }
    }
  }

  lemma {:induction false} InsertBounded<T>(key: T -> int, x: T, s: seq<T>, v: int)
    requires Bounded(key, s, v) && key(x) <= v
    ensures Bounded(key, Insert(key, x, s), v)
    decreases |s|
  {
    if s != [] && key(s[0]) >= key(x) {
      var tail := s[1..];
      assert Bounded(key, tail, v) by {
        forall i | 0 <= i < |tail| ensures key(tail[i]) <= v {
          assert tail[i] == s[i + 1];
        }
      }
      InsertBounded(key, x, tail, v);
      var rest := Insert(key, x, tail);
      assert Insert(key, x, s) == [s[0]] + rest;
      assert forall i :: 1 <= i < |rest| + 1 ==> ([s[0]] + rest)[i] == rest[i - 1];
    }
  }

  lemma {:induction false} InsertPermutes<T>(key: T -> int, x: T, s: seq<T>)
    ensures multiset(Insert(key, x, s)) == multiset(s) + multiset{x}
    ensures |Insert(key, x, s)| == |s| + 1
    decreases |s|
  {
    if s != [] && key(s[0]) >= key(x) {
      InsertPermutes(key, x, s[1..]);
      assert s == [s[0]] + s[1..];
    }
  }

  lemma {:induction false} InsertSorted<T>(key: T -> int, x: T, s: seq<T>)
    requires SortedDesc(key, s)
    ensures SortedDesc(key, Insert(key, x, s))
    decreases |s|
  {
    if s == [] {
    } else if key(s[0]) < key(x) {
      SortedBounded(key, s);
      ConsSorted(key, x, s);
    } else {
      var tail := s[1..];
      SortedTail(key, s);
      InsertSorted(key, x, tail);
      SortedBounded(key, s);
      assert Bounded(key, tail, key(s[0])) by {
        forall i | 0 <= i < |tail| ensures key(tail[i]) <= key(s[0]) {
          assert tail[i] == s[i + 1];
        }
      }
      InsertBounded(key, x, tail, key(s[0]));
      ConsSorted(key, s[0], Insert(key, x, tail));
    }
  }

  /** The sort yields a newest-first permutation of its input. */
  lemma {:induction false} SortDescCorrect<T>(key: T -> int, s: seq<T>)
    ensures SortedDesc(key, SortDesc(key, s))
    ensures multiset(SortDesc(key, s)) == multiset(s)
    ensures |SortDesc(key, s)| == |s|
    decreases |s|
  {
    if s != [] {
      var init := s[..|s| - 1];
      SortDescCorrect(key, init);
      InsertSorted(key, s[|s| - 1], SortDesc(key, init));
      InsertPermutes(key, s[|s| - 1], SortDesc(key, init));
      assert s == init + [s[|s| - 1]];
    }
  }

  /** Where `Insert` puts `x` in a sorted sequence: at the first position holding an older element. */
  lemma {:induction false} InsertAt<T>(key: T -> int, x: T, s: seq<T>, j: nat)
    requires SortedDesc(key, s)
    requires j <= |s|
    requires forall k :: j <= k < |s| ==> key(s[k]) < key(x)
    requires j == 0 || key(s[j - 1]) >= key(x)
    ensures Insert(key, x, s) == s[..j] + [x] + s[j..]
    decreases |s|
  {
    if s != [] {
      if j == 0 {
        assert key(s[0]) < key(x);
      } else {
        assert key(s[0]) >= key(s[j - 1]);
        var tail := s[1..];
        SortedTail(key, s);
        assert forall k :: j - 1 <= k < |tail| ==> tail[k] == s[k + 1];
        if j >= 2 {
          assert tail[j - 2] == s[j - 1];
        }
        InsertAt(key, x, tail, j - 1);
        assert s[..j] == [s[0]] + tail[..j - 1];
        assert s[j..] == tail[j - 1..];
      }
    }
  }

  /** The elements whose key is `k`, in order: the run of one instant. */
  function Run<T>(key: T -> int, s: seq<T>, k: int): seq<T>
  {
    Filter((a: T) => key(a) == k, s)
  }

  lemma RunCons<T>(key: T -> int, x: T, s: seq<T>, k: int)
    ensures Run(key, [x] + s, k) == (if key(x) == k then [x] else []) + Run(key, s, k)
  {
    FilterCons((a: T) => key(a) == k, x, s);
  }

  lemma {:induction false} RunEmpty<T>(key: T -> int, s: seq<T>, v: int, k: int)
    requires Bounded(key, s, v) && v < k
    ensures Run(key, s, k) == []
    decreases |s|
  {
    if s != [] {
      var init, last := s[..|s| - 1], s[|s| - 1];
      assert Bounded(key, init, v) by {
        forall i | 0 <= i < |init| ensures key(init[i]) <= v {
          assert init[i] == s[i];
        }
      }
      RunEmpty(key, init, v, k);
      FilterSnoc((a: T) => key(a) == k, init, last);
      assert init + [last] == s;
    }
  }

  lemma {:induction false} InsertRun<T>(key: T -> int, x: T, s: seq<T>, k: int)
    requires SortedDesc(key, s)
    ensures Run(key, Insert(key, x, s), k) == Run(key, s, k) + (if key(x) == k then [x] else [])
    decreases |s|
  {
    if s == [] {
      assert Insert(key, x, s) == [] + [x];
      FilterSnoc((a: T) => key(a) == k, [], x);
    } else if key(s[0]) < key(x) {
      RunCons(key, x, s, k);
      if key(x) == k {
        SortedBounded(key, s);
        RunEmpty(key, s, key(s[0]), k);
      }
    } else {
      var tail := s[1..];
      SortedTail(key, s);
      InsertRun(key, x, tail, k);
      RunConsBoth(key, s[0], Insert(key, x, tail), tail, if key(x) == k then [x] else [], k);
      assert [s[0]] + tail == s;
      assert Insert(key, x, s) == [s[0]] + Insert(key, x, tail);
    }
  }

  /** Putting the same element in front of two sequences keeps the relation between their runs. */
  lemma RunConsBoth<T>(key: T -> int, h: T, rest: seq<T>, tail: seq<T>, extra: seq<T>, k: int)
    requires Run(key, rest, k) == Run(key, tail, k) + extra
    ensures Run(key, [h] + rest, k) == Run(key, [h] + tail, k) + extra
  {
    RunCons(key, h, rest, k);
    RunCons(key, h, tail, k);
  }

  /** The sort is stable: elements with the same key keep their relative order. */
  lemma {:induction false} SortDescStable<T>(key: T -> int, s: seq<T>, k: int)
    ensures Run(key, SortDesc(key, s), k) == Run(key, s, k)
    decreases |s|
  {
    if s != [] {
      var init, last := s[..|s| - 1], s[|s| - 1];
      SortDescStable(key, init, k);
      SortDescCorrect(key, init);
      InsertRun(key, last, SortDesc(key, init), k);
      assert s == init + [last];
      FilterSnoc((a: T) => key(a) == k, init, last);
    }
  }

  /**
   * One step of the insertion sort: shift the older elements of the sorted
   * prefix `a[..i]` one place right and drop `a[i]` into the gap.
   */
  method InsertLast<T>(key: T -> int, a: array<T>, i: nat)
    requires i < a.Length
    requires SortedDesc(key, a[..i])
    modifies a
    ensures a[..i + 1] == Insert(key, old(a[i]), old(a[..i]))
    ensures a[i + 1..] == old(a[i + 1..])
  {
    ghost var sorted := a[..i];
    ghost var after := a[i + 1..];
    var x := a[i];
    var j := i;
    while j > 0 && key(a[j - 1]) < key(x)
      invariant 0 <= j <= i
      invariant forall k :: 0 <= k < j ==> a[k] == sorted[k]
      invariant forall k :: j < k <= i ==> a[k] == sorted[k - 1]
      invariant forall k :: j <= k < i ==> key(sorted[k]) < key(x)
      invariant forall k :: i < k < a.Length ==> a[k] == after[k - i - 1]
    {
      a[j] := a[j - 1];
      j := j - 1;
    }
    a[j] := x;
    InsertAt(key, x, sorted, j);
    ShiftedIsInsert(a[..], sorted, after, x, i, j);
  }

  /**
   * The array after the shift: `sorted[..j]`, then `x`, then the rest of
   * `sorted` one place right, then the untouched tail.
   */
  lemma ShiftedIsInsert<T>(cur: seq<T>, sorted: seq<T>, after: seq<T>, x: T, i: nat, j: nat)
    requires j <= i < |cur| && |sorted| == i && |after| == |cur| - i - 1
    requires forall k :: 0 <= k < j ==> cur[k] == sorted[k]
    requires cur[j] == x
    requires forall k :: j < k <= i ==> cur[k] == sorted[k - 1]
    requires forall k :: i < k < |cur| ==> cur[k] == after[k - i - 1]
    ensures cur[..i + 1] == sorted[..j] + [x] + sorted[j..]
    ensures cur[i + 1..] == after
  {
    var target := sorted[..j] + [x] + sorted[j..];
    forall k | 0 <= k <= i ensures cur[k] == target[k] {
      if k < j {
        assert target[k] == sorted[k];
      } else if k > j {
        assert target[k] == sorted[k - 1];
      }
    }
    assert cur[..i + 1] == target;
    forall m | 0 <= m < |after| ensures cur[i + 1..][m] == after[m] {
      assert cur[i + 1..][m] == cur[i + 1 + m];
    }
  }

  /** Insertion sort in place, descending by `key`, stable. */
  method InsertionSortDesc<T>(key: T -> int, a: array<T>)
    modifies a
    ensures a[..] == SortDesc(key, old(a[..]))
  {
    ghost var orig := a[..];
    var i := 0;
    while i < a.Length
      invariant 0 <= i <= a.Length
      invariant a[..i] == SortDesc(key, orig[..i])
      invariant a[i..] == orig[i..]
    {
      SortDescCorrect(key, orig[..i]);
      ghost var before := a[..];
      InsertLast(key, a, i);
      assert before[i] == orig[i];
      assert orig[..i + 1][..i] == orig[..i];
      assert a[i + 1..] == before[i + 1..];
      assert before[i + 1..] == before[i..][1..] == orig[i..][1..] == orig[i + 1..];
      i := i + 1;
    }
    assert orig[..a.Length] == orig;
  }

  /**
   * `appointments.sort((a, b) => dateB - dateA)`: the appointments in place,
   * newest first, those at the same instant in their former order.
   */
  method SortByDateTimeDesc(a: array<Appointment>)
    modifies a
    ensures a[..] == SortDesc(SortKey, old(a[..]))
  {
    InsertionSortDesc(SortKey, a);
  }

  /** The first `n` elements in descending order, or all of them when there are fewer. */
  function Newest<T>(key: T -> int, s: seq<T>, n: nat): seq<T>
  {
    var sorted := SortDesc(key, s);
    if |sorted| <= n then sorted else sorted[..n]
  }

  /** A prefix takes no element more often than the whole sequence holds it. */
  lemma PrefixSubMultiset<T>(s: seq<T>, n: nat)
    requires n <= |s|
    ensures multiset(s[..n]) <= multiset(s)
  {
    assert s == s[..n] + s[n..];
  }

  /**
   * A prefix `t[..m]` of a sorted permutation `t` of `s` holds `m` newest
   * elements of `s`: sorted, drawn from `s` without repetition, and no
   * element it leaves out (of `t`, and so of `s`) is newer than one it holds.
   */
  lemma PrefixIsNewest<T>(key: T -> int, s: seq<T>, t: seq<T>, m: nat)
    requires SortedDesc(key, t) && multiset(t) == multiset(s) && m <= |t|
    ensures SortedDesc(key, t[..m])
    ensures multiset(t[..m]) <= multiset(s)
    ensures forall i, j :: 0 <= i < m <= j < |t| ==> key(t[j]) <= key(t[..m][i])
    ensures forall x, i :: x in multiset(s) - multiset(t[..m]) && 0 <= i < m ==> key(x) <= key(t[..m][i])
  {
    PrefixSorted(key, t, m);
    PrefixSubMultiset(t, m);
    LeftOutNotNewer(key, s, t, m);
  }

  /** A prefix of a sorted sequence is sorted, and nothing after it is newer than anything in it. */
  lemma PrefixSorted<T>(key: T -> int, t: seq<T>, m: nat)
    requires SortedDesc(key, t) && m <= |t|
    ensures SortedDesc(key, t[..m])
    ensures forall i, j :: 0 <= i < m <= j < |t| ==> key(t[j]) <= key(t[..m][i])
  {
    forall i, j | 0 <= i < m <= j < |t|
      ensures key(t[j]) <= key(t[..m][i])
    {
      assert t[..m][i] == t[i];
    }
  }

  /** No element that the prefix `t[..m]` leaves out of `s` is newer than one it holds. */
  lemma LeftOutNotNewer<T>(key: T -> int, s: seq<T>, t: seq<T>, m: nat)
    requires SortedDesc(key, t) && multiset(t) == multiset(s) && m <= |t|
    ensures forall x, i :: x in multiset(s) - multiset(t[..m]) && 0 <= i < m ==> key(x) <= key(t[..m][i])
  {
    assert t == t[..m] + t[m..];
    assert multiset(s) - multiset(t[..m]) == multiset(t[m..]);
    forall x, i | x in multiset(s) - multiset(t[..m]) && 0 <= i < m
      ensures key(x) <= key(t[..m][i])
    {
      assert x in t[m..];
      var j :| 0 <= j < |t[m..]| && t[m..][j] == x;
      assert t[m + j] == x && t[..m][i] == t[i];
    }
  }

  /**
   * `Newest` holds the `n` newest elements (all of them when there are
   * fewer): they are drawn from the input without repetition, newest first,
   * and no element of the input left out is newer than one kept.
   */
  lemma NewestCorrect<T>(key: T -> int, s: seq<T>, n: nat)
    ensures var r := Newest(key, s, n);
      && |r| == (if |s| < n then |s| else n)
      && SortedDesc(key, r)
      && multiset(r) <= multiset(s)
      && (forall i, j :: 0 <= i < |r| <= j < |SortDesc(key, s)| ==> key(SortDesc(key, s)[j]) <= key(r[i]))
      && (forall x, i :: x in multiset(s) - multiset(r) && 0 <= i < |r| ==> key(x) <= key(r[i]))
  {
    var sorted := SortDesc(key, s);
    SortDescCorrect(key, s);
    var m := if |sorted| <= n then |sorted| else n;
    PrefixIsNewest(key, s, sorted, m);
    assert sorted[..|sorted|] == sorted;
    assert Newest(key, s, n) == sorted[..m];
  }

  /** `loadRecentAppointments`: the five newest appointments of the store. */
  function RecentAppointments(appointments: seq<Appointment>): seq<Appointment>
  {
    Newest(SortKey, appointments, 5)
  }

  /** The dashboard shows the five newest appointments, newest first, or all when there are fewer. */
  lemma RecentAreNewest(appointments: seq<Appointment>)
    ensures var r := RecentAppointments(appointments);
      && |r| == (if |appointments| < 5 then |appointments| else 5)
      && SortedDesc(SortKey, r)
      && multiset(r) <= multiset(appointments)
      && (forall i, j :: 0 <= i < |r| <= j < |SortDesc(SortKey, appointments)| ==>
            SortKey(SortDesc(SortKey, appointments)[j]) <= SortKey(r[i]))
      && (forall x, i :: x in multiset(appointments) - multiset(r) && 0 <= i < |r| ==> SortKey(x) <= SortKey(r[i]))
  {
    NewestCorrect(SortKey, appointments, 5);
  }
}
