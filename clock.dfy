/**
 * Times of day as the front desk stores them: `"HH:MM"` strings, with the
 * conversions `timeToMinutes` and `minutesToTime` and the working-hours check.
 */
module Clock {
  import opened Wrappers
  import opened Text
  import opened Arith

  const MinutesPerHour := 60
  const MinutesPerDay := 1440

  /** The part of `s` before its first `':'` (all of `s` if there is none). */
  function UpToColon(s: string): (r: string)
    ensures |r| <= |s| && r == s[..|r|]
    ensures ':' !in r
    ensures |r| < |s| ==> s[|r|] == ':'
    decreases |s|
  {
    if s == [] || s[0] == ':' then [] else [s[0]] + UpToColon(s[1..])
  }

  lemma {:induction false} UpToColonAppend(h: string, rest: string)
    requires ':' !in h
    ensures UpToColon(h + ":" + rest) == h
    decreases |h|
  {
    var s := h + ":" + rest;
    if h != [] {
      assert s[0] == h[0];
      assert s[1..] == h[1..] + ":" + rest;
      UpToColonAppend(h[1..], rest);
      assert [h[0]] + h[1..] == h;
    }
  }

  /**
   * `timeToMinutes`: split at `':'`, read the first two pieces with `Number`
   * and return `hours * 60 + minutes`; `None` stands for `NaN` (no colon, or
   * a piece that is not a digit string). Pieces after a second colon are ignored.
   */
  function TimeToMinutes(t: string): Option<nat>
  {
    var hours := UpToColon(t);
    if |hours| == |t| then None
    else
      var minutes := UpToColon(t[|hours| + 1..]);
      match (NumberOf(hours), NumberOf(minutes))
      case (Some(h), Some(m)) => Some(h * MinutesPerHour + m)
      case _ => None
  }

  /** `minutesToTime`: zero-padded hours, a colon, zero-padded minutes. */
  function MinutesToTime(minutes: nat): string
  {
    PadStart2(NatToDecimal(minutes / MinutesPerHour)) + ":" + PadStart2(NatToDecimal(minutes % MinutesPerHour))
  }

  /** A well-formed clock time `"HH:MM"` with `HH < 24` and `MM < 60`. */
  predicate IsClockTime(t: string)
  {
    |t| == 5 && t[2] == ':'
    && IsDigit(t[0]) && IsDigit(t[1]) && IsDigit(t[3]) && IsDigit(t[4])
    && DigitValue(t[0]) * 10 + DigitValue(t[1]) < 24
    && DigitValue(t[3]) * 10 + DigitValue(t[4]) < 60
  }

  lemma TwoDigitValue(s: string)
    requires |s| == 2 && IsDigits(s)
    ensures DecimalValue(s) == DigitValue(s[0]) * 10 + DigitValue(s[1])
  {
    var first := s[..1];
    assert first[..0] == [] && first[0] == s[0];
    assert DecimalValue(first) == DigitValue(s[0]);
    assert s[..|s| - 1] == first;
  }

  /** A time made of two digit strings around one colon reads as `hours * 60 + minutes`. */
  lemma {:induction false} TimeOfParts(h: string, m: string)
    requires IsDigits(h) && IsDigits(m)
    ensures TimeToMinutes(h + ":" + m) == Some(DecimalValue(h) * MinutesPerHour + DecimalValue(m))
  {
    var t := h + ":" + m;
    assert ':' !in h by {
      forall i | 0 <= i < |h| ensures h[i] != ':' { assert IsDigit(h[i]); }
    }
    assert ':' !in m by {
      forall i | 0 <= i < |m| ensures m[i] != ':' { assert IsDigit(m[i]); }
    }
    UpToColonAppend(h, m);
    assert UpToColon(t) == h;
    assert |h| < |t|;
    assert t[|h| + 1..] == m;
    UpToColonWhole(m);
    assert NumberOf(h) == Some(DecimalValue(h));
    assert NumberOf(m) == Some(DecimalValue(m));
  }

  lemma {:induction false} UpToColonWhole(s: string)
    requires ':' !in s
    ensures UpToColon(s) == s
    decreases |s|
  {
    if s != [] {
      UpToColonWhole(s[1..]);
      assert [s[0]] + s[1..] == s;
    }
  }

  /** `timeToMinutes` undoes `minutesToTime`, for every non-negative number of minutes. */
  lemma {:induction false} MinutesToTimeRoundTrip(minutes: nat)
    ensures TimeToMinutes(MinutesToTime(minutes)) == Some(minutes)
  {
    var hd, md := NatToDecimal(minutes / MinutesPerHour), NatToDecimal(minutes % MinutesPerHour);
    NatToDecimalValue(minutes / MinutesPerHour);
    NatToDecimalValue(minutes % MinutesPerHour);
    PadStart2Value(hd);
    PadStart2Value(md);
    TimeOfParts(PadStart2(hd), PadStart2(md));
  }

  /** Below 24 hours, `minutesToTime` yields a well-formed `"HH:MM"`. */
  lemma {:induction false} MinutesToTimeFormat(minutes: nat)
    requires minutes < MinutesPerDay
    ensures IsClockTime(MinutesToTime(minutes))
  {
    var hs := PadStart2(NatToDecimal(minutes / MinutesPerHour));
    var ms := PadStart2(NatToDecimal(minutes % MinutesPerHour));
    NatToDecimalValue(minutes / MinutesPerHour);
    NatToDecimalValue(minutes % MinutesPerHour);
    PadStart2Value(NatToDecimal(minutes / MinutesPerHour));
    PadStart2Value(NatToDecimal(minutes % MinutesPerHour));
    TwoDigitValue(hs);
    TwoDigitValue(ms);
    var t := MinutesToTime(minutes);
    assert t == hs + ":" + ms;
    assert t[0] == hs[0] && t[1] == hs[1] && t[3] == ms[0] && t[4] == ms[1];
  }

  /** A well-formed clock time reads as its hours times 60 plus its minutes. */
  lemma ClockTimeValue(t: string)
    requires IsClockTime(t)
    ensures TimeToMinutes(t) == Some((DigitValue(t[0]) * 10 + DigitValue(t[1])) * MinutesPerHour + DigitValue(t[3]) * 10 + DigitValue(t[4]))
  {
    var hs, ms := t[..2], t[3..];
    assert t == hs + ":" + ms;
    TwoDigitValue(hs);
    TwoDigitValue(ms);
    TimeOfParts(hs, ms);
  }

  /** Every well-formed clock time is `minutesToTime` of the minutes it denotes. */
  lemma {:induction false} ClockTimeRoundTrip(t: string)
    requires IsClockTime(t)
    ensures TimeToMinutes(t).Some? && TimeToMinutes(t).value < MinutesPerDay
    ensures MinutesToTime(TimeToMinutes(t).value) == t
  {
    ClockTimeValue(t);
    var hv := DigitValue(t[0]) * 10 + DigitValue(t[1]);
    var mv := DigitValue(t[3]) * 10 + DigitValue(t[4]);
    DivModUnique(hv * MinutesPerHour + mv, hv, mv, MinutesPerHour);
    PaddedDigits(hv, t[..2]);
    PaddedDigits(mv, t[3..]);
    assert t == t[..2] + ":" + t[3..];
  }

  /** A two-digit string is the padded decimal form of the number it denotes. */
  lemma PaddedDigits(n: nat, s: string)
    requires |s| == 2 && IsDigits(s) && n == DigitValue(s[0]) * 10 + DigitValue(s[1])
    ensures PadStart2(NatToDecimal(n)) == s
  {
    var r := PadStart2(NatToDecimal(n));
    NatToDecimalValue(n);
    PadStart2Value(NatToDecimal(n));
    TwoDigitValue(r);
    DigitsOfTwoDigit(r, s);
  }

  /** Two two-digit strings with the same value are equal. */
  lemma DigitsOfTwoDigit(a: string, b: string)
    requires |a| == 2 && |b| == 2 && IsDigits(a) && IsDigits(b)
    requires DigitValue(a[0]) * 10 + DigitValue(a[1]) == DigitValue(b[0]) * 10 + DigitValue(b[1])
    ensures a == b
  {
    assert DigitValue(a[0]) == DigitValue(b[0]);
    assert a[0] == b[0] && a[1] == b[1];
  }

  const WorkdayStart := 8 * MinutesPerHour
  const WorkdayEnd := 18 * MinutesPerHour

  /** `validateWorkingHours`: between 08:00 and 18:00, both ends included; `NaN` fails. */
  function ValidateWorkingHours(time: string): bool
  {
    match TimeToMinutes(time)
    case None => false
    case Some(m) => WorkdayStart <= m <= WorkdayEnd
  }

  /** On the times `minutesToTime` produces, the check is exactly the 08:00-18:00 window. */
  lemma WorkingHoursWindow(minutes: nat)
    ensures ValidateWorkingHours(MinutesToTime(minutes)) <==> 480 <= minutes <= 1080
  {
    MinutesToTimeRoundTrip(minutes);
  }
}
