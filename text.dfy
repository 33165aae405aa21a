/**
 * The string primitives the front desk code relies on: decimal digits,
 * `Number(...)` on a digit string, `toString()` of a non-negative integer,
 * `padStart(2, '0')`, `includes`, ASCII `toLowerCase` and the `\D` strip.
 */
module Text {
  import opened Wrappers
  import opened Seqs

  predicate IsDigit(c: char)
  {
    '0' <= c <= '9'
  }

  predicate IsDigits(s: string)
  {
    forall i :: 0 <= i < |s| ==> IsDigit(s[i])
  }

  function DigitValue(c: char): (d: nat)
    requires IsDigit(c)
    ensures d < 10
  {
    (c as int) - ('0' as int)
  }

  function DigitChar(d: nat): (c: char)
    requires d < 10
    ensures IsDigit(c) && DigitValue(c) == d
  {
    (('0' as int) + d) as char
  }

  /** The value of a string of decimal digits, most significant first; `""` is 0. */
  function DecimalValue(s: string): nat
    requires IsDigits(s)
    decreases |s|
  {
    if s == [] then 0 else DecimalValue(s[..|s| - 1]) * 10 + DigitValue(s[|s| - 1])
  }

  /**
   * JavaScript `Number(s)` for the strings a time field can hold: a digit
   * string (the empty string included) is its value, anything else is `NaN`.
   */
  function NumberOf(s: string): Option<nat>
  {
    if IsDigits(s) then Some(DecimalValue(s)) else None
  }

  /** `n.toString()` for a non-negative integer: no leading zeros. */
  function NatToDecimal(n: nat): string
    decreases n
  {
    if n < 10 then [DigitChar(n)] else NatToDecimal(n / 10) + [DigitChar(n % 10)]
  }

  /** `toString()` writes digits whose value is `n`, one digit below 10 and two below 100. */
  lemma {:induction false} NatToDecimalValue(n: nat)
    ensures IsDigits(NatToDecimal(n)) && DecimalValue(NatToDecimal(n)) == n
    ensures 1 <= |NatToDecimal(n)|
    ensures |NatToDecimal(n)| == 1 <==> n < 10
    ensures |NatToDecimal(n)| == 2 <==> 10 <= n < 100
    decreases n
  {
    if n >= 10 {
      NatToDecimalValue(n / 10);
      var init := NatToDecimal(n / 10);
      var s := NatToDecimal(n);
      assert s == init + [DigitChar(n % 10)];
      assert s[..|s| - 1] == init;
    }
  }

  /** `s.padStart(2, '0')`. */
  function PadStart2(s: string): string
  {
    if |s| == 0 then "00" else if |s| == 1 then "0" + s else s
  }

  /** Padding yields at least two characters and leaves longer strings alone. */
  lemma PadStart2Length(s: string)
    ensures |PadStart2(s)| == if |s| < 2 then 2 else |s|
    ensures |s| >= 2 ==> PadStart2(s) == s
  {
  }

  /** A leading zero does not change the value of a digit string. */
  lemma {:induction false} LeadingZero(s: string)
    requires IsDigits(s)
    ensures IsDigits("0" + s) && DecimalValue("0" + s) == DecimalValue(s)
    decreases |s|
  {
    var t := "0" + s;
    assert IsDigits(t) by {
      forall i | 0 <= i < |t| ensures IsDigit(t[i]) {
        if i > 0 { assert t[i] == s[i - 1]; }
      }
    }
    if s != [] {
      var init := s[..|s| - 1];
      LeadingZero(init);
      assert t[..|t| - 1] == "0" + init;
    } else {
      assert t[..|t| - 1] == "";
    }
  }

  lemma PadStart2Value(s: string)
    requires IsDigits(s)
    ensures IsDigits(PadStart2(s)) && DecimalValue(PadStart2(s)) == DecimalValue(s)
  {
    if |s| == 0 {
      LeadingZero("0");
      assert "0" + "0" == "00";
    } else if |s| == 1 {
      LeadingZero(s);
    }
  }

  /** `s` contains `part` starting at position `i`. */
  predicate OccursAt(s: string, part: string, i: nat)
  {
    i + |part| <= |s| && s[i..i + |part|] == part
  }

  /** `s.includes(part)`; every string includes the empty string. */
  predicate Includes(s: string, part: string)
  {
    exists i: nat :: i <= |s| && OccursAt(s, part, i)
  }

  lemma IncludesEmpty(s: string)
    ensures Includes(s, "")
  {
    assert OccursAt(s, "", 0);
  }

  /** `toLowerCase` on one character, for the ASCII letters only. */
  function LowerChar(c: char): char
  {
    if 'A' <= c <= 'Z' then (c as int + 32) as char else c
  }

  function Lower(s: string): (r: string)
    ensures |r| == |s|
    ensures forall i :: 0 <= i < |s| ==> r[i] == LowerChar(s[i])
  {
    seq(|s|, i requires 0 <= i < |s| => LowerChar(s[i]))
  }

  /** `s.replace(/\D/g, '')`: the decimal digits of `s`, in order. */
  function KeepDigits(s: string): (r: string)
    ensures IsDigits(r)
    ensures |r| <= |s|
    ensures IsDigits(s) ==> r == s
    decreases |s|
  {
    if s == [] then ""
    else (if IsDigit(s[0]) then [s[0]] else []) + KeepDigits(s[1..])
  }

  /** The digits are kept exactly, in their order: `KeepDigits` is the filter by `IsDigit`. */
  lemma {:induction false} KeepDigitsFilters(s: string)
    ensures KeepDigits(s) == Filter(IsDigit, s)
    decreases |s|
  {
    if s != [] {
      KeepDigitsFilters(s[1..]);
      FilterCons(IsDigit, s[0], s[1..]);
      assert [s[0]] + s[1..] == s;
    }
  }
}
