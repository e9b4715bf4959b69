/**
 * The integer side of the dashboard's number formatting: `format_time_detailed`, the sign of
 * `calculate_variance`, the sign prefix of `format_variance`, and the budget status labels.
 */
module Formatting {
  import opened Wrappers
  import opened Text

  // ---------------------------------------------------------------------------
  // format_time_detailed
  // ---------------------------------------------------------------------------

  /**
   * `(seconds // 3600, (seconds % 3600) // 60)`. Python's floor division and modulo by a positive
   * divisor agree with Dafny's Euclidean operators, negative seconds included.
   */
  function SplitSeconds(s: int): (hm: (int, int))
    ensures 0 <= hm.1 < 60
    ensures hm.0 * 3600 + hm.1 * 60 <= s < hm.0 * 3600 + hm.1 * 60 + 60
    ensures s >= 0 ==> hm.0 >= 0
  {
    var r := s % 3600;
    assert s == (s / 3600) * 3600 + r;
    assert r == (r / 60) * 60 + r % 60;
    (s / 3600, r / 60)
  }

  /** `f"{hours}h {minutes}m"`. */
  function Render(h: int, m: nat): string {
    IntToString(h) + "h " + NatToString(m) + "m"
  }

  /** `format_time_detailed(seconds)`: `"0h 0m"` for a null or zero value, else hours and minutes. */
  function FormatTimeDetailed(s: Option<int>): string {
    if s.None? || s.value == 0 then "0h 0m"
    else
      var hm := SplitSeconds(s.value);
      Render(hm.0, hm.1)
  }

  lemma IntToStringChars(i: int)
    ensures forall k :: 0 <= k < |IntToString(i)| ==> IntToString(i)[k] == '-' || '0' <= IntToString(i)[k] <= '9'
  {
  }

  /** The rendered text determines the hours and the minutes. */
  lemma RenderInjective(h1: int, m1: nat, h2: int, m2: nat)
    requires Render(h1, m1) == Render(h2, m2)
    ensures h1 == h2 && m1 == m2
  {
    var a1, a2 := IntToString(h1), IntToString(h2);
    var b1, b2 := NatToString(m1) + "m", NatToString(m2) + "m";
    IntToStringChars(h1);
    IntToStringChars(h2);
    assert Render(h1, m1) == a1 + "h " + b1;
    assert Render(h2, m2) == a2 + "h " + b2;
    SplitAtH(a1, b1, a2, b2);
    IntToStringInjective(h1, h2);
    assert NatToString(m1) == b1[..|b1| - 1] == b2[..|b2| - 1] == NatToString(m2);
  }

  /** Text made of a part with no `h`, then `"h "`, then a tail determines the part and the tail. */
  lemma SplitAtH(a1: string, b1: string, a2: string, b2: string)
    requires forall k :: 0 <= k < |a1| ==> a1[k] != 'h'
    requires forall k :: 0 <= k < |a2| ==> a2[k] != 'h'
    requires a1 + "h " + b1 == a2 + "h " + b2
    ensures a1 == a2 && b1 == b2
  {
    var r := a1 + "h " + b1;
    assert r[..|a1| + 1] == a1 + "h" && r[..|a1|] == a1;
    assert r[..|a2| + 1] == a2 + "h" && r[..|a2|] == a2;
    PrefixBeforeH(a1, a2, r);
    PrefixBeforeH(a2, a1, r);
    assert b1 == r[|a1| + 2..] == b2;
  }

  /** Two sign-and-digit prefixes each followed by `h` in the same text have the same length. */
  lemma PrefixBeforeH(a1: string, a2: string, r: string)
    requires forall k :: 0 <= k < |a2| ==> a2[k] != 'h'
    requires |a1| < |r| && r[..|a1| + 1] == a1 + "h"
    requires |a2| <= |r| && r[..|a2|] == a2
    ensures |a1| >= |a2|
  {
    if |a1| < |a2| {
      CharAfterPrefix(a1, a2, r);
      assert false;
    }
  }

  lemma CharAfterPrefix(a1: string, a2: string, r: string)
    requires |a1| < |a2| <= |r| && r[..|a1| + 1] == a1 + "h" && r[..|a2|] == a2
    ensures a2[|a1|] == 'h'
  {
    assert r[|a1|] == (a1 + "h")[|a1|];
    assert r[|a1|] == r[..|a2|][|a1|];
  }

  /** Whole hours and the minutes past them are the whole minutes, counted in sixties. */
  lemma MinutesOf(s: int)
    ensures SplitSeconds(s).0 == (s / 60) / 60 && SplitSeconds(s).1 == (s / 60) % 60
  {
    var q, a := s / 60, (s / 60) / 60;
    var b := q % 60;
    assert s == 3600 * a + (60 * b + s % 60);
    assert 0 <= 60 * b + s % 60 < 3600;
  }

  /** Two non-zero durations print alike exactly when they have the same whole minutes. */
  lemma FormatTimeSameMinute(s: int, t: int)
    requires s != 0 && t != 0
    ensures FormatTimeDetailed(Some(s)) == FormatTimeDetailed(Some(t)) <==> s / 60 == t / 60
  {
    MinutesOf(s);
    MinutesOf(t);
    var hs, ht := SplitSeconds(s), SplitSeconds(t);
    if FormatTimeDetailed(Some(s)) == FormatTimeDetailed(Some(t)) {
      RenderInjective(hs.0, hs.1, ht.0, ht.1);
      assert s / 60 == 60 * ((s / 60) / 60) + (s / 60) % 60;
      assert t / 60 == 60 * ((t / 60) / 60) + (t / 60) % 60;
    }
  }

  /** `"0h 0m"` is printed for a null value and for exactly the durations in `[0, 60)` seconds. */
  lemma FormatTimeZero(s: Option<int>)
    ensures FormatTimeDetailed(s) == "0h 0m" <==> s.None? || 0 <= s.value < 60
  {
    assert Render(0, 0) == "0h 0m";
    if s.Some? && s.value != 0 {
      var hm := SplitSeconds(s.value);
      if FormatTimeDetailed(s) == "0h 0m" {
        RenderInjective(hm.0, hm.1, 0, 0);
      }
    }
  }

  /** A non-negative duration prints with no minus sign: its text starts with a digit. */
  lemma FormatTimeNonNegative(s: int)
    requires s >= 0
    ensures '0' <= FormatTimeDetailed(Some(s))[0] <= '9'
  {
    if s != 0 {
      var hm := SplitSeconds(s);
      assert IntToString(hm.0) == NatToString(hm.0);
    }
  }

  // ---------------------------------------------------------------------------
  // A negative duration
  // ---------------------------------------------------------------------------

  /**
   * As written, a negative variance of 30 minutes prints as `"-1h 30m"`: floor division puts the
   * hours at -1 and the minutes at +30. The text is what the corrected formatter prints for a
   * variance of minus one and a half hours.
   */
  lemma NegativeTimeAsWritten()
    ensures FormatTimeDetailed(Some(-1800)) == "-1h 30m"
    ensures FormatTimeDetailed(Some(-1800)) == FormatSignedTime(Some(-5400))
    ensures FormatSignedTime(Some(-1800)) == "-0h 30m"
  {
    Thirty();
    assert SplitSeconds(-1800) == (-1, 30);
    assert SplitSeconds(5400) == (1, 30);
    assert SplitSeconds(1800) == (0, 30);
    assert IntToString(-1) == "-1" && IntToString(1) == "1" && IntToString(0) == "0";
  }

  lemma Thirty()
    ensures NatToString(30) == "30"
  {
    assert NatToString(3) == "3";
    assert NatToString(30) == NatToString(3) + [DigitChar(0)];
  }

  /** The intended format of a signed duration: a minus sign before the magnitude's hours and minutes. */
  function FormatSignedTime(s: Option<int>): string {
    if s.Some? && s.value < 0 then "-" + FormatTimeDetailed(Some(Abs(s.value))) else FormatTimeDetailed(s)
  }

  /**
   * The corrected formatter shows the sign and the whole minutes of the magnitude: two non-zero
   * durations print alike exactly when they have the same sign and the same whole minutes of
   * magnitude.
   */
  lemma SignedTimeFaithful(s: int, t: int)
    requires s != 0 && t != 0
    ensures FormatSignedTime(Some(s)) == FormatSignedTime(Some(t)) <==>
              (s < 0) == (t < 0) && Abs(s) / 60 == Abs(t) / 60
  {
    SignedParts(s);
    SignedParts(t);
    FormatTimeSameMinute(Abs(s), Abs(t));
    var fs, ft := FormatSignedTime(Some(s)), FormatSignedTime(Some(t));
    if fs == ft && s < 0 && t < 0 {
      assert fs[1..] == ft[1..];
    }
  }

  /** The corrected text is a minus sign exactly for a negative duration, then the magnitude's text. */
  lemma SignedParts(s: int)
    requires s != 0
    ensures var f := FormatSignedTime(Some(s));
            && |f| > 0 && (f[0] == '-' <==> s < 0)
            && (s < 0 ==> f[1..] == FormatTimeDetailed(Some(Abs(s))))
            && (s > 0 ==> f == FormatTimeDetailed(Some(Abs(s))))
  {
    FormatTimeNonNegative(Abs(s));
  }

  function Abs(x: int): nat {
    if x < 0 then -x else x
  }

  // ---------------------------------------------------------------------------
  // calculate_variance, format_variance and the budget status
  // ---------------------------------------------------------------------------

  /**
   * The sign of `calculate_variance(actual, estimated)`: 0 when the estimate is null or zero (the
   * guard), else the sign of `(actual - estimated) / estimated`, a null actual counting as 0.
   */
  function VarianceSign(actual: Option<int>, estimated: Option<int>): (r: int)
    ensures -1 <= r <= 1
    ensures estimated.None? || estimated == Some(0) ==> r == 0
    ensures estimated.Some? && estimated.value > 0 ==>
              (r > 0 <==> actual.GetOr(0) > estimated.value) && (r < 0 <==> actual.GetOr(0) < estimated.value)
    ensures estimated.Some? && estimated.value < 0 ==>
              (r > 0 <==> actual.GetOr(0) < estimated.value) && (r < 0 <==> actual.GetOr(0) > estimated.value)
  {
    if estimated.None? || estimated.value == 0 then 0
    else
      var e := estimated.value;
      var d := actual.GetOr(0) - e;
      if d == 0 then 0 else if (d > 0) == (e > 0) then 1 else -1
  }

  /** The sign shown by `format_variance`: `+` for a positive variance, the float's own `-` for a negative one. */
  function VariancePrefix(sign: int): (r: string)
    ensures r == "+" <==> sign > 0
    ensures r == "-" <==> sign < 0
  {
    if sign > 0 then "+" else if sign < 0 then "-" else ""
  }

  datatype Status = OverBudget | UnderBudget | OnTarget

  /** The status column: over budget for a positive variance, under for a negative one, else on target. */
  function BudgetStatus(variance: int): (r: Status)
    ensures r == OverBudget <==> variance > 0
    ensures r == UnderBudget <==> variance < 0
    ensures r == OnTarget <==> variance == 0
  {
    if variance > 0 then OverBudget else if variance < 0 then UnderBudget else OnTarget
  }

  /**
   * The overall "Variance" metric's delta, `format_variance(variance_pct)` of the totals: with a
   * positive total estimate it carries a `+` exactly when the totals are over budget, and a `-`
   * exactly when they are under budget. (The per-board "Variance %" column prints the percentage
   * without `format_variance`.)
   */
  lemma PrefixMatchesStatus(actual: int, estimated: int)
    requires estimated > 0
    ensures var p := VariancePrefix(VarianceSign(Some(actual), Some(estimated)));
            && (p == "+" <==> BudgetStatus(actual - estimated) == OverBudget)
            && (p == "-" <==> BudgetStatus(actual - estimated) == UnderBudget)
  {
  }
}
