/**
 * Integer helpers for durations given in seconds: chrono's truncating
 * `Duration::num_minutes` / `num_hours`, the rounding of minutes up to a
 * multiple of fifteen, and the human readable form ("2 hours and 2 minutes").
 */
module Durations {
  import opened Strings

  /** Rounding step of `approximate_minutes`. */
  const ApproxMinutes: int := 15
  const MinutesInHour: int := 60
  const SecondsInMinute: int := 60
  const SecondsInHour: int := 3600

  /** Rust's `/` on integers: the quotient truncated toward zero. */
  function TDiv(a: int, b: int): (q: int)
    requires b > 0
    ensures a >= 0 ==> 0 <= a - b * q < b
    ensures a < 0 ==> -b < a - b * q <= 0
  {
    if a >= 0 then a / b else -((-a) / b)
  }

  /** Rust's `%` on integers: the remainder takes the sign of the dividend. */
  function TRem(a: int, b: int): (r: int)
    requires b > 0
    ensures -b < r < b
    ensures a >= 0 ==> r == a % b
    ensures a < 0 ==> r <= 0
    ensures (a - r) % b == 0
  {
    var r := a - b * TDiv(a, b);
    assert a - r == b * TDiv(a, b);
    r
  }

  /** `Duration::seconds(d).num_minutes()`. */
  function WholeMinutes(duration: int): int
  {
    TDiv(duration, SecondsInMinute)
  }

  /**
   * `approximate_minutes`: the whole-minute count rounded up to a multiple of
   * fifteen. The result is always a multiple of fifteen; for a non-negative
   * duration it is the least one that is at least the whole-minute count.
   */
  function ApproximateMinutes(duration: int): (r: int)
    ensures r % ApproxMinutes == 0
    ensures duration >= 0 ==> WholeMinutes(duration) <= r < WholeMinutes(duration) + ApproxMinutes
  {
    var answer := WholeMinutes(duration);
    var remainder := ApproxMinutes - TRem(answer, ApproxMinutes);
    RoundUpToQuarter(answer, TRem(answer, ApproxMinutes));
    if remainder != ApproxMinutes then answer + remainder else answer
  }

  /** Topping up a count by what its remainder lacks gives a multiple of fifteen. */
  lemma RoundUpToQuarter(answer: int, rem: int)
    requires (answer - rem) % ApproxMinutes == 0
    ensures (answer + (ApproxMinutes - rem)) % ApproxMinutes == 0
  {
    var k := (answer - rem) / ApproxMinutes;
    assert answer - rem == ApproxMinutes * k;
    assert answer + (ApproxMinutes - rem) == ApproxMinutes * (k + 1);
  }

  /**
   * The split `get_human_readable_form` makes: whole hours, and the whole
   * minutes left over. For a non-negative duration the two describe it to the
   * minute.
   */
  function HoursAndMinutes(duration: int): (hm: (int, int))
    ensures duration >= 0 ==> hm.0 >= 0 && 0 <= hm.1 < MinutesInHour
    ensures duration >= 0 ==>
      hm.0 * SecondsInHour + hm.1 * SecondsInMinute <= duration
      < hm.0 * SecondsInHour + hm.1 * SecondsInMinute + SecondsInMinute
  {
    (TDiv(duration, SecondsInHour), TRem(WholeMinutes(duration), MinutesInHour))
  }

  /** A count and its unit: the number, a space, and the singular unit for one or the plural otherwise. */
  function Phrase(n: int, singular: string, plural: string): string
  {
    IntToString(n) + " " + (if n == 1 then singular else plural)
  }

  /**
   * The `unit_format` closure, given the plural unit name: empty for zero,
   * otherwise the number with the unit, its last letter dropped for one.
   */
  function UnitFormat(units: int, unitName: string): (r: string)
    requires |unitName| > 0
    ensures units == 0 ==> r == ""
    ensures units != 0 ==> r == Phrase(units, unitName[..|unitName| - 1], unitName)
  {
    if units == 0 then ""
    else if units == 1 then "1 " + unitName[..|unitName| - 1]
    else IntToString(units) + " " + unitName
  }

  const LessThanAMinute: string := "Less than a minute"

  /**
   * `format_human_readable`: "Less than a minute" when both parts are zero;
   * otherwise the hours phrase and the minutes phrase, either one left out
   * when it is zero, joined by " and " when both are there.
   */
  function FormatHumanReadable(hours: int, minutes: int): (r: string)
    ensures r == LessThanAMinute <==> hours == 0 && minutes == 0
    ensures hours == 0 && minutes != 0 ==> r == Phrase(minutes, "minute", "minutes")
    ensures hours != 0 && minutes == 0 ==> r == Phrase(hours, "hour", "hours")
    ensures hours != 0 && minutes != 0 ==>
      r == Phrase(hours, "hour", "hours") + " and " + Phrase(minutes, "minute", "minutes")
  {
    NotLessThanAMinute(hours, minutes);
    if hours == 0 && minutes == 0 then LessThanAMinute
    else if hours == 0 then UnitFormat(minutes, "minutes")
    else if minutes == 0 then UnitFormat(hours, "hours")
    else if hours == 1 && minutes == 1 then
      OneHourOneMinute();
      "1 hour and 1 minute"
    else if hours == 1 then
      OneHourAnd(UnitFormat(minutes, "minutes"));
      "1 hour and " + UnitFormat(minutes, "minutes")
    else if minutes == 1 then
      AndOneMinute(UnitFormat(hours, "hours"));
      UnitFormat(hours, "hours") + " and 1 minute"
    else
      HoursAndMinutesSpelled(IntToString(hours), IntToString(minutes));
      IntToString(hours) + " hours and " + IntToString(minutes) + " minutes"
  }

  /** The four joined arms of `format_human_readable`, spelled as two phrases and " and ". */
  lemma OneHourOneMinute()
    ensures "1 hour and 1 minute" == Phrase(1, "hour", "hours") + " and " + Phrase(1, "minute", "minutes")
  {
    assert IntToString(1) == "1";
  }

  lemma OneHourAnd(m: string)
    ensures "1 hour and " + m == Phrase(1, "hour", "hours") + " and " + m
  {
    assert IntToString(1) == "1";
  }

  lemma AndOneMinute(h: string)
    ensures h + " and 1 minute" == h + " and " + Phrase(1, "minute", "minutes")
  {
    assert IntToString(1) == "1";
  }

  lemma HoursAndMinutesSpelled(h: string, m: string)
    ensures h + " hours and " + m + " minutes" == (h + " " + "hours") + " and " + (m + " " + "minutes")
  {
  }

  /** A phrase starts with its number, so it is never "Less than a minute", alone or followed by more. */
  lemma NotLessThanAMinute(hours: int, minutes: int)
    ensures Phrase(hours, "hour", "hours") != LessThanAMinute
    ensures Phrase(minutes, "minute", "minutes") != LessThanAMinute
    ensures forall tail :: Phrase(hours, "hour", "hours") + tail != LessThanAMinute
    ensures forall tail :: Phrase(minutes, "minute", "minutes") + tail != LessThanAMinute
  {
    assert Phrase(hours, "hour", "hours")[0] == IntToString(hours)[0];
    assert Phrase(minutes, "minute", "minutes")[0] == IntToString(minutes)[0];
    forall tail ensures Phrase(hours, "hour", "hours") + tail != LessThanAMinute {
      assert (Phrase(hours, "hour", "hours") + tail)[0] == IntToString(hours)[0];
    }
    forall tail ensures Phrase(minutes, "minute", "minutes") + tail != LessThanAMinute {
      assert (Phrase(minutes, "minute", "minutes") + tail)[0] == IntToString(minutes)[0];
    }
  }

  /**
   * `get_human_readable_form`: "Less than a minute" exactly for durations
   * shorter than a minute in either direction.
   */
  function HumanReadable(duration: int): (r: string)
    ensures r == LessThanAMinute <==> -SecondsInMinute < duration < SecondsInMinute
  {
    var hm := HoursAndMinutes(duration);
    assert hm.0 == 0 && hm.1 == 0 <==> WholeMinutes(duration) == 0;
    FormatHumanReadable(hm.0, hm.1)
  }

  /** The documented examples of `approximate_minutes`. */
  lemma ApproximateMinutesExamples()
    ensures ApproximateMinutes(16 * 60) == 30 && ApproximateMinutes(15 * 60) == 15
    ensures ApproximateMinutes(31 * 60) == 45 && ApproximateMinutes(14 * 60) == 15
  {
    assert WholeMinutes(16 * 60) == 16 && WholeMinutes(15 * 60) == 15;
    assert WholeMinutes(31 * 60) == 31 && WholeMinutes(14 * 60) == 14;
  }

  /** The documented examples of `get_human_readable_form` under one hour. */
  lemma HumanReadableMinuteExamples()
    ensures HumanReadable(15) == "Less than a minute" && HumanReadable(30) == "Less than a minute"
    ensures HumanReadable(60) == "1 minute"
  {
    assert "minutes"[..6] == "minute";
    assert UnitFormat(1, "minutes") == "1 minute";
    assert HoursAndMinutes(60) == (0, 1);
  }

  lemma HumanReadableTwoMinutes()
    ensures HumanReadable(120) == "2 minutes"
  {
    assert HoursAndMinutes(120) == (0, 2);
    assert IntToString(2) == "2";
    assert UnitFormat(2, "minutes") == "2 minutes";
  }

  /** The documented examples of `get_human_readable_form` for whole hours. */
  lemma HumanReadableHourExamples()
    ensures HumanReadable(3600) == "1 hour" && HumanReadable(7200) == "2 hours"
  {
    assert HoursAndMinutes(3600) == (1, 0);
    assert HoursAndMinutes(7200) == (2, 0);
    assert IntToString(2) == "2";
  }

  /** The documented example of `get_human_readable_form` for one hour and one minute. */
  lemma HumanReadableHourMinuteExample()
    ensures HumanReadable(3660) == "1 hour and 1 minute"
  {
    assert HoursAndMinutes(3660) == (1, 1);
  }

  lemma PhraseExamples()
    ensures Phrase(1, "hour", "hours") == "1 hour"
    ensures Phrase(2, "hour", "hours") == "2 hours"
    ensures Phrase(2, "minute", "minutes") == "2 minutes"
  {
    assert IntToString(1) == "1";
    assert IntToString(2) == "2";
  }

  /** The documented example of `get_human_readable_form` for one hour and some minutes. */
  lemma HumanReadableHourMinutesExample()
    ensures HumanReadable(3720) == "1 hour and 2 minutes"
  {
    assert HoursAndMinutes(3720) == (1, 2);
    PhraseExamples();
    assert "1 hour" + " and " + "2 minutes" == "1 hour and 2 minutes";
  }

  /** The documented example of `get_human_readable_form` for several hours and minutes. */
  lemma HumanReadableHoursMinutesExample()
    ensures HumanReadable(7320) == "2 hours and 2 minutes"
  {
    assert HoursAndMinutes(7320) == (2, 2);
    PhraseExamples();
    assert "2 hours" + " and " + "2 minutes" == "2 hours and 2 minutes";
  }
}
