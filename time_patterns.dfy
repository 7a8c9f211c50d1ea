/**
 * The anchored regular expressions that `parse_time_input` tries, written as
 * whole-string recognisers over characters. Each recogniser returns the
 * numbers it read; its contract states the language it accepts in terms of
 * `NumberField`, one or two ASCII digits whose value lies in a range.
 *
 * `\d` is read as an ASCII digit and `\s` as a Unicode White_Space character.
 */
module TimePatterns {
  import opened Wrappers
  import opened Strings

  /** One or two ASCII digits (a single leading zero allowed) with a value in `[lo, hi]`. */
  predicate NumberField(s: string, lo: int, hi: int)
  {
    1 <= |s| <= 2 && AllDigits(s) && lo <= DigitsValue(s) <= hi
  }

  lemma ShortDigits(s: string)
    ensures |s| == 1 && AllDigits(s) ==> DigitsValue(s) == DigitValue(s[0])
    ensures |s| == 2 && AllDigits(s) ==> DigitsValue(s) == DigitValue(s[0]) * 10 + DigitValue(s[1])
  {
    if |s| == 2 && AllDigits(s) {
      assert DigitsValue(s[..1]) == DigitValue(s[0]);
    }
  }

  // ---------------------------------------------------------------------
  // Field alternatives, as written in the expressions
  // ---------------------------------------------------------------------

  /** `(0?\d|1\d|2[0-3])`: an hour of the day. */
  function HourField(s: string): (b: bool)
    ensures b <==> NumberField(s, 0, 23)
  {
    ShortDigits(s);
    (|s| == 1 && IsDigit(s[0]))
    || (|s| == 2 && (s[0] == '0' || s[0] == '1') && IsDigit(s[1]))
    || (|s| == 2 && s[0] == '2' && '0' <= s[1] <= '3')
  }

  /** `(0?\d|[1-5]\d)`: a minute of the hour. */
  function MinuteField(s: string): (b: bool)
    ensures b <==> NumberField(s, 0, 59)
  {
    ShortDigits(s);
    (|s| == 1 && IsDigit(s[0]))
    || (|s| == 2 && '0' <= s[0] <= '5' && IsDigit(s[1]))
  }

  /** `(0?[1-9]|[1-2]\d|3[01])`: a day of the month. */
  function DayField(s: string): (b: bool)
    ensures b <==> NumberField(s, 1, 31)
  {
    ShortDigits(s);
    (|s| == 1 && '1' <= s[0] <= '9')
    || (|s| == 2 && s[0] == '0' && '1' <= s[1] <= '9')
    || (|s| == 2 && '1' <= s[0] <= '2' && IsDigit(s[1]))
    || (|s| == 2 && s[0] == '3' && '0' <= s[1] <= '1')
  }

  /** `(0?[1-9]|1[0-2])`: a month of the year. */
  function MonthField(s: string): (b: bool)
    ensures b <==> NumberField(s, 1, 12)
  {
    ShortDigits(s);
    (|s| == 1 && '1' <= s[0] <= '9')
    || (|s| == 2 && s[0] == '0' && '1' <= s[1] <= '9')
    || (|s| == 2 && s[0] == '1' && '0' <= s[1] <= '2')
  }

  /** `(0?[1-9]|1\d|2[0-3])`: a positive number of hours. */
  function HourCountField(s: string): (b: bool)
    ensures b <==> NumberField(s, 1, 23)
  {
    ShortDigits(s);
    (|s| == 1 && '1' <= s[0] <= '9')
    || (|s| == 2 && s[0] == '0' && '1' <= s[1] <= '9')
    || (|s| == 2 && s[0] == '1' && IsDigit(s[1]))
    || (|s| == 2 && s[0] == '2' && '0' <= s[1] <= '3')
  }

  /** `(0?[1-9]|[1-5]\d)`: a positive number of minutes. */
  function MinuteCountField(s: string): (b: bool)
    ensures b <==> NumberField(s, 1, 59)
  {
    ShortDigits(s);
    (|s| == 1 && '1' <= s[0] <= '9')
    || (|s| == 2 && s[0] == '0' && '1' <= s[1] <= '9')
    || (|s| == 2 && '1' <= s[0] <= '5' && IsDigit(s[1]))
  }

  /** The first position of `s` whose character satisfies `f`. */
  function FirstIndex(s: string, f: char -> bool): (r: Option<nat>)
    ensures r.Some? ==> r.value < |s| && f(s[r.value]) && forall j :: 0 <= j < r.value ==> !f(s[j])
    ensures r.None? ==> forall j :: 0 <= j < |s| ==> !f(s[j])
    decreases |s|
  {
    if |s| == 0 then None
    else if f(s[0]) then Some(0)
    else match FirstIndex(s[1..], f)
      case None => None
      case Some(i) => Some(i + 1)
  }

  /** A digit-only prefix ending at a separator the digits cannot be: the separator is the first. */
  lemma FirstIndexAfterDigits(s: string, f: char -> bool, i: nat)
    requires i < |s| && f(s[i]) && AllDigits(s[..i])
    requires forall c :: IsDigit(c) ==> !f(c)
    ensures FirstIndex(s, f) == Some(i)
  {
    assert forall j :: 0 <= j < i ==> s[j] == s[..i][j];
  }

  /** `FirstIndexAfterDigits` for each separator the expressions use. */
  lemma ColonAfterDigits(s: string, i: nat)
    requires i < |s| && s[i] == ':' && AllDigits(s[..i])
    ensures FirstIndex(s, IsColon) == Some(i)
  {
    FirstIndexAfterDigits(s, IsColon, i);
  }

  lemma DashAfterDigits(s: string, i: nat)
    requires i < |s| && s[i] == '-' && AllDigits(s[..i])
    ensures FirstIndex(s, IsDash) == Some(i)
  {
    FirstIndexAfterDigits(s, IsDash, i);
  }

  lemma WhitespaceAfterDigits(s: string, i: nat)
    requires i < |s| && IsWhitespace(s[i]) && AllDigits(s[..i])
    ensures FirstIndex(s, IsWhitespace) == Some(i)
  {
    FirstIndexAfterDigits(s, IsWhitespace, i);
  }

  predicate IsColon(c: char)
  {
    c == ':'
  }

  predicate IsDash(c: char)
  {
    c == '-'
  }

  // ---------------------------------------------------------------------
  // Whole-string recognisers
  // ---------------------------------------------------------------------

  /** `AT_HOUR`, `^(0?\d|1\d|2[0-3])$`: the hour read. */
  function MatchAtHour(s: string): (r: Option<int>)
    ensures r.Some? <==> NumberField(s, 0, 23)
    ensures r.Some? ==> r.value == DigitsValue(s)
  {
    if HourField(s) then Some(DigitsValue(s)) else None
  }

  /** `s` is an hour, a colon at position `i`, and a minute. */
  ghost predicate HourMinutesAt(s: string, i: int)
  {
    0 <= i < |s| && s[i] == ':' && NumberField(s[..i], 0, 23) && NumberField(s[i + 1..], 0, 59)
  }

  /** `AT_HOUR_MINUTES`, `^H:M$`: the hour and the minute read. */
  function MatchHourMinutes(s: string): (r: Option<(int, int)>)
    ensures r.Some? <==> exists i :: HourMinutesAt(s, i)
    ensures forall i :: HourMinutesAt(s, i) ==> r == Some((DigitsValue(s[..i]), DigitsValue(s[i + 1..])))
  {
    match FirstIndex(s, IsColon)
    case None => None
    case Some(i) =>
      if HourField(s[..i]) && MinuteField(s[i + 1..]) then
        assert HourMinutesAt(s, i);
        Some((DigitsValue(s[..i]), DigitsValue(s[i + 1..])))
      else
        None
  }

  /** `s` is a day, one whitespace character at position `i`, and `H:M`. */
  ghost predicate DayThenTimeAt(s: string, i: int)
  {
    0 <= i < |s| && IsWhitespace(s[i]) && NumberField(s[..i], 1, 31)
    && MatchHourMinutes(s[i + 1..]).Some?
  }

  /** `AT_DAY_HOUR_MINUTES`, `^D\sH:M$`: the day, hour and minute read. */
  function MatchDayHourMinutes(s: string): (r: Option<(int, int, int)>)
    ensures r.Some? <==> exists i :: DayThenTimeAt(s, i)
    ensures forall i :: DayThenTimeAt(s, i) ==>
      var hm := MatchHourMinutes(s[i + 1..]).value;
      r == Some((DigitsValue(s[..i]), hm.0, hm.1))
  {
    var r :=
      match FirstIndex(s, IsWhitespace)
      case None => None
      case Some(i) =>
        if DayField(s[..i]) && MatchHourMinutes(s[i + 1..]).Some? then
          assert DayThenTimeAt(s, i);
          var hm := MatchHourMinutes(s[i + 1..]).value;
          Some((DigitsValue(s[..i]), hm.0, hm.1))
        else
          None;
    forall k | DayThenTimeAt(s, k)
      ensures r == Some((DigitsValue(s[..k]), MatchHourMinutes(s[k + 1..]).value.0, MatchHourMinutes(s[k + 1..]).value.1))
    {
      DayThenTimeAtFirst(s, k);
    }
    r
  }

  /** The whitespace of `D\sH:M` is the first one, after a day. */
  lemma DayThenTimeAtFirst(s: string, k: int)
    requires DayThenTimeAt(s, k)
    ensures FirstIndex(s, IsWhitespace) == Some(k) && DayField(s[..k])
  {
    FirstIndexAfterDigits(s, IsWhitespace, k);
  }

  /** `s` is a month, one whitespace character at position `i`, and `H:M`. */
  ghost predicate MonthThenTimeAt(s: string, i: int)
  {
    0 <= i < |s| && IsWhitespace(s[i]) && NumberField(s[..i], 1, 12)
    && MatchHourMinutes(s[i + 1..]).Some?
  }

  /** The whitespace of `M\sH:M` is the first one, after a month. */
  lemma MonthThenTimeAtFirst(s: string, k: int)
    requires MonthThenTimeAt(s, k)
    ensures FirstIndex(s, IsWhitespace) == Some(k) && MonthField(s[..k])
  {
    FirstIndexAfterDigits(s, IsWhitespace, k);
  }

  /** The tail `M\sH:M` of `AT_DAY_MONTH_HOUR_MINUTES`: the month, hour and minute read. */
  function MatchMonthHourMinutes(s: string): (r: Option<(int, int, int)>)
    ensures r.Some? <==> exists i :: MonthThenTimeAt(s, i)
    ensures forall i :: MonthThenTimeAt(s, i) ==>
      var hm := MatchHourMinutes(s[i + 1..]).value;
      r == Some((DigitsValue(s[..i]), hm.0, hm.1))
  {
    var r :=
      match FirstIndex(s, IsWhitespace)
      case None => None
      case Some(i) =>
        if MonthField(s[..i]) && MatchHourMinutes(s[i + 1..]).Some? then
          assert MonthThenTimeAt(s, i);
          var hm := MatchHourMinutes(s[i + 1..]).value;
          Some((DigitsValue(s[..i]), hm.0, hm.1))
        else
          None;
    forall k | MonthThenTimeAt(s, k)
      ensures r == Some((DigitsValue(s[..k]), MatchHourMinutes(s[k + 1..]).value.0, MatchHourMinutes(s[k + 1..]).value.1))
    {
      MonthThenTimeAtFirst(s, k);
    }
    r
  }

  /** `s` is a day, a dash at position `i`, and `M\sH:M`. */
  ghost predicate DayDashAt(s: string, i: int)
  {
    0 <= i < |s| && s[i] == '-' && NumberField(s[..i], 1, 31)
    && MatchMonthHourMinutes(s[i + 1..]).Some?
  }

  /** `AT_DAY_MONTH_HOUR_MINUTES`, `^D-M\sH:M$`: the day, month, hour and minute read. */
  function MatchDayMonthHourMinutes(s: string): (r: Option<(int, int, int, int)>)
    ensures r.Some? <==> exists i :: DayDashAt(s, i)
  {
    assert forall k :: DayDashAt(s, k) ==> FirstIndex(s, IsDash) == Some(k) by {
      forall k | DayDashAt(s, k) ensures FirstIndex(s, IsDash) == Some(k) {
        FirstIndexAfterDigits(s, IsDash, k);
      }
    }
    match FirstIndex(s, IsDash)
    case None => None
    case Some(i) =>
      if DayField(s[..i]) && MatchMonthHourMinutes(s[i + 1..]).Some? then
        assert DayDashAt(s, i);
        var mhm := MatchMonthHourMinutes(s[i + 1..]).value;
        Some((DigitsValue(s[..i]), mhm.0, mhm.1, mhm.2))
      else
        None
  }

  /** The numbers `MatchDayMonthHourMinutes` reads are the fields around the dash. */
  lemma MatchDayMonthHourMinutesValues(s: string, i: int)
    requires DayDashAt(s, i)
    ensures
      var mhm := MatchMonthHourMinutes(s[i + 1..]).value;
      MatchDayMonthHourMinutes(s) == Some((DigitsValue(s[..i]), mhm.0, mhm.1, mhm.2))
  {
    FirstIndexAfterDigits(s, IsDash, i);
    assert DayField(s[..i]);
  }

  /** `HOURS_AGO_OR_UNTIL`, `^Nh$` with N in 1-23: the count read. */
  function MatchHoursAgo(s: string): (r: Option<int>)
    ensures r.Some? <==> |s| >= 1 && s[|s| - 1] == 'h' && NumberField(s[..|s| - 1], 1, 23)
    ensures r.Some? ==> r.value == DigitsValue(s[..|s| - 1])
  {
    if |s| >= 1 && s[|s| - 1] == 'h' && HourCountField(s[..|s| - 1]) then
      Some(DigitsValue(s[..|s| - 1]))
    else
      None
  }

  /** `MINUTES_AGO_OR_UNTIL`, `^Nm$` with N in 1-59: the count read. */
  function MatchMinutesAgo(s: string): (r: Option<int>)
    ensures r.Some? <==> |s| >= 1 && s[|s| - 1] == 'm' && NumberField(s[..|s| - 1], 1, 59)
    ensures r.Some? ==> r.value == DigitsValue(s[..|s| - 1])
  {
    if |s| >= 1 && s[|s| - 1] == 'm' && MinuteCountField(s[..|s| - 1]) then
      Some(DigitsValue(s[..|s| - 1]))
    else
      None
  }

  /** `s` is `H:M`, with its colon at position `i`, followed by `h`. */
  ghost predicate HourMinutesAgoAt(s: string, i: int)
  {
    |s| >= 1 && s[|s| - 1] == 'h' && HourMinutesAt(s[..|s| - 1], i)
  }

  /** `HOURS_AND_MINUTES_AGO_OR_UNTIL`, `^H:Mh$`: whether `s` is `H:M` followed by `h`. */
  function MatchHoursMinutesAgo(s: string): (b: bool)
    ensures b <==> exists i :: HourMinutesAgoAt(s, i)
  {
    if |s| >= 1 && s[|s| - 1] == 'h' then
      var t := s[..|s| - 1];
      assert forall i :: HourMinutesAgoAt(s, i) <==> HourMinutesAt(t, i);
      MatchHourMinutes(t).Some?
    else
      false
  }
}
