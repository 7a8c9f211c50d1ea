/**
 * Resolution of the tool's time expressions against one reading of the
 * clock, and the `Interval` they produce.
 *
 * Moments are naive local timestamps: the local wall-clock date and time
 * read as if they were UTC, which is what chrono's
 * `NaiveDateTime::timestamp` gives for a parsed moment. The clock reading
 * also carries the real Unix time, which `Interval::new` uses for a missing
 * end.
 */
module Time {
  import opened Wrappers
  import opened Errors
  import opened Strings
  import opened Calendar
  import opened TimePatterns

  /** Whether an ambiguous moment is looked for in the past or in the future. */
  datatype Search = Backward | Forward

  const SecondsInDay: int := 86400

  /** One reading of the clock: the local date, the local second of the day and the Unix time. */
  datatype Clock = Clock(today: Date, secondOfDay: int, epoch: int)

  predicate ValidClock(c: Clock)
  {
    ValidDate(c.today) && 0 <= c.secondOfDay < SecondsInDay
  }

  /** `NaiveDateTime::new(date, time).timestamp()`. */
  function Timestamp(d: Date, secondOfDay: int): int
    requires 1 <= d.month <= 12
  {
    DayNumber(d) * SecondsInDay + secondOfDay
  }

  /** A timestamp is its second of the day plus whole days. */
  lemma TimestampInWholeDays(d: Date, secondOfDay: int)
    requires 1 <= d.month <= 12
    ensures (Timestamp(d, secondOfDay) - secondOfDay) % SecondsInDay == 0
  {
    var n := DayNumber(d);
    assert Timestamp(d, secondOfDay) - secondOfDay == n * SecondsInDay;
  }

  /** `now_date_time()` as a naive timestamp. */
  function NaiveNow(c: Clock): int
    requires ValidClock(c)
  {
    Timestamp(c.today, c.secondOfDay)
  }

  /** Midnight at the start of a date, `NaiveDateTime::new(date, 00:00:00)`. */
  function Midnight(d: Date): int
    requires 1 <= d.month <= 12
  {
    Timestamp(d, 0)
  }

  /**
   * `get_ambiguous_date`: the date to put in front of a time of day so that
   * the moment is the latest one not after now (Backward) or the earliest one
   * after now (Forward).
   */
  function AmbiguousDate(givenSecond: int, search: Search, c: Clock): (d: Date)
    requires ValidClock(c) && 0 <= givenSecond < SecondsInDay
    ensures ValidDate(d)
    ensures search == Backward ==>
      NaiveNow(c) - SecondsInDay < Timestamp(d, givenSecond) <= NaiveNow(c)
    ensures search == Forward ==>
      NaiveNow(c) < Timestamp(d, givenSecond) <= NaiveNow(c) + SecondsInDay
  {
    match (givenSecond > c.secondOfDay, search)
    case (true, Backward) => PrevDay(c.today)
    case (true, Forward) => c.today
    case (false, Backward) => c.today
    case (false, Forward) => NextDay(c.today)
  }

  /** Months counted from year 0: consecutive months have consecutive indices. */
  function MonthIndex(d: Date): int
  {
    d.year * 12 + d.month - 1
  }

  /** The year and the month (1-12) of a month index. */
  function MonthOf(k: int): (ym: (int, int))
    ensures 1 <= ym.1 <= 12 && ym.0 * 12 + ym.1 - 1 == k
  {
    (k / 12, k % 12 + 1)
  }

  lemma MonthOfIndex(y: int, m: int)
    requires 1 <= m <= 12
    ensures MonthOf(y * 12 + m - 1) == (y, m)
  {
    var ym := MonthOf(y * 12 + m - 1);
    assert (ym.0 - y) * 12 == m - ym.1;
  }

  /** The month with index `k` has a day numbered `day`. */
  predicate HasDay(k: int, day: int)
  {
    1 <= day <= DaysInMonth(MonthOf(k).0, MonthOf(k).1)
  }

  lemma HasDayOf(d: Date, day: int)
    requires 1 <= d.month <= 12
    ensures HasDay(MonthIndex(d), day) <==> ValidDate(Date(d.year, d.month, day))
  {
    MonthOfIndex(d.year, d.month);
  }

  /**
   * `last_month(day)`: the given day in the month before today's; `None`
   * exactly where chrono panics, because that month has no such day.
   */
  function LastMonth(day: int, c: Clock): (r: Option<Date>)
    requires ValidClock(c)
    ensures r.Some? ==> ValidDate(r.value) && r.value.day == day
    ensures r.Some? ==> MonthIndex(r.value) == MonthIndex(c.today) - 1
    ensures r.None? <==> !HasDay(MonthIndex(c.today) - 1, day)
  {
    if c.today.month == 1 then
      HasDayOf(Date(c.today.year - 1, 12, 1), day);
      FromYmd(c.today.year - 1, 12, day)
    else
      HasDayOf(Date(c.today.year, c.today.month - 1, 1), day);
      FromYmd(c.today.year, c.today.month - 1, day)
  }

  /** `this_month(day)`: the given day in today's month; `None` exactly where chrono panics. */
  function ThisMonth(day: int, c: Clock): (r: Option<Date>)
    requires ValidClock(c)
    ensures r.Some? ==> ValidDate(r.value) && r.value.day == day
    ensures r.Some? ==> MonthIndex(r.value) == MonthIndex(c.today)
    ensures r.None? <==> !ValidDate(Date(c.today.year, c.today.month, day))
    ensures r.None? <==> !HasDay(MonthIndex(c.today), day)
  {
    HasDayOf(c.today, day);
    FromYmd(c.today.year, c.today.month, day)
  }

  /**
   * `next_month(day)`: the given day in the month after today's; `None`
   * exactly where chrono panics, because that month has no such day.
   */
  function NextMonth(day: int, c: Clock): (r: Option<Date>)
    requires ValidClock(c)
    ensures r.Some? ==> ValidDate(r.value) && r.value.day == day
    ensures r.Some? ==> MonthIndex(r.value) == MonthIndex(c.today) + 1
    ensures r.None? <==> !HasDay(MonthIndex(c.today) + 1, day)
  {
    if c.today.month == 12 then
      HasDayOf(Date(c.today.year + 1, 1, 1), day);
      FromYmd(c.today.year + 1, 1, day)
    else
      HasDayOf(Date(c.today.year, c.today.month + 1, 1), day);
      FromYmd(c.today.year, c.today.month + 1, day)
  }

  /** A date in an earlier month is before any date in a later one. */
  lemma MonthIndexOrder(a: Date, b: Date)
    requires ValidDate(a) && ValidDate(b) && MonthIndex(a) < MonthIndex(b)
    ensures DateBefore(a, b)
  {
  }

  /**
   * The month `get_ambiguous_month` moves a day of today's month to: the
   * month before for a later day (Backward), the month after for an
   * earlier day (Forward), and today's month otherwise.
   */
  function AmbiguousMonthIndex(day: int, search: Search, c: Clock): int
  {
    match search
    case Backward => MonthIndex(c.today) - (if day > c.today.day then 1 else 0)
    case Forward => MonthIndex(c.today) + (if day < c.today.day then 1 else 0)
  }

  /**
   * `get_ambiguous_month`, for a date in today's month: the given day in the
   * latest month that puts it on or before today (Backward), or in the
   * earliest month that puts it on or after today (Forward). `None` exactly
   * where chrono panics because that month lacks the day.
   */
  function AmbiguousMonth(given: Date, search: Search, c: Clock): (r: Option<Date>)
    requires ValidClock(c) && ValidDate(given)
    requires given.year == c.today.year && given.month == c.today.month
    ensures r.Some? ==> ValidDate(r.value) && r.value.day == given.day
    ensures r.Some? ==> MonthIndex(r.value) == AmbiguousMonthIndex(given.day, search, c)
    ensures r.None? <==> !HasDay(AmbiguousMonthIndex(given.day, search, c), given.day)
    ensures r.Some? && search == Backward ==> !DateBefore(c.today, r.value)
    ensures r.Some? && search == Forward ==> !DateBefore(r.value, c.today)
    ensures r.None? ==> given.day > 28 && given.day != c.today.day
  {
    var later := DateBefore(c.today, given);
    var r := match (later, search)
      case (true, Backward) => LastMonth(given.day, c)
      case (true, Forward) => ThisMonth(given.day, c)
      case (false, Backward) => ThisMonth(given.day, c)
      case (false, Forward) =>
        if given == c.today then ThisMonth(given.day, c) else NextMonth(given.day, c);
    if r.Some? && later && search == Backward then MonthIndexOrder(r.value, c.today); r
    else if r.Some? && !later && search == Forward && given != c.today then MonthIndexOrder(c.today, r.value); r
    else r
  }

  /**
   * `get_ambiguous_year` as written: today's day in the given month, a year
   * back (Backward) or ahead (Forward) when that month is later in the year
   * than today's, and in the current year otherwise, whatever the direction.
   * `None` exactly where chrono panics because the month lacks today's day.
   */
  function AmbiguousYearAsWritten(givenMonth: int, search: Search, c: Clock): (r: Option<Date>)
    requires ValidClock(c) && 1 <= givenMonth <= 12
    ensures r == FromYmd(c.today.year + (if givenMonth <= c.today.month then 0 else if search == Backward then -1 else 1),
      givenMonth, c.today.day)
    ensures r.Some? && search == Backward ==> !DateBefore(c.today, r.value)
    ensures r.None? ==> c.today.day > 28
  {
    var y := c.today.year;
    match (givenMonth > c.today.month, search)
    case (true, Backward) => FromYmd(y - 1, givenMonth, c.today.day)
    case (true, Forward) => FromYmd(y + 1, givenMonth, c.today.day)
    case (false, Backward) => FromYmd(y, givenMonth, c.today.day)
    case (false, Forward) =>
      if givenMonth == c.today.month then FromYmd(y, givenMonth, c.today.day)
      else FromYmd(y, givenMonth, c.today.day)
  }

  /**
   * A forward search for an earlier month lands in the past: on 14 October
   * 2026, March resolves to 14 March 2026.
   */
  lemma AmbiguousYearAsWrittenGoesBack()
    ensures var c := Clock(Date(2026, 10, 14), 0, 0);
      AmbiguousYearAsWritten(3, Forward, c) == Some(Date(2026, 3, 14))
      && DateBefore(Date(2026, 3, 14), c.today)
  {
  }

  /**
   * A forward search for a later month skips a year: on 14 March 2026,
   * December resolves to 14 December 2027, though 14 December 2026 is
   * already after today.
   */
  lemma AmbiguousYearAsWrittenSkipsAhead()
    ensures var c := Clock(Date(2026, 3, 14), 0, 0);
      AmbiguousYearAsWritten(12, Forward, c) == Some(Date(2027, 12, 14))
      && DateBefore(c.today, Date(2026, 12, 14))
  {
  }

  /**
   * The year the corrected `get_ambiguous_year` puts a month in: the year
   * before for a later month (Backward), the year after for an earlier
   * month (Forward), and the current year otherwise.
   */
  function AmbiguousYearOf(givenMonth: int, search: Search, c: Clock): int
  {
    match search
    case Backward => c.today.year - (if givenMonth > c.today.month then 1 else 0)
    case Forward => c.today.year + (if givenMonth < c.today.month then 1 else 0)
  }

  /**
   * `get_ambiguous_year` with both forward arms corrected after the
   * pattern of `get_ambiguous_month`: today's day in the given month, in the
   * latest year that puts it on or before today (Backward), or in the
   * earliest year that puts it on or after today (Forward). `None` exactly
   * where chrono panics because that month lacks today's day.
   */
  function AmbiguousYear(givenMonth: int, search: Search, c: Clock): (r: Option<Date>)
    requires ValidClock(c) && 1 <= givenMonth <= 12
    ensures r == FromYmd(AmbiguousYearOf(givenMonth, search, c), givenMonth, c.today.day)
    ensures r.Some? && search == Backward ==>
      !DateBefore(c.today, r.value) && DateBefore(c.today, Date(r.value.year + 1, givenMonth, c.today.day))
    ensures r.Some? && search == Forward ==>
      !DateBefore(r.value, c.today) && DateBefore(Date(r.value.year - 1, givenMonth, c.today.day), c.today)
    ensures r.None? ==> c.today.day > 28
  {
    var y := c.today.year;
    match (givenMonth > c.today.month, search)
    case (true, Backward) => FromYmd(y - 1, givenMonth, c.today.day)
    case (true, Forward) => FromYmd(y, givenMonth, c.today.day)
    case (false, Backward) => FromYmd(y, givenMonth, c.today.day)
    case (false, Forward) =>
      if givenMonth == c.today.month then FromYmd(y, givenMonth, c.today.day)
      else FromYmd(y + 1, givenMonth, c.today.day)
  }

  /** The two versions differ only for a forward search of another month than today's. */
  lemma AmbiguousYearAgrees(givenMonth: int, search: Search, c: Clock)
    requires ValidClock(c) && 1 <= givenMonth <= 12
    requires search == Backward || givenMonth == c.today.month
    ensures AmbiguousYear(givenMonth, search, c) == AmbiguousYearAsWritten(givenMonth, search, c)
  {
  }

  // ---------------------------------------------------------------------
  // The rules of `parse_time_input`
  // ---------------------------------------------------------------------

  /**
   * `H` and `H:M`: the time of day on the date `get_ambiguous_date` picks,
   * which is the one moment at that time of day within the last day up to
   * now (Backward) or the next day after now (Forward).
   */
  function AtTimeOfDay(givenSecond: int, search: Search, c: Clock): (t: int)
    requires ValidClock(c) && 0 <= givenSecond < SecondsInDay
    ensures (t - givenSecond) % SecondsInDay == 0
    ensures search == Backward ==> NaiveNow(c) - SecondsInDay < t <= NaiveNow(c)
    ensures search == Forward ==> NaiveNow(c) < t <= NaiveNow(c) + SecondsInDay
  {
    var d := AmbiguousDate(givenSecond, search, c);
    TimestampInWholeDays(d, givenSecond);
    Timestamp(d, givenSecond)
  }

  /**
   * The date part of `D H:M` and `D-M H:M`: a resolved date other than today
   * is used as it is, and today is resolved once more by the time of day.
   */
  function OnResolvedDate(date: Date, givenSecond: int, search: Search, c: Clock): (t: int)
    requires ValidClock(c) && ValidDate(date) && 0 <= givenSecond < SecondsInDay
    requires search == Backward ==> !DateBefore(c.today, date)
    requires search == Forward ==> !DateBefore(date, c.today)
    ensures (t - givenSecond) % SecondsInDay == 0
    ensures search == Backward ==> t <= NaiveNow(c)
    ensures search == Forward ==> t > NaiveNow(c)
    ensures date != c.today ==> t == Timestamp(date, givenSecond)
    ensures date == c.today ==> t == AtTimeOfDay(givenSecond, search, c)
  {
    if date == c.today then AtTimeOfDay(givenSecond, search, c)
    else
      DateBeforeIsDayNumberOrder(date, c.today);
      DateBeforeIsDayNumberOrder(c.today, date);
      TimestampInWholeDays(date, givenSecond);
      Timestamp(date, givenSecond)
  }

  /**
   * `D H:M`: day D of today's month, moved by `get_ambiguous_month`, at
   * H:M; when D is today's day, the time of day alone decides, as for
   * `H:M`. Chrono panics when today's month, or the month picked, lacks
   * the day.
   */
  function DayHourMinutes(day: int, hour: int, minute: int, search: Search, c: Clock): (r: Result<int>)
    requires ValidClock(c) && 0 <= hour < 24 && 0 <= minute < 60
    ensures r.Ok? && search == Backward ==> r.value <= NaiveNow(c)
    ensures r.Ok? && search == Forward ==> r.value > NaiveNow(c)
    ensures r.Ok? && day != c.today.day ==>
      var ym := MonthOf(AmbiguousMonthIndex(day, search, c));
      r.value == Timestamp(Date(ym.0, ym.1, day), hour * 3600 + minute * 60)
    ensures r.Ok? && day == c.today.day ==> r.value == AtTimeOfDay(hour * 3600 + minute * 60, search, c)
    ensures r.Abort? <==> (!ValidDate(Date(c.today.year, c.today.month, day))
      || !HasDay(AmbiguousMonthIndex(day, search, c), day))
    ensures !r.Err?
  {
    match FromYmd(c.today.year, c.today.month, day)
    case None => Abort
    case Some(given) =>
      match AmbiguousMonth(given, search, c)
      case None => Abort
      case Some(date) =>
        MonthOfIndex(date.year, date.month);
        Ok(OnResolvedDate(date, hour * 3600 + minute * 60, search, c))
  }

  /**
   * `D-M H:M`: today's day in month M, in the year the corrected
   * `get_ambiguous_year` picks, at H:M; when M is today's month, the time of
   * day alone decides, as for `H:M`. Chrono panics when that month lacks
   * today's day.
   */
  function DayMonthHourMinutes(month: int, hour: int, minute: int, search: Search, c: Clock): (r: Result<int>)
    requires ValidClock(c) && 1 <= month <= 12 && 0 <= hour < 24 && 0 <= minute < 60
    ensures r.Ok? && search == Backward ==> r.value <= NaiveNow(c)
    ensures r.Ok? && search == Forward ==> r.value > NaiveNow(c)
    ensures r.Ok? && month != c.today.month ==>
      r.value == Timestamp(Date(AmbiguousYearOf(month, search, c), month, c.today.day), hour * 3600 + minute * 60)
    ensures r.Ok? && month == c.today.month ==> r.value == AtTimeOfDay(hour * 3600 + minute * 60, search, c)
    ensures r.Abort? <==> !ValidDate(Date(AmbiguousYearOf(month, search, c), month, c.today.day))
    ensures !r.Err?
  {
    match AmbiguousYear(month, search, c)
    case None => Abort
    case Some(date) => Ok(OnResolvedDate(date, hour * 3600 + minute * 60, search, c))
  }

  /** `now - d` (Backward) or `now + d` (Forward). */
  function FromNow(seconds: int, search: Search, c: Clock): (t: int)
    requires ValidClock(c)
    ensures search == Backward ==> t == NaiveNow(c) - seconds
    ensures search == Forward ==> t == NaiveNow(c) + seconds
  {
    match search
    case Backward => NaiveNow(c) - seconds
    case Forward => NaiveNow(c) + seconds
  }

  /**
   * `H:Mh` as written: the input is split on `:` and both pieces are read as
   * integers, but the minutes piece still ends in `h`, so reading it fails
   * and `unwrap` panics.
   */
  function HoursMinutesAgo(unit: string, search: Search, c: Clock): (r: Result<int>)
    requires ValidClock(c)
    ensures !r.Err?
  {
    var units := Split(unit, ":");
    if |units| < 2 then Abort
    else
      match (ParseI64(units[0]), ParseI64(units[1][..|units[1]|]))
      case (Some(hours), Some(minutes)) => Ok(FromNow((hours * 60 + minutes) * 60, search, c))
      case _ => Abort
  }

  /**
   * `parse_time_input`: the rules in their fixed order, then the two day
   * names, then the error for anything else.
   */
  function ParseTimeInput(unit: string, search: Search, c: Clock): (r: Result<int>)
    requires ValidClock(c)
    ensures r.Err? ==> r.error == User("Invalid time specifier: " + unit)
    ensures r.Ok? && unit != "today" && unit != "yesterday" ==>
      (search == Backward ==> r.value <= NaiveNow(c)) && (search == Forward ==> r.value > NaiveNow(c))
  {
    if MatchAtHour(unit).Some? then
      Ok(AtTimeOfDay(MatchAtHour(unit).value * 3600, search, c))
    else if MatchHourMinutes(unit).Some? then
      var hm := MatchHourMinutes(unit).value;
      Ok(AtTimeOfDay(hm.0 * 3600 + hm.1 * 60, search, c))
    else if MatchDayHourMinutes(unit).Some? then
      var dhm := MatchDayHourMinutes(unit).value;
      DayHourMinutes(dhm.0, dhm.1, dhm.2, search, c)
    else if MatchDayMonthHourMinutes(unit).Some? then
      var dmhm := MatchDayMonthHourMinutes(unit).value;
      DayMonthHourMinutes(dmhm.1, dmhm.2, dmhm.3, search, c)
    else if MatchHoursAgo(unit).Some? then
      Ok(FromNow(MatchHoursAgo(unit).value * 3600, search, c))
    else if MatchMinutesAgo(unit).Some? then
      Ok(FromNow(MatchMinutesAgo(unit).value * 60, search, c))
    else if MatchHoursMinutesAgo(unit) then
      HoursMinutesAgoAborts(unit, search, c);
      HoursMinutesAgo(unit, search, c)
    else if unit == "today" then
      Ok(Midnight(c.today))
    else if unit == "yesterday" then
      Ok(Midnight(PrevDay(c.today)))
    else
      Err(User("Invalid time specifier: " + unit))
  }

  // ---------------------------------------------------------------------
  // What `parse_time_input` promises
  // ---------------------------------------------------------------------

  /** An input that fits `H:M` ends in a digit. */
  lemma HourMinutesEndsInDigit(s: string)
    requires MatchHourMinutes(s).Some?
    ensures |s| > 0 && IsDigit(s[|s| - 1])
  {
    var i :| HourMinutesAt(s, i);
    assert s[|s| - 1] == s[i + 1..][|s| - i - 2];
  }

  /** The inputs of the four clock-time rules end in a digit. */
  lemma ClockRulesEndInDigit(s: string)
    requires MatchAtHour(s).Some? || MatchHourMinutes(s).Some?
      || MatchDayHourMinutes(s).Some? || MatchDayMonthHourMinutes(s).Some?
    ensures |s| > 0 && IsDigit(s[|s| - 1])
  {
    if MatchAtHour(s).Some? {
      assert NumberField(s, 0, 23);
    } else if MatchHourMinutes(s).Some? {
      HourMinutesEndsInDigit(s);
    } else if MatchDayHourMinutes(s).Some? {
      var i :| DayThenTimeAt(s, i);
      HourMinutesEndsInDigit(s[i + 1..]);
      assert s[|s| - 1] == s[i + 1..][|s| - i - 2];
    } else {
      var i :| DayDashAt(s, i);
      var t := s[i + 1..];
      var j :| MonthThenTimeAt(t, j);
      HourMinutesEndsInDigit(t[j + 1..]);
      assert s[|s| - 1] == t[j + 1..][|t| - j - 2];
    }
  }

  lemma NoColon(t: string)
    requires forall k :: 0 <= k < |t| ==> t[k] != ':'
    ensures !Contains(t, ":")
  {
    forall k | 0 <= k < |t| ensures !OccursAt(t, ":", k) {
      assert t[k..k + 1][0] == t[k];
    }
  }

  /** A string with a single colon splits into the text before it and the text after it. */
  lemma SplitAtOnlyColon(s: string, i: int)
    requires 0 <= i < |s| && s[i] == ':'
    requires forall j :: 0 <= j < |s| && j != i ==> s[j] != ':'
    ensures Split(s, ":") == [s[..i], s[i + 1..]]
  {
    var head, tail := s[..i], s[i + 1..];
    assert s == head + ":" + tail;
    NoColon(head);
    NoColon(tail);
    SplitCons(head, ":", tail);
    SplitNone(tail, ":");
  }

  /** The `H:Mh` rule can only panic: the minutes piece it reads still ends in `h`. */
  lemma HoursMinutesAgoAborts(unit: string, search: Search, c: Clock)
    requires ValidClock(c) && MatchHoursMinutesAgo(unit)
    ensures HoursMinutesAgo(unit, search, c) == Abort
  {
    var i := ColonOfHoursMinutesAgo(unit);
    SplitAtOnlyColon(unit, i);
    var minutes := Split(unit, ":")[1];
    assert minutes == unit[i + 1..];
    assert minutes[|minutes| - 1] == 'h';
    assert minutes[..|minutes|] == minutes;
    ParseI64NonDigitEnd(minutes);
  }

  /** In `H:Mh` the colon is the only one, and the input ends in `h`. */
  lemma ColonOfHoursMinutesAgo(unit: string) returns (i: int)
    requires MatchHoursMinutesAgo(unit)
    ensures 0 <= i < |unit| - 1 && unit[i] == ':' && unit[|unit| - 1] == 'h'
    ensures forall j :: 0 <= j < |unit| && j != i ==> unit[j] != ':'
  {
    i :| HourMinutesAgoAt(unit, i);
    var hm := unit[..|unit| - 1];
    assert unit[i] == hm[i];
    forall j | 0 <= j < |unit| && j != i ensures unit[j] != ':' {
      if j < i {
        assert unit[j] == hm[..i][j];
      } else if j < |unit| - 1 {
        assert unit[j] == hm[i + 1..][j - i - 1];
      }
    }
  }

  lemma {:induction false} ParseTimeInputRejects(unit: string, search: Search, c: Clock)
    requires ValidClock(c)
    ensures ParseTimeInput(unit, search, c).Err? <==>
      (MatchAtHour(unit).None? && MatchHourMinutes(unit).None? && MatchDayHourMinutes(unit).None?
       && MatchDayMonthHourMinutes(unit).None? && MatchHoursAgo(unit).None?
       && MatchMinutesAgo(unit).None? && !MatchHoursMinutesAgo(unit)
       && unit != "today" && unit != "yesterday")
  {
    if MatchHoursMinutesAgo(unit) {
      HoursMinutesAgoAborts(unit, search, c);
    }
  }

  /** Panics come only from the three rules that build dates or read `H:Mh`. */
  lemma {:induction false} ParseTimeInputAborts(unit: string, search: Search, c: Clock)
    requires ValidClock(c) && ParseTimeInput(unit, search, c).Abort?
    ensures MatchDayHourMinutes(unit).Some? || MatchDayMonthHourMinutes(unit).Some?
      || MatchHoursMinutesAgo(unit)
  {
  }

  /** Every character of an `H:M` input is a digit or its colon. */
  lemma HourMinutesChars(t: string, j: int)
    requires MatchHourMinutes(t).Some? && 0 <= j < |t|
    ensures IsDigit(t[j]) || t[j] == ':'
  {
    var i :| HourMinutesAt(t, i);
    if j < i {
      assert t[j] == t[..i][j];
    } else if j > i {
      assert t[j] == t[i + 1..][j - i - 1];
    }
  }

  /** An input holding a character other than a digit or a colon fits neither `H` nor `H:M`. */
  lemma OtherCharFitsNoClockTime(s: string, k: int)
    requires 0 <= k < |s| && !IsDigit(s[k]) && s[k] != ':'
    ensures MatchAtHour(s).None? && MatchHourMinutes(s).None?
  {
    if MatchHourMinutes(s).Some? {
      HourMinutesChars(s, k);
    }
  }

  /** An input holding a dash does not fit `D H:M`. */
  lemma DashFitsNoDayTime(s: string, i: int)
    requires 0 <= i < |s| && s[i] == '-'
    ensures MatchDayHourMinutes(s).None?
  {
    forall k | 0 <= k < |s| ensures !DayThenTimeAt(s, k) {
      DashNotBeforeTime(s, i, k);
    }
  }

  lemma DashNotBeforeTime(s: string, i: int, k: int)
    requires 0 <= i < |s| && s[i] == '-' && 0 <= k < |s|
    ensures !(AllDigits(s[..k]) && IsWhitespace(s[k]) && MatchHourMinutes(s[k + 1..]).Some?)
  {
    if i < k {
      assert s[..k][i] == s[i];
    } else if i > k && MatchHourMinutes(s[k + 1..]).Some? {
      HourMinutesChars(s[k + 1..], i - k - 1);
    }
  }

  /** `H` resolves to that hour of the day, on the date its direction picks. */
  lemma {:induction false} ParseAtHour(unit: string, search: Search, c: Clock)
    requires ValidClock(c) && MatchAtHour(unit).Some?
    ensures 0 <= MatchAtHour(unit).value <= 23
    ensures ParseTimeInput(unit, search, c) == Ok(AtTimeOfDay(MatchAtHour(unit).value * 3600, search, c))
  {
  }

  /** `H:M` resolves to that time of day, on the date its direction picks. */
  lemma {:induction false} ParseHourMinutes(unit: string, search: Search, c: Clock)
    requires ValidClock(c) && MatchHourMinutes(unit).Some?
    ensures var hm := MatchHourMinutes(unit).value;
      0 <= hm.0 <= 23 && 0 <= hm.1 <= 59
      && ParseTimeInput(unit, search, c) == Ok(AtTimeOfDay(hm.0 * 3600 + hm.1 * 60, search, c))
  {
    var i :| HourMinutesAt(unit, i);
    assert !IsDigit(unit[i]);
  }

  /** An input that fits `D H:M` fits neither `H` nor `H:M`, and its fields are in range. */
  lemma DayHourMinutesFitsAlone(s: string)
    requires MatchDayHourMinutes(s).Some?
    ensures MatchAtHour(s).None? && MatchHourMinutes(s).None?
    ensures var dhm := MatchDayHourMinutes(s).value;
      1 <= dhm.0 <= 31 && 0 <= dhm.1 <= 23 && 0 <= dhm.2 <= 59
  {
    var k :| DayThenTimeAt(s, k);
    DayHourMinutesRanges(s, k);
    WhitespaceIsNoClockChar(s[k]);
    OtherCharFitsNoClockTime(s, k);
  }

  lemma WhitespaceIsNoClockChar(ch: char)
    requires IsWhitespace(ch)
    ensures !IsDigit(ch) && ch != ':'
  {
  }

  lemma DayHourMinutesRanges(s: string, k: int)
    requires DayThenTimeAt(s, k)
    ensures var dhm := MatchDayHourMinutes(s).value;
      1 <= dhm.0 <= 31 && 0 <= dhm.1 <= 23 && 0 <= dhm.2 <= 59
  {
    var t := s[k + 1..];
    var j :| HourMinutesAt(t, j);
    assert MatchHourMinutes(t).value == (DigitsValue(t[..j]), DigitsValue(t[j + 1..]));
  }

  /** `D H:M` is resolved by day D and time H:M, the earlier rules not matching. */
  lemma {:induction false} ParseDayHourMinutes(unit: string, search: Search, c: Clock)
    requires ValidClock(c) && MatchDayHourMinutes(unit).Some?
    ensures var dhm := MatchDayHourMinutes(unit).value;
      1 <= dhm.0 <= 31 && 0 <= dhm.1 <= 23 && 0 <= dhm.2 <= 59
      && ParseTimeInput(unit, search, c) == DayHourMinutes(dhm.0, dhm.1, dhm.2, search, c)
  {
    DayHourMinutesFitsAlone(unit);
  }

  /** `D-M H:M` is resolved by month M and time H:M, the earlier rules not matching. */
  lemma {:induction false} ParseDayMonthHourMinutes(unit: string, search: Search, c: Clock)
    requires ValidClock(c) && MatchDayMonthHourMinutes(unit).Some?
    ensures var dmhm := MatchDayMonthHourMinutes(unit).value;
      1 <= dmhm.1 <= 12 && 0 <= dmhm.2 <= 23 && 0 <= dmhm.3 <= 59
      && ParseTimeInput(unit, search, c) == DayMonthHourMinutes(dmhm.1, dmhm.2, dmhm.3, search, c)
  {
    var i :| DayDashAt(unit, i);
    MatchDayMonthHourMinutesValues(unit, i);
    OtherCharFitsNoClockTime(unit, i);
    DashFitsNoDayTime(unit, i);
  }

  /** `Nh` resolves to N hours before or after now. */
  lemma {:induction false} ParseHoursAgo(unit: string, search: Search, c: Clock)
    requires ValidClock(c) && MatchHoursAgo(unit).Some?
    ensures 1 <= MatchHoursAgo(unit).value <= 23
    ensures ParseTimeInput(unit, search, c) == Ok(FromNow(MatchHoursAgo(unit).value * 3600, search, c))
  {
    if MatchAtHour(unit).Some? || MatchHourMinutes(unit).Some?
      || MatchDayHourMinutes(unit).Some? || MatchDayMonthHourMinutes(unit).Some? {
      ClockRulesEndInDigit(unit);
    }
  }

  /** `Nm` resolves to N minutes before or after now. */
  lemma {:induction false} ParseMinutesAgo(unit: string, search: Search, c: Clock)
    requires ValidClock(c) && MatchMinutesAgo(unit).Some?
    ensures 1 <= MatchMinutesAgo(unit).value <= 59
    ensures ParseTimeInput(unit, search, c) == Ok(FromNow(MatchMinutesAgo(unit).value * 60, search, c))
  {
    if MatchAtHour(unit).Some? || MatchHourMinutes(unit).Some?
      || MatchDayHourMinutes(unit).Some? || MatchDayMonthHourMinutes(unit).Some? {
      ClockRulesEndInDigit(unit);
    }
  }

  /** `H:Mh` always panics. */
  lemma {:induction false} ParseHoursMinutesAgo(unit: string, search: Search, c: Clock)
    requires ValidClock(c) && MatchHoursMinutesAgo(unit)
    ensures ParseTimeInput(unit, search, c) == Abort
  {
    HoursMinutesAgoMatchesNothingEarlier(unit);
    HoursMinutesAgoAborts(unit, search, c);
  }

  /** No rule tried before `H:Mh` accepts an input of that form. */
  lemma HoursMinutesAgoMatchesNothingEarlier(unit: string)
    requires MatchHoursMinutesAgo(unit)
    ensures MatchAtHour(unit).None? && MatchHourMinutes(unit).None?
    ensures MatchDayHourMinutes(unit).None? && MatchDayMonthHourMinutes(unit).None?
    ensures MatchHoursAgo(unit).None? && MatchMinutesAgo(unit).None?
  {
    if MatchAtHour(unit).Some? || MatchHourMinutes(unit).Some?
      || MatchDayHourMinutes(unit).Some? || MatchDayMonthHourMinutes(unit).Some? {
      ClockRulesEndInDigit(unit);
    }
    var i :| HourMinutesAgoAt(unit, i);
    assert !AllDigits(unit[..|unit| - 1]) by {
      assert unit[..|unit| - 1][i] == ':';
    }
  }

  /** An input ending in a letter other than `h` or `m` fits none of the rules. */
  lemma WordFitsNoRule(s: string)
    requires |s| > 0 && !IsDigit(s[|s| - 1]) && s[|s| - 1] != 'h' && s[|s| - 1] != 'm'
    ensures MatchAtHour(s).None? && MatchHourMinutes(s).None?
    ensures MatchDayHourMinutes(s).None? && MatchDayMonthHourMinutes(s).None?
    ensures MatchHoursAgo(s).None? && MatchMinutesAgo(s).None? && !MatchHoursMinutesAgo(s)
  {
    if MatchAtHour(s).Some? || MatchHourMinutes(s).Some?
      || MatchDayHourMinutes(s).Some? || MatchDayMonthHourMinutes(s).Some? {
      ClockRulesEndInDigit(s);
    }
  }

  /** `today` is midnight of today, whatever the direction. */
  lemma ParseToday(search: Search, c: Clock)
    requires ValidClock(c)
    ensures ParseTimeInput("today", search, c) == Ok(Midnight(c.today))
  {
    WordFitsNoRule("today");
  }

  /** `yesterday` is midnight of the day before today, whatever the direction. */
  lemma ParseYesterday(search: Search, c: Clock)
    requires ValidClock(c)
    ensures ParseTimeInput("yesterday", search, c) == Ok(Midnight(PrevDay(c.today)))
  {
    WordFitsNoRule("yesterday");
  }

  // ---------------------------------------------------------------------
  // Intervals
  // ---------------------------------------------------------------------

  datatype Interval = Interval(start: int, end: int)

  /**
   * `Interval::new`: a missing end is the current Unix time, and bounds
   * given in the wrong order are swapped rather than refused.
   */
  function NewInterval(start: int, end: Option<int>, c: Clock): (iv: Interval)
    ensures iv.start <= iv.end
    ensures multiset{iv.start, iv.end} == multiset{start, end.GetOr(c.epoch)}
  {
    var e := end.GetOr(c.epoch);
    if start > e then Interval(e, start) else Interval(start, e)
  }

  const RangeSeparator: string := " - "

  /**
   * The two moments of a range: the input cut at its first ` - `, and
   * `None` unless it holds exactly one.
   */
  function RangePieces(input: string): (pieces: Option<(string, string)>)
    ensures pieces.Some? ==> pieces.value.0 + RangeSeparator + pieces.value.1 == input
    ensures pieces.Some? ==> !Contains(pieces.value.0, RangeSeparator) && !Contains(pieces.value.1, RangeSeparator)
    ensures pieces.Some? ==> Find(input, RangeSeparator) == Some(|pieces.value.0|)
    ensures pieces.Some? <==> |Split(input, RangeSeparator)| == 2
  {
    var units := Split(input, RangeSeparator);
    if |units| == 2 then
      assert units[1..] == [units[1]];
      Some((units[0], units[1]))
    else
      None
  }

  /**
   * `Interval::try_parse`: a moment that the whole input gives, up to now;
   * otherwise a range `A - B` of two moments, in either order. A piece that
   * fails gives its own error; an input that is not two pieces gives the
   * error of the whole.
   */
  function TryParse(input: string, search: Search, c: Clock): (r: Result<Interval>)
    requires ValidClock(c)
    ensures r.Ok? ==> r.value.start <= r.value.end
    ensures ParseTimeInput(input, search, c).Ok? ==>
      r.Ok? && multiset{r.value.start, r.value.end} == multiset{ParseTimeInput(input, search, c).value, c.epoch}
    ensures ParseTimeInput(input, search, c).Abort? ==> r.Abort?
    ensures ParseTimeInput(input, search, c).Err? && RangePieces(input).None? ==>
      r == Err(ParseTimeInput(input, search, c).error)
    ensures ParseTimeInput(input, search, c).Err? && RangePieces(input).Some? ==>
      var first := ParseTimeInput(RangePieces(input).value.0, search, c);
      var second := ParseTimeInput(RangePieces(input).value.1, search, c);
      (r.Ok? <==> first.Ok? && second.Ok?)
      && (r.Ok? ==> multiset{r.value.start, r.value.end} == multiset{first.value, second.value})
      && (first.Err? ==> r == Err(first.error))
      && (first.Ok? && second.Err? ==> r == Err(second.error))
      && (r.Abort? <==> first.Abort? || (first.Ok? && second.Abort?))
  {
    match ParseTimeInput(input, search, c)
    case Ok(t) => Ok(NewInterval(t, None, c))
    case Abort => Abort
    case Err(e) =>
      match RangePieces(input)
      case None => Err(e)
      case Some((a, b)) =>
        match ParseTimeInput(a, search, c)
        case Abort => Abort
        case Err(ea) => Err(ea)
        case Ok(ta) =>
          match ParseTimeInput(b, search, c)
          case Abort => Abort
          case Err(eb) => Err(eb)
          case Ok(tb) => Ok(NewInterval(ta, Some(tb), c))
  }
}
