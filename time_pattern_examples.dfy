/**
 * The strings the regular-expression unit tests of the time parser accept
 * and reject, checked against the recognisers.
 */
module TimePatternExamples {
  import opened Wrappers
  import opened Strings
  import opened TimePatterns

  lemma AtHourExamples()
    ensures MatchAtHour("9") == Some(9) && MatchAtHour("12") == Some(12)
    ensures MatchAtHour("04") == Some(4) && MatchAtHour("23") == Some(23)
    ensures MatchAtHour("24").None? && MatchAtHour("30").None? && MatchAtHour("100").None?
  {
  }

  lemma HourMinutesExamples()
    ensures MatchHourMinutes("9:15") == Some((9, 15))
    ensures MatchHourMinutes("09:01") == Some((9, 1))
    ensures MatchHourMinutes("9:1") == Some((9, 1))
  {
    assert HourMinutesAt("9:15", 1);
    assert HourMinutesAt("09:01", 2);
    assert HourMinutesAt("9:1", 1);
  }

  lemma MoreHourMinutesExamples()
    ensures MatchHourMinutes("21:21") == Some((21, 21))
    ensures MatchHourMinutes("3:21") == Some((3, 21))
    ensures MatchHourMinutes("19:59") == Some((19, 59))
  {
    assert HourMinutesAt("21:21", 2);
    assert HourMinutesAt("3:21", 1);
    assert HourMinutesAt("19:59", 2);
  }

  lemma HourMinutesRejections()
    ensures MatchHourMinutes("24:00").None?
    ensures MatchHourMinutes("19:60").None?
    ensures MatchHourMinutes("30:15").None?
  {
    ColonAfterDigits("24:00", 2);
    ColonAfterDigits("19:60", 2);
    ColonAfterDigits("30:15", 2);
  }

  lemma TailNineteenTwentyNine()
    ensures MatchHourMinutes("19:29") == Some((19, 29))
  {
    assert HourMinutesAt("19:29", 2);
  }

  /** A tab separates the day from the time. */
  lemma DayHourMinutesWithTab()
    ensures MatchDayHourMinutes("19\t19:29") == Some((19, 19, 29))
  {
    var s := "19\t19:29";
    TailNineteenTwentyNine();
    assert s[..2] == "19" && s[3..] == "19:29";
    assert DayField(s[..2]) && DigitsValue(s[..2]) == 19;
    assert DayThenTimeAt(s, 2);
  }

  /** Three-digit days, days above 31 and day 0 are refused, and so is a missing separator. */
  lemma DayHourMinutesRejections()
    ensures MatchDayHourMinutes("013 23:59").None?
    ensures MatchDayHourMinutes("32 15:15").None?
    ensures MatchDayHourMinutes("0 13:15").None?
  {
    DayRejected("013 23:59", 3);
    DayRejected("32 15:15", 2);
    DayRejected("0 13:15", 1);
  }

  /** Day 51 is refused. */
  lemma DayFiftyOneRejected()
    ensures MatchDayHourMinutes("51 23:59").None?
  {
    DayRejected("51 23:59", 2);
  }

  lemma SignedDayExampleRejected()
    ensures MatchDayHourMinutes("-19\t19:29").None?
  {
    SignedDayRejected("-19\t19:29");
  }

  lemma MissingSeparatorRejected()
    ensures MatchDayHourMinutes("3120:20").None?
  {
    NoSeparatorRejected("3120:20");
  }

  /** A day field cannot start with a minus sign. */
  lemma SignedDayRejected(s: string)
    requires |s| > 0 && s[0] == '-'
    ensures MatchDayHourMinutes(s).None?
  {
    forall i | 0 <= i < |s| ensures !DayThenTimeAt(s, i) {
      if 1 <= i {
        assert s[..i][0] == '-';
      }
    }
  }

  /** Without any whitespace there is nothing to separate the day from the time. */
  lemma NoSeparatorRejected(s: string)
    requires forall i :: 0 <= i < |s| ==> IsDigit(s[i]) || s[i] == ':'
    ensures MatchDayHourMinutes(s).None?
  {
    forall i | 0 <= i < |s| ensures !DayThenTimeAt(s, i) {
      assert IsDigit(s[i]) || s[i] == ':';
    }
  }

  /** A one-digit day separated by a space. */
  lemma DayHourMinutesSingleDigit()
    ensures MatchDayHourMinutes("9 15:15") == Some((9, 15, 15))
  {
    var s := "9 15:15";
    assert s[..1] == "9" && s[2..4] == "15" && s[5..] == "15";
    ShortDigits("9");
    ShortDigits("15");
    DayAccepted(s, 1, 9, 15, 15);
  }

  /** The last possible day, 31. */
  lemma DayHourMinutesLastDay()
    ensures MatchDayHourMinutes("31 20:20") == Some((31, 20, 20))
  {
    var s := "31 20:20";
    assert s[..2] == "31" && s[3..5] == "20" && s[6..] == "20";
    ShortDigits("31");
    ShortDigits("20");
    DayAccepted(s, 2, 31, 20, 20);
  }

  /** A day with a leading zero. */
  lemma DayHourMinutesLeadingZero()
    ensures MatchDayHourMinutes("03 23:59") == Some((3, 23, 59))
  {
    var s := "03 23:59";
    assert s[..2] == "03" && s[3..5] == "23" && s[6..] == "59";
    ShortDigits("03");
    ShortDigits("23");
    ShortDigits("59");
    DayAccepted(s, 2, 3, 23, 59);
  }

  /** A day field, a space and an `H:M` time with two-digit hour and minute. */
  lemma DayAccepted(s: string, i: nat, day: int, hour: int, minute: int)
    requires i < |s| && s[i] == ' ' && NumberField(s[..i], 1, 31) && DigitsValue(s[..i]) == day
    requires |s| == i + 6 && s[i + 3] == ':'
    requires NumberField(s[i + 1..i + 3], 0, 23) && DigitsValue(s[i + 1..i + 3]) == hour
    requires NumberField(s[i + 4..], 0, 59) && DigitsValue(s[i + 4..]) == minute
    ensures MatchDayHourMinutes(s) == Some((day, hour, minute))
  {
    var t := s[i + 1..];
    assert t[..2] == s[i + 1..i + 3] && t[3..] == s[i + 4..];
    assert HourMinutesAt(t, 2);
    assert DayThenTimeAt(s, i);
  }

  /** Digits up to the first whitespace that are not a day are refused. */
  lemma DayRejected(s: string, i: nat)
    requires i < |s| && IsWhitespace(s[i]) && AllDigits(s[..i]) && !DayField(s[..i])
    ensures MatchDayHourMinutes(s).None?
  {
    WhitespaceAfterDigits(s, i);
  }

  lemma HoursAgoExamples()
    ensures MatchHoursAgo("13h") == Some(13) && MatchHoursAgo("23h") == Some(23)
    ensures MatchHoursAgo("1h") == Some(1) && MatchHoursAgo("05h") == Some(5)
    ensures MatchHoursAgo("99h").None? && MatchHoursAgo("24h").None? && MatchHoursAgo("-5h").None?
    ensures MatchHoursAgo("13").None? && MatchHoursAgo("0h").None?
  {
    assert "13h"[..2] == "13" && "23h"[..2] == "23" && "1h"[..1] == "1" && "05h"[..2] == "05";
    ShortDigits("13");
    ShortDigits("23");
    ShortDigits("05");
  }

  lemma MinutesAgoExamples()
    ensures MatchMinutesAgo("01m") == Some(1) && MatchMinutesAgo("9m") == Some(9)
    ensures MatchMinutesAgo("19m") == Some(19) && MatchMinutesAgo("59m") == Some(59)
    ensures MatchMinutesAgo("35m") == Some(35)
    ensures MatchMinutesAgo("0m").None? && MatchMinutesAgo("00m").None?
    ensures MatchMinutesAgo("19").None? && MatchMinutesAgo("60m").None?
  {
    assert "01m"[..2] == "01" && "9m"[..1] == "9" && "19m"[..2] == "19";
    assert "59m"[..2] == "59" && "35m"[..2] == "35";
    ShortDigits("01");
    ShortDigits("19");
    ShortDigits("59");
    ShortDigits("35");
  }

  lemma HoursMinutesAgoAccepted()
    ensures MatchHoursMinutesAgo("19:59h") && MatchHoursMinutesAgo("1:1h")
  {
    assert "19:59h"[..5] == "19:59" && HourMinutesAt("19:59", 2);
    assert HourMinutesAgoAt("19:59h", 2);
    assert "1:1h"[..3] == "1:1" && HourMinutesAt("1:1", 1);
    assert HourMinutesAgoAt("1:1h", 1);
  }

  /** The latest hour and minute, followed by `h`. */
  lemma LatestHoursMinutesAgoAccepted()
    ensures MatchHoursMinutesAgo("23:59h")
  {
    var s := "23:59h";
    assert s[..2] == "23" && s[3..5] == "59";
    ShortDigits("23");
    ShortDigits("59");
    TwoDigitHoursMinutesAgo(s);
  }

  /** Leading zeros in both the hour and the minute, followed by `h`. */
  lemma PaddedHoursMinutesAgoAccepted()
    ensures MatchHoursMinutesAgo("05:09h")
  {
    var s := "05:09h";
    assert s[..2] == "05" && s[3..5] == "09";
    ShortDigits("05");
    ShortDigits("09");
    TwoDigitHoursMinutesAgo(s);
  }

  /** Two-digit hour and minute fields separated by a colon and followed by `h` match. */
  lemma TwoDigitHoursMinutesAgo(s: string)
    requires |s| == 6 && s[2] == ':' && s[5] == 'h'
    requires NumberField(s[..2], 0, 23) && NumberField(s[3..5], 0, 59)
    ensures MatchHoursMinutesAgo(s)
  {
    var t := s[..5];
    assert t[..2] == s[..2] && t[3..] == s[3..5];
    assert HourMinutesAt(t, 2);
    assert HourMinutesAgoAt(s, 2);
  }

  lemma HoursMinutesAgoRejected()
    ensures !MatchHoursMinutesAgo("19:59") && !MatchHoursMinutesAgo("24:59h")
  {
    assert "24:59h"[..5] == "24:59";
    ColonAfterDigits("24:59", 2);
  }
}
