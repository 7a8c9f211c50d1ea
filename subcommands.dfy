/**
 * The subcommands that read and extend the log: `start`, `stop`, `since`,
 * `until`, `between`, `working`/`free` and `of`. The log file is the
 * sequence of its lines and writing an event appends its encoded line; the
 * current moment is a clock reading passed in.
 */
module Subcommands {
  import opened Wrappers
  import opened Errors
  import opened Strings
  import opened Calendar
  import opened Time
  import opened LogFile

  const StartRefused: string := "Please stop the current work before starting new work."
  const StopRefused: string := "Unable to stop, no work in progress!"
  const RegisterRefused: string := "Please stop the current work before registering new work."

  /** `is_working`: only a Start event means work is in progress, which is what a line's kind field says. */
  predicate IsWorking(e: Event)
    ensures IsWorking(e) <==> KindName(e) == "Start"
  {
    match e
    case Stop(_, _) => false
    case Start(_, _) => true
  }

  /**
   * `working_or_free`: exit code 0 when the log agrees with the question
   * asked (`working` asks whether work is in progress, `free` whether it is
   * not), 1 otherwise.
   */
  function WorkingOrFree(lines: seq<string>, checkWorking: bool): (code: int)
    ensures code == 0 || code == 1
    ensures code == 0 <==> (LatestEvent(lines).Start? <==> checkWorking)
  {
    match (LatestEvent(lines), checkWorking)
    case (Stop(_, _), false) => 0
    case (Stop(_, _), true) => 1
    case (Start(_, _), false) => 1
    case (Start(_, _), true) => 0
  }

  /** `working` and `free` always give opposite answers. */
  lemma WorkingOrFreeOpposite(lines: seq<string>)
    ensures WorkingOrFree(lines, true) + WorkingOrFree(lines, false) == 1
  {
  }

  /** A log with no lines counts as free. */
  lemma EmptyLogIsFree()
    ensures WorkingOrFree([], false) == 0 && WorkingOrFree([], true) == 1
  {
  }

  /**
   * The shape `start` and `stop` keep the log in: the lines alternate
   * between Start and Stop, beginning with a Start, so work is in progress
   * exactly when the number of lines is odd.
   */
  ghost predicate Alternating(lines: seq<string>)
  {
    forall i :: 0 <= i < |lines| ==> (StartLine(lines[i]) <==> i % 2 == 0)
  }

  /** A line of four fields whose second is "Start". */
  predicate StartLine(line: string)
  {
    var values := Fields(line);
    |values| == 4 && values[1] == "Start"
  }

  /** The Start lines are exactly the lines that read back as a Start event. */
  lemma StartLineDecode(line: string)
    ensures StartLine(line) <==> Decode(line).Start?
  {
  }

  lemma AlternatingWorking(lines: seq<string>)
    requires Alternating(lines)
    ensures IsWorking(LatestEvent(lines)) <==> |lines| % 2 == 1
  {
    if |lines| > 0 {
      var n := |lines|;
      assert StartLine(lines[n - 1]) <==> (n - 1) % 2 == 0;
      WorkingOnStartLine(lines);
      PreviousParity(n);
    }
  }

  lemma PreviousParity(n: int)
    ensures (n - 1) % 2 == 0 <==> n % 2 == 1
  {
  }

  /** Work is in progress exactly when the last line is a Start line. */
  lemma WorkingOnStartLine(lines: seq<string>)
    requires |lines| > 0
    ensures IsWorking(LatestEvent(lines)) <==> StartLine(lines[|lines| - 1])
  {
    StartLineDecode(lines[|lines| - 1]);
  }

  /** Appending a line of the kind the parity asks for keeps the alternation. */
  lemma AlternatingAppendLine(lines: seq<string>, line: string)
    requires Alternating(lines)
    requires StartLine(line) <==> |lines| % 2 == 0
    ensures Alternating(lines + [line])
  {
    var s := lines + [line];
    forall i | 0 <= i < |s|
      ensures StartLine(s[i]) <==> i % 2 == 0
    {
      if i < |lines| {
        assert s[i] == lines[i];
        assert StartLine(lines[i]) <==> i % 2 == 0;
      } else {
        assert i == |lines|;
        assert s[i] == line;
      }
    }
  }

  /** Writing an event with comma-free labels of the kind the parity asks for keeps the alternation. */
  lemma AlternatingAppend(lines: seq<string>, e: Event, timestamp: int)
    requires Alternating(lines) && CommaFreeLabels(e)
    requires e.Start? <==> |lines| % 2 == 0
    ensures Alternating(lines + [Encode(e, timestamp)])
  {
    EncodeKeepsKind(e, timestamp);
    StartLineDecode(Encode(e, timestamp));
    AlternatingAppendLine(lines, Encode(e, timestamp));
  }

  /**
   * A comma in a label defeats the guard: the Start is written, but it
   * reads back as a Stop, so the log still counts as free and a second Start
   * is accepted without a Stop in between.
   */
  lemma CommaLabelHidesWork(lines: seq<string>, timestamp: int)
    ensures WorkingOrFree(lines + [Encode(Start(Some("a,b"), None), timestamp)], false) == 0
  {
    assert "a,b"[1..2] == ",";
    assert OccursAt("a,b", ",", 1);
    CommaInLabelIsLost(Start(Some("a,b"), None), timestamp);
  }

  /** Records that are Starts exactly at the even positions alternate. */
  lemma ParityAlternates(records: seq<Record>)
    requires forall i :: 0 <= i < |records| ==> (records[i].event.Start? <==> i % 2 == 0)
    ensures Alternates(records)
  {
    forall i | 0 <= i < |records| - 1
      ensures records[i].event.Start? <==> records[i + 1].event.Stop?
    {
      assert records[i].event.Start? <==> i % 2 == 0;
      assert records[i + 1].event.Start? <==> (i + 1) % 2 == 0;
    }
  }

  /** The records of an alternating log alternate. */
  lemma AlternatingRecords(lines: seq<string>)
    requires Alternating(lines) && ParseLog(lines).Some?
    ensures Alternates(ParseLog(lines).value)
  {
    var records := ParseLog(lines).value;
    ParseLogEvents(lines);
    forall i | 0 <= i < |records|
      ensures records[i].event.Start? <==> i % 2 == 0
    {
      StartLineDecode(lines[i]);
      assert StartLine(lines[i]) <==> i % 2 == 0;
    }
    ParityAlternates(records);
  }

  /**
   * On an alternating log whose lines all parse and lie inside the
   * interval, the tally finds work, and its seconds add up to the time the
   * records say was worked.
   */
  lemma AlternatingLogTally(lines: seq<string>, interval: Interval)
    requires Alternating(lines) && |lines| > 0
    requires ParseLog(lines).Some?
    requires forall i :: 0 <= i < |lines| ==> InInterval(ParseLog(lines).value[i], interval)
    ensures FilterEvents(lines, interval) == Ok(ParseLog(lines).value)
    ensures var t := TallyOf(ParseLog(lines).value, interval);
      t.Ok? && t.value.Some? && Total(t.value.value) == WorkedTime(ParseLog(lines).value, interval)
  {
    var records := ParseLog(lines).value;
    KeepAll(records, interval);
    AlternatingRecords(lines);
    TallyTotal(records, interval);
  }

  /** The interval `of` tallies: parsed looking backwards, except that `yesterday` ends at today's midnight. */
  function OfInterval(input: string, c: Clock): (r: Result<Interval>)
    requires ValidClock(c)
    ensures input != "yesterday" ==> r == TryParse(input, Backward, c)
    ensures input == "yesterday" ==>
      r.Ok? && r.value.end == Midnight(c.today) && r.value.start in {Midnight(PrevDay(c.today)), c.epoch}
  {
    ParseYesterday(Backward, c);
    match TryParse(input, Backward, c)
    case Ok(interval) => Ok(if input == "yesterday" then interval.(end := Midnight(c.today)) else interval)
    case Err(error) => Err(error)
    case Abort => Abort
  }

  /** `of yesterday` covers exactly the day before today. */
  lemma OfYesterday(c: Clock)
    requires ValidClock(c) && Midnight(PrevDay(c.today)) <= c.epoch
    ensures OfInterval("yesterday", c) == Ok(Interval(Midnight(PrevDay(c.today)), Midnight(c.today)))
  {
    ParseYesterday(Backward, c);
    var iv := TryParse("yesterday", Backward, c).value;
    assert iv.start in multiset{Midnight(PrevDay(c.today)), c.epoch};
  }

  /** `of today` runs from today's midnight up to now. */
  lemma OfToday(c: Clock)
    requires ValidClock(c) && Midnight(c.today) <= c.epoch
    ensures OfInterval("today", c) == Ok(Interval(Midnight(c.today), c.epoch))
  {
    ParseToday(Backward, c);
    var iv := TryParse("today", Backward, c).value;
    assert iv.start in multiset{Midnight(c.today), c.epoch};
    assert iv.end in multiset{Midnight(c.today), c.epoch};
  }

  /** Closing the latest Start of an alternating log keeps it alternating and leaves no work in progress. */
  lemma StopKeepsAlternation(lines: seq<string>, now: int)
    requires Alternating(lines) && IsWorking(LatestEvent(lines))
    ensures var latest := LatestEvent(lines);
      var after := lines + [Encode(Stop(latest.project, latest.description), now)];
      Alternating(after) && !IsWorking(LatestEvent(after))
  {
    var latest := LatestEvent(lines);
    var stop := Stop(latest.project, latest.description);
    AlternatingWorking(lines);
    assert CommaFreeLabels(stop) by {
      DecodedCommaFree(lines[|lines| - 1]);
    }
    AlternatingAppend(lines, stop, now);
    LatestAfterAppend(lines, stop, now);
  }

  /** An event with comma-free labels is written as a Start line exactly when it is a Start. */
  lemma EncodedStartLine(e: Event, timestamp: int)
    requires CommaFreeLabels(e)
    ensures StartLine(Encode(e, timestamp)) <==> e.Start?
  {
    EncodeKeepsKind(e, timestamp);
    StartLineDecode(Encode(e, timestamp));
  }

  /** Appending a Start line and then a non-Start line to a free alternating log. */
  lemma RegisterLines(lines: seq<string>, begin: string, end: string)
    requires Alternating(lines) && !IsWorking(LatestEvent(lines))
    requires StartLine(begin) && !StartLine(end)
    ensures Alternating(lines + [begin]) && IsWorking(LatestEvent(lines + [begin]))
    ensures Alternating(lines + [begin, end]) && !IsWorking(LatestEvent(lines + [begin, end]))
  {
    var begun := lines + [begin];
    var done := begun + [end];
    assert done == lines + [begin, end];
    AlternatingWorking(lines);
    assert |begun| == |lines| + 1 && |done| == |begun| + 1;
    AlternatingAppendLine(lines, begin);
    AlternatingWorking(begun);
    AlternatingAppendLine(begun, end);
    AlternatingWorking(done);
  }

  /**
   * Writing a Start and then a Stop with comma-free labels on a free
   * alternating log keeps it alternating: work is in progress between the
   * two lines and not after them.
   */
  lemma RegisterKeepsAlternation(lines: seq<string>, start: Event, begin: int, stop: Event, end: int)
    requires Alternating(lines) && !IsWorking(LatestEvent(lines))
    requires start.Start? && CommaFreeLabels(start)
    requires stop.Stop? && CommaFreeLabels(stop)
    ensures var begun := lines + [Encode(start, begin)];
      Alternating(begun) && IsWorking(LatestEvent(begun))
    ensures var done := lines + [Encode(start, begin), Encode(stop, end)];
      Alternating(done) && !IsWorking(LatestEvent(done))
  {
    EncodedStartLine(start, begin);
    EncodedStartLine(stop, end);
    RegisterLines(lines, Encode(start, begin), Encode(stop, end));
  }

  /** A log whose every line parses reads back as the records of its lines. */
  lemma ParsedLog(lines: seq<string>, records: seq<Record>)
    requires |records| == |lines|
    requires forall i :: 0 <= i < |lines| ==> ParseLine(lines[i]) == Some(records[i])
    ensures ParseLog(lines) == Some(records)
  {
    var parsed := ParseLog(lines).value;
    assert forall i :: 0 <= i < |lines| ==> Some(parsed[i]) == Some(records[i]);
    assert parsed == records;
  }

  /** A log of two parsable lines reads back as their two records. */
  lemma PairLog(lines: seq<string>, opening: Record, closing: Record)
    requires |lines| == 2 && ParseLine(lines[0]) == Some(opening) && ParseLine(lines[1]) == Some(closing)
    ensures ParseLog(lines) == Some([opening, closing])
  {
    var records := [opening, closing];
    forall i | 0 <= i < |lines|
      ensures ParseLine(lines[i]) == Some(records[i])
    {
      assert i == 0 || i == 1;
    }
    ParsedLog(lines, records);
  }

  /** A Start and a later Stop inside the interval are credited the time between them. */
  lemma PairTally(opening: Record, closing: Record, interval: Interval)
    requires opening.event.Start? && closing.event.Stop?
    requires interval.start <= opening.timestamp <= closing.timestamp <= interval.end
    ensures Keep([opening, closing], interval) == [opening, closing]
    ensures TallyOf([opening, closing], interval)
      == Ok(Some(Credit(map[], closing.timestamp - opening.timestamp, opening.event)))
  {
    var events := [opening, closing];
    KeepAll(events, interval);
    var pair := events[0..2];
    var credited := Credit(map[], closing.timestamp - opening.timestamp, opening.event);
    assert pair == events && pair[2..] == [];
    assert ChunksCredit(map[], pair) == ChunksCredit(credited, pair[2..]);
  }

  /**
   * A log of a Start line and a later Stop line inside the interval, such
   * as `between` writes on an empty log: its records are the two parsed
   * lines, and the tally credits exactly the time between them to the
   * Start's labels.
   */
  lemma TwoLineTally(lines: seq<string>, opening: Record, closing: Record, interval: Interval)
    requires |lines| == 2 && ParseLine(lines[0]) == Some(opening) && ParseLine(lines[1]) == Some(closing)
    requires opening.event.Start? && closing.event.Stop?
    requires interval.start <= opening.timestamp <= closing.timestamp <= interval.end
    ensures FilterEvents(lines, interval) == Ok([opening, closing])
    ensures TallyOf([opening, closing], interval)
      == Ok(Some(Credit(map[], closing.timestamp - opening.timestamp, opening.event)))
  {
    PairLog(lines, opening, closing);
    PairTally(opening, closing, interval);
  }

  /** The log file, as the sequence of its lines; writing an event appends its line. */
  class WorkLog {
    var lines: seq<string>

    constructor(initial: seq<string>)
      ensures lines == initial
    {
      lines := initial;
    }

    /**
     * `start`: refused while work is in progress; otherwise a Start with the
     * given labels is written at `now`. An alternating log stays alternating
     * when the labels are comma-free, and then work is in progress.
     */
    method Start(project: Option<string>, description: Option<string>, now: int) returns (r: Result<int>)
      modifies this
      ensures IsWorking(LatestEvent(old(lines))) ==> r == Err(User(StartRefused)) && lines == old(lines)
      ensures !IsWorking(LatestEvent(old(lines))) ==>
        r == Ok(0) && lines == old(lines) + [Encode(Event.Start(project, description), now)]
      ensures Alternating(old(lines)) && CommaFreeLabels(Event.Start(project, description)) ==>
        Alternating(lines) && IsWorking(LatestEvent(lines))
    {
      var event := LatestEvent(lines);
      if IsWorking(event) {
        return Err(User(StartRefused));
      }
      ghost var before := lines;
      lines := lines + [Encode(Event.Start(project, description), now)];
      if Alternating(before) && CommaFreeLabels(Event.Start(project, description)) {
        AlternatingWorking(before);
        AlternatingAppend(before, Event.Start(project, description), now);
        LatestAfterAppend(before, Event.Start(project, description), now);
      }
      r := Ok(0);
    }

    /**
     * `stop`: refused when no work is in progress; otherwise a Stop with the
     * labels of the latest Start is written at `now`. An alternating log
     * stays alternating, and then no work is in progress.
     */
    method Stop(now: int) returns (r: Result<int>)
      modifies this
      ensures !IsWorking(LatestEvent(old(lines))) ==> r == Err(User(StopRefused)) && lines == old(lines)
      ensures IsWorking(LatestEvent(old(lines))) ==>
        var latest := LatestEvent(old(lines));
        r == Ok(0) && lines == old(lines) + [Encode(Event.Stop(latest.project, latest.description), now)]
      ensures Alternating(old(lines)) ==> Alternating(lines) && !IsWorking(LatestEvent(lines))
    {
      var event := LatestEvent(lines);
      var stop: Event;
      match event {
        case Stop(_, _) =>
          return Err(User(StopRefused));
        case Start(None, None) =>
          stop := Event.Stop(None, None);
        case Start(Some(project), None) =>
          stop := Event.Stop(Some(project), None);
        case Start(None, Some(description)) =>
          stop := Event.Stop(None, Some(description));
        case Start(Some(project), Some(description)) =>
          stop := Event.Stop(Some(project), Some(description));
      }
      assert stop == Event.Stop(event.project, event.description);
      if Alternating(lines) {
        StopKeepsAlternation(lines, now);
      }
      lines := lines + [Encode(stop, now)];
      r := Ok(0);
    }

    /**
     * `since`: refused while work is in progress; otherwise the moment is
     * parsed looking backwards, a Start is written at the interval's start
     * and, unless the work continues, a Stop at the current time.
     */
    method Since(input: string, project: Option<string>, description: Option<string>, continuing: bool, c: Clock)
      returns (r: Result<int>)
      requires ValidClock(c)
      modifies this
      ensures IsWorking(LatestEvent(old(lines))) ==> r == Err(User(RegisterRefused)) && lines == old(lines)
      ensures !IsWorking(LatestEvent(old(lines))) ==>
        match TryParse(input, Backward, c)
        case Err(error) => r == Err(error) && lines == old(lines)
        case Abort => r == Abort && lines == old(lines)
        case Ok(interval) =>
          var begin := Encode(Event.Start(project, description), interval.start);
          var end := Encode(Event.Stop(project, description), c.epoch);
          r == Ok(0) && lines == old(lines) + (if continuing then [begin] else [begin, end])
      ensures Alternating(old(lines)) && CommaFreeLabels(Event.Start(project, description)) ==>
        Alternating(lines) && (r == Ok(0) ==> (IsWorking(LatestEvent(lines)) <==> continuing))
    {
      if IsWorking(LatestEvent(lines)) {
        return Err(User(RegisterRefused));
      }
      var parsed := TryParse(input, Backward, c);
      if parsed.Err? {
        return Err(parsed.error);
      }
      if parsed.Abort? {
        return Abort;
      }
      var begin := Encode(Event.Start(project, description), parsed.value.start);
      var end := Encode(Event.Stop(project, description), c.epoch);
      if Alternating(lines) && CommaFreeLabels(Event.Start(project, description)) {
        RegisterKeepsAlternation(lines, Event.Start(project, description), parsed.value.start, Event.Stop(project, description), c.epoch);
      }
      lines := lines + if continuing then [begin] else [begin, end];
      r := Ok(0);
    }

    /**
     * `until`: refused while work is in progress; otherwise the moment is
     * parsed looking forwards, a Start is written at the current time and a
     * Stop at the interval's end.
     */
    method Until(input: string, project: Option<string>, description: Option<string>, c: Clock)
      returns (r: Result<int>)
      requires ValidClock(c)
      modifies this
      ensures IsWorking(LatestEvent(old(lines))) ==> r == Err(User(StartRefused)) && lines == old(lines)
      ensures !IsWorking(LatestEvent(old(lines))) ==>
        match TryParse(input, Forward, c)
        case Err(error) => r == Err(error) && lines == old(lines)
        case Abort => r == Abort && lines == old(lines)
        case Ok(interval) =>
          r == Ok(0) && lines == old(lines) + [
            Encode(Event.Start(project, description), c.epoch),
            Encode(Event.Stop(project, description), interval.end)]
      ensures Alternating(old(lines)) && CommaFreeLabels(Event.Start(project, description)) ==>
        Alternating(lines) && (r == Ok(0) ==> !IsWorking(LatestEvent(lines)))
    {
      if IsWorking(LatestEvent(lines)) {
        return Err(User(StartRefused));
      }
      var parsed := TryParse(input, Forward, c);
      if parsed.Err? {
        return Err(parsed.error);
      }
      if parsed.Abort? {
        return Abort;
      }
      var begin := Encode(Event.Start(project, description), c.epoch);
      var end := Encode(Event.Stop(project, description), parsed.value.end);
      if Alternating(lines) && CommaFreeLabels(Event.Start(project, description)) {
        RegisterKeepsAlternation(lines, Event.Start(project, description), c.epoch, Event.Stop(project, description), parsed.value.end);
      }
      lines := lines + [begin, end];
      r := Ok(0);
    }

    /**
     * `between`: refused while work is in progress; otherwise the range is
     * parsed looking backwards, a Start is written at its start and a Stop at
     * its end.
     */
    method Between(input: string, project: Option<string>, description: Option<string>, c: Clock)
      returns (r: Result<int>)
      requires ValidClock(c)
      modifies this
      ensures IsWorking(LatestEvent(old(lines))) ==> r == Err(User(StartRefused)) && lines == old(lines)
      ensures !IsWorking(LatestEvent(old(lines))) ==>
        match TryParse(input, Backward, c)
        case Err(error) => r == Err(error) && lines == old(lines)
        case Abort => r == Abort && lines == old(lines)
        case Ok(interval) =>
          r == Ok(0) && lines == old(lines) + [
            Encode(Event.Start(project, description), interval.start),
            Encode(Event.Stop(project, description), interval.end)]
      ensures Alternating(old(lines)) && CommaFreeLabels(Event.Start(project, description)) ==>
        Alternating(lines) && (r == Ok(0) ==> !IsWorking(LatestEvent(lines)))
    {
      if IsWorking(LatestEvent(lines)) {
        return Err(User(StartRefused));
      }
      var parsed := TryParse(input, Backward, c);
      if parsed.Err? {
        return Err(parsed.error);
      }
      if parsed.Abort? {
        return Abort;
      }
      var begin := Encode(Event.Start(project, description), parsed.value.start);
      var end := Encode(Event.Stop(project, description), parsed.value.end);
      if Alternating(lines) && CommaFreeLabels(Event.Start(project, description)) {
        RegisterKeepsAlternation(lines, Event.Start(project, description), parsed.value.start, Event.Stop(project, description), parsed.value.end);
      }
      lines := lines + [begin, end];
      r := Ok(0);
    }

    /**
     * `of`: tally the log over the parsed interval. The exit code is 1 when
     * no record lies in the interval and 0 when the tally succeeds; a line
     * without a timestamp or an unpairable run of records panics. Printing
     * the tally is not modelled.
     */
    method Of(input: string, c: Clock) returns (r: Result<int>)
      requires ValidClock(c)
      ensures OfInterval(input, c).Err? ==> r == Err(OfInterval(input, c).error)
      ensures OfInterval(input, c).Abort? ==> r == Abort
      ensures OfInterval(input, c).Ok? ==>
        var interval := OfInterval(input, c).value;
        var filtered := FilterEvents(lines, interval);
        && (r == Ok(1) <==> filtered.Ok? && |filtered.value| == 0)
        && (r == Ok(0) <==> filtered.Ok? && |filtered.value| > 0 && !TallyOf(filtered.value, interval).Abort?)
        && (r == Abort <==> !filtered.Ok? || TallyOf(filtered.value, interval).Abort?)
        && (r.Ok? || r == Abort)
    {
      var parsed := OfInterval(input, c);
      if parsed.Err? {
        return Err(parsed.error);
      }
      if parsed.Abort? {
        return Abort;
      }
      var interval := parsed.value;
      var tally := TallyTime(lines, interval);
      if tally.Abort? {
        r := Abort;
      } else if tally.Ok? && tally.value.None? {
        r := Ok(1);
      } else {
        r := Ok(0);
      }
    }
  }
}
