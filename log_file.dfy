/**
 * The log file: one line per event, `timestamp,Kind,project,description`.
 * The encoder is the format strings of `append_event`, the decoder is
 * `Event::from`; reading the log turns lines into timestamped records, keeps
 * those inside an interval and tallies the seconds spent per project and
 * description.
 */
module LogFile {
  import opened Wrappers
  import opened Errors
  import opened Strings
  import opened Time

  /** A start or stop of work, with an optional project name and description. */
  datatype Event =
    | Start(project: Option<string>, description: Option<string>)
    | Stop(project: Option<string>, description: Option<string>)

  const UnnamedProject: string := "Unnamed project"
  const NoDescription: string := "No description"

  /** `to_project`: the project name, or "Unnamed project". */
  function ToProject(e: Event): (p: string)
    ensures p == e.project.GetOr(UnnamedProject)
  {
    match e
    case Stop(None, _) => UnnamedProject
    case Start(None, _) => UnnamedProject
    case Stop(Some(project), _) => project
    case Start(Some(project), _) => project
  }

  /** `to_description`: the description, or "No description". */
  function ToDescription(e: Event): (d: string)
    ensures d == e.description.GetOr(NoDescription)
  {
    match e
    case Stop(_, None) => NoDescription
    case Start(_, None) => NoDescription
    case Stop(_, Some(description)) => description
    case Start(_, Some(description)) => description
  }

  /**
   * `to_string`: the human readable label of an event. The label is the
   * defaulted project name, followed by " - " and the description only when
   * there is one: a missing description is left out rather than shown as
   * "No description".
   */
  function ToString(e: Event): (text: string)
    ensures text == ToProject(e) + (if e.description.Some? then " - " + ToDescription(e) else "")
    ensures e.description.None? ==> text == ToProject(e)
  {
    match e
    case Stop(None, None) => UnnamedProject
    case Start(None, None) => UnnamedProject
    case Stop(None, Some(description)) => UnnamedProject + " - " + description
    case Start(None, Some(description)) => UnnamedProject + " - " + description
    case Stop(Some(project), None) => project
    case Start(Some(project), None) => project
    case Stop(Some(project), Some(description)) => project + " - " + description
    case Start(Some(project), Some(description)) => project + " - " + description
  }

  // ---------------------------------------------------------------------
  // One line of the log
  // ---------------------------------------------------------------------

  function KindName(e: Event): string
  {
    if e.Start? then "Start" else "Stop"
  }

  /** The line `append_event` writes for `e` at `timestamp` (without the newline). */
  function Encode(e: Event, timestamp: int): (line: string)
    ensures line == IntToString(timestamp) + "," + KindName(e) + "," + e.project.GetOr("") + "," + e.description.GetOr("")
  {
    var ts := IntToString(timestamp);
    match e
    case Start(Some(project), Some(description)) =>
      JoinFields(ts, "Start", project, description); ts + ",Start," + project + "," + description
    case Stop(Some(project), Some(description)) =>
      JoinFields(ts, "Stop", project, description); ts + ",Stop," + project + "," + description
    case Start(Some(project), None) => JoinFields(ts, "Start", project, ""); ts + ",Start," + project + ","
    case Stop(Some(project), None) => JoinFields(ts, "Stop", project, ""); ts + ",Stop," + project + ","
    case Start(None, Some(description)) => JoinFields(ts, "Start", "", description); ts + ",Start,," + description
    case Stop(None, Some(description)) => JoinFields(ts, "Stop", "", description); ts + ",Stop,," + description
    case Start(None, None) => JoinFields(ts, "Start", "", ""); ts + ",Start,,"
    case Stop(None, None) => JoinFields(ts, "Stop", "", ""); ts + ",Stop,,"
  }

  /** Joining four fields with commas, grouped the way `Encode` writes them. */
  lemma JoinFields(ts: string, kind: string, project: string, description: string)
    requires kind == "Start" || kind == "Stop"
    ensures var joined := ts + "," + kind + "," + project + "," + description;
      var sep := if kind == "Start" then ",Start," else ",Stop,";
      && joined == ts + sep + project + "," + description
      && (project == "" ==> joined == ts + sep + "," + description)
      && (description == "" ==> joined == ts + sep + project + ",")
  {
  }

  /** The trimmed comma-separated fields of a line. */
  function Fields(line: string): (values: seq<string>)
    ensures |values| == |Split(line, ",")|
    ensures forall i :: 0 <= i < |values| ==> values[i] == Trim(Split(line, ",")[i])
  {
    TrimEach(Split(line, ","))
  }

  /** Each piece with its surrounding whitespace trimmed. */
  function TrimEach(pieces: seq<string>): (values: seq<string>)
    ensures |values| == |pieces|
    ensures forall i :: 0 <= i < |values| ==> values[i] == Trim(pieces[i])
  {
    seq(|pieces|, i requires 0 <= i < |pieces| => Trim(pieces[i]))
  }

  /** The lines `Event::from` understands: four fields, the second "Start" or "Stop". */
  predicate Recognised(values: seq<string>)
  {
    |values| == 4 && (values[1] == "Start" || values[1] == "Stop")
  }

  /**
   * `Event::from`. On a recognised line the kind is the second field, the
   * project is the third field unless both labels are empty, and the
   * description is the fourth field unless it is empty. Every other line
   * becomes `Stop(None, None)`.
   */
  function Decode(line: string): (e: Event)
    ensures var v := Fields(line);
      if Recognised(v) then
        && (e.Start? <==> v[1] == "Start")
        && (e.project.None? <==> v[2] == "" && v[3] == "")
        && (e.project.Some? ==> e.project.value == v[2])
        && (e.description.None? <==> v[3] == "")
        && (e.description.Some? ==> e.description.value == v[3])
      else
        e == Stop(None, None)
  {
    var values := Fields(line);
    if |values| != 4 then Stop(None, None)
    else
      var kind, project, description := values[1], values[2], values[3];
      if kind == "Stop" && project == "" && description == "" then Stop(None, None)
      else if kind == "Start" && project == "" && description == "" then Start(None, None)
      else if kind == "Start" && description == "" then Start(Some(project), None)
      else if kind == "Stop" && description == "" then Stop(Some(project), None)
      else if kind == "Start" then Start(Some(project), Some(description))
      else if kind == "Stop" then Stop(Some(project), Some(description))
      else Stop(None, None)
  }

  // ---------------------------------------------------------------------
  // Reading back what was written
  // ---------------------------------------------------------------------

  /** A label that survives the line format: non-empty, comma-free and without surrounding whitespace. */
  predicate Storable(text: string)
  {
    |text| > 0 && !Contains(text, ",") && IsTrimmed(text)
  }

  predicate StorableLabels(e: Event)
  {
    (e.project.Some? ==> Storable(e.project.value))
    && (e.description.Some? ==> Storable(e.description.value))
  }

  predicate CommaFreeLabels(e: Event)
  {
    !Contains(e.project.GetOr(""), ",") && !Contains(e.description.GetOr(""), ",")
  }

  lemma NoCommaChar(s: string)
    requires forall i :: 0 <= i < |s| ==> s[i] != ','
    ensures !Contains(s, ",")
  {
    forall j | 0 <= j <= |s| ensures !OccursAt(s, ",", j) {
      if j + 1 <= |s| {
        assert s[j..j + 1][0] == s[j];
      }
    }
  }

  /** The decimal form of a timestamp has no comma and no surrounding whitespace. */
  lemma TimestampTextClean(timestamp: int)
    ensures !Contains(IntToString(timestamp), ",") && IsTrimmed(IntToString(timestamp))
  {
    NoCommaChar(IntToString(timestamp));
  }

  /** Splitting at a one-character separator adds up the pieces of both sides. */
  lemma {:induction false} SplitConcat(a: string, sep: string, b: string)
    requires |sep| == 1
    ensures |Split(a + sep + b, sep)| == |Split(a, sep)| + |Split(b, sep)|
    decreases |a|
  {
    match Find(a, sep)
    case None =>
      SplitCons(a, sep, b);
      SplitNone(a, sep);
    case Some(i) =>
      var head, tail := FirstPiece(a, sep, i);
      SplitCons(head, sep, tail);
      SplitConcatStep(head, tail, sep, b);
      SplitConcat(tail, sep, b);
  }

  /** The text before the first separator, and the text after it. */
  lemma FirstPiece(a: string, sep: string, i: nat) returns (head: string, tail: string)
    requires |sep| == 1 && Find(a, sep) == Some(i)
    ensures a == head + sep + tail && !Contains(head, sep)
  {
    head, tail := a[..i], a[i + 1..];
    assert a == head + sep + tail;
    forall j | 0 <= j ensures !OccursAt(head, sep, j) {
      if j + 1 <= |head| {
        assert head[j..j + 1] == a[j..j + 1];
        assert !OccursAt(a, sep, j);
      }
    }
  }

  lemma SplitConcatStep(head: string, tail: string, sep: string, b: string)
    requires |sep| == 1 && !Contains(head, sep)
    ensures Split(head + sep + tail + sep + b, sep) == [head] + Split(tail + sep + b, sep)
  {
    assert head + sep + tail + sep + b == head + sep + (tail + sep + b);
    SplitCons(head, sep, tail + sep + b);
  }

  /** A string with the separator in it splits into at least two pieces. */
  lemma SplitContains(s: string, sep: string)
    requires |sep| > 0 && Contains(s, sep)
    ensures |Split(s, sep)| >= 2
  {
    SplitSingle(s, sep);
  }

  lemma SplitSingle(s: string, sep: string)
    requires |sep| > 0
    ensures |Split(s, sep)| == 1 ==> !Contains(s, sep)
  {
    if |Split(s, sep)| == 1 {
      assert Join(Split(s, sep), sep) == Split(s, sep)[0];
    }
  }

  /** Four comma-free fields joined by commas split back into those four fields. */
  lemma SplitFour(a: string, b: string, c: string, d: string)
    requires !Contains(a, ",") && !Contains(b, ",") && !Contains(c, ",") && !Contains(d, ",")
    ensures Split(a + "," + b + "," + c + "," + d, ",") == [a, b, c, d]
  {
    var cd := c + "," + d;
    var bcd := b + "," + cd;
    SplitNone(d, ",");
    SplitCons(c, ",", d);
    SplitCons(b, ",", cd);
    SplitCons(a, ",", bcd);
    JoinedFour(a, b, c, d);
    ConsFour(Split(a + "," + bcd, ","), Split(bcd, ","), Split(cd, ","), Split(d, ","), a, b, c, d);
  }

  lemma ConsFour<T>(s: seq<T>, t: seq<T>, u: seq<T>, v: seq<T>, w: T, x: T, y: T, z: T)
    requires v == [z] && u == [y] + v && t == [x] + u && s == [w] + t
    ensures s == [w, x, y, z]
  {
  }

  lemma JoinedFour(a: string, b: string, c: string, d: string)
    ensures a + "," + b + "," + c + "," + d == a + "," + (b + "," + (c + "," + d))
  {
  }

  /** The pieces of an encoded line, for comma-free labels. */
  lemma EncodedSplit(e: Event, timestamp: int)
    requires CommaFreeLabels(e)
    ensures Split(Encode(e, timestamp), ",")
      == [IntToString(timestamp), KindName(e), e.project.GetOr(""), e.description.GetOr("")]
  {
    TimestampTextClean(timestamp);
    NoCommaChar(KindName(e));
    SplitFour(IntToString(timestamp), KindName(e), e.project.GetOr(""), e.description.GetOr(""));
  }

  lemma FieldsOfFour(line: string, a: string, b: string, c: string, d: string)
    requires Split(line, ",") == [a, b, c, d]
    ensures Fields(line) == [Trim(a), Trim(b), Trim(c), Trim(d)]
  {
    TrimFour(a, b, c, d);
  }

  lemma TrimFour(a: string, b: string, c: string, d: string)
    ensures TrimEach([a, b, c, d]) == [Trim(a), Trim(b), Trim(c), Trim(d)]
  {
    var values := TrimEach([a, b, c, d]);
    FourElements(values, Trim(a), Trim(b), Trim(c), Trim(d));
  }

  lemma FourElements<T>(values: seq<T>, w: T, x: T, y: T, z: T)
    requires |values| == 4 && values[0] == w && values[1] == x && values[2] == y && values[3] == z
    ensures values == [w, x, y, z]
  {
  }

  /** The kind names need no trimming. */
  lemma KindNameTrimmed(e: Event)
    ensures IsTrimmed(KindName(e)) && !Contains(KindName(e), ",")
  {
    NoCommaChar(KindName(e));
  }

  /** The fields of an encoded line, for comma-free labels. */
  lemma EncodedFields(e: Event, timestamp: int)
    requires CommaFreeLabels(e)
    ensures Fields(Encode(e, timestamp))
      == [IntToString(timestamp), KindName(e), Trim(e.project.GetOr("")), Trim(e.description.GetOr(""))]
  {
    var ts, k := IntToString(timestamp), KindName(e);
    EncodedSplit(e, timestamp);
    FieldsOfFour(Encode(e, timestamp), ts, k, e.project.GetOr(""), e.description.GetOr(""));
    TimestampTextClean(timestamp);
    KindNameTrimmed(e);
    TrimmedHead(ts, k, Trim(e.project.GetOr("")), Trim(e.description.GetOr("")));
  }

  /** Trimming the first two of four fields changes nothing when they are already trimmed. */
  lemma TrimmedHead(a: string, b: string, c: string, d: string)
    requires IsTrimmed(a) && IsTrimmed(b)
    ensures [Trim(a), Trim(b), c, d] == [a, b, c, d]
  {
    assert Trim(a) == a && Trim(b) == b;
  }

  /** The event a recognised line with the given fields decodes to. */
  function FromFields(kind: string, project: string, description: string): Event
  {
    var p := if project == "" && description == "" then None else Some(project);
    var d := if description == "" then None else Some(description);
    if kind == "Start" then Start(p, d) else Stop(p, d)
  }

  lemma DecodeFields(line: string, timestamp: string, kind: string, project: string, description: string)
    requires Fields(line) == [timestamp, kind, project, description]
    requires kind == "Start" || kind == "Stop"
    ensures Decode(line) == FromFields(kind, project, description)
  {
  }

  /** What an encoded line with comma-free labels decodes to: its labels are trimmed. */
  lemma DecodeEncoded(e: Event, timestamp: int)
    requires CommaFreeLabels(e)
    ensures Decode(Encode(e, timestamp))
      == FromFields(KindName(e), Trim(e.project.GetOr("")), Trim(e.description.GetOr("")))
  {
    EncodedFields(e, timestamp);
    DecodeFields(Encode(e, timestamp), IntToString(timestamp), KindName(e),
      Trim(e.project.GetOr("")), Trim(e.description.GetOr("")));
  }

  /**
   * Decoding the line written for an event gives the event back when its
   * labels are storable, except that a description without a project comes
   * back with the empty string as its project: the line `ts,Start,,d`
   * matches the arm for a project and a description.
   */
  lemma DecodeEncode(e: Event, timestamp: int)
    requires StorableLabels(e)
    ensures Decode(Encode(e, timestamp))
      == if e.project.None? && e.description.Some? then e.(project := Some("")) else e
  {
    DecodeEncoded(e, timestamp);
    StorableFields(e);
  }

  lemma StorableFields(e: Event)
    requires StorableLabels(e)
    ensures FromFields(KindName(e), Trim(e.project.GetOr("")), Trim(e.description.GetOr("")))
      == if e.project.None? && e.description.Some? then e.(project := Some("")) else e
  {
    assert Trim(e.project.GetOr("")) == e.project.GetOr("");
    assert Trim(e.description.GetOr("")) == e.description.GetOr("");
    FromOwnFields(e);
  }

  /** An event with non-empty labels is rebuilt from its own fields, but for a missing project before a description. */
  lemma FromOwnFields(e: Event)
    requires e.project.Some? ==> e.project.value != ""
    requires e.description.Some? ==> e.description.value != ""
    ensures FromFields(KindName(e), e.project.GetOr(""), e.description.GetOr(""))
      == if e.project.None? && e.description.Some? then e.(project := Some("")) else e
  {
  }

  /** With comma-free labels the kind of event always survives, whatever the labels' whitespace. */
  lemma EncodeKeepsKind(e: Event, timestamp: int)
    requires CommaFreeLabels(e)
    ensures Decode(Encode(e, timestamp)).Start? <==> e.Start?
  {
    EncodedFields(e, timestamp);
  }

  /** A comma in a label makes the line unrecognisable: it reads back as `Stop(None, None)`. */
  lemma CommaInLabelIsLost(e: Event, timestamp: int)
    requires Contains(e.project.GetOr(""), ",") || Contains(e.description.GetOr(""), ",")
    ensures Decode(Encode(e, timestamp)) == Stop(None, None)
  {
    var ts, k, p, d := IntToString(timestamp), KindName(e), e.project.GetOr(""), e.description.GetOr("");
    TimestampTextClean(timestamp);
    NoCommaChar(k);
    FiveOrMorePieces(ts, k, p, d);
    assert |Fields(Encode(e, timestamp))| >= 5;
  }

  /** Four fields joined by commas, a comma inside one of the last two, split into five pieces or more. */
  lemma FiveOrMorePieces(ts: string, k: string, p: string, d: string)
    requires !Contains(ts, ",") && !Contains(k, ",")
    requires Contains(p, ",") || Contains(d, ",")
    ensures |Split(ts + "," + k + "," + p + "," + d, ",")| >= 5
  {
    JoinedFour(ts, k, p, d);
    SplitCons(ts, ",", k + "," + (p + "," + d));
    SplitCons(k, ",", p + "," + d);
    SplitConcat(p, ",", d);
    if Contains(p, ",") {
      SplitContains(p, ",");
    } else {
      SplitContains(d, ",");
    }
  }

  /** Keeping only characters of `s` cannot bring in a comma. */
  lemma CommaCarriesOver(s: string, r: string)
    requires forall c :: c in r ==> c in s
    ensures Contains(r, ",") ==> Contains(s, ",")
  {
    if Contains(r, ",") {
      var j :| 0 <= j <= |r| && OccursAt(r, ",", j);
      assert r[j] == r[j..j + 1][0];
      assert r[j] in s;
      var k :| 0 <= k < |s| && s[k] == r[j];
      assert s[k..k + 1] == ",";
      assert OccursAt(s, ",", k);
    }
  }

  /** The labels of a decoded event never hold a comma, since the line was split at commas. */
  lemma DecodedCommaFree(line: string)
    ensures CommaFreeLabels(Decode(line))
  {
    var e, v, pieces := Decode(line), Fields(line), Split(line, ",");
    if Recognised(v) {
      CommaCarriesOver(pieces[2], v[2]);
      CommaCarriesOver(pieces[3], v[3]);
    } else {
      assert !OccursAt("", ",", 0);
    }
  }

  // ---------------------------------------------------------------------
  // Reading the log: `filter_events` and `get_latest_event`
  // ---------------------------------------------------------------------

  /** A parsed line: its timestamp and its event. */
  datatype Record = Record(timestamp: int, event: Event)

  /** The trimmed text before the first comma, the first piece of `splitn(2, ',')`. */
  function TimestampText(line: string): string
  {
    match Find(line, ",")
    case None => Trim(line)
    case Some(i) => Trim(line[..i])
  }

  /** The timestamp text is the first field of the line. */
  lemma TimestampTextIsFirstField(line: string)
    ensures TimestampText(line) == Fields(line)[0]
  {
  }

  /** One line of the log; `None` where `parse::<i64>().unwrap()` panics. */
  function ParseLine(line: string): Option<Record>
  {
    match ParseI64(TimestampText(line))
    case None => None
    case Some(t) => Some(Record(t, Decode(line)))
  }

  /** A written line reads back with the timestamp it was written at. */
  lemma ParseLineEncode(e: Event, timestamp: int)
    requires InI64(timestamp) && CommaFreeLabels(e)
    ensures ParseLine(Encode(e, timestamp)) == Some(Record(timestamp, Decode(Encode(e, timestamp))))
  {
    assert TimestampText(Encode(e, timestamp)) == IntToString(timestamp) by {
      TimestampTextIsFirstField(Encode(e, timestamp));
      EncodedFields(e, timestamp);
    }
  }

  /** The timestamps of all lines, `None` as soon as one line has none. */
  function Timestamps(lines: seq<string>): (r: Option<seq<int>>)
    ensures r.Some? <==> forall i :: 0 <= i < |lines| ==> ParseI64(TimestampText(lines[i])).Some?
    ensures r.Some? ==> |r.value| == |lines|
    ensures r.Some? ==> forall i :: 0 <= i < |lines| ==> ParseI64(TimestampText(lines[i])) == Some(r.value[i])
    decreases |lines|
  {
    if |lines| == 0 then Some([])
    else
      match ParseI64(TimestampText(lines[0]))
      case None => None
      case Some(head) =>
        match Timestamps(lines[1..])
        case None =>
          var j :| 0 <= j < |lines| - 1 && ParseI64(TimestampText(lines[1..][j])).None?;
          assert lines[1..][j] == lines[j + 1];
          None
        case Some(rest) =>
          var r := [head] + rest;
          forall i | 0 <= i < |lines| ensures ParseI64(TimestampText(lines[i])) == Some(r[i]) {
            if i > 0 {
              assert lines[i] == lines[1..][i - 1] && r[i] == rest[i - 1];
            }
          }
          Some(r)
  }

  /**
   * Every line parsed, in order. The whole read fails if any line has no
   * integer timestamp, since the mapping runs over every line before the
   * filter.
   */
  function ParseLog(lines: seq<string>): (r: Option<seq<Record>>)
    ensures r.Some? <==> forall i :: 0 <= i < |lines| ==> ParseLine(lines[i]).Some?
    ensures r.Some? ==> |r.value| == |lines|
    ensures r.Some? ==> forall i :: 0 <= i < |lines| ==> Some(r.value[i]) == ParseLine(lines[i])
  {
    match Timestamps(lines)
    case None => None
    case Some(ts) => Some(seq(|lines|, i requires 0 <= i < |lines| => Record(ts[i], Decode(lines[i]))))
  }

  /** Each parsed record carries the event its line decodes to. */
  lemma ParseLogEvents(lines: seq<string>)
    requires ParseLog(lines).Some?
    ensures forall i :: 0 <= i < |lines| ==> ParseLog(lines).value[i].event == Decode(lines[i])
  {
  }

  predicate InInterval(r: Record, interval: Interval)
  {
    interval.start <= r.timestamp <= interval.end
  }

  /** The records inside the interval, bounds included, in their original order. */
  function Keep(records: seq<Record>, interval: Interval): (kept: seq<Record>)
    ensures |kept| <= |records|
    ensures forall i :: 0 <= i < |kept| ==> InInterval(kept[i], interval)
    ensures forall x :: x in kept <==> x in records && InInterval(x, interval)
    decreases |records|
  {
    if |records| == 0 then []
    else (if InInterval(records[0], interval) then [records[0]] else []) + Keep(records[1..], interval)
  }

  /** Filtering distributes over concatenation, so the order of the log is kept. */
  lemma {:induction false} KeepAppend(a: seq<Record>, b: seq<Record>, interval: Interval)
    ensures Keep(a + b, interval) == Keep(a, interval) + Keep(b, interval)
    decreases |a|
  {
    if |a| > 0 {
      assert (a + b)[1..] == a[1..] + b;
      KeepAppend(a[1..], b, interval);
    } else {
      assert a + b == b;
    }
  }

  /** A log lying wholly in the interval is kept whole, and filtering twice changes nothing. */
  lemma {:induction false} KeepAll(records: seq<Record>, interval: Interval)
    requires forall i :: 0 <= i < |records| ==> InInterval(records[i], interval)
    ensures Keep(records, interval) == records
    decreases |records|
  {
    if |records| > 0 {
      KeepAll(records[1..], interval);
    }
  }

  lemma KeepIdempotent(records: seq<Record>, interval: Interval)
    ensures Keep(Keep(records, interval), interval) == Keep(records, interval)
  {
    KeepAll(Keep(records, interval), interval);
  }

  /**
   * `filter_events`: the parsed records inside the interval, or a panic when
   * some line of the log has no integer timestamp. It never fails otherwise.
   */
  function FilterEvents(lines: seq<string>, interval: Interval): (r: Result<seq<Record>>)
    ensures !r.Err?
    ensures r.Abort? <==> exists i :: 0 <= i < |lines| && ParseLine(lines[i]).None?
    ensures r.Ok? ==>
      (forall i :: 0 <= i < |r.value| ==> InInterval(r.value[i], interval))
      && (forall x :: x in r.value <==> (exists i :: 0 <= i < |lines| && ParseLine(lines[i]) == Some(x)) && InInterval(x, interval))
  {
    match ParseLog(lines)
    case None => Abort
    case Some(records) => Ok(Keep(records, interval))
  }

  /**
   * `get_latest_event`: the event on the last line of the log. An empty log
   * has none and counts as stopped.
   */
  function LatestEvent(lines: seq<string>): (e: Event)
    ensures |lines| == 0 ==> e == Stop(None, None)
    ensures |lines| > 0 ==> e == Decode(lines[|lines| - 1])
  {
    if |lines| == 0 then Stop(None, None) else Decode(lines[|lines| - 1])
  }

  /** After an event is written, it is the latest event, up to the round trip of its labels. */
  lemma LatestAfterAppend(lines: seq<string>, e: Event, timestamp: int)
    ensures LatestEvent(lines + [Encode(e, timestamp)]) == Decode(Encode(e, timestamp))
    ensures CommaFreeLabels(e) ==> (LatestEvent(lines + [Encode(e, timestamp)]).Start? <==> e.Start?)
  {
    if CommaFreeLabels(e) {
      EncodeKeepsKind(e, timestamp);
    }
  }

  // ---------------------------------------------------------------------
  // Tallying: seconds per project and description
  // ---------------------------------------------------------------------

  /** Seconds spent, by project name and then by description. */
  type Tally = map<string, map<string, int>>

  /** The seconds recorded for a project and description, zero when there is no entry. */
  function Entry(m: Tally, project: string, description: string): int
  {
    if project in m && description in m[project] then m[project][description] else 0
  }

  /** The `add_event_to_hashmap` closure: insert-or-add on the event's defaulted labels. */
  function Credit(m: Tally, time: int, e: Event): Tally
  {
    var project, description := ToProject(e), ToDescription(e);
    if project in m then
      var inner := m[project];
      if description in inner then m[project := inner[description := inner[description] + time]]
      else m[project := inner[description := time]]
    else
      m[project := map[description := time]]
  }

  /**
   * Crediting adds `time` to the entry for the event's defaulted labels, or
   * creates that entry (and its project) with `time` when it is missing. No
   * other entry changes and no other entry appears.
   */
  lemma CreditEntries(m: Tally, time: int, e: Event)
    ensures var r := Credit(m, time, e);
      && r.Keys == m.Keys + {ToProject(e)}
      && (forall p :: p in r ==>
           r[p].Keys == (if p in m then m[p].Keys else {}) + (if p == ToProject(e) then {ToDescription(e)} else {}))
      && r[ToProject(e)][ToDescription(e)] == Entry(m, ToProject(e), ToDescription(e)) + time
      && (forall p, d :: p in m && d in m[p] && (p != ToProject(e) || d != ToDescription(e)) ==>
           r[p][d] == m[p][d])
  {
  }

  /** Crediting an event without a project or with "Unnamed project" lands on the same entry. */
  lemma CreditMergesUnnamed(m: Tally, time: int, description: Option<string>)
    ensures Credit(m, time, Start(None, description)) == Credit(m, time, Start(Some(UnnamedProject), description))
    ensures Credit(m, time, Stop(None, description)) == Credit(m, time, Start(None, description))
  {
  }

  /** The sum of the values of a map. */
  ghost function SumValues<K>(m: map<K, int>): int
    decreases |m.Keys|
  {
    if m == map[] then 0
    else
      var k :| k in m;
      m[k] + SumValues(m - {k})
  }

  lemma {:induction false} SumValuesRemove<K>(m: map<K, int>, k: K)
    requires k in m
    ensures SumValues(m) == m[k] + SumValues(m - {k})
    decreases |m.Keys|
  {
    var x :| x in m && SumValues(m) == m[x] + SumValues(m - {x});
    if x != k {
      var mx, mk := m - {x}, m - {k};
      assert mx.Keys == m.Keys - {x} && mk.Keys == m.Keys - {k};
      SumValuesRemove(mx, k);
      SumValuesRemove(mk, x);
      assert mx - {k} == mk - {x};
    }
  }

  /** Setting one key changes the sum by the difference at that key. */
  lemma SumValuesUpdate<K>(m: map<K, int>, k: K, v: int)
    ensures SumValues(m[k := v]) == SumValues(m) - (if k in m then m[k] else 0) + v
  {
    SumValuesRemove(m[k := v], k);
    if k in m {
      SumValuesRemove(m, k);
      assert m[k := v] - {k} == m - {k};
    } else {
      assert m[k := v] - {k} == m;
    }
  }

  /** The seconds of each project. */
  ghost function ProjectSums(m: Tally): map<string, int>
  {
    map p | p in m :: SumValues(m[p])
  }

  /** All seconds of a tally. */
  ghost function Total(m: Tally): int
  {
    SumValues(ProjectSums(m))
  }

  /** Replacing one project's descriptions changes the total by the difference of their sums. */
  lemma TotalSetProject(m: Tally, project: string, inner: map<string, int>)
    ensures Total(m[project := inner])
      == Total(m) - (if project in m then SumValues(m[project]) else 0) + SumValues(inner)
  {
    assert ProjectSums(m[project := inner]) == ProjectSums(m)[project := SumValues(inner)];
    SumValuesUpdate(ProjectSums(m), project, SumValues(inner));
  }

  /** Crediting `time` adds exactly `time` to the total. */
  lemma TotalCredit(m: Tally, time: int, e: Event)
    ensures Total(Credit(m, time, e)) == Total(m) + time
  {
    var p, d := ToProject(e), ToDescription(e);
    if p in m {
      var inner := m[p];
      var v := if d in inner then inner[d] + time else time;
      assert Credit(m, time, e) == m[p := inner[d := v]];
      TotalSetProject(m, p, inner[d := v]);
      SumValuesUpdate(inner, d, v);
    } else {
      var empty: map<string, int> := map[];
      assert Credit(m, time, e) == m[p := empty[d := time]];
      TotalSetProject(m, p, empty[d := time]);
      SumValuesUpdate(empty, d, time);
    }
  }

  // ---------------------------------------------------------------------
  // `tally_time`
  // ---------------------------------------------------------------------

  /**
   * `events.chunks(2).for_each(add_events_to_hashmap)` on an even number of
   * records: each pair credits the second timestamp minus the first to the
   * first record's labels.
   */
  function ChunksCredit(m: Tally, s: seq<Record>): Tally
    requires |s| % 2 == 0
    decreases |s|
  {
    if |s| == 0 then m
    else ChunksCredit(Credit(m, s[1].timestamp - s[0].timestamp, s[0].event), s[2..])
  }

  /**
   * Pairing only adds projects: every project already credited stays, and
   * every chunk's first record leaves its project among the keys.
   */
  lemma {:induction false} ChunksCreditKeys(m: Tally, s: seq<Record>)
    requires |s| % 2 == 0
    ensures m.Keys <= ChunksCredit(m, s).Keys
    ensures forall k :: 0 <= k < |s| && k % 2 == 0 ==> ToProject(s[k].event) in ChunksCredit(m, s)
    decreases |s|
  {
    if |s| > 0 {
      var credited := Credit(m, s[1].timestamp - s[0].timestamp, s[0].event);
      ChunksCreditKeys(credited, s[2..]);
      CreditEntries(m, s[1].timestamp - s[0].timestamp, s[0].event);
      forall k | 2 <= k < |s| && k % 2 == 0 ensures ToProject(s[k].event) in ChunksCredit(m, s) {
        assert s[k] == s[2..][k - 2];
      }
    }
  }

  /** The first chunk of an even, non-empty sequence of records is credited first. */
  lemma ChunksCreditFirst(m: Tally, s: seq<Record>)
    requires |s| > 0 && |s| % 2 == 0
    ensures |s| >= 2 && |s[2..]| % 2 == 0
    ensures ChunksCredit(m, s) == ChunksCredit(Credit(m, s[1].timestamp - s[0].timestamp, s[0].event), s[2..])
  {
  }

  /**
   * The match of `tally_time` on the filtered records. Nothing in the
   * interval gives `None`; a lone Stop is credited from the interval's start
   * and a lone Start up to its end. Otherwise the records are paired, after
   * setting aside a leading Stop and a trailing Start, which are credited
   * the same way to their own labels afterwards. Pairing an odd number of
   * records indexes past the last chunk and panics.
   */
  function TallyOf(events: seq<Record>, interval: Interval): (r: Result<Option<Tally>>)
    ensures r == Ok(None) <==> |events| == 0
    ensures !r.Err?
  {
    if |events| == 0 then Ok(None)
    else if |events| == 1 then
      var x := events[0];
      var time := if x.event.Stop? then x.timestamp - interval.start else interval.end - x.timestamp;
      Ok(Some(map[ToProject(x.event) := map[ToDescription(x.event) := time]]))
    else
      var first, last := events[0], events[|events| - 1];
      var lo := if first.event.Stop? then 1 else 0;
      var hi := if last.event.Start? then |events| - 1 else |events|;
      if (hi - lo) % 2 != 0 then Abort
      else
        var paired := ChunksCredit(map[], events[lo..hi]);
        var withStop := if first.event.Stop? then Credit(paired, first.timestamp - interval.start, first.event) else paired;
        var withStart := if last.event.Start? then Credit(withStop, interval.end - last.timestamp, last.event) else withStop;
        Ok(Some(withStart))
  }

  /** The pairing loop, stopping with `false` where the odd last chunk would panic. */
  method CreditChunks(m: Tally, s: seq<Record>) returns (r: Tally, complete: bool)
    ensures complete <==> |s| % 2 == 0
    ensures complete ==> r == ChunksCredit(m, s)
  {
    r := m;
    var i := 0;
    while i < |s|
      invariant 0 <= i <= |s| && i % 2 == 0
      invariant |s| % 2 == 0 ==> ChunksCredit(r, s[i..]) == ChunksCredit(m, s)
    {
      if i + 1 == |s| {
        return r, false;
      }
      assert s[i..][2..] == s[i + 2..];
      r := Credit(r, s[i + 1].timestamp - s[i].timestamp, s[i].event);
      i := i + 2;
    }
    assert s[i..] == [];
    complete := true;
  }

  /** The in-place build of the tally from the filtered records, shape by shape. */
  method TallyRecords(events: seq<Record>, interval: Interval) returns (r: Result<Option<Tally>>)
    ensures r == TallyOf(events, interval)
  {
    var projects: Tally := map[];
    if |events| == 0 {
      return Ok(None);
    }
    if |events| == 1 {
      var x := events[0];
      var time := if x.event.Stop? then x.timestamp - interval.start else interval.end - x.timestamp;
      projects := projects[ToProject(x.event) := map[ToDescription(x.event) := time]];
      return Ok(Some(projects));
    }
    var first, last := events[0], events[|events| - 1];
    var lo := if first.event.Stop? then 1 else 0;
    var hi := if last.event.Start? then |events| - 1 else |events|;
    var complete;
    projects, complete := CreditChunks(projects, events[lo..hi]);
    if !complete {
      return Abort;
    }
    if first.event.Stop? {
      projects := Credit(projects, first.timestamp - interval.start, first.event);
    }
    if last.event.Start? {
      projects := Credit(projects, interval.end - last.timestamp, last.event);
    }
    return Ok(Some(projects));
  }

  /**
   * `tally_time`: filter the log to the interval, then tally the records. A
   * log line without an integer timestamp panics; so does an odd number of
   * records to pair.
   */
  method TallyTime(lines: seq<string>, interval: Interval) returns (r: Result<Option<Tally>>)
    ensures FilterEvents(lines, interval).Abort? ==> r.Abort?
    ensures FilterEvents(lines, interval).Ok? ==> r == TallyOf(FilterEvents(lines, interval).value, interval)
  {
    var filtered := FilterEvents(lines, interval);
    if !filtered.Ok? {
      return Abort;
    }
    r := TallyRecords(filtered.value, interval);
  }

  // ---------------------------------------------------------------------
  // What the tally adds up to
  // ---------------------------------------------------------------------

  /** Records that switch between Start and Stop at every step, as `start` and `stop` write them. */
  predicate Alternates(events: seq<Record>)
  {
    forall i :: 0 <= i < |events| - 1 ==> (events[i].event.Start? <==> events[i + 1].event.Stop?)
  }

  /**
   * The seconds the record at `i` accounts for inside the interval: a Start
   * runs to the next record, or to the interval's end when it is the last; a
   * Stop that opens the interval ends work that began before the interval's
   * start; any other Stop accounts for nothing.
   */
  function Span(events: seq<Record>, i: int, interval: Interval): int
    requires 0 <= i < |events|
  {
    if events[i].event.Start? then
      (if i + 1 < |events| then events[i + 1].timestamp else interval.end) - events[i].timestamp
    else if i == 0 then
      events[0].timestamp - interval.start
    else
      0
  }

  function SpanSum(events: seq<Record>, lo: int, hi: int, interval: Interval): int
    requires 0 <= lo <= hi <= |events|
    decreases hi - lo
  {
    if lo == hi then 0 else Span(events, lo, interval) + SpanSum(events, lo + 1, hi, interval)
  }

  /** The seconds worked inside the interval, record by record. */
  function WorkedTime(events: seq<Record>, interval: Interval): int
  {
    SpanSum(events, 0, |events|, interval)
  }

  lemma {:induction false} SpanSumSnoc(events: seq<Record>, lo: int, hi: int, interval: Interval)
    requires 0 <= lo < hi <= |events|
    ensures SpanSum(events, lo, hi, interval) == SpanSum(events, lo, hi - 1, interval) + Span(events, hi - 1, interval)
    decreases hi - lo
  {
    if lo < hi - 1 {
      SpanSumSnoc(events, lo + 1, hi, interval);
    }
  }

  /** In alternating records, the kind at `i` follows from the kind of the first and the parity of `i`. */
  lemma {:induction false} AlternatesParity(events: seq<Record>, i: int)
    requires Alternates(events) && 0 <= i < |events|
    ensures events[i].event.Start? <==> (events[0].event.Start? <==> i % 2 == 0)
    decreases i
  {
    if i > 0 {
      AlternatesParity(events, i - 1);
    }
  }

  /** Pairing an alternating run that opens with a Start adds up the spans of its records. */
  lemma {:induction false} ChunksTotal(m: Tally, events: seq<Record>, lo: int, hi: int, interval: Interval)
    requires Alternates(events)
    requires 0 <= lo <= hi <= |events| && (hi - lo) % 2 == 0
    requires lo < hi ==> events[lo].event.Start?
    ensures Total(ChunksCredit(m, events[lo..hi])) == Total(m) + SpanSum(events, lo, hi, interval)
    decreases hi - lo
  {
    if lo < hi {
      var s := events[lo..hi];
      assert s[0] == events[lo] && s[1] == events[lo + 1] && s[2..] == events[lo + 2..hi];
      var credited := Credit(m, events[lo + 1].timestamp - events[lo].timestamp, events[lo].event);
      assert ChunksCredit(m, s) == ChunksCredit(credited, events[lo + 2..hi]);
      TotalCredit(m, events[lo + 1].timestamp - events[lo].timestamp, events[lo].event);
      assert events[lo + 1].event.Stop?;
      assert Span(events, lo + 1, interval) == 0;
      ChunksTotal(credited, events, lo + 2, hi, interval);
    }
  }

  lemma TotalEmpty()
    ensures Total(map[]) == 0
  {
    assert ProjectSums(map[]) == map[];
  }

  /** A lone record's tally is a credit to an empty tally. */
  lemma TallySingle(events: seq<Record>, interval: Interval)
    requires |events| == 1
    ensures TallyOf(events, interval) == Ok(Some(Credit(map[], Span(events, 0, interval), events[0].event)))
  {
  }

  /** The worked time split into a leading Stop, the paired middle and a trailing Start. */
  lemma WorkedTimeParts(events: seq<Record>, lo: int, hi: int, interval: Interval)
    requires |events| >= 2
    requires lo == (if events[0].event.Stop? then 1 else 0)
    requires hi == (if events[|events| - 1].event.Start? then |events| - 1 else |events|)
    requires lo <= hi
    ensures WorkedTime(events, interval)
      == (if lo == 1 then Span(events, 0, interval) else 0)
       + SpanSum(events, lo, hi, interval)
       + (if hi < |events| then Span(events, |events| - 1, interval) else 0)
  {
    var n := |events|;
    SpanSumSnoc(events, 0, n, interval);
    if lo == 1 && hi < n {
      SpanSumSnoc(events, 1, n, interval);
    }
  }

  /** For alternating records the two boundaries never overlap and the middle pairs up. */
  lemma AlternatingShape(events: seq<Record>, lo: int, hi: int)
    requires Alternates(events) && |events| >= 2
    requires lo == (if events[0].event.Stop? then 1 else 0)
    requires hi == (if events[|events| - 1].event.Start? then |events| - 1 else |events|)
    ensures lo <= hi && (hi - lo) % 2 == 0
    ensures lo < hi ==> events[lo].event.Start?
  {
    AlternatesParity(events, |events| - 1);
  }

  /**
   * For records that alternate between Start and Stop the tally never
   * panics, and its total is the time worked inside the interval: a Start
   * counts until the following Stop, a trailing Start until the interval's
   * end, and a leading Stop from the interval's start.
   */
  lemma TallyTotal(events: seq<Record>, interval: Interval)
    requires Alternates(events) && |events| > 0
    ensures TallyOf(events, interval).Ok? && TallyOf(events, interval).value.Some?
    ensures Total(TallyOf(events, interval).value.value) == WorkedTime(events, interval)
  {
    var n := |events|;
    TotalEmpty();
    if n == 1 {
      TallySingle(events, interval);
      TotalCredit(map[], Span(events, 0, interval), events[0].event);
    } else {
      var first, last := events[0], events[n - 1];
      var lo := if first.event.Stop? then 1 else 0;
      var hi := if last.event.Start? then n - 1 else n;
      AlternatingShape(events, lo, hi);
      var paired := ChunksCredit(map[], events[lo..hi]);
      var withStop := if first.event.Stop? then Credit(paired, first.timestamp - interval.start, first.event) else paired;
      var withStart := if last.event.Start? then Credit(withStop, interval.end - last.timestamp, last.event) else withStop;
      assert TallyOf(events, interval) == Ok(Some(withStart));
      ChunksTotal(map[], events, lo, hi, interval);
      TotalCredit(paired, first.timestamp - interval.start, first.event);
      TotalCredit(withStop, interval.end - last.timestamp, last.event);
      assert Total(withStop) == (if lo == 1 then Span(events, 0, interval) else 0) + SpanSum(events, lo, hi, interval);
      WorkedTimeParts(events, lo, hi, interval);
    }
  }

  /**
   * An example of an unpairable selection: Start, Start, Stop leaves an odd
   * run between the boundary records, and the tally panics.
   */
  lemma DoubleStartAborts(interval: Interval)
    ensures TallyOf([Record(0, Start(None, None)), Record(1, Start(None, None)), Record(2, Stop(None, None))], interval).Abort?
  {
  }

  /**
   * A documented scenario: a session of project "Proj" from 100 to 200 and a
   * start at 300. Between 50 and 250 only the session is selected, and it is
   * credited 100 seconds.
   */
  lemma TallyScenario()
    ensures var records := [
        Record(100, Start(Some("Proj"), Some("Desc"))),
        Record(200, Stop(Some("Proj"), Some("Desc"))),
        Record(300, Start(Some("Proj2"), None))];
      && Keep(records, Interval(50, 250)) == records[..2]
      && TallyOf(records[..2], Interval(50, 250)) == Ok(Some(map["Proj" := map["Desc" := 100]]))
      && Keep(records, Interval(0, 50)) == []
  {
    var records := [
        Record(100, Start(Some("Proj"), Some("Desc"))),
        Record(200, Stop(Some("Proj"), Some("Desc"))),
        Record(300, Start(Some("Proj2"), None))];
    assert records[1..][1..][1..] == [];
    var session := records[..2];
    assert session[0..2] == session && session[2..] == [];
    assert ChunksCredit(map[], session) == Credit(map[], 100, session[0].event);
  }
}
