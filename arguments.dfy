/** The output time formats of the `of` subcommand and their command-line spellings. */
module Arguments {
  import opened Errors

  /** `TimeFormat`: how `of` prints a number of seconds. */
  datatype TimeFormat = Minutes | MinutesApprox | HoursApprox | HumanReadable

  const InvalidTimeFormat: string := "Valid values are [m, minutes, ma, minutes-approx, h, hours, hr, human-readable]"

  /** The `possible_values` of `--time-format`, in the order they are declared. */
  const PossibleValues: seq<string> := ["m", "minutes", "ma", "minutes-approx", "h", "hours", "hr", "human-readable"]

  /** The `default_value` of `--time-format`. */
  const DefaultTimeFormat: string := "human-readable"

  /** The two spellings of each format, the short one first. */
  function Spellings(format: TimeFormat): (names: seq<string>)
    ensures |names| == 2 && names[0] != names[1]
  {
    match format
    case Minutes => ["m", "minutes"]
    case MinutesApprox => ["ma", "minutes-approx"]
    case HoursApprox => ["h", "hours"]
    case HumanReadable => ["hr", "human-readable"]
  }

  /**
   * `TimeFormat::from_str`: one of the eight spellings, compared exactly, or
   * a user error listing them. It never panics.
   */
  function FromStr(s: string): (r: Result<TimeFormat>)
    ensures r.Ok? ==> s in Spellings(r.value)
    ensures r.Err? ==> r.error == User(InvalidTimeFormat)
    ensures !r.Abort?
  {
    if s == "m" then Ok(Minutes)
    else if s == "minutes" then Ok(Minutes)
    else if s == "h" then Ok(HoursApprox)
    else if s == "hours" then Ok(HoursApprox)
    else if s == "ma" then Ok(MinutesApprox)
    else if s == "minutes-approx" then Ok(MinutesApprox)
    else if s == "hr" then Ok(HumanReadable)
    else if s == "human-readable" then Ok(HumanReadable)
    else Err(User(InvalidTimeFormat))
  }

  /** A string parses to a format exactly when it is one of that format's two spellings. */
  lemma FromStrSpellings(format: TimeFormat, s: string)
    ensures FromStr(s) == Ok(format) <==> s in Spellings(format)
  {
    if s in Spellings(format) {
      assert s == Spellings(format)[0] || s == Spellings(format)[1];
    }
  }

  /** Exactly the eight declared values are accepted. */
  lemma FromStrAccepts(s: string)
    ensures FromStr(s).Ok? <==> s in PossibleValues
  {
    if s in PossibleValues {
      var i :| 0 <= i < |PossibleValues| && PossibleValues[i] == s;
      assert i < 8;
    }
  }

  /** The declared values are the spellings of the four formats, two by two. */
  lemma PossibleValuesAreSpellings()
    ensures PossibleValues == Spellings(Minutes) + Spellings(MinutesApprox) + Spellings(HoursApprox) + Spellings(HumanReadable)
  {
  }

  /** `h` and `hours` both mean the approximate hours. */
  lemma HoursSpellings()
    ensures FromStr("h") == Ok(HoursApprox) && FromStr("hours") == Ok(HoursApprox)
  {
  }

  /** Spellings are compared exactly: a different case is refused. */
  lemma CaseMatters()
    ensures FromStr("M") == Err(User(InvalidTimeFormat))
    ensures FromStr("Human-Readable") == Err(User(InvalidTimeFormat))
  {
  }

  /** The default value parses to the human-readable form. */
  lemma DefaultParses()
    ensures FromStr(DefaultTimeFormat) == Ok(HumanReadable)
    ensures DefaultTimeFormat in PossibleValues
  {
  }
}
