/**
 * The project map: seconds spent per project and description, filled in
 * place by crediting events and rendered as CSV. How a number of seconds is
 * printed depends on the chosen time format and is passed in as a function.
 */
module ProjectMaps {
  import opened LogFile

  const CsvHeader: string := "Project,Description,Time Spent\n"

  /** One CSV line: project, description and the formatted time. */
  function CsvRow(project: string, description: string, formatted: string): string
  {
    project + "," + description + "," + formatted + "\n"
  }

  /** A (project, description) pair that has an entry in the map. */
  predicate HasEntry(m: Tally, key: (string, string))
  {
    key.0 in m && key.1 in m[key.0]
  }

  /** No entry is listed twice. */
  ghost predicate Distinct(order: seq<(string, string)>)
  {
    forall i, j :: 0 <= i < j < |order| ==> order[i] != order[j]
  }

  /** Listing an entry not listed yet keeps the list free of repeats. */
  lemma DistinctAppend(order: seq<(string, string)>, key: (string, string))
    requires Distinct(order) && key !in order
    ensures Distinct(order + [key])
  {
    var longer := order + [key];
    forall i, j | 0 <= i < j < |longer| ensures longer[i] != longer[j] {
      if j < |order| {
        assert longer[i] == order[i] && longer[j] == order[j];
      } else {
        assert longer[i] == order[i];
      }
    }
  }

  /** `order` lists every entry of `m` exactly once. */
  ghost predicate Enumerates(order: seq<(string, string)>, m: Tally)
  {
    Distinct(order) && (forall key :: key in order <==> HasEntry(m, key))
  }

  /** The CSV lines of the listed entries, in the order given. */
  function CsvRows(order: seq<(string, string)>, m: Tally, format: int -> string): string
    requires forall i :: 0 <= i < |order| ==> HasEntry(m, order[i])
  {
    if |order| == 0 then ""
    else
      var key := order[|order| - 1];
      assert HasEntry(m, key);
      CsvRows(order[..|order| - 1], m, format) + CsvRow(key.0, key.1, format(m[key.0][key.1]))
  }

  /** Listing one more entry adds its line at the end. */
  lemma CsvRowsAppend(order: seq<(string, string)>, key: (string, string), m: Tally, format: int -> string)
    requires forall i :: 0 <= i < |order| ==> HasEntry(m, order[i])
    requires HasEntry(m, key)
    ensures CsvRows(order + [key], m, format) == CsvRows(order, m, format) + CsvRow(key.0, key.1, format(m[key.0][key.1]))
  {
    assert (order + [key])[..|order|] == order;
  }

  /** The same, behind the header. */
  lemma CsvAppend(order: seq<(string, string)>, key: (string, string), m: Tally, format: int -> string)
    requires forall i :: 0 <= i < |order| ==> HasEntry(m, order[i])
    requires HasEntry(m, key)
    ensures CsvHeader + CsvRows(order + [key], m, format)
      == CsvHeader + CsvRows(order, m, format) + CsvRow(key.0, key.1, format(m[key.0][key.1]))
  {
    CsvRowsAppend(order, key, m, format);
  }

  /** Replacing a project's descriptions with a single one, as `add_clean_event` does. */
  function CleanInsert(m: Tally, time: int, e: Event): (r: Tally)
    ensures r.Keys == m.Keys + {ToProject(e)}
    ensures r[ToProject(e)] == map[ToDescription(e) := time]
    ensures forall p :: p in m && p != ToProject(e) ==> r[p] == m[p]
  {
    m[ToProject(e) := map[ToDescription(e) := time]]
  }

  /**
   * On a project that is not there yet, the blind insert is a credit; on one
   * that is, it throws away the project's other descriptions.
   */
  lemma CleanInsertIsCredit(m: Tally, time: int, e: Event)
    requires ToProject(e) !in m
    ensures CleanInsert(m, time, e) == Credit(m, time, e)
  {
  }

  lemma CleanInsertDiscards(m: Tally, time: int, e: Event, other: string)
    requires ToProject(e) in m && other in m[ToProject(e)] && other != ToDescription(e)
    ensures other !in CleanInsert(m, time, e)[ToProject(e)]
    ensures Total(CleanInsert(m, time, e)) == Total(m) - SumValues(m[ToProject(e)]) + time
  {
    TotalSetProject(m, ToProject(e), map[ToDescription(e) := time]);
    var empty: map<string, int> := map[];
    SumValuesUpdate(empty, ToDescription(e), time);
  }

  /**
   * Partway through the descriptions of `project`: `order` extends `order0`
   * with the entries of `project` whose descriptions are no longer
   * `remaining`, each once.
   */
  ghost predicate ListedSoFar(m: Tally, project: string, order0: seq<(string, string)>, order: seq<(string, string)>, remaining: set<string>)
    requires project in m
  {
    && remaining <= m[project].Keys
    && (forall i :: 0 <= i < |order| ==> HasEntry(m, order[i]))
    && (forall i :: 0 <= i < |order| ==> order[i].0 == project ==> order[i].1 !in remaining)
    && Distinct(order)
    && (forall key :: key in order <==> key in order0 || (key.0 == project && key.1 in m[project] && key.1 !in remaining))
  }

  /** Listing one more remaining description keeps the listing on track. */
  lemma ListOneMore(m: Tally, project: string, order0: seq<(string, string)>, order: seq<(string, string)>, remaining: set<string>, description: string)
    requires project in m && description in remaining
    requires ListedSoFar(m, project, order0, order, remaining)
    ensures (project, description) !in order && HasEntry(m, (project, description))
    ensures ListedSoFar(m, project, order0, order + [(project, description)], remaining - {description})
  {
    var key := (project, description);
    assert key !in order by {
      forall i | 0 <= i < |order| ensures order[i] != key {
        assert order[i].0 == project ==> order[i].1 !in remaining;
      }
    }
    DistinctAppend(order, key);
    var longer := order + [key];
    assert forall i :: 0 <= i < |order| ==> longer[i] == order[i];
  }

  /** The inner loop of `as_csv`: one line for each description of `project`. */
  method AppendProjectRows(m: Tally, project: string, format: int -> string, csv0: string, ghost order0: seq<(string, string)>)
    returns (csv: string, ghost order: seq<(string, string)>)
    requires project in m
    requires forall i :: 0 <= i < |order0| ==> HasEntry(m, order0[i]) && order0[i].0 != project
    requires Distinct(order0)
    requires csv0 == CsvHeader + CsvRows(order0, m, format)
    ensures forall i :: 0 <= i < |order| ==> HasEntry(m, order[i])
    ensures Distinct(order)
    ensures forall key :: key in order <==> key in order0 || (key.0 == project && key.1 in m[project])
    ensures csv == CsvHeader + CsvRows(order, m, format)
  {
    csv, order := csv0, order0;
    var descriptions := m[project];
    var remaining := descriptions.Keys;
    while remaining != {}
      invariant ListedSoFar(m, project, order0, order, remaining)
      invariant csv == CsvHeader + CsvRows(order, m, format)
      decreases |remaining|
    {
      var description :| description in remaining;
      ListOneMore(m, project, order0, order, remaining, description);
      CsvAppend(order, (project, description), m, format);
      csv := csv + CsvRow(project, description, format(descriptions[description]));
      order := order + [(project, description)];
      remaining := remaining - {description};
    }
  }

  /** Dropping the remainder of a length leaves an even length, and nothing is dropped from an even one. */
  lemma EvenPart(n: nat)
    ensures 0 <= n - n % 2 <= n && (n - n % 2) % 2 == 0
    ensures n % 2 == 0 <==> n - n % 2 == n
  {
  }

  class ProjectMap {
    var projects: Tally

    constructor()
      ensures projects == map[]
    {
      projects := map[];
    }

    /**
     * `add_event`: the entry API's insert-or-add on the event's defaulted
     * labels. The map becomes the credit of the old one, so its total grows
     * by exactly `time` (`TotalCredit`).
     */
    method AddEvent(time: int, e: Event)
      modifies this
      ensures projects == Credit(old(projects), time, e)
    {
      var project, description := ToProject(e), ToDescription(e);
      if project in projects {
        var inner := projects[project];
        if description in inner {
          inner := inner[description := inner[description] + time];
        } else {
          inner := inner[description := time];
        }
        projects := projects[project := inner];
      } else {
        projects := projects[project := map[description := time]];
      }
    }

    /**
     * `add_events`: credit each pair of records, in order, with the second
     * timestamp minus the first, to the first record's labels. With an odd
     * number of records the last chunk holds one record and indexing its
     * second one panics: `complete` is then false, after every full pair has
     * been credited.
     */
    method AddEvents(events: seq<Record>) returns (complete: bool)
      modifies this
      ensures complete <==> |events| % 2 == 0
      ensures projects == ChunksCredit(old(projects), events[..|events| - |events| % 2])
    {
      var paired := events[..|events| - |events| % 2];
      EvenPart(|events|);
      ghost var goal := ChunksCredit(projects, paired);
      var i := 0;
      while i < |paired|
        invariant 0 <= i <= |paired| && |paired[i..]| % 2 == 0
        invariant ChunksCredit(projects, paired[i..]) == goal
      {
        var rest := paired[i..];
        assert rest[2..] == paired[i + 2..];
        ghost var credited := Credit(projects, rest[1].timestamp - rest[0].timestamp, rest[0].event);
        ChunksCreditFirst(projects, rest);
        assert ChunksCredit(credited, paired[i + 2..]) == goal;
        AddEvent(rest[1].timestamp - rest[0].timestamp, rest[0].event);
        assert projects == credited;
        i := i + 2;
      }
      assert paired[i..] == [];
      complete := |paired| == |events|;
    }

    /** `add_clean_event`: insert the project with this single description, whatever was there. */
    method AddCleanEvent(time: int, e: Event)
      modifies this
      ensures projects == CleanInsert(old(projects), time, e)
    {
      projects := projects[ToProject(e) := map[ToDescription(e) := time]];
    }

    /**
     * `as_csv`: the header, then one line per (project, description) entry,
     * in the map's iteration order, which is left unspecified.
     */
    method AsCsv(format: int -> string) returns (csv: string)
      ensures exists order :: Enumerates(order, projects) && csv == CsvHeader + CsvRows(order, projects, format)
    {
      csv := CsvHeader;
      ghost var order: seq<(string, string)> := [];
      var todo := projects.Keys;
      while todo != {}
        invariant todo <= projects.Keys
        invariant forall i :: 0 <= i < |order| ==> HasEntry(projects, order[i])
        invariant Distinct(order)
        invariant forall key :: key in order <==> HasEntry(projects, key) && key.0 !in todo
        invariant csv == CsvHeader + CsvRows(order, projects, format)
        decreases |todo|
      {
        var project :| project in todo;
        csv, order := AppendProjectRows(projects, project, format, csv, order);
        todo := todo - {project};
      }
    }
  }
}
