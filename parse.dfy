/**
 * parseConfigFile: the line loop that turns a configuration file into a table of sections,
 * as a specification function (Run) and as the loop itself (ParseConfigFile).
 */
module Parse {
  import opened Wrappers
  import opened Errors
  import opened Text
  import opened Syntax

  /** Key/value pairs found before any header belong to this section. */
  const DefaultSectionName := "General"

  /** Section name to the key/value pairs of that section. */
  type Table = map<string, map<string, string>>

  /** The file as parseConfigFile sees it: its lines, or the reason os.Open failed. */
  datatype File = Readable(lines: seq<string>) | Unopenable(reason: string)

  /** The loop's variables: the current section and the table built so far. */
  datatype State = State(section: string, table: Table)

  /** How the loop ends: after the last line, or at an invalid line with the state before it. */
  datatype Outcome = Done(state: State) | Failed(state: State, error: Error)
  {
    /** The `err` result parseConfigFile returns with this outcome. */
    function Failure(): Option<Error>
    {
      if Failed? then Some(error) else None
    }
  }

  function Initial(): State
  {
    State(DefaultSectionName, map[DefaultSectionName := map[]])
  }

  /** `conf[section][key] = value`, creating the section's map on demand. */
  function Store(t: Table, section: string, key: string, value: string): (r: Table)
    ensures r.Keys == t.Keys + {section}
    ensures key in r[section] && r[section][key] == value
    ensures forall k :: k != key ==>
      (k in r[section] <==> section in t && k in t[section]) &&
      (k in r[section] ==> r[section][k] == t[section][k])
    ensures forall s :: s in t && s != section ==> r[s] == t[s]
  {
    var inner := if section in t then t[section] else map[];
    t[section := inner[key := value]]
  }

  /** Every line of the file, classified. */
  function Kinds(lines: seq<string>): (ks: seq<LineKind>)
  {
    seq(|lines|, i requires 0 <= i < |lines| => Classify(lines[i]))
  }

  /** One iteration of the loop, on a line that has been classified. */
  function Step(st: State, kind: LineKind): (r: Result<State, Error>)
    ensures r.Err? <==> kind.Invalid?
    ensures r.Err? ==> r.error == InvalidLine(kind.text)
  {
    match kind
    case Blank => Ok(st)
    case Header(name) => Ok(st.(section := name))
    case Pair(key, value) => Ok(st.(table := Store(st.table, st.section, key, value)))
    case Invalid(text) => Err(InvalidLine(text))
  }

  /**
   * A step never drops a section; only a header changes the current section, and only a
   * key/value line changes the table.
   */
  lemma StepKeeps(st: State, kind: LineKind)
    requires Step(st, kind).Ok?
    ensures Step(st, kind).value.table.Keys >= st.table.Keys
    ensures !kind.Header? ==> Step(st, kind).value.section == st.section
    ensures !kind.Pair? ==> Step(st, kind).value.table == st.table
  {
  }

  /** The loop run over the classified lines, one at a time from the first. */
  function Run(kinds: seq<LineKind>): (r: Outcome)
    ensures DefaultSectionName in r.state.table
    ensures r.Failed? ==> r.error.InvalidLine?
    decreases |kinds|
  {
    if kinds == [] then Done(Initial())
    else
      match Run(kinds[..|kinds| - 1])
      case Failed(st, e) => Failed(st, e)
      case Done(st) =>
        match Step(st, kinds[|kinds| - 1])
        case Ok(next) => Done(next)
        case Err(e) => Failed(st, e)
  }

  /** The table lookupSection receives, or the error that made parseConfigFile return early. */
  function Parsed(file: File): (r: Result<Table, Error>)
    ensures file.Unopenable? ==> r == Err(OpenFailed(file.reason))
    ensures file.Readable? && r.Err? ==> r.error.InvalidLine?
    ensures r.Ok? ==> DefaultSectionName in r.value
  {
    match file
    case Unopenable(reason) => Err(OpenFailed(reason))
    case Readable(lines) =>
      match Run(Kinds(lines))
      case Done(st) => Ok(st.table)
      case Failed(_, e) => Err(e)
  }

  /** The loop body's tests, in its order: blank, then header, then key/value, else an error. */
  lemma StepCases(st: State, raw: string)
    ensures var line := Clean(raw);
      Step(st, Classify(raw)) ==
        if line == [] then Ok(st)
        else if MatchSection(line).Some? then Ok(st.(section := MatchSection(line).value))
        else if MatchKeyVal(line).Some? then
          Ok(st.(table := Store(st.table, st.section, MatchKeyVal(line).value.key, MatchKeyVal(line).value.value)))
        else Err(InvalidLine(line))
  {
  }

  /** Run on one more line is Run so far followed by Step. */
  lemma RunNext(kinds: seq<LineKind>, i: nat)
    requires i < |kinds|
    ensures Run(kinds[..i + 1]) ==
      match Run(kinds[..i])
      case Failed(st, e) => Failed(st, e)
      case Done(st) =>
        match Step(st, kinds[i])
        case Ok(next) => Done(next)
        case Err(e) => Failed(st, e)
  {
    assert kinds[..i + 1][..i] == kinds[..i];
  }

  /** Once the loop has failed, later lines are never looked at. */
  lemma {:induction false} FailedIsFinal(kinds: seq<LineKind>, n: nat)
    requires n <= |kinds| && Run(kinds[..n]).Failed?
    ensures Run(kinds) == Run(kinds[..n])
    decreases |kinds|
  {
    if n < |kinds| {
      var init := kinds[..|kinds| - 1];
      assert init[..n] == kinds[..n];
      FailedIsFinal(init, n);
    } else {
      assert kinds[..n] == kinds;
    }
  }

  /**
   * parseConfigFile over an already opened and split file. Like the Go function's named
   * results, `conf` on an error is the table built before the offending line.
   */
  method ParseConfigFile(file: File) returns (conf: Table, err: Option<Error>)
    ensures file.Unopenable? ==> conf == map[] && err == Some(OpenFailed(file.reason))
    ensures file.Readable? ==> conf == Run(Kinds(file.lines)).state.table && err == Run(Kinds(file.lines)).Failure()
  {
    if file.Unopenable? {
      conf, err := map[], Some(OpenFailed(file.reason));
      return;
    }
    var lines := file.lines;
    ghost var kinds := Kinds(lines);
    conf := map[DefaultSectionName := map[]];
    err := None;
    var section := DefaultSectionName;
    var i := 0;
    while i < |lines|
      invariant 0 <= i <= |lines|
      invariant Run(kinds[..i]) == Done(State(section, conf))
    {
      RunNext(kinds, i);
      StepCases(State(section, conf), lines[i]);
      var line := lines[i];
      line := StripComment(line);
      line := TrimSpace(line);
      assert line == Clean(lines[i]);
      if |line| == 0 {
        i := i + 1;
        continue;
      }
      var md := MatchSection(line);
      if md.Some? {
        section := md.value;
      } else {
        var kv := MatchKeyVal(line);
        if kv.Some? {
          var inner: map<string, string> := map[];   // a section without a map yet gets a new one
          if section in conf {
            inner := conf[section];
          }
          conf := conf[section := inner[kv.value.key := kv.value.value]];
        } else {
          err := Some(InvalidLine(line));
          FailedIsFinal(kinds, i + 1);
          return;
        }
      }
      i := i + 1;
    }
    assert kinds[..i] == kinds;
  }
}
