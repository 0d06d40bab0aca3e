/**
 * The Config facade: construction with option setters (New, TTL) and the section loader
 * that the cache calls on a miss (lookupSection).
 */
module Goconf {
  import opened Wrappers
  import opened Errors
  import opened Syntax
  import opened Parse
  import opened Semantics

  /** A duration is a plain count of time units; 0 means the cache never expires. */
  datatype Config = Config(pathname: string, ttl: int)

  /** The option setters New accepts; TTL is the only one the package defines. */
  datatype Setter = TTL(ttl: int)

  /** What a setter leaves behind: the config it was given, possibly updated, and its error. */
  datatype Applied = Applied(config: Config, failure: Option<Error>)

  /** The closure returned by TTL(ttl), applied to a config. */
  function Apply(setter: Setter, c: Config): (r: Applied)
    ensures r.failure.Some? <==> setter.ttl <= 0
    ensures r.failure.Some? ==> r.config == c && r.failure.value == NonPositiveTTL
    ensures r.failure.None? ==> r.config == Config(c.pathname, setter.ttl)
  {
    if setter.ttl <= 0 then Applied(c, Some(NonPositiveTTL))
    else Applied(c.(ttl := setter.ttl), None)
  }

  /** The setters applied in order to `c`, stopping at the first that fails. */
  function ApplyAll(setters: seq<Setter>, c: Config): (r: Result<Config, Error>)
    ensures r.Ok? ==> r.value.pathname == c.pathname
    ensures r.Ok? && setters != [] ==> r.value.ttl > 0
    ensures r.Err? ==> r.error == NonPositiveTTL
    decreases |setters|
  {
    if setters == [] then Ok(c)
    else
      var a := Apply(setters[0], c);
      if a.failure.Some? then Err(a.failure.value) else ApplyAll(setters[1..], a.config)
  }

  /**
   * The setter loop of New. Building the cache from the result is not modelled; the
   * expiry it is given is ExpiryOf of the returned config.
   */
  method New(pathname: string, setters: seq<Setter>) returns (r: Result<Config, Error>)
    ensures r == ApplyAll(setters, Config(pathname, 0))
  {
    var c := Config(pathname, 0);
    var i := 0;
    while i < |setters|
      invariant 0 <= i <= |setters|
      invariant ApplyAll(setters[i..], c) == ApplyAll(setters, Config(pathname, 0))
    {
      var a := Apply(setters[i], c);
      if a.failure.Some? {
        return Err(a.failure.value);
      }
      assert setters[i..][1..] == setters[i + 1..];
      c := a.config;
      i := i + 1;
    }
    return Ok(c);
  }

  /** The expiry New hands to the cache: the ttl when positive, otherwise none. */
  function ExpiryOf(c: Config): (e: Option<int>)
    ensures e.Some? <==> c.ttl > 0
    ensures e.Some? ==> e.value == c.ttl && e.value > 0
  {
    if c.ttl > 0 then Some(c.ttl) else None
  }

  /** New succeeds exactly when every ttl given is positive. */
  lemma {:induction false} ApplyAllSucceedsIff(setters: seq<Setter>, c: Config)
    ensures ApplyAll(setters, c).Ok? <==> forall i :: 0 <= i < |setters| ==> setters[i].ttl > 0
    decreases |setters|
  {
    if setters != [] {
      ApplyAllSucceedsIff(setters[1..], Apply(setters[0], c).config);
      assert forall i :: 1 <= i < |setters| ==> setters[i] == setters[1..][i - 1];
    }
  }

  /** The first non-positive ttl decides the result, whatever follows it. */
  lemma {:induction false} ApplyAllStopsAtFirstFailure(setters: seq<Setter>, c: Config, i: nat)
    requires i < |setters| && setters[i].ttl <= 0
    requires forall j :: 0 <= j < i ==> setters[j].ttl > 0
    ensures ApplyAll(setters, c) == Err(NonPositiveTTL)
    decreases i
  {
    if i > 0 {
      assert forall j :: 0 <= j < i - 1 ==> setters[1..][j] == setters[j + 1];
      ApplyAllStopsAtFirstFailure(setters[1..], Apply(setters[0], c).config, i - 1);
    }
  }

  /** On success the path is kept and the last TTL given wins; with none the ttl is unchanged. */
  lemma {:induction false} ApplyAllLastWins(setters: seq<Setter>, c: Config)
    requires ApplyAll(setters, c).Ok?
    ensures ApplyAll(setters, c).value.pathname == c.pathname
    ensures ApplyAll(setters, c).value.ttl == if setters == [] then c.ttl else setters[|setters| - 1].ttl
    decreases |setters|
  {
    if setters != [] {
      ApplyAllLastWins(setters[1..], Apply(setters[0], c).config);
    }
  }

  /** A config built by New expires its sections exactly when a TTL setter was given. */
  lemma NewExpiry(pathname: string, setters: seq<Setter>)
    requires ApplyAll(setters, Config(pathname, 0)).Ok?
    ensures var c := ApplyAll(setters, Config(pathname, 0)).value;
      ExpiryOf(c) == if setters == [] then None else Some(setters[|setters| - 1].ttl)
  {
    ApplyAllLastWins(setters, Config(pathname, 0));
    ApplyAllSucceedsIff(setters, Config(pathname, 0));
    if setters != [] {
      assert setters[|setters| - 1].ttl > 0;
    }
  }

  /** The loader the cache calls for a section: parse the whole file, then pick the section. */
  function LookupSection(file: File, section: string): (r: Result<map<string, string>, Error>)
    ensures r.Ok? <==> Parsed(file).Ok? && section in Parsed(file).value
    ensures r.Ok? ==> r.value == Parsed(file).value[section]
    ensures Parsed(file).Err? ==> r == Err(Parsed(file).error)
    ensures Parsed(file).Ok? && r.Err? ==> r.error == NoSuchSection(section)
  {
    match Parsed(file)
    case Err(e) => Err(e)
    case Ok(conf) =>
      if section in conf then Ok(conf[section]) else Err(NoSuchSection(section))
  }

  /**
   * A section is found exactly when no line is invalid and the section has a map, and its
   * contents are the last value written to each key while it was current.
   */
  lemma LookupFinds(lines: seq<string>, section: string)
    ensures LookupSection(Readable(lines), section).Ok? <==>
      AllValid(Kinds(lines)) && Populated(Kinds(lines), section)
    ensures LookupSection(Readable(lines), section).Ok? ==>
      var m := LookupSection(Readable(lines), section).value;
      forall k :: Binding(Kinds(lines), section, k) == if k in m then Some(m[k]) else None
  {
    var ks := Kinds(lines);
    RunSucceedsIffValid(ks);
    if Run(ks).Done? {
      RunMatchesReference(ks);
    }
  }

  /** A file with an invalid line fails every lookup with the same error, that of its first one. */
  lemma LookupFailsOnInvalidLine(lines: seq<string>, i: nat, section: string)
    requires i < |lines| && Classify(lines[i]).Invalid?
    requires forall j :: 0 <= j < i ==> !Classify(lines[j]).Invalid?
    ensures LookupSection(Readable(lines), section) == Err(InvalidLine(Clean(lines[i])))
  {
    var ks := Kinds(lines);
    assert ks[..i] == Kinds(lines[..i]);
    FailsAtFirstInvalid(ks, i);
  }

  /** A well-formed file without the section reports it missing, by name. */
  lemma LookupMissing(lines: seq<string>, section: string)
    requires AllValid(Kinds(lines)) && !Populated(Kinds(lines), section)
    ensures LookupSection(Readable(lines), section) == Err(NoSuchSection(section))
  {
    LookupFinds(lines, section);
    RunSucceedsIffValid(Kinds(lines));
  }

  /** In a well-formed file the default section is always found. */
  lemma DefaultSectionFound(lines: seq<string>)
    requires AllValid(Kinds(lines))
    ensures LookupSection(Readable(lines), DefaultSectionName).Ok?
  {
    RunSucceedsIffValid(Kinds(lines));
  }

  /** A file that cannot be opened fails every lookup with the open error. */
  lemma LookupUnopenable(reason: string, section: string)
    ensures LookupSection(Unopenable(reason), section) == Err(OpenFailed(reason))
  {
  }
}
