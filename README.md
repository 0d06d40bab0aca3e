# goconf: the INI parser, the section loader and the option setters

goconf gives section-oriented access to an INI-style configuration file. This model covers the logic in `goconf.go` that decides what a section contains.

- **`parseConfigFile`** reads the file line by line. Each line goes through the same steps:
  - the text from the first `;` on is dropped;
  - the line is trimmed;
  - a line that is now empty is skipped;
  - otherwise it is classified by two regular expressions: a `[name]` header changes the current section, and a `key=value` pair is stored in the current section's map;
  - anything else aborts the parse with an "invalid config line" error.

  Pairs read before any header belong to the section `DefaultSectionName`, which is `"General"`. That section is always present in the table.
- **`lookupSection`** is the loader the cache calls. It parses the whole file, then returns the requested section's map, or an error.
- **`TTL`** is the only option setter. It rejects a non-positive duration. **`New`** applies its setters in order and stops at the first one that fails.

The model has these modules:

- `Text` holds `strings.IndexByte` and `strings.TrimSpace`.
- `Syntax` holds the two regular expressions as explicit string predicates, and the classification of one line.
- `Parse` holds the loop in two forms:
  - `Run` is a recursive specification over the classified lines;
  - `ParseConfigFile` is a method with the Go loop's variables (`section`, `conf`) and the same order of tests. Its contract ties it to `Run`.
- `Semantics` is an independent description of the resulting table, with no loop state:
  - which section each line falls in;
  - which sections get a map;
  - the last value written to each key.

  Its lemmas tie `Run` to that description.
- `Goconf` holds `TTL`, the setter loop of `New` and `lookupSection`.
- `Examples` classifies concrete lines.

Two behaviours of the code are easy to miss, and the model keeps both:

- **Keys are not trimmed.** Only the value loses its surrounding whitespace. The greedy `[^=]+` of `^([^=]+)\s*=\s*(.+)$` keeps any whitespace before `=` in the key, so `k = v` has key `"k "` and value `"v"`.
- **An all-whitespace tail after `=` can backtrack.** The greedy `\s*` after `=` gives back one character when only whitespace follows. Such a line is trimmed before matching, so this case cannot arise from a file. `MatchKeyVal` models it anyway.

## Model

| member | source | states |
|---|---|---|
| `Text.IndexOf` | goconf.go:108 | the result is the position of the first `c`, with no `c` before it, or the length when there is none |
| `Text.IndexOfFirst` | goconf.go:108 | in `a + c + b` with no `c` in `a`, the first `c` is at `|a|` |
| `Text.StripComment` | goconf.go:108-110 | the result is the prefix of the line up to its first `;`, and it has no `;` |
| `Text.TrimLeft` | goconf.go:111 | the result is a suffix; the dropped prefix is all whitespace; the result does not start with whitespace |
| `Text.TrimRight` | goconf.go:111 | the result is a prefix; the dropped suffix is all whitespace; the result does not end with whitespace |
| `Text.TrimLeftEmpty` | goconf.go:111 | left trimming empties a string exactly when it is all whitespace |
| `Text.TrimRightEmpty` | goconf.go:111 | right trimming empties a string exactly when it is all whitespace |
| `Text.TrimSpace` | goconf.go:111 | neither end of the result is whitespace; the result is empty exactly when the input is all whitespace |
| `Text.TrimSpaceKeeps` | goconf.go:111 | trimming introduces no character that was not in the input |
| `Text.TrimLeftPadded` | goconf.go:111 | leading whitespace in front of text is removed, and nothing else |
| `Text.TrimRightPadded` | goconf.go:111 | trailing whitespace after text is removed, and nothing else |
| `Text.TrimSpacePadded` | goconf.go:111 | trimming whitespace padding around text whose ends are not whitespace gives back exactly that text |
| `Syntax.MatchSection` | goconf.go:101 | a match means the line is `[` + name + `]`, where the name is non-empty and has no `]` |
| `Syntax.HeaderRoundTrip` | goconf.go:101 | every non-empty name without `]` is matched from its header line, untrimmed |
| `Syntax.MatchKeyVal` | goconf.go:102 | a match means the key is the non-empty text before the first `=`, and the value is a non-empty suffix without newlines; on a line that ends in a non-space, only whitespace lies between `=` and the value, and the value starts with a non-space |
| `Syntax.CaptureValue` | goconf.go:102 | the value capture after `=` is a non-empty suffix of the text after `=`, with no newline; when that text ends in a non-space, only whitespace precedes the value and the value starts with a non-space |
| `Syntax.PairRoundTrip` | goconf.go:102 | key, `=`, whitespace and value are matched as exactly that key and value, for any key without `=` |
| `Syntax.MatchKeyValCases` | goconf.go:102 | the pattern matches exactly when the first `=` has a non-empty key before it and the value capture matches what follows it |
| `Syntax.KeyValExactly` | goconf.go:102 | a trimmed line without newlines is a pair exactly when its first `=` is neither its first nor its last character |
| `Syntax.Clean` | goconf.go:108-111 | a cleaned line has no `;` and does not start or end with whitespace |
| `Syntax.Classify` | goconf.go:112-124 | a line is blank exactly when it is empty once cleaned; an invalid line carries its cleaned, non-empty text |
| `Syntax.WithoutEqualsInvalid` | goconf.go:122-124 | a non-blank line that is not a header and has no `=` is rejected with its cleaned text |
| `Syntax.NeitherInvalid` | goconf.go:122-124 | a non-blank cleaned line that matches neither pattern is rejected with that text |
| `Syntax.CommentIgnored` | goconf.go:108-110 | everything from the first `;` on has no effect on how the line is classified |
| `Syntax.BlankExactly` | goconf.go:112-114 | a line is skipped exactly when it is all whitespace up to its first `;` |
| `Syntax.CleanPadded` | goconf.go:108-111 | surrounding whitespace is removed from a comment-free line, and nothing else |
| `Syntax.HeaderLine` | goconf.go:115-116 | a possibly indented `[name]` is a header with exactly that name; the header test comes first, so a name with `=` is still a header |
| `Syntax.PairLine` | goconf.go:117-121 | a possibly indented `key=value` that is not a header is a pair with that key, whitespace before `=` included, and that value |
| `Parse.Store` | goconf.go:118-121 | the section is created if missing; the key maps to the new value; the section's other keys and all other sections are unchanged |
| `Parse.Step` | goconf.go:112-124 | one line fails exactly when it is invalid, and then with the error naming its cleaned text |
| `Parse.StepKeeps` | goconf.go:115-121 | a step that succeeds never removes a section; only a header changes the current section; only a pair changes the table |
| `Parse.Run` | goconf.go:100-124 | whatever the lines, the default section `"General"` is in the table; a failed parse always fails with an invalid-line error |
| `Parse.StepCases` | goconf.go:112-124 | one line is handled in the loop's order: if blank, skipped; else if a header, the section is switched; else if a pair, the pair is stored; else the parse fails with the cleaned line |
| `Parse.RunNext` | goconf.go:106-126 | one more line is the outcome so far, followed by one step |
| `Parse.FailedIsFinal` | goconf.go:122-124 | after an invalid line no later line is looked at |
| `Parse.Parsed` | goconf.go:92-128 | an unopenable file gives its open error; a readable file fails only on an invalid line; a parsed table always holds the default section |
| `Parse.ParseConfigFile` | goconf.go:92-128 | the method returns the table and error `Run` gives, including the partially built table when the parse fails; an unopenable file gives an empty table and the open error |
| `Semantics.RunSucceedsIffValid` | goconf.go:122-124 | the parse succeeds exactly when no line is invalid |
| `Semantics.RunMatchesReference` | goconf.go:115-121 | after a successful parse the current section is that of the last header; the table holds exactly the populated sections, and each key holds the last value written to it while its section was current |
| `Semantics.PairWrites` | goconf.go:121 | a pair line writes its value under its key in the current section; every other key of every section keeps its value; only the current section can be added |
| `Semantics.HeaderSwitches` | goconf.go:115-116 | a header changes the current section and leaves the table unchanged |
| `Semantics.FailsAtFirstInvalid` | goconf.go:122-124 | the error names the first invalid line, and the partial table is the one built before it |
| `Semantics.BlankIgnored` | goconf.go:112-114 | inserting a blank line anywhere does not change the outcome |
| `Semantics.KindsAppend` | goconf.go:106-107 | classification works line by line and commutes with splitting the file |
| `Semantics.BlankLineIgnored` | goconf.go:108-114 | a raw line that is blank up to its comment can be removed from a file without changing the parse result |
| `Semantics.HeadersAlone` | goconf.go:104 | a file of headers and blank lines parses to the default section with an empty map |
| `Semantics.SectionNamedByHeader` | goconf.go:115-116 | a current section other than the default was named by some header |
| `Semantics.PairWhileCurrent` | goconf.go:118-121 | a section other than the default is in the table only if some pair was read while it was current |
| `Semantics.PopulatedByPair` | goconf.go:115-121 | a section other than the default is in the table only if a header of that name is followed by a pair read while that section was current |
| `Goconf.Apply` | goconf.go:53-61 | `TTL(d)` fails exactly when `d <= 0` and then leaves the config unchanged; otherwise it sets the ttl to `d` and nothing else |
| `Goconf.ApplyAll` | goconf.go:32-38 | applying setters keeps the path; a failure is always the non-positive-ttl error; a success after at least one setter leaves a positive ttl (exact conditions in `ApplyAllSucceedsIff`, `ApplyAllStopsAtFirstFailure`, `ApplyAllLastWins`) |
| `Goconf.New` | goconf.go:29-38 | the setter loop returns what applying the setters in order to a fresh config gives, stopping at the first failure |
| `Goconf.ApplyAllSucceedsIff` | goconf.go:34-38 | construction succeeds exactly when every ttl is positive |
| `Goconf.ApplyAllStopsAtFirstFailure` | goconf.go:34-38 | the first non-positive ttl decides the error, whatever follows it |
| `Goconf.ApplyAllLastWins` | goconf.go:34-38 | on success the path is kept and the last ttl given wins |
| `Goconf.ExpiryOf` | goconf.go:41-43 | the cache gets an expiry exactly when the ttl is positive, and the expiry is that ttl |
| `Goconf.NewExpiry` | goconf.go:40-43 | the cache gets an expiry exactly when a TTL setter was given, and it is the last one |
| `Goconf.LookupSection` | goconf.go:63-75 | the lookup succeeds exactly when the file parses and holds the section, and returns that section's map; a parse error is passed on unchanged; otherwise the error names the missing section (what the parse produces is proved in the `Semantics` lemmas, tied together in `LookupFinds`) |
| `Goconf.LookupFinds` | goconf.go:63-75 | a section is found exactly when no line is invalid and the section is populated; its map has exactly the last value written to each key |
| `Goconf.LookupFailsOnInvalidLine` | goconf.go:65-68 | an invalid line makes every lookup fail with the error of the first invalid line |
| `Goconf.LookupMissing` | goconf.go:69-72 | in a well-formed file, a section that is not populated is reported missing by its name |
| `Goconf.DefaultSectionFound` | goconf.go:100-104 | in a well-formed file the default section is always found |
| `Goconf.LookupUnopenable` | goconf.go:93-96 | a file that cannot be opened fails every lookup with the open error |
| `Examples.BracketedPairIsHeader` | goconf.go:115-116 | `[a=b]` is the header of the section `a=b` |
| `Examples.SpacedPair` | goconf.go:117-121 | `k = v ` has key `"k "` and value `"v"` |
| `Examples.TrailingComment` | goconf.go:108-111 | `k = v ; note` has key `"k "` and value `"v"` |
| `Examples.ValueWithEquals` | goconf.go:102 | `a=b=c` has key `a` and value `b=c` |
| `Examples.EmptyValue` | goconf.go:122-124 | `k =` is an invalid line |
| `Examples.EmptyHeader` | goconf.go:122-124 | `[]` is an invalid line |

## Left out

- The congomap cache is not modelled: `NewSyncAtomicMap`, `LoadStore` in `Section`, `Close`, single-flight loading and TTL expiry (goconf.go:40-47, 79-90). It is an external library whose source is not part of this model. Only the expiry `New` would hand it is modelled, as `ExpiryOf`. The error `NewSyncAtomicMap` may return is not modelled either.
- File I/O is not modelled: `os.Open`, `fh.Close` and `bufio.Scanner`. A file is either its sequence of lines or the reason it could not be opened. A scanner error, such as an over-long line, silently ends the Go loop; the model has no such case.
- Error messages are not formatted. Each error carries the data its message is built from: the open error as an opaque reason, the cleaned line, the section name. `fmt`'s `%q` quoting is not modelled.
- Whitespace is ASCII only. One set (space, tab, newline, vertical tab, form feed, carriage return) stands for both `strings.TrimSpace`'s Unicode whitespace and the regular-expression class `\s`. Go's `\s` does not include the vertical tab.
- Durations are unbounded integers, not 64-bit `time.Duration` values.
- Setters: the model knows only `TTL`. `New` accepts arbitrary user functions, and those are not modelled.
- The `interface{}` to `map[string]string` conversion in `Section` is a Go typing artefact and is not modelled.
