/**
 * The per-line syntax of goconf's INI files: comment stripping, trimming and the two
 * regular expressions of parseConfigFile, each written out as the match Go's leftmost-first
 * regexp engine performs on it.
 */
module Syntax {
  import opened Wrappers
  import opened Text

  /** `^\[([^\]]+)\]$`: the captured section name of a header line. */
  function MatchSection(line: string): (name: Option<string>)
    ensures name.Some? ==> line == "[" + name.value + "]"
    ensures name.Some? ==> name.value != [] && ']' !in name.value
  {
    if |line| >= 3 && line[0] == '[' && line[|line| - 1] == ']' && ']' !in line[1..|line| - 1]
    then Some(line[1..|line| - 1])
    else None
  }

  /** Every non-empty name without `]` is recognised again from its header line. */
  lemma HeaderRoundTrip(name: string)
    requires name != [] && ']' !in name
    ensures MatchSection("[" + name + "]") == Some(name)
  {
    var line := "[" + name + "]";
    assert line[1..|line| - 1] == name;
  }

  datatype KeyVal = KeyVal(key: string, value: string)

  /**
   * `^([^=]+)\s*=\s*(.+)$` with its two captures. The greedy `[^=]+` takes everything before
   * the first `=` (whitespace included), so the `\s*` before `=` always matches nothing.
   */
  function MatchKeyVal(line: string): (r: Option<KeyVal>)
    ensures r.Some? ==> KeyValShape(line, r.value.key, r.value.value)
  {
    var eq := IndexOf(line, '=');
    if eq == 0 || eq == |line| then None
    else
      match CaptureValue(line[eq + 1..])
      case None => None
      case Some(value) =>
        ValueInLine(line, eq, value);
        Some(KeyVal(line[..eq], value))
  }

  /**
   * `\s*(.+)$` on what follows the `=`: the greedy `\s*` gives back one character only when
   * nothing but whitespace follows, and `.` does not match a newline.
   */
  function CaptureValue(tail: string): (v: Option<string>)
    ensures v.Some? ==> v.value != [] && '\n' !in v.value
    ensures v.Some? ==> |v.value| <= |tail| && v.value == tail[|tail| - |v.value|..]
    ensures v.Some? && !IsSpace(tail[|tail| - 1]) ==>
      AllSpace(tail[..|tail| - |v.value|]) && !IsSpace(v.value[0])
  {
    var value := TrimLeft(tail);
    if value != [] then
      if '\n' in value then None else Some(value)
    else if tail != [] && tail[|tail| - 1] != '\n' then
      assert AllSpace(tail) by {
        assert tail[..|tail| - |value|] == tail;
      }
      Some(tail[|tail| - 1..])
    else None
  }

  /**
   * What a match of the key/value pattern returns: the key is the non-empty text before the
   * first `=`; the value is a non-empty suffix without newlines; and, unless the line ends in
   * whitespace, only whitespace separates the `=` from the value, which starts with a non-space.
   */
  predicate KeyValShape(line: string, k: string, v: string)
  {
    && 0 < |k| < |line| && k == line[..|k|] && line[|k|] == '=' && '=' !in k
    && v != [] && '\n' !in v && |k| < |line| - |v| && v == line[|line| - |v|..]
    && (!IsSpace(line[|line| - 1]) ==> AllSpace(line[|k| + 1..|line| - |v|]) && !IsSpace(v[0]))
  }

  /** A value captured after the `=` at `eq` is also a suffix of the whole line. */
  lemma ValueInLine(line: string, eq: nat, value: string)
    requires 0 < eq < |line| && line[eq] == '=' && '=' !in line[..eq]
    requires value != [] && '\n' !in value
    requires var tail := line[eq + 1..];
      && |value| <= |tail| && value == tail[|tail| - |value|..]
      && (!IsSpace(tail[|tail| - 1]) ==> AllSpace(tail[..|tail| - |value|]) && !IsSpace(value[0]))
    ensures KeyValShape(line, line[..eq], value)
  {
    var tail := line[eq + 1..];
    assert line[|line| - |value|..] == tail[|tail| - |value|..];
    assert line[eq + 1..|line| - |value|] == tail[..|tail| - |value|];
    assert line[|line| - 1] == tail[|tail| - 1];
  }

  /**
   * A key (non-empty, without `=`), any whitespace, `=`, any whitespace and a value that
   * starts with a non-space and has no newline, is recognised with exactly that key and value.
   */
  lemma PairRoundTrip(key: string, ws: string, value: string)
    requires key != [] && '=' !in key
    requires AllSpace(ws)
    requires value != [] && !IsSpace(value[0]) && '\n' !in value
    ensures MatchKeyVal(key + "=" + ws + value) == Some(KeyVal(key, value))
  {
    var line := key + "=" + ws + value;
    assert line == key + ['='] + (ws + value);
    IndexOfFirst(key, '=', ws + value);
    assert line[|key| + 1..] == ws + value;
    assert line[..|key|] == key;
    TrimLeftPadded(ws, value);
  }

  /**
   * For a line as the scanner yields it (no newline) that is trimmed at its end, the
   * key/value pattern matches exactly when the first `=` is neither the first nor the
   * last character.
   */
  lemma KeyValExactly(line: string)
    requires line != [] && '\n' !in line && !IsSpace(line[|line| - 1])
    ensures MatchKeyVal(line).Some? <==> 0 < IndexOf(line, '=') < |line| - 1
  {
    var eq := IndexOf(line, '=');
    MatchKeyValCases(line);
    if 0 < eq < |line| - 1 {
      SliceChars(line, eq + 1, |line|);
      ValueAfterEquals(line, eq);
    } else if eq == |line| - 1 {
      assert line[eq + 1..] == [];
    }
  }

  lemma ValueAfterEquals(line: string, eq: nat)
    requires 0 < eq < |line| - 1 && '\n' !in line[eq + 1..|line|]
    requires !IsSpace(line[|line| - 1])
    ensures CaptureValue(line[eq + 1..]).Some?
  {
    var tail := line[eq + 1..];
    assert tail == line[eq + 1..|line|];
    assert tail[|tail| - 1] == line[|line| - 1];
    CaptureExactly(tail);
  }

  /** The key/value pattern needs a non-empty key, and then matches as the value capture does. */
  lemma MatchKeyValCases(line: string)
    ensures var eq := IndexOf(line, '=');
      MatchKeyVal(line).Some? <==> 0 < eq < |line| && CaptureValue(line[eq + 1..]).Some?
  {
  }

  /** Without newlines and not ending in whitespace, anything after the `=` is a value. */
  lemma CaptureExactly(tail: string)
    requires '\n' !in tail && (tail == [] || !IsSpace(tail[|tail| - 1]))
    ensures CaptureValue(tail).Some? <==> tail != []
  {
    if tail != [] {
      var r := TrimLeft(tail);
      assert !AllSpace(tail) by {
        assert !IsSpace(tail[|tail| - 1]);
      }
      TrimLeftEmpty(tail);
      assert '\n' !in r by {
        SliceChars(tail, |tail| - |r|, |tail|);
      }
    }
  }

  /** A raw line as goconf classifies it: comment removed, then trimmed. */
  function Clean(raw: string): (line: string)
    ensures ';' !in line
    ensures line != [] ==> !IsSpace(line[0]) && !IsSpace(line[|line| - 1])
  {
    var s := StripComment(raw);
    TrimSpaceKeeps(s, ';');
    TrimSpace(s)
  }

  datatype LineKind =
    | Blank
    | Header(name: string)
    | Pair(key: string, value: string)
    | Invalid(text: string)

  /** The four outcomes of one line in parseConfigFile, the header test coming first. */
  function Classify(raw: string): (k: LineKind)
    ensures k.Invalid? ==> k.text == Clean(raw) && k.text != []
    ensures k.Blank? <==> Clean(raw) == []
  {
    var line := Clean(raw);
    if |line| == 0 then Blank
    else match MatchSection(line)
      case Some(name) => Header(name)
      case None =>
        match MatchKeyVal(line)
        case Some(kv) => Pair(kv.key, kv.value)
        case None => Invalid(line)
  }

  /** A non-blank line that matches neither pattern is rejected, with its cleaned text. */
  lemma NeitherInvalid(raw: string, line: string)
    requires line == Clean(raw) && line != []
    requires MatchSection(line).None? && MatchKeyVal(line).None?
    ensures Classify(raw) == Invalid(line)
  {
  }

  /** A non-blank line that is not a header and has no `=` is rejected, with its cleaned text. */
  lemma WithoutEqualsInvalid(raw: string)
    requires Clean(raw) != [] && MatchSection(Clean(raw)).None? && '=' !in Clean(raw)
    ensures Classify(raw) == Invalid(Clean(raw))
  {
    var line := Clean(raw);
    assert IndexOf(line, '=') == |line|;
  }

  /** Everything from the first `;` on is ignored, whatever it contains. */
  lemma CommentIgnored(text: string, comment: string)
    requires ';' !in text
    ensures Classify(text + ";" + comment) == Classify(text)
  {
    IndexOfFirst(text, ';', comment);
    assert (text + ";" + comment)[..|text|] == text;
    assert text[..IndexOf(text, ';')] == text;
  }

  /** A line is blank exactly when it is whitespace up to its first `;`. */
  lemma BlankExactly(raw: string)
    ensures Classify(raw).Blank? <==> AllSpace(StripComment(raw))
  {
  }

  /** Surrounding whitespace does not change what a comment-free line is classified by. */
  lemma CleanPadded(w1: string, line: string, w2: string)
    requires AllSpace(w1) && AllSpace(w2) && ';' !in w1 && ';' !in w2 && ';' !in line
    requires line != [] && !IsSpace(line[0]) && !IsSpace(line[|line| - 1])
    ensures Clean(w1 + line + w2) == line
  {
    var raw := w1 + line + w2;
    assert IndexOf(raw, ';') == |raw|;
    assert StripComment(raw) == raw;
    TrimSpacePadded(w1, line, w2);
  }

  /**
   * A bracketed name, possibly indented, is a header with exactly that name, untrimmed,
   * even when it also has the shape of a key/value pair.
   */
  lemma HeaderLine(w1: string, name: string, w2: string)
    requires AllSpace(w1) && AllSpace(w2) && ';' !in w1 && ';' !in w2
    requires name != [] && ']' !in name && ';' !in name
    ensures Classify(w1 + "[" + name + "]" + w2) == Header(name)
  {
    var line := "[" + name + "]";
    var raw := w1 + line + w2;
    assert raw == w1 + "[" + name + "]" + w2;
    CleanPadded(w1, line, w2);
    HeaderRoundTrip(name);
  }

  lemma PairShape(key: string, ws: string, value: string)
    requires key != [] && !IsSpace(key[0])
    requires value != [] && !IsSpace(value[|value| - 1])
    requires ';' !in key && ';' !in ws && ';' !in value
    requires key[0] != '[' || value[|value| - 1] != ']'
    ensures var line := key + "=" + ws + value;
      && line != [] && !IsSpace(line[0]) && !IsSpace(line[|line| - 1]) && ';' !in line
      && MatchSection(line).None?
  {
    var line := key + "=" + ws + value;
    assert line[0] == key[0] && line[|line| - 1] == value[|value| - 1];
  }

  lemma ClassifiedAsPair(raw: string, line: string, kv: KeyVal)
    requires Clean(raw) == line && line != []
    requires MatchSection(line).None? && MatchKeyVal(line) == Some(kv)
    ensures Classify(raw) == Pair(kv.key, kv.value)
  {
  }

  /**
   * A key, `=`, whitespace and a value, possibly indented, form a pair with that key and
   * value, provided the line is not also a header. The key keeps any whitespace it ends with.
   */
  lemma PairLine(w1: string, key: string, ws: string, value: string, w2: string)
    requires AllSpace(w1) && AllSpace(w2) && AllSpace(ws)
    requires key != [] && '=' !in key && !IsSpace(key[0])
    requires value != [] && !IsSpace(value[0]) && !IsSpace(value[|value| - 1]) && '\n' !in value
    requires ';' !in w1 && ';' !in key && ';' !in ws && ';' !in value && ';' !in w2
    requires key[0] != '[' || value[|value| - 1] != ']'
    ensures Classify(w1 + key + "=" + ws + value + w2) == Pair(key, value)
  {
    var line := key + "=" + ws + value;
    var raw := w1 + line + w2;
    assert raw == w1 + key + "=" + ws + value + w2;
    PairShape(key, ws, value);
    PairRoundTrip(key, ws, value);
    CleanPadded(w1, line, w2);
    ClassifiedAsPair(raw, line, KeyVal(key, value));
  }
}
