/**
 * What a parsed table holds, described line by line without the loop's state: which
 * section each line falls in, which sections get a map and which value each key ends up
 * with. The lemmas tie Run to this description.
 */
module Semantics {
  import opened Wrappers
  import opened Errors
  import opened Syntax
  import opened Parse

  /** The section current after `ks`: the name of the last header, else the default. */
  function SectionAfter(ks: seq<LineKind>): string
  {
    if ks == [] then DefaultSectionName
    else
      match ks[|ks| - 1]
      case Header(name) => name
      case _ => SectionAfter(ks[..|ks| - 1])
  }

  /** No line is invalid. */
  predicate AllValid(ks: seq<LineKind>)
  {
    forall i :: 0 <= i < |ks| ==> !ks[i].Invalid?
  }

  /** Section `s` has a map: it is the default, or a key/value line was read while it was current. */
  predicate Populated(ks: seq<LineKind>, s: string)
  {
    if ks == [] then s == DefaultSectionName
    else
      var init := ks[..|ks| - 1];
      Populated(init, s) || (ks[|ks| - 1].Pair? && SectionAfter(init) == s)
  }

  /** The value of the last key/value line for key `k` read while section `s` was current. */
  function Binding(ks: seq<LineKind>, s: string, k: string): Option<string>
  {
    if ks == [] then None
    else
      var init := ks[..|ks| - 1];
      var c := ks[|ks| - 1];
      if c.Pair? && c.key == k && SectionAfter(init) == s then Some(c.value)
      else Binding(init, s, k)
  }

  /** `t[s][k]` as Go's two-level map read gives it, with None for a missing key or section. */
  function Lookup(t: Table, s: string, k: string): Option<string>
  {
    if s in t && k in t[s] then Some(t[s][k]) else None
  }

  /** The parse succeeds exactly when no line is invalid. */
  lemma {:induction false} RunSucceedsIffValid(ks: seq<LineKind>)
    ensures Run(ks).Done? <==> AllValid(ks)
    decreases |ks|
  {
    if ks != [] {
      var init := ks[..|ks| - 1];
      RunSucceedsIffValid(init);
      assert AllValid(ks) <==> AllValid(init) && !ks[|ks| - 1].Invalid? by {
        assert forall i :: 0 <= i < |init| ==> init[i] == ks[i];
      }
    }
  }

  /**
   * A successful parse ends in the section of the last header and holds exactly the
   * populated sections, each with the last value written to each of its keys.
   */
  lemma {:induction false} RunMatchesReference(ks: seq<LineKind>)
    requires Run(ks).Done?
    ensures Run(ks).state.section == SectionAfter(ks)
    ensures forall s :: s in Run(ks).state.table <==> Populated(ks, s)
    ensures forall s, k :: Binding(ks, s, k) == Lookup(Run(ks).state.table, s, k)
    decreases |ks|
  {
    if ks == [] {
      forall s, k ensures Binding(ks, s, k) == Lookup(Run(ks).state.table, s, k) {
        assert Run(ks).state.table == map[DefaultSectionName := map[]];
      }
    } else {
      var init := ks[..|ks| - 1];
      var c := ks[|ks| - 1];
      RunMatchesReference(init);
      var before := Run(init).state.table;
      var after := Run(ks).state.table;
      if c.Pair? {
        assert after == Store(before, SectionAfter(init), c.key, c.value);
        forall s, k ensures Binding(ks, s, k) == Lookup(after, s, k) {
          assert Binding(init, s, k) == Lookup(before, s, k);
        }
      } else {
        assert after == before;
      }
    }
  }

  /**
   * A key/value line writes its pair into the current section, creating that section's map
   * when it has none, and leaves every other key of every section as it was.
   */
  lemma PairWrites(ks: seq<LineKind>, key: string, value: string)
    requires Run(ks).Done?
    ensures var before := Run(ks).state;
      var after := Run(ks + [Pair(key, value)]);
      && after.Done? && after.state.section == before.section
      && after.state.table.Keys == before.table.Keys + {before.section}
      && Lookup(after.state.table, before.section, key) == Some(value)
      && forall s, k :: s != before.section || k != key ==>
           Lookup(after.state.table, s, k) == Lookup(before.table, s, k)
  {
    assert (ks + [Pair(key, value)])[..|ks|] == ks;
  }

  /** A header only changes the current section; it adds no section to the table. */
  lemma HeaderSwitches(ks: seq<LineKind>, name: string)
    requires Run(ks).Done?
    ensures Run(ks + [Header(name)]) == Done(State(name, Run(ks).state.table))
  {
    assert (ks + [Header(name)])[..|ks|] == ks;
  }

  /** The error is that of the first invalid line, and the partial table is the one before it. */
  lemma FailsAtFirstInvalid(ks: seq<LineKind>, i: nat)
    requires i < |ks| && AllValid(ks[..i]) && ks[i].Invalid?
    ensures Run(ks) == Failed(Run(ks[..i]).state, InvalidLine(ks[i].text))
  {
    RunSucceedsIffValid(ks[..i]);
    RunNext(ks, i);
    FailedIsFinal(ks, i + 1);
  }

  /** A blank line changes nothing, wherever it stands. */
  lemma {:induction false} BlankIgnored(a: seq<LineKind>, b: seq<LineKind>)
    ensures Run(a + [Blank] + b) == Run(a + b)
    decreases |b|
  {
    if b == [] {
      assert (a + [Blank])[..|a|] == a;
      assert a + [Blank] + b == a + [Blank];
      assert a + b == a;
    } else {
      var b' := b[..|b| - 1];
      assert (a + [Blank] + b)[..|a + [Blank] + b| - 1] == a + [Blank] + b';
      assert (a + b)[..|a + b| - 1] == a + b';
      BlankIgnored(a, b');
    }
  }

  /** Classifying a file line by line commutes with splitting it. */
  lemma KindsAppend(a: seq<string>, b: seq<string>)
    ensures Kinds(a + b) == Kinds(a) + Kinds(b)
  {
    var lhs, rhs := Kinds(a + b), Kinds(a) + Kinds(b);
    forall i | 0 <= i < |a + b| ensures lhs[i] == rhs[i] {
      if i < |a| {
        assert (a + b)[i] == a[i];
      } else {
        assert (a + b)[i] == b[i - |a|];
      }
    }
  }

  /** A raw line that is blank once its comment is removed leaves the parse unchanged. */
  lemma BlankLineIgnored(a: seq<string>, blank: string, b: seq<string>)
    requires Classify(blank).Blank?
    ensures Parsed(Readable(a + [blank] + b)) == Parsed(Readable(a + b))
  {
    KindsAppend(a + [blank], b);
    KindsAppend(a, [blank]);
    KindsAppend(a, b);
    assert Kinds([blank]) == [Blank];
    BlankIgnored(Kinds(a), Kinds(b));
  }

  /** Without key/value lines the table is the default section's empty map, whatever the headers. */
  lemma {:induction false} HeadersAlone(ks: seq<LineKind>)
    requires forall i :: 0 <= i < |ks| ==> ks[i].Blank? || ks[i].Header?
    ensures Run(ks) == Done(State(SectionAfter(ks), map[DefaultSectionName := map[]]))
    decreases |ks|
  {
    if ks != [] {
      var init := ks[..|ks| - 1];
      assert forall i :: 0 <= i < |init| ==> init[i] == ks[i];
      HeadersAlone(init);
    }
  }

  /** The current section, unless it is the default, was named by some header line. */
  lemma {:induction false} SectionNamedByHeader(ks: seq<LineKind>)
    requires SectionAfter(ks) != DefaultSectionName
    ensures exists j :: 0 <= j < |ks| && ks[j] == Header(SectionAfter(ks))
    decreases |ks|
  {
    var init := ks[..|ks| - 1];
    if ks[|ks| - 1].Header? {
      assert ks[|ks| - 1] == Header(SectionAfter(ks));
    } else {
      SectionNamedByHeader(init);
      var j :| 0 <= j < |init| && init[j] == Header(SectionAfter(init));
      assert ks[j] == init[j];
    }
  }

  /** A section other than the default is populated only through a pair read while it was current. */
  lemma {:induction false} PairWhileCurrent(ks: seq<LineKind>, s: string)
    requires Populated(ks, s) && s != DefaultSectionName
    ensures exists j :: 0 <= j < |ks| && ks[j].Pair? && SectionAfter(ks[..j]) == s
    decreases |ks|
  {
    var init := ks[..|ks| - 1];
    if ks[|ks| - 1].Pair? && SectionAfter(init) == s {
      assert ks[..|ks| - 1] == init;
    } else {
      PairWhileCurrent(init, s);
      var j :| 0 <= j < |init| && init[j].Pair? && SectionAfter(init[..j]) == s;
      assert ks[j] == init[j] && ks[..j] == init[..j];
    }
  }

  /**
   * A section other than the default is in the table only if a header of that name is
   * followed by a key/value line read while that section was current.
   */
  lemma PopulatedByPair(ks: seq<LineKind>, s: string)
    requires Populated(ks, s) && s != DefaultSectionName
    ensures exists h, j :: 0 <= h < j < |ks| && ks[h] == Header(s) && ks[j].Pair? && SectionAfter(ks[..j]) == s
  {
    PairWhileCurrent(ks, s);
    var j :| 0 <= j < |ks| && ks[j].Pair? && SectionAfter(ks[..j]) == s;
    SectionNamedByHeader(ks[..j]);
    var h :| 0 <= h < |ks[..j]| && ks[..j][h] == Header(s);
    assert ks[h] == ks[..j][h];
  }
}
