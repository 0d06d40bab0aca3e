/** Concrete lines and what goconf makes of them. */
module Examples {
  import opened Wrappers
  import opened Text
  import opened Syntax
  import opened Parse

  /** The header test runs first, so a bracketed `a=b` names a section. */
  lemma BracketedPairIsHeader()
    ensures Classify("[a=b]") == Header("a=b")
  {
    assert "" + "[" + "a=b" + "]" + "" == "[a=b]";
    HeaderLine("", "a=b", "");
  }

  /** The space before `=` stays in the key; the one after it is dropped. */
  lemma SpacedPair()
    ensures Classify("k = v ") == Pair("k ", "v")
  {
    assert "" + "k " + "=" + " " + "v" + " " == "k = v ";
    PairLine("", "k ", " ", "v", " ");
  }

  /** A trailing comment and the whitespace before it are dropped. */
  lemma TrailingComment()
    ensures Classify("k = v ; note") == Pair("k ", "v")
  {
    assert Classify("k = v ; note") == Classify("k = v ") by {
      assert "k = v ; note" == "k = v " + ";" + " note";
      assert ';' !in "k = v ";
      CommentIgnored("k = v ", " note");
    }
    SpacedPair();
  }

  /** Only the first `=` separates key from value. */
  lemma ValueWithEquals()
    ensures Classify("a=b=c") == Pair("a", "b=c")
  {
    assert "" + "a" + "=" + "" + "b=c" + "" == "a=b=c";
    PairLine("", "a", "", "b=c", "");
  }

  /**
   * A key with nothing after `=` is not a pair. The line is a parameter so that the solver
   * does not unfold the whole classification of a literal at once.
   */
  lemma EmptyValue(raw: string)
    requires raw == "k ="
    ensures Classify(raw) == Invalid(raw)
  {
    assert Clean(raw) == raw by {
      CleanPadded("", raw, "");
      assert "" + raw + "" == raw;
    }
    assert MatchSection(raw).None? by {
      assert raw[0] == 'k';
    }
    assert MatchKeyVal(raw).None? by {
      assert IndexOf(raw, '=') == 2 by {
        IndexOfFirst("k ", '=', "");
        assert raw == "k " + ['='] + "";
      }
      KeyValExactly(raw);
    }
  }

  /** A header needs a name, and `[]` has no `=` either. The line is a parameter, as above. */
  lemma EmptyHeader(raw: string)
    requires raw == "[]"
    ensures Classify(raw) == Invalid(raw)
  {
    assert Clean(raw) == raw by {
      CleanPadded("", raw, "");
      assert "" + raw + "" == raw;
    }
    assert MatchSection(raw).None? by {
      assert |raw| == 2;
    }
    assert MatchKeyVal(raw).None? by {
      assert IndexOf(raw, '=') == 2;
    }
  }
}
