/** Worked cases from the repository's tests and doc comments, derived
    from the units' definitions. */
module Cases {
  import opened Text
  import HashTagger
  import LineBreaker
  import Dasher
  import SimpleSubstitutor

  // ---------------------------------------------------------------------
  // Hashtags (the examples of the `HashTagger` doc comment).

  /** `#python-style` links the tag `python`; the bid as written misses
      it, since it sits at offset 0. */
  lemma TagStopsAtHyphen()
    ensures HashTagger.FindTag("#python-style", 0) == Some(0)
    ensures HashTagger.TagText("#python-style", 0) == "python"
    ensures HashTagger.HashBid("#python-style", 0).None?
  {
    var s := "#python-style";
    assert HashTagger.TagAt(s, 0);
    assert HashTagger.SkipWord(s, 7) == 7;
    assert HashTagger.SkipWord(s, 1) == 7;
    assert HashTagger.TagEnd(s, 1) == 7;
    assert s[1..7] == "python";
  }

  /** `#dot.com` links the tag `dot.com`. */
  lemma TagKeepsInnerDot()
    ensures HashTagger.FindTag("#dot.com", 0) == Some(0)
    ensures HashTagger.TagText("#dot.com", 0) == "dot.com"
  {
    var s := "#dot.com";
    assert HashTagger.TagAt(s, 0);
    assert HashTagger.SkipWord(s, 1) == 4;
    assert HashTagger.SkipWord(s, 5) == 8;
    assert HashTagger.TagEnd(s, 5) == 8;
    assert HashTagger.TagEnd(s, 1) == 8;
    assert s[1..8] == "dot.com";
  }

  /** `Period of #foo.` links the tag `foo`: the final `.` has no word
      character after it. */
  lemma TagDropsFinalPeriod()
    ensures HashTagger.HashBid("Period of #foo.", 0) == Some(10)
    ensures HashTagger.TagText("Period of #foo.", 10) == "foo"
  {
    var s := "Period of #foo.";
    assert HashTagger.FindTag(s, 10) == Some(10);
    assert HashTagger.FindTag(s, 0) == Some(10);
    assert HashTagger.SkipWord(s, 11) == 14;
    assert HashTagger.TagEnd(s, 11) == 14;
    assert s[11..14] == "foo";
  }

  // ---------------------------------------------------------------------
  // Line breaks: each newline sequence is one `<br/>`.

  lemma BreakN()
    ensures LineBreaker.BreakApply("a\nb", 0) == Step(["a", "<br/>"], 2)
  {
    var s := "a\nb";
    assert LineBreaker.BreakBid(s, 0) == Some(1);
    assert NewlineEnd(s, 1) == 2;
    assert s[0..1] == "a";
  }

  lemma BreakR()
    ensures LineBreaker.BreakApply("a\rb", 0) == Step(["a", "<br/>"], 2)
  {
    var s := "a\rb";
    assert LineBreaker.BreakBid(s, 0) == Some(1);
    assert NewlineEnd(s, 1) == 2;
    assert s[0..1] == "a";
  }

  lemma BreakNR()
    ensures LineBreaker.BreakApply("a\n\rb", 0) == Step(["a", "<br/>"], 3)
  {
    var s := "a\n\rb";
    assert LineBreaker.BreakBid(s, 0) == Some(1);
    assert NewlineEnd(s, 1) == 3;
    assert s[0..1] == "a";
  }

  lemma BreakRN()
    ensures LineBreaker.BreakApply("a\r\nb", 0) == Step(["a", "<br/>"], 3)
  {
    var s := "a\r\nb";
    assert LineBreaker.BreakBid(s, 0) == Some(1);
    assert NewlineEnd(s, 1) == 3;
    assert s[0..1] == "a";
  }

  // ---------------------------------------------------------------------
  // Em-dashes: the `--` is replaced, the whitespace after it is left.

  lemma DashBetweenSpaces()
    ensures Dasher.DashApply("a -- b", 0) == Step(["a ", Dasher.EmDash], 4)
    ensures SimpleSubstitutor.SubApply(SimpleSubstitutor.Dasher, "a -- b", 0) == Step(["a ", "\U{2014}"], 4)
  {
    var s := "a -- b";
    assert Dasher.MatchAt(s, 0).None?;
    assert Dasher.FirstMatch(s, 0) == Some(1);
    assert SimpleSubstitutor.DashAt(s, 0).None?;
    assert SimpleSubstitutor.FirstMatch(SimpleSubstitutor.Dash, s, 0) == Some(1);
    assert s[0..2] == "a ";
  }

  lemma DashAtStart()
    ensures Dasher.DashApply("-- b", 0) == Step([Dasher.EmDash], 2)
    ensures SimpleSubstitutor.SubApply(SimpleSubstitutor.Dasher, "-- b", 0) == Step(["\U{2014}"], 2)
  {
  }

  // ---------------------------------------------------------------------
  // Horizontal rules: the newlines around the hyphens go with them.

  lemma RuleBetweenNewlines()
    ensures SimpleSubstitutor.SubApply(SimpleSubstitutor.HorizontalRuler, "a\n----\nb", 0) == Step(["a", "<hr/>"], 7)
  {
    var s := "a\n----\nb";
    assert SimpleSubstitutor.SkipHyphens(s, 2) == 6;
    assert SimpleSubstitutor.RuleRest(s, 2) == Some(7);
    assert SimpleSubstitutor.RuleAt(s, 0).None?;
    assert SimpleSubstitutor.RuleAt(s, 1) == Some(SimpleSubstitutor.Span(1, 7));
    assert SimpleSubstitutor.Hit(SimpleSubstitutor.Ruler, s, 0) == Some(SimpleSubstitutor.Span(1, 7));
    assert s[0..1] == "a";
  }
}
