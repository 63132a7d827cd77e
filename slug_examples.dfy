/**
 * Worked inputs of `createSlugFromTitle`, each proved stage by stage through the
 * pipeline, and the input on which the as-written pipeline is not idempotent.
 */
module SlugExamples {
  import opened JsText
  import opened Slug
  import Seqs
  import Hangul

  // Stage lemmas: each splits the pipeline at one point so that a worked input is
  // proved one stage at a time.

  lemma Prepared(t: string, lowered: string)
    requires NormalizeNfc(ToLowerCase(Trim(t))) == lowered
    ensures CreateSlugFromTitleAsWritten(t) == Replacements(lowered)
  {
  }

  /** No character of `s` is Hangul, so NFC leaves it alone. */
  predicate NoHangul(s: string) {
    forall i :: 0 <= i < |s| ==> s[i] as int < Hangul.LBase
  }

  lemma PreparedNoHangul(t: string, trimmed: string, lowered: string)
    requires Trim(t) == trimmed && ToLowerCase(trimmed) == lowered && NoHangul(lowered)
    ensures CreateSlugFromTitleAsWritten(t) == Replacements(lowered)
  {
    NfcWithoutHangul(lowered);
  }

  lemma Hyphenated(lowered: string, kept: string, hyphenated: string)
    requires Seqs.Filter(lowered, IsKept) == kept && ReplaceRuns(kept, IsWhiteSpace) == hyphenated
    ensures Replacements(lowered) == StripHyphenEnds(ReplaceRuns(hyphenated, IsHyphen))
  {
  }

  lemma CorrectedNoHangul(t: string, r: string)
    requires CreateSlugFromTitleAsWritten(t) == r && NoHangul(r)
    ensures CorrectedSlugFromTitle(t) == r
  {
    NfcWithoutHangul(r);
  }

  lemma FilterConcat(s: string, a: string, b: string, ka: string, kb: string, r: string)
    requires s == a + b && r == ka + kb
    requires Seqs.Filter(a, IsKept) == ka && Seqs.Filter(b, IsKept) == kb
    ensures Seqs.Filter(s, IsKept) == r
  {
    Seqs.FilterAppend(a, b, IsKept);
  }

  /** `ReplaceRuns` on a string that starts with characters outside the run class. */
  lemma PlainFirst(s: string, a: string, b: string, inRun: char -> bool, replaced: string, r: string)
    requires s == a + b && r == a + replaced && NoneIn(a, inRun)
    requires ReplaceRuns(b, inRun) == replaced
    ensures ReplaceRuns(s, inRun) == r
  {
    ReplaceRunsPlainPrefix(a, b, inRun);
  }

  /** `ReplaceRuns` on `a + run + b` given as literals, split at the run. */
  lemma RunAt(s: string, a: string, run: string, b: string, inRun: char -> bool, replaced: string, r: string)
    requires s == a + (run + b) && r == a + (['-'] + replaced)
    requires NoneIn(a, inRun)
    requires run != [] && AllIn(run, inRun)
    requires b != [] && !inRun(b[0]) && ReplaceRuns(b, inRun) == replaced
    ensures ReplaceRuns(s, inRun) == r
  {
    assert s == a + run + b;
    JoinAtRun(a, run, b, inRun);
  }

  /** The empty title has the empty slug. */
  lemma EmptyTitle()
    ensures CreateSlugFromTitleAsWritten("") == ""
    ensures CorrectedSlugFromTitle("") == ""
  {
    NoWordCharacters("");
  }

  /** "  Hello, World!  " becomes "hello-world". */
  lemma HelloWorld()
    ensures CreateSlugFromTitleAsWritten("  Hello, World!  ") == "hello-world"
    ensures CorrectedSlugFromTitle("  Hello, World!  ") == "hello-world"
  {
    HelloWorldAsWritten();
    HelloWorldSlugNoHangul();
    CorrectedNoHangul("  Hello, World!  ", "hello-world");
  }

  lemma HelloWorldSlugNoHangul()
    ensures NoHangul("hello-world")
  {
  }

  lemma HelloWorldAsWritten()
    ensures CreateSlugFromTitleAsWritten("  Hello, World!  ") == "hello-world"
  {
    HelloWorldTrimmed();
    HelloWorldLowered();
    HelloWorldNoHangul();
    PreparedNoHangul("  Hello, World!  ", "Hello, World!", "hello, world!");
    HelloWorldKept();
    HelloWorldSpace();
    Hyphenated("hello, world!", "hello world", "hello-world");
    HelloWorldCollapsed();
  }

  lemma HelloWorldNoHangul()
    ensures NoHangul("hello, world!")
  {
  }

  lemma HelloWorldTrimmed()
    ensures Trim("  Hello, World!  ") == "Hello, World!"
  {
    assert "  Hello, World!  " == "  " + "Hello, World!" + "  ";
    TrimPadded("  ", "Hello, World!", "  ");
  }

  lemma HelloWorldLowered()
    ensures ToLowerCase("Hello, World!") == "hello, world!"
  {
  }

  lemma HelloWorldSpace()
    ensures ReplaceRuns("hello world", IsWhiteSpace) == "hello-world"
  {
    HelloWorldSplit();
    WorldUnchanged();
    RunAt("hello world", "hello", " ", "world", IsWhiteSpace, "world", "hello-world");
  }

  lemma HelloWorldKept()
    ensures Seqs.Filter("hello, world!", IsKept) == "hello world"
  {
    KeptWords();
    WordThenMark("hello,", "hello", ",");
    WordThenMark(" world!", " world", "!");
    HelloWorldKeptSplit();
    FilterConcat("hello, world!", "hello,", " world!", "hello", " world", "hello world");
  }

  lemma HelloWorldKeptSplit()
    ensures "hello, world!" == "hello," + " world!"
    ensures "hello world" == "hello" + " world"
  {
  }

  /** The first `replace` keeps a run of kept characters and deletes the marks after it. */
  lemma WordThenMark(s: string, word: string, marks: string)
    requires s == word + marks
    requires AllIn(word, IsKept) && NoneIn(marks, IsKept)
    ensures Seqs.Filter(s, IsKept) == word
  {
    AllKept(word);
    NoneKept(marks);
    assert word + "" == word;
    FilterConcat(s, word, marks, word, "", word);
  }

  lemma AllKept(s: string)
    requires AllIn(s, IsKept)
    ensures Seqs.Filter(s, IsKept) == s
  {
    Seqs.FilterAll(s, IsKept);
  }

  lemma NoneKept(s: string)
    requires NoneIn(s, IsKept)
    ensures Seqs.Filter(s, IsKept) == []
  {
    Seqs.FilterNone(s, IsKept);
  }

  lemma KeptWords()
    ensures "hello," == "hello" + ","
    ensures " world!" == " world" + "!"
  {
  }

  lemma HelloWorldSplit()
    ensures "hello world" == "hello" + (" " + "world")
    ensures NoneIn("hello", IsWhiteSpace) && AllIn(" ", IsWhiteSpace) && !IsWhiteSpace("world"[0])
    ensures "hello-world" == "hello" + (['-'] + "world")
  {
  }

  lemma WorldUnchanged()
    ensures ReplaceRuns("world", IsWhiteSpace) == "world"
  {
    ReplaceRunsUnchanged("world", IsWhiteSpace);
  }

  lemma HelloWorldCollapsed()
    ensures StripHyphenEnds(ReplaceRuns("hello-world", IsHyphen)) == "hello-world"
  {
    ReplaceRunsUnchanged("hello-world", IsHyphen);
  }

  /** "A---B" becomes "a-b". */
  lemma HyphenRun()
    ensures CreateSlugFromTitleAsWritten("A---B") == "a-b"
    ensures CorrectedSlugFromTitle("A---B") == "a-b"
  {
    HyphenRunAsWritten();
    HyphenRunSlugNoHangul();
    CorrectedNoHangul("A---B", "a-b");
  }

  lemma HyphenRunSlugNoHangul()
    ensures NoHangul("a-b")
  {
  }

  lemma HyphenRunAsWritten()
    ensures CreateSlugFromTitleAsWritten("A---B") == "a-b"
  {
    TrimUnchanged("A---B");
    HyphenRunLowered();
    HyphenRunNoHangul();
    PreparedNoHangul("A---B", "A---B", "a---b");
    HyphenRunKept();
    HyphenRunNoSpace();
    Hyphenated("a---b", "a---b", "a---b");
    HyphenRunCollapsed();
  }

  lemma HyphenRunNoHangul()
    ensures NoHangul("a---b")
  {
  }

  lemma HyphenRunLowered()
    ensures ToLowerCase("A---B") == "a---b"
  {
  }

  lemma HyphenRunKept()
    ensures Seqs.Filter("a---b", IsKept) == "a---b"
  {
    Seqs.FilterAll("a---b", IsKept);
  }

  lemma HyphenRunNoSpace()
    ensures ReplaceRuns("a---b", IsWhiteSpace) == "a---b"
  {
    ReplaceRunsUnchanged("a---b", IsWhiteSpace);
  }

  lemma HyphenRunCollapsed()
    ensures StripHyphenEnds(ReplaceRuns("a---b", IsHyphen)) == "a-b"
  {
    HyphenRunReplaced();
  }

  lemma HyphenRunReplaced()
    ensures ReplaceRuns("a---b", IsHyphen) == "a-b"
  {
    HyphenRunSplit();
    HyphenB();
    RunAt("a---b", "a", "---", "b", IsHyphen, "b", "a-b");
  }

  lemma HyphenRunSplit()
    ensures "a---b" == "a" + ("---" + "b")
    ensures NoneIn("a", IsHyphen) && AllIn("---", IsHyphen) && !IsHyphen("b"[0])
    ensures "a-b" == "a" + (['-'] + "b")
  {
  }

  lemma HyphenB()
    ensures ReplaceRuns("b", IsHyphen) == "b"
  {
    ReplaceRunsUnchanged("b", IsHyphen);
  }

  /** "a - b" becomes "a-b": the spaces and the hyphen merge into one hyphen. */
  lemma SpacedHyphen()
    ensures CreateSlugFromTitleAsWritten("a - b") == "a-b"
    ensures CorrectedSlugFromTitle("a - b") == "a-b"
  {
    SpacedHyphenAsWritten();
    HyphenRunSlugNoHangul();
    CorrectedNoHangul("a - b", "a-b");
  }

  lemma SpacedHyphenAsWritten()
    ensures CreateSlugFromTitleAsWritten("a - b") == "a-b"
  {
    TrimUnchanged("a - b");
    SpacedHyphenLowered();
    SpacedHyphenNoHangul();
    PreparedNoHangul("a - b", "a - b", "a - b");
    SpacedHyphenKept();
    SpacedHyphenSpaces();
    Hyphenated("a - b", "a - b", "a---b");
    HyphenRunCollapsed();
  }

  lemma SpacedHyphenLowered()
    ensures ToLowerCase("a - b") == "a - b"
  {
  }

  lemma SpacedHyphenNoHangul()
    ensures NoHangul("a - b")
  {
  }

  lemma SpacedHyphenKept()
    ensures Seqs.Filter("a - b", IsKept) == "a - b"
  {
    AllKept("a - b");
  }

  lemma SpacedHyphenSpaces()
    ensures ReplaceRuns("a - b", IsWhiteSpace) == "a---b"
  {
    SpacedHyphenSplit();
    HyphenSpaceB();
    RunAt("a - b", "a", " ", "- b", IsWhiteSpace, "--b", "a---b");
  }

  lemma SpacedHyphenSplit()
    ensures "a - b" == "a" + (" " + "- b")
    ensures NoneIn("a", IsWhiteSpace) && AllIn(" ", IsWhiteSpace) && !IsWhiteSpace("- b"[0])
    ensures "a---b" == "a" + (['-'] + "--b")
  {
  }

  lemma HyphenSpaceB()
    ensures ReplaceRuns("- b", IsWhiteSpace) == "--b"
  {
    SpaceB();
    HyphenSpaceBSplit();
    PlainFirst("- b", "-", " b", IsWhiteSpace, "-b", "--b");
  }

  lemma HyphenSpaceBSplit()
    ensures "- b" == "-" + " b" && "--b" == "-" + "-b"
    ensures NoneIn("-", IsWhiteSpace)
  {
  }

  lemma SpaceB()
    ensures ReplaceRuns(" b", IsWhiteSpace) == "-b"
  {
    SpaceBSplit();
    BUnchanged();
    RunAt(" b", "", " ", "b", IsWhiteSpace, "b", "-b");
  }

  lemma SpaceBSplit()
    ensures " b" == "" + (" " + "b") && "-b" == "" + (['-'] + "b")
    ensures NoneIn("", IsWhiteSpace) && AllIn(" ", IsWhiteSpace) && !IsWhiteSpace("b"[0])
  {
  }

  lemma BUnchanged()
    ensures ReplaceRuns("b", IsWhiteSpace) == "b"
  {
    ReplaceRunsUnchanged("b", IsWhiteSpace);
  }

  /**
   * The as-written pipeline is not idempotent: a leading consonant jamo `l` and a
   * vowel jamo `v` are kept apart by "!" while NFC runs and brought together when "!"
   * is deleted, so a second pass composes them into one syllable.
   */
  lemma AsWrittenNotIdempotent(l: char, v: char)
    requires Hangul.IsLeadingJamo(l) && Hangul.IsVowelJamo(v)
    ensures CreateSlugFromTitleAsWritten([l, '!', v]) == [l, v]
    ensures CreateSlugFromTitleAsWritten([l, v]) == [Hangul.ComposePair(l, v)]
    ensures CreateSlugFromTitleAsWritten(CreateSlugFromTitleAsWritten([l, '!', v]))
      != CreateSlugFromTitleAsWritten([l, '!', v])
  {
    JamoFirstPass(l, v);
    AsWrittenTwice([l, '!', v]);
    JamoComposed(l, v);
  }

  /** The smallest such title: U+1100 and U+1161 around "!". */
  lemma AsWrittenNotIdempotentOnGaTitle()
    ensures CreateSlugFromTitleAsWritten("\U{1100}!\U{1161}") == "\U{1100}\U{1161}"
    ensures CreateSlugFromTitleAsWritten("\U{1100}\U{1161}") == "\U{AC00}"
  {
    GaJamo();
    AsWrittenNotIdempotent('\U{1100}', '\U{1161}');
  }

  lemma GaJamo()
    ensures Hangul.IsLeadingJamo('\U{1100}') && Hangul.IsVowelJamo('\U{1161}')
    ensures Hangul.ComposePair('\U{1100}', '\U{1161}') == '\U{AC00}'
    ensures "\U{1100}!\U{1161}" == ['\U{1100}', '!', '\U{1161}']
    ensures "\U{1100}\U{1161}" == ['\U{1100}', '\U{1161}'] && "\U{AC00}" == ['\U{AC00}']
  {
  }

  lemma JamoFirstPass(l: char, v: char)
    requires Hangul.IsLeadingJamo(l) && Hangul.IsVowelJamo(v)
    ensures CreateSlugFromTitleAsWritten([l, '!', v]) == [l, v]
  {
    var t := [l, '!', v];
    JamoPrepared(l, v);
    Prepared(t, t);
    JamoReplaced(l, v);
  }

  lemma JamoReplaced(l: char, v: char)
    requires Hangul.IsLeadingJamo(l) && Hangul.IsVowelJamo(v)
    ensures Replacements([l, '!', v]) == [l, v]
  {
    JamoKept(l, v);
    JamoIsSlug(l, v);
    SlugFixed([l, v]);
  }

  lemma JamoPrepared(l: char, v: char)
    requires Hangul.IsLeadingJamo(l) && Hangul.IsVowelJamo(v)
    ensures NormalizeNfc(ToLowerCase(Trim([l, '!', v]))) == [l, '!', v]
  {
    var t := [l, '!', v];
    JamoTrimmed(l, v);
    JamoLowered(l, v);
    JamoNfc(l, v);
  }

  lemma JamoTrimmed(l: char, v: char)
    requires Hangul.IsLeadingJamo(l) && Hangul.IsVowelJamo(v)
    ensures Trim([l, '!', v]) == [l, '!', v]
  {
    TrimUnchanged([l, '!', v]);
  }

  lemma JamoLowered(l: char, v: char)
    requires Hangul.IsLeadingJamo(l) && Hangul.IsVowelJamo(v)
    ensures ToLowerCase([l, '!', v]) == [l, '!', v]
  {
    var t := [l, '!', v];
    var r := ToLowerCase(t);
    assert r[0] == t[0] && r[1] == t[1] && r[2] == t[2];
  }

  lemma JamoNfc(l: char, v: char)
    requires Hangul.IsLeadingJamo(l) && Hangul.IsVowelJamo(v)
    ensures NormalizeNfc([l, '!', v]) == [l, '!', v]
  {
    var t := [l, '!', v];
    assert !Hangul.Composable(t[0], t[1]) && !Hangul.Composable(t[1], t[2]);
    assert Hangul.NoComposablePair(t);
  }

  lemma JamoKept(l: char, v: char)
    requires Hangul.IsLeadingJamo(l) && Hangul.IsVowelJamo(v)
    ensures Seqs.Filter([l, '!', v], IsKept) == [l, v]
  {
    var t := [l, '!', v];
    assert IsKept(l) && !IsKept('!') && IsKept(v);
    assert t[..2] == [l, '!'] && [l, '!'][..1] == [l] && [l][..0] == [];
    assert Seqs.Filter([l], IsKept) == [l];
    assert Seqs.Filter([l, '!'], IsKept) == [l];
    assert Seqs.Filter(t, IsKept) == [l] + [v];
  }

  lemma JamoIsSlug(l: char, v: char)
    requires Hangul.IsLeadingJamo(l) && Hangul.IsVowelJamo(v)
    ensures IsSlug([l, v])
  {
  }

  lemma JamoComposed(l: char, v: char)
    requires Hangul.IsLeadingJamo(l) && Hangul.IsVowelJamo(v)
    ensures NormalizeNfc([l, v]) == [Hangul.ComposePair(l, v)]
  {
    var t := [l, v];
    var c := Hangul.ComposePair(l, v);
    assert Hangul.Composable(t[0], t[1]);
    assert [c] + t[2..] == [c];
    assert Hangul.Compose([c]) == [c];
    assert Hangul.Compose(t) == Hangul.Compose([c] + t[2..]);
  }

  /** The corrected pipeline gives the composed syllable in one pass. */
  lemma CorrectedComposesJamo(l: char, v: char)
    requires Hangul.IsLeadingJamo(l) && Hangul.IsVowelJamo(v)
    ensures CorrectedSlugFromTitle([l, '!', v]) == [Hangul.ComposePair(l, v)]
  {
    JamoFirstPass(l, v);
    JamoComposed(l, v);
  }
}
