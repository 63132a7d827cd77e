/**
 * Slugs and titles of blog posts: the `createSlugFromTitle` pipeline, the title read
 * from a page's properties, and the slug derived from that title.
 */
module Slug {
  import opened Wrappers
  import opened JsText
  import Hangul
  import Seqs
  import opened NotionTypes

  /** Characters that `/[^\p{L}\p{N}\s-]/gu` does not match, so that the first `replace` keeps. */
  predicate IsKept(c: char) {
    IsLetter(c) || IsNumber(c) || IsWhiteSpace(c) || c == '-'
  }

  predicate IsHyphen(c: char) { c == '-' }

  /** Letters and numbers: what a slug is made of besides hyphens. */
  predicate IsWord(c: char) { IsLetter(c) || IsNumber(c) }

  /** The longest suffix of `s` that does not start with a character of the run class. */
  function DropRun(s: seq<char>, inRun: char -> bool): (r: seq<char>)
    ensures |r| <= |s| && r == s[|s| - |r|..]
    ensures AllIn(s[..|s| - |r|], inRun)
    ensures r != [] ==> !inRun(r[0])
  {
    if s != [] && inRun(s[0]) then DropRun(s[1..], inRun) else s
  }

  /**
   * A global `replace` of `/c+/` by "-", where `c` is the run class `inRun`: every
   * maximal run of characters in the class becomes a single hyphen.
   */
  function ReplaceRuns(s: seq<char>, inRun: char -> bool): (r: seq<char>)
    ensures forall i :: 0 <= i < |r| ==> r[i] == '-' || (r[i] in s && !inRun(r[i]))
    ensures s != [] ==> r != [] && r[0] == (if inRun(s[0]) then '-' else s[0])
    decreases |s|
  {
    if s == [] then []
    else if inRun(s[0]) then ['-'] + ReplaceRuns(DropRun(s[1..], inRun), inRun)
    else [s[0]] + ReplaceRuns(s[1..], inRun)
  }

  /** Where `replace(/^-|-$/g, "")` starts: past a leading hyphen, if there is one. */
  function StripStart(s: seq<char>): (a: nat)
    ensures a <= |s|
  {
    if s != [] && s[0] == '-' then 1 else 0
  }

  /** Where `replace(/^-|-$/g, "")` ends: before a trailing hyphen not already removed. */
  function StripEnd(s: seq<char>): (b: nat)
    ensures StripStart(s) <= b <= |s|
  {
    if |s| > StripStart(s) && s[|s| - 1] == '-' then |s| - 1 else |s|
  }

  /**
   * `replace(/^-|-$/g, "")`: the slice of `s` without one leading and one trailing
   * hyphen; nothing is removed from a string that neither starts nor ends with one.
   */
  function StripHyphenEnds(s: seq<char>): (r: seq<char>)
    ensures r == s[StripStart(s)..StripEnd(s)]
    ensures |s| - 2 <= |r| <= |s|
    ensures forall i :: 0 <= i < |r| ==> r[i] in s
    ensures (s == [] || (s[0] != '-' && s[|s| - 1] != '-')) ==> r == s
  {
    var t := if s != [] && s[0] == '-' then s[1..] else s;
    assert forall i :: 0 <= i < |t| ==> t[i] in s;
    if t != [] && t[|t| - 1] == '-' then t[..|t| - 1] else t
  }

  /** Every character of `t` is a hyphen or a character of `s`. */
  predicate FromSource(t: seq<char>, s: seq<char>) {
    forall i :: 0 <= i < |t| ==> t[i] == '-' || t[i] in s
  }

  /**
   * The four `replace` calls of `createSlugFromTitle`, in order. Whatever the input,
   * the result is the words of its kept characters joined by single hyphens; so it
   * has the shape of a slug, is made of hyphens and characters of the input, keeps
   * every letter and number in order, and leaves a slug as it is.
   */
  function Replacements(s: seq<char>): (r: seq<char>)
    ensures r == JoinHyphen(Words(Seqs.Filter(s, IsKept), IsWord))
    ensures IsSlug(r)
    ensures FromSource(r, s)
    ensures Seqs.Filter(r, IsWord) == Seqs.Filter(s, IsWord)
    ensures IsSlug(s) ==> r == s
  {
    var kept := Seqs.Filter(s, IsKept);
    var hyphenated := ReplaceRuns(kept, IsWhiteSpace);
    HyphenatedChars(kept, s);
    var collapsed := ReplaceRuns(hyphenated, IsHyphen);
    CollapsedChars(hyphenated, s);
    StripGivesSlug(collapsed, s);
    ReplacementsKeepWords(s);
    ReplacementsJoinWords(s);
    SlugFixed(s);
    StripHyphenEnds(collapsed)
  }

  /**
   * `createSlugFromTitle` step for step, over the modelled repertoire. Every result
   * is the words of the trimmed, lower-cased and composed title joined by single
   * hyphens, where a word is a maximal run of letters and numbers once the other
   * characters but whitespace and `-` are deleted. So it is a slug in lower case, and
   * it keeps every letter and number of that title, in order.
   */
  function CreateSlugFromTitleAsWritten(title: string): (r: string)
    ensures r == JoinHyphen(Words(Seqs.Filter(NormalizeNfc(ToLowerCase(Trim(title))), IsKept), IsWord))
    ensures IsSlug(r) && IsLowerCase(r)
    ensures Seqs.Filter(r, IsWord) == Seqs.Filter(NormalizeNfc(ToLowerCase(Trim(title))), IsWord)
  {
    var composed := NormalizeNfc(ToLowerCase(Trim(title)));
    ComposedIsLowerCase(title);
    var r := Replacements(composed);
    LowerFromSource(r, composed);
    r
  }

  /**
   * `createSlugFromTitle` with NFC applied once more at the end, so that jamo brought
   * together by the deletion of other characters are composed too: the fix for the
   * non-idempotence of the code as written. Every result is a slug in lower case.
   */
  function CorrectedSlugFromTitle(title: string): (r: string)
    ensures IsSlug(r) && IsLowerCase(r)
  {
    var s := CreateSlugFromTitleAsWritten(title);
    ComposeKeepsSlug(s);
    var r := NormalizeNfc(s);
    forall i | 0 <= i < |r| ensures IsLowerStable(r[i]) {
      if Hangul.IsSyllable(r[i]) { SyllableFacts(r[i]); }
    }
    r
  }

  predicate IsSlugChar(c: char) { IsLetter(c) || IsNumber(c) || c == '-' }

  predicate NoDoubleHyphen(s: seq<char>) {
    forall i :: 0 <= i < |s| - 1 ==> !(s[i] == '-' && s[i + 1] == '-')
  }

  /** The shape of a slug: letters, numbers and single hyphens, no hyphen at either end. */
  predicate IsSlug(s: seq<char>) {
    && (forall i :: 0 <= i < |s| ==> IsSlugChar(s[i]))
    && NoDoubleHyphen(s)
    && (s != [] ==> s[0] != '-' && s[|s| - 1] != '-')
  }

  /** No character of `s` changes under lower-casing. */
  predicate IsLowerCase(s: seq<char>) {
    forall i :: 0 <= i < |s| ==> IsLowerStable(s[i])
  }

  /** A prefix without run-class characters passes through `ReplaceRuns` unchanged. */
  lemma {:induction false} ReplaceRunsPlainPrefix(a: seq<char>, b: seq<char>, inRun: char -> bool)
    requires forall i :: 0 <= i < |a| ==> !inRun(a[i])
    ensures ReplaceRuns(a + b, inRun) == a + ReplaceRuns(b, inRun)
  {
    if a == [] {
      assert a + b == b;
    } else {
      assert (a + b)[1..] == a[1..] + b;
      ReplaceRunsPlainPrefix(a[1..], b, inRun);
    }
  }

  /** Every character of `s` is in the run class. */
  predicate AllIn(s: seq<char>, inRun: char -> bool) {
    forall i :: 0 <= i < |s| ==> inRun(s[i])
  }

  /** No character of `s` is in the run class. */
  predicate NoneIn(s: seq<char>, inRun: char -> bool) {
    forall i :: 0 <= i < |s| ==> !inRun(s[i])
  }

  /** A run of class characters is dropped whole when it ends the string or a character outside the class follows it. */
  lemma {:induction false} DropRunPast(run: seq<char>, b: seq<char>, inRun: char -> bool)
    requires AllIn(run, inRun)
    requires b == [] || !inRun(b[0])
    ensures DropRun(run + b, inRun) == b
    decreases |run|
  {
    if run == [] {
      assert run + b == b;
    } else {
      assert (run + b)[1..] == run[1..] + b;
      assert inRun(run[0]);
      DropRunPast(run[1..], b, inRun);
    }
  }

  /** A maximal run at the start, whether or not anything follows it, becomes one hyphen. */
  lemma RunThen(run: seq<char>, b: seq<char>, inRun: char -> bool)
    requires run != [] && AllIn(run, inRun)
    requires b == [] || !inRun(b[0])
    ensures ReplaceRuns(run + b, inRun) == ['-'] + ReplaceRuns(b, inRun)
  {
    var t := run + b;
    assert t[0] == run[0] && t[1..] == run[1..] + b;
    DropRunPast(run[1..], b, inRun);
  }

  /** A maximal run between a plain prefix and the rest becomes one hyphen between them. */
  lemma JoinAtRun(a: seq<char>, run: seq<char>, b: seq<char>, inRun: char -> bool)
    requires NoneIn(a, inRun)
    requires run != [] && AllIn(run, inRun)
    requires b == [] || !inRun(b[0])
    ensures ReplaceRuns(a + run + b, inRun) == a + ['-'] + ReplaceRuns(b, inRun)
  {
    calc {
      ReplaceRuns(a + run + b, inRun);
      { Seqs.AppendAssoc(a, run, b); }
      ReplaceRuns(a + (run + b), inRun);
      { ReplaceRunsPlainPrefix(a, run + b, inRun); }
      a + ReplaceRuns(run + b, inRun);
      { RunThen(run, b, inRun); }
      a + (['-'] + ReplaceRuns(b, inRun));
      { Seqs.AppendAssoc(a, ['-'], ReplaceRuns(b, inRun)); }
      a + ['-'] + ReplaceRuns(b, inRun);
    }
  }

  /** Collapsing hyphen runs leaves no two hyphens side by side. */
  lemma {:induction false} ReplaceRunsNoDoubleHyphen(s: seq<char>, inRun: char -> bool)
    requires inRun('-')
    ensures NoDoubleHyphen(ReplaceRuns(s, inRun))
    decreases |s|
  {
    if s != [] {
      if inRun(s[0]) {
        ReplaceRunsNoDoubleHyphen(DropRun(s[1..], inRun), inRun);
      } else {
        ReplaceRunsNoDoubleHyphen(s[1..], inRun);
      }
    }
  }

  /** A string whose run-class characters are lone hyphens is unchanged by `ReplaceRuns`. */
  lemma {:induction false} ReplaceRunsUnchanged(s: seq<char>, inRun: char -> bool)
    requires forall i :: 0 <= i < |s| && inRun(s[i]) ==> s[i] == '-'
    requires forall i :: 0 <= i < |s| - 1 && inRun(s[i]) ==> !inRun(s[i + 1])
    ensures ReplaceRuns(s, inRun) == s
    decreases |s|
  {
    if s != [] {
      ReplaceRunsUnchanged(s[1..], inRun);
      if inRun(s[0]) {
        assert DropRun(s[1..], inRun) == s[1..];
      }
    }
  }

  /** No whitespace character is a letter or a number. */
  lemma WhiteSpaceIsNotWord(c: char)
    requires IsWhiteSpace(c)
    ensures !IsWord(c)
  {
  }

  /** Dropping a run of characters outside the class `word` drops nothing of it. */
  lemma {:induction false} DropRunKeepsWords(s: seq<char>, inRun: char -> bool, word: char -> bool)
    requires forall c :: inRun(c) ==> !word(c)
    ensures Seqs.Filter(DropRun(s, inRun), word) == Seqs.Filter(s, word)
    decreases |s|
  {
    if s != [] && inRun(s[0]) {
      assert s == [s[0]] + s[1..];
      Seqs.FilterCons(s[0], s[1..], word);
      DropRunKeepsWords(s[1..], inRun, word);
    }
  }

  /**
   * Replacing runs of characters outside the class `word` by `-`, itself outside it,
   * keeps the characters of the class, in order.
   */
  lemma {:induction false} ReplaceRunsKeepsWords(s: seq<char>, inRun: char -> bool, word: char -> bool)
    requires forall c :: inRun(c) ==> !word(c)
    requires !word('-')
    ensures Seqs.Filter(ReplaceRuns(s, inRun), word) == Seqs.Filter(s, word)
    decreases |s|
  {
    if s != [] {
      assert s == [s[0]] + s[1..];
      Seqs.FilterCons(s[0], s[1..], word);
      if inRun(s[0]) {
        var rest := DropRun(s[1..], inRun);
        ReplaceRunsKeepsWords(rest, inRun, word);
        DropRunKeepsWords(s[1..], inRun, word);
        Seqs.FilterCons('-', ReplaceRuns(rest, inRun), word);
      } else {
        ReplaceRunsKeepsWords(s[1..], inRun, word);
        Seqs.FilterCons(s[0], ReplaceRuns(s[1..], inRun), word);
      }
    }
  }

  /** One hyphen at either end is removed, and the text between them is kept as it is. */
  lemma StripHyphenEndsPadded(pre: bool, m: seq<char>, post: bool)
    requires m == [] || (m[0] != '-' && m[|m| - 1] != '-')
    ensures StripHyphenEnds((if pre then ['-'] else []) + m + (if post then ['-'] else [])) == m
  {
    var s := (if pre then ['-'] else []) + m + (if post then ['-'] else []);
    var a := if pre then 1 else 0;
    assert s[a..|s| - (if post then 1 else 0)] == m;
    if m == [] && !pre && post {
      assert StripStart(s) == 1 && StripEnd(s) == 1;
    } else {
      assert StripStart(s) == a;
    }
  }

  /** Stripping the end hyphens removes nothing of a class without `-`. */
  lemma StripKeepsWords(s: seq<char>, word: char -> bool)
    requires !word('-')
    ensures Seqs.Filter(StripHyphenEnds(s), word) == Seqs.Filter(s, word)
  {
    var a, b := StripStart(s), StripEnd(s);
    var pre, mid, post := s[..a], s[a..b], s[b..];
    assert s == pre + (mid + post);
    StrippedEnd(pre, word);
    StrippedEnd(post, word);
    Seqs.FilterAppend(pre, mid + post, word);
    Seqs.FilterAppend(mid, post, word);
  }

  /** What stripping removes at one end, nothing or one hyphen, holds nothing of a class without `-`. */
  lemma StrippedEnd(e: seq<char>, word: char -> bool)
    requires !word('-')
    requires e == [] || e == ['-']
    ensures Seqs.Filter(e, word) == []
  {
  }

  /** The four `replace` steps keep every letter and number, in order. */
  lemma ReplacementsKeepWords(s: seq<char>)
    ensures Seqs.Filter(StripHyphenEnds(ReplaceRuns(ReplaceRuns(Seqs.Filter(s, IsKept), IsWhiteSpace), IsHyphen)), IsWord)
         == Seqs.Filter(s, IsWord)
  {
    var kept := Seqs.Filter(s, IsKept);
    WordsAreKept();
    Seqs.FilterTwice(s, IsKept, IsWord, IsWord);
    var hyphenated := ReplaceRuns(kept, IsWhiteSpace);
    forall c | IsWhiteSpace(c) ensures !IsWord(c) {
      WhiteSpaceIsNotWord(c);
    }
    ReplaceRunsKeepsWords(kept, IsWhiteSpace, IsWord);
    var collapsed := ReplaceRuns(hyphenated, IsHyphen);
    HyphenIsNotWord();
    ReplaceRunsKeepsWords(hyphenated, IsHyphen, IsWord);
    StripKeepsWords(collapsed, IsWord);
  }

  /** The leading run of `s` in the class `word`; empty when `s` starts outside it. */
  function WordRun(s: seq<char>, word: char -> bool): (w: seq<char>)
    ensures s == w + DropRun(s, word)
    ensures AllIn(w, word)
  {
    s[..|s| - |DropRun(s, word)|]
  }

  /** The words of `s`: its maximal runs of characters of the class `word`, in order. */
  function Words(s: seq<char>, word: char -> bool): (ws: seq<seq<char>>)
    ensures forall j :: 0 <= j < |ws| ==> ws[j] != [] && AllIn(ws[j], word)
    ensures s != [] && word(s[0]) ==> ws != [] && ws[0] == WordRun(s, word)
    decreases |s|
  {
    if s == [] then []
    else if !word(s[0]) then Words(s[1..], word)
    else
      [WordRun(s, word)] + Words(DropRun(s, word), word)
  }

  /** The words joined with a single `-` between neighbours: it starts as the first word starts and ends as the last ends. */
  function JoinHyphen(ws: seq<seq<char>>): (r: seq<char>)
    ensures ws != [] && ws[0] != [] ==> r != [] && r[0] == ws[0][0]
    ensures ws != [] && ws[|ws| - 1] != [] ==> r != [] && r[|r| - 1] == ws[|ws| - 1][|ws[|ws| - 1]| - 1]
    decreases |ws|
  {
    if ws == [] then []
    else if |ws| == 1 then ws[0]
    else ws[0] + ['-'] + JoinHyphen(ws[1..])
  }

  lemma JoinHyphenCons(w: seq<char>, ws: seq<seq<char>>)
    requires ws != []
    ensures JoinHyphen([w] + ws) == w + ['-'] + JoinHyphen(ws)
  {
    assert ([w] + ws)[1..] == ws;
  }

  lemma JoinHyphenStep(w: seq<char>, ws: seq<seq<char>>, tail: seq<char>)
    requires ws != []
    ensures w + (['-'] + (JoinHyphen(ws) + tail)) == JoinHyphen([w] + ws) + tail
  {
    var j := JoinHyphen(ws);
    calc {
      JoinHyphen([w] + ws) + tail;
      { JoinHyphenCons(w, ws); }
      (w + ['-'] + j) + tail;
      { Seqs.AppendAssoc(w + ['-'], j, tail); }
      (w + ['-']) + (j + tail);
      { Seqs.AppendAssoc(w, ['-'], j + tail); }
      w + (['-'] + (j + tail));
    }
  }

  /** Separators before the first word change nothing about the words. */
  lemma {:induction false} WordsSkipSeparators(s: seq<char>, word: char -> bool, sep: char -> bool)
    requires forall c :: sep(c) == !word(c)
    ensures Words(DropRun(s, sep), word) == Words(s, word)
    decreases |s|
  {
    if s != [] && sep(s[0]) {
      WordsSkipSeparators(s[1..], word, sep);
    }
  }

  /** Dropping a leading run is distributive when what follows it cannot extend the run. */
  lemma {:induction false} DropRunAppend(a: seq<char>, b: seq<char>, inRun: char -> bool)
    requires b == [] || !inRun(b[0])
    ensures DropRun(a + b, inRun) == DropRun(a, inRun) + b
    decreases |a|
  {
    if a == [] {
      assert a + b == b;
    } else if inRun(a[0]) {
      assert (a + b)[1..] == a[1..] + b;
      DropRunAppend(a[1..], b, inRun);
    }
  }

  /** `ReplaceRuns` distributes over a split that does not cut through a run. */
  lemma {:induction false} ReplaceRunsSplit(a: seq<char>, b: seq<char>, inRun: char -> bool)
    requires b == [] || !inRun(b[0])
    ensures ReplaceRuns(a + b, inRun) == ReplaceRuns(a, inRun) + ReplaceRuns(b, inRun)
    decreases |a|
  {
    if a == [] {
      assert a + b == b;
    } else {
      var a' := a[1..];
      assert (a + b)[1..] == a' + b;
      if inRun(a[0]) {
        var d := DropRun(a', inRun);
        calc {
          ReplaceRuns(a + b, inRun);
          ['-'] + ReplaceRuns(DropRun(a' + b, inRun), inRun);
          { DropRunAppend(a', b, inRun); }
          ['-'] + ReplaceRuns(d + b, inRun);
          { ReplaceRunsSplit(d, b, inRun); }
          ['-'] + (ReplaceRuns(d, inRun) + ReplaceRuns(b, inRun));
          { Seqs.AppendAssoc(['-'], ReplaceRuns(d, inRun), ReplaceRuns(b, inRun)); }
          ReplaceRuns(a, inRun) + ReplaceRuns(b, inRun);
        }
      } else {
        calc {
          ReplaceRuns(a + b, inRun);
          [a[0]] + ReplaceRuns(a' + b, inRun);
          { ReplaceRunsSplit(a', b, inRun); }
          [a[0]] + (ReplaceRuns(a', inRun) + ReplaceRuns(b, inRun));
          { Seqs.AppendAssoc([a[0]], ReplaceRuns(a', inRun), ReplaceRuns(b, inRun)); }
          ReplaceRuns(a, inRun) + ReplaceRuns(b, inRun);
        }
      }
    }
  }

  lemma ReplaceRunsSplitAt(s: seq<char>, k: nat, inRun: char -> bool)
    requires k <= |s| && (k == |s| || !inRun(s[k]))
    ensures ReplaceRuns(s, inRun) == ReplaceRuns(s[..k], inRun) + ReplaceRuns(s[k..], inRun)
  {
    var a, b := s[..k], s[k..];
    assert s == a + b;
    assert b == [] || b[0] == s[k];
    ReplaceRunsSplit(a, b, inRun);
  }

  /**
   * Replacing the runs of `space` by `-` and then the runs of `-` by `-` is one
   * replacement of the runs of `sep`, the class of both.
   */
  lemma {:induction false} ReplaceRunsTwice(s: seq<char>, space: char -> bool, sep: char -> bool)
    requires forall i :: 0 <= i < |s| ==> sep(s[i]) == (space(s[i]) || s[i] == '-')
    requires !space('-')
    ensures ReplaceRuns(ReplaceRuns(s, space), IsHyphen) == ReplaceRuns(s, sep)
    decreases |s|
  {
    if s != [] {
      if !sep(s[0]) {
        var r := ReplaceRuns(s[1..], space);
        calc {
          ReplaceRuns(ReplaceRuns(s, space), IsHyphen);
          ReplaceRuns([s[0]] + r, IsHyphen);
          { assert ([s[0]] + r)[1..] == r; }
          [s[0]] + ReplaceRuns(r, IsHyphen);
          { ReplaceRunsTwice(s[1..], space, sep); }
          [s[0]] + ReplaceRuns(s[1..], sep);
          ReplaceRuns(s, sep);
        }
      } else {
        var u := DropRun(s, sep);
        forall i | 0 <= i < |u| ensures sep(u[i]) == (space(u[i]) || u[i] == '-') {
          assert u[i] == s[|s| - |u| + i];
        }
        ReplaceRunsTwice(u, space, sep);
        SeparatorRunHyphens(s, space, sep);
        SeparatorRunTwice(s, space, sep);
      }
    }
  }

  /**
   * A string that starts with a separator run: given the two replacements agree on
   * what follows the run, they agree on the whole string.
   */
  lemma SeparatorRunTwice(s: seq<char>, space: char -> bool, sep: char -> bool)
    requires s != [] && sep(s[0])
    requires var u := DropRun(s, sep); var k := |s| - |u|;
      && 0 < k
      && (u == [] || !space(u[0]))
      && (var hs := ReplaceRuns(s[..k], space); hs != [] && AllIn(hs, IsHyphen))
      && (var ru := ReplaceRuns(u, space); ru == [] || !IsHyphen(ru[0]))
    requires var u := DropRun(s, sep); ReplaceRuns(ReplaceRuns(u, space), IsHyphen) == ReplaceRuns(u, sep)
    ensures ReplaceRuns(ReplaceRuns(s, space), IsHyphen) == ReplaceRuns(s, sep)
  {
    var u := DropRun(s, sep);
    var k := |s| - |u|;
    var hs, ru := ReplaceRuns(s[..k], space), ReplaceRuns(u, space);
    calc {
      ReplaceRuns(ReplaceRuns(s, space), IsHyphen);
      { ReplaceRunsSplitAt(s, k, space); }
      ReplaceRuns(hs + ru, IsHyphen);
      { HyphenRunThen(hs, ru); }
      ['-'] + ReplaceRuns(ru, IsHyphen);
      ['-'] + ReplaceRuns(u, sep);
      { LeadingSeparators(s, sep); }
      ReplaceRuns(s, sep);
    }
  }

  /** A run of hyphens followed by anything but a hyphen collapses to one hyphen. */
  lemma HyphenRunThen(hs: seq<char>, rest: seq<char>)
    requires hs != [] && AllIn(hs, IsHyphen)
    requires rest == [] || !IsHyphen(rest[0])
    ensures ReplaceRuns(hs + rest, IsHyphen) == ['-'] + ReplaceRuns(rest, IsHyphen)
  {
    RunThen(hs, rest, IsHyphen);
  }

  /**
   * The leading separator run, whitespace or hyphens, becomes hyphens only under the
   * whitespace replacement, and what follows it starts with neither.
   */
  lemma SeparatorRunHyphens(s: seq<char>, space: char -> bool, sep: char -> bool)
    requires forall i :: 0 <= i < |s| ==> sep(s[i]) == (space(s[i]) || s[i] == '-')
    requires !space('-')
    requires s != [] && sep(s[0])
    ensures |DropRun(s, sep)| < |s|
    ensures var u := DropRun(s, sep); u == [] || !space(u[0])
    ensures var k := |s| - |DropRun(s, sep)|; var hs := ReplaceRuns(s[..k], space);
      hs != [] && AllIn(hs, IsHyphen)
    ensures var ru := ReplaceRuns(DropRun(s, sep), space); ru == [] || !IsHyphen(ru[0])
  {
    var u := DropRun(s, sep);
    var k := |s| - |u|;
    assert u == [] || u[0] == s[k];
  }

  /** The hyphen `ReplaceRuns` leaves after the last word when a separator ends `t`. */
  function Trail(t: seq<char>, sep: char -> bool): (r: seq<char>)
    ensures r == [] || r == ['-']
  {
    if t != [] && sep(t[|t| - 1]) then ['-'] else []
  }

  /**
   * On a string that is empty or starts with a word, replacing the separator runs
   * joins the words with hyphens, and leaves one more hyphen if a separator ends it.
   */
  lemma {:induction false} ReplaceRunsAligned(t: seq<char>, word: char -> bool, sep: char -> bool)
    requires forall c :: sep(c) == !word(c)
    requires t == [] || word(t[0])
    ensures ReplaceRuns(t, sep) == JoinHyphen(Words(t, word)) + Trail(t, sep)
    decreases |t|
  {
    if t != [] {
      var rest := DropRun(t, word);
      if rest == [] {
        AlignedOneWord(t, word, sep);
      } else {
        var u := DropRun(rest[1..], sep);
        SeparatorThenRestTrail(rest, word, sep);
        ReplaceRunsAligned(u, word, sep);
        if u == [] {
          AlignedWordThenSeparator(t, word, sep);
        } else {
          AlignedWordThenMore(t, word, sep);
        }
      }
    }
  }

  /** A string that is one word. */
  lemma AlignedOneWord(t: seq<char>, word: char -> bool, sep: char -> bool)
    requires forall c :: sep(c) == !word(c)
    requires t != [] && word(t[0]) && DropRun(t, word) == []
    ensures ReplaceRuns(t, sep) == JoinHyphen(Words(t, word)) + Trail(t, sep)
  {
    var w, rest := WordRun(t, word), DropRun(t, word);
    WordThenRest(t, word, sep);
    WordThenRestTrail(t, word, sep);
    calc {
      ReplaceRuns(t, sep);
      w + ReplaceRuns(rest, sep);
      { assert ReplaceRuns(rest, sep) == []; }
      w;
      { assert Words(t, word) == [w]; }
      JoinHyphen(Words(t, word)) + Trail(t, sep);
    }
  }

  /** A string that is one word followed by separators. */
  lemma AlignedWordThenSeparator(t: seq<char>, word: char -> bool, sep: char -> bool)
    requires forall c :: sep(c) == !word(c)
    requires t != [] && word(t[0])
    requires var rest := DropRun(t, word); rest != [] && DropRun(rest[1..], sep) == []
    ensures ReplaceRuns(t, sep) == JoinHyphen(Words(t, word)) + Trail(t, sep)
  {
    var w, rest := WordRun(t, word), DropRun(t, word);
    WordThenRest(t, word, sep);
    WordThenRestTrail(t, word, sep);
    SeparatorsOnly(rest, word, sep);
    assert [w] + [] == [w];
  }

  /** A string of separators only becomes one hyphen and has no words. */
  lemma SeparatorsOnly(rest: seq<char>, word: char -> bool, sep: char -> bool)
    requires forall c :: sep(c) == !word(c)
    requires rest != [] && !word(rest[0]) && DropRun(rest[1..], sep) == []
    ensures ReplaceRuns(rest, sep) == ['-']
    ensures Words(rest, word) == []
    ensures Trail(rest, sep) == ['-']
  {
    SeparatorThenRest(rest, word, sep);
    SeparatorThenRestTrail(rest, word, sep);
  }

  /** A string that is a word, separators, and a string starting with a word whose replacement is known. */
  lemma AlignedWordThenMore(t: seq<char>, word: char -> bool, sep: char -> bool)
    requires forall c :: sep(c) == !word(c)
    requires t != [] && word(t[0])
    requires var rest := DropRun(t, word); rest != [] && DropRun(rest[1..], sep) != []
    requires var u := DropRun(DropRun(t, word)[1..], sep);
      ReplaceRuns(u, sep) == JoinHyphen(Words(u, word)) + Trail(u, sep)
    ensures ReplaceRuns(t, sep) == JoinHyphen(Words(t, word)) + Trail(t, sep)
  {
    var w, rest := WordRun(t, word), DropRun(t, word);
    var u := DropRun(rest[1..], sep);
    var ws := Words(u, word);
    WordThenSeparators(t, word, sep);
    JoinHyphenStep(w, ws, Trail(u, sep));
  }

  /** A word, a separator run, and what follows: how the three combine. */
  lemma WordThenSeparators(t: seq<char>, word: char -> bool, sep: char -> bool)
    requires forall c :: sep(c) == !word(c)
    requires t != [] && word(t[0])
    requires var rest := DropRun(t, word); rest != [] && DropRun(rest[1..], sep) != []
    ensures var w, rest := WordRun(t, word), DropRun(t, word); var u := DropRun(rest[1..], sep);
      && ReplaceRuns(t, sep) == w + (['-'] + ReplaceRuns(u, sep))
      && Words(t, word) == [w] + Words(u, word)
      && Trail(t, sep) == Trail(u, sep)
  {
    var rest := DropRun(t, word);
    WordThenRest(t, word, sep);
    SeparatorThenRest(rest, word, sep);
    WordThenRestTrail(t, word, sep);
    SeparatorThenRestTrail(rest, word, sep);
  }

  /** A string that starts with a word: the word passes through, then the rest is replaced. */
  lemma WordThenRest(t: seq<char>, word: char -> bool, sep: char -> bool)
    requires forall c :: sep(c) == !word(c)
    requires t != [] && word(t[0])
    ensures ReplaceRuns(t, sep) == WordRun(t, word) + ReplaceRuns(DropRun(t, word), sep)
    ensures Words(t, word) == [WordRun(t, word)] + Words(DropRun(t, word), word)
  {
    var w := WordRun(t, word);
    assert NoneIn(w, sep);
    ReplaceRunsPlainPrefix(w, DropRun(t, word), sep);
  }

  /** A string that starts with a word ends as the rest after that word ends, if there is a rest. */
  lemma WordThenRestTrail(t: seq<char>, word: char -> bool, sep: char -> bool)
    requires forall c :: sep(c) == !word(c)
    requires t != [] && word(t[0])
    ensures Trail(t, sep) == (if DropRun(t, word) == [] then [] else Trail(DropRun(t, word), sep))
  {
    var rest := DropRun(t, word);
    if rest == [] {
      var w := WordRun(t, word);
      assert t == w;
      assert word(w[|w| - 1]);
    } else {
      TrailOfSuffix(t, rest, sep);
    }
  }

  /** Splitting a string that starts with a separator into its separator run and the rest. */
  lemma SeparatorThenRest(rest: seq<char>, word: char -> bool, sep: char -> bool)
    requires forall c :: sep(c) == !word(c)
    requires rest != [] && !word(rest[0])
    ensures ReplaceRuns(rest, sep) == ['-'] + ReplaceRuns(DropRun(rest[1..], sep), sep)
    ensures Words(rest, word) == Words(DropRun(rest[1..], sep), word)
  {
    WordsSkipSeparators(rest[1..], word, sep);
  }

  /** After a separator run comes a word, and the string ends as what follows the run ends. */
  lemma SeparatorThenRestTrail(rest: seq<char>, word: char -> bool, sep: char -> bool)
    requires forall c :: sep(c) == !word(c)
    requires rest != [] && !word(rest[0])
    ensures var u := DropRun(rest[1..], sep);
      && (u == [] || word(u[0]))
      && Trail(rest, sep) == (if u == [] then ['-'] else Trail(u, sep))
  {
    var u := DropRun(rest[1..], sep);
    if u == [] {
      SeparatorsTrail(rest, sep);
    } else {
      TrailOfSuffix(rest, u, sep);
    }
  }

  /** A string of separators ends in a separator. */
  lemma SeparatorsTrail(s: seq<char>, sep: char -> bool)
    requires s != [] && sep(s[0]) && DropRun(s[1..], sep) == []
    ensures Trail(s, sep) == ['-']
  {
    var r1 := s[1..];
    assert r1[..|r1|] == r1;
    if r1 != [] {
      assert s[|s| - 1] == r1[|r1| - 1];
    }
  }

  /** A string ends as any non-empty suffix of it ends. */
  lemma TrailOfSuffix(s: seq<char>, u: seq<char>, sep: char -> bool)
    requires u != [] && |u| <= |s| && u == s[|s| - |u|..]
    ensures Trail(s, sep) == Trail(u, sep)
  {
    assert s[|s| - 1] == u[|u| - 1];
  }

  /**
   * Replacing the separator runs by `-` and stripping a hyphen from each end gives
   * the words of the string joined with `-`.
   */
  lemma RunsToWords(s: seq<char>, word: char -> bool, sep: char -> bool)
    requires forall c :: sep(c) == !word(c)
    requires !word('-')
    ensures StripHyphenEnds(ReplaceRuns(s, sep)) == JoinHyphen(Words(s, word))
  {
    var t := DropRun(s, sep);
    var m := JoinHyphen(Words(t, word));
    var pre := s != [] && sep(s[0]);
    var lead := if pre then ['-'] else [];
    calc {
      StripHyphenEnds(ReplaceRuns(s, sep));
      { LeadingSeparators(s, sep); }
      StripHyphenEnds(lead + ReplaceRuns(t, sep));
      { ReplaceRunsAligned(t, word, sep); }
      StripHyphenEnds(lead + (m + Trail(t, sep)));
      { Seqs.AppendAssoc(lead, m, Trail(t, sep)); }
      StripHyphenEnds(lead + m + Trail(t, sep));
      { StripAroundWords(t, word, sep, pre); }
      m;
      { WordsSkipSeparators(s, word, sep); }
      JoinHyphen(Words(s, word));
    }
  }

  /** Stripping the end hyphens around the joined words of a string that starts with a word gives them back. */
  lemma StripAroundWords(t: seq<char>, word: char -> bool, sep: char -> bool, pre: bool)
    requires forall c :: sep(c) == !word(c)
    requires !word('-')
    requires t == [] || word(t[0])
    ensures var m := JoinHyphen(Words(t, word));
      StripHyphenEnds((if pre then ['-'] else []) + m + Trail(t, sep)) == m
  {
    JoinHyphenEnds(t, word, sep);
    StripHyphenEndsPadded(pre, JoinHyphen(Words(t, word)), t != [] && sep(t[|t| - 1]));
  }

  /** A leading separator run becomes one hyphen before the replacement of the rest. */
  lemma LeadingSeparators(s: seq<char>, sep: char -> bool)
    ensures ReplaceRuns(s, sep) == (if s != [] && sep(s[0]) then ['-'] else []) + ReplaceRuns(DropRun(s, sep), sep)
  {
    if !(s != [] && sep(s[0])) {
      assert DropRun(s, sep) == s;
    }
  }

  /**
   * The words of a string that is empty or starts with a word, joined, start and end
   * with a word character; they are empty only for the empty string.
   */
  lemma JoinHyphenEnds(t: seq<char>, word: char -> bool, sep: char -> bool)
    requires forall c :: sep(c) == !word(c)
    requires !word('-')
    requires t == [] || word(t[0])
    ensures var m := JoinHyphen(Words(t, word));
      (m == [] ==> t == []) && (m == [] || (m[0] != '-' && m[|m| - 1] != '-'))
  {
    var ws := Words(t, word);
    if ws != [] {
      var last := ws[|ws| - 1];
      assert word(ws[0][0]) && word(last[|last| - 1]);
    }
  }

  /** Whitespace, a hyphen, or anything else kept by the first `replace` that is not a word character. */
  lemma KeptSeparator(c: char)
    requires IsKept(c)
    ensures IsNonWord(c) == (IsWhiteSpace(c) || c == '-')
  {
    if IsWhiteSpace(c) {
      WhiteSpaceIsNotWord(c);
    }
  }

  lemma HyphenIsNotWhiteSpace()
    ensures !IsWhiteSpace('-')
  {
  }

  /**
   * The four `replace` steps join the words of the kept characters with single
   * hyphens: every separator between two words, whitespace or hyphens, becomes one
   * `-`, and separators before the first word or after the last disappear.
   */
  lemma ReplacementsJoinWords(s: seq<char>)
    ensures StripHyphenEnds(ReplaceRuns(ReplaceRuns(Seqs.Filter(s, IsKept), IsWhiteSpace), IsHyphen))
         == JoinHyphen(Words(Seqs.Filter(s, IsKept), IsWord))
  {
    var kept := Seqs.Filter(s, IsKept);
    forall i | 0 <= i < |kept| ensures IsNonWord(kept[i]) == (IsWhiteSpace(kept[i]) || kept[i] == '-') {
      KeptSeparator(kept[i]);
    }
    HyphenIsNotWhiteSpace();
    ReplaceRunsTwice(kept, IsWhiteSpace, IsNonWord);
    HyphenIsNotWord();
    RunsToWords(kept, IsWord, IsNonWord);
  }

  /**
   * The slug of a title without Hangul holds the title's letters and numbers,
   * lower-cased and in order, and nothing else but hyphens.
   */
  lemma SlugKeepsTitleWords(title: string)
    requires forall i :: 0 <= i < |title| ==> title[i] as int < Hangul.LBase
    ensures Seqs.Filter(CreateSlugFromTitleAsWritten(title), IsWord) == ToLowerCase(Seqs.Filter(title, IsWord))
  {
    var t := Trim(title);
    calc {
      Seqs.Filter(CreateSlugFromTitleAsWritten(title), IsWord);
      Seqs.Filter(NormalizeNfc(ToLowerCase(t)), IsWord);
      { LoweredTrimNoHangul(title); }
      Seqs.Filter(ToLowerCase(t), IsWord);
      { LowerKeepsWordClass(); ToLowerKeepsWords(t, IsWord); }
      ToLowerCase(Seqs.Filter(t, IsWord));
      { TrimKeepsWords(title); }
      ToLowerCase(Seqs.Filter(title, IsWord));
    }
  }

  /** `trim` removes only whitespace, so no letter or number. */
  lemma TrimKeepsWords(s: string)
    ensures Seqs.Filter(Trim(s), IsWord) == Seqs.Filter(s, IsWord)
  {
    forall c | IsWhiteSpace(c) ensures !IsWord(c) {
      WhiteSpaceIsNotWord(c);
    }
    TrimKeepsClass(s, IsWord);
  }

  /** `trim` removes no character of a class without whitespace. */
  lemma TrimKeepsClass(s: string, word: char -> bool)
    requires forall c :: IsWhiteSpace(c) ==> !word(c)
    ensures Seqs.Filter(Trim(s), word) == Seqs.Filter(s, word)
  {
    TrimSpec(s);
    var a, b := TrimOffset(s), TrimOffset(s) + |Trim(s)|;
    Seqs.FilterSlice(s, a, b, word);
  }

  lemma LoweredTrimNoHangul(title: string)
    requires forall i :: 0 <= i < |title| ==> title[i] as int < Hangul.LBase
    ensures NormalizeNfc(ToLowerCase(Trim(title))) == ToLowerCase(Trim(title))
  {
    TrimSpec(title);
    var lowered := ToLowerCase(Trim(title));
    forall i | 0 <= i < |lowered| ensures lowered[i] as int < Hangul.LBase {
      assert Trim(title)[i] == title[TrimOffset(title) + i];
    }
    NfcWithoutHangul(lowered);
  }

  lemma LowerKeepsWordClass()
    ensures forall c {:trigger LowerChar(c)} :: IsWord(LowerChar(c)) == IsWord(c)
  {
    forall c ensures IsWord(LowerChar(c)) == IsWord(c) {
      LowerCharFacts(c);
    }
  }

  /** Lower-casing and keeping a class that lower-casing preserves can be done in either order. */
  lemma {:induction false} ToLowerKeepsWords(s: string, word: char -> bool)
    requires forall c {:trigger LowerChar(c)} :: word(LowerChar(c)) == word(c)
    ensures Seqs.Filter(ToLowerCase(s), word) == ToLowerCase(Seqs.Filter(s, word))
  {
    if s != [] {
      var init, last := s[..|s| - 1], s[|s| - 1];
      var lowered := ToLowerCase(s);
      assert lowered[..|s| - 1] == ToLowerCase(init);
      var tail := if word(last) then [last] else [];
      calc {
        Seqs.Filter(lowered, word);
        Seqs.Filter(ToLowerCase(init), word) + (if word(LowerChar(last)) then [LowerChar(last)] else []);
        { ToLowerKeepsWords(init, word); }
        ToLowerCase(Seqs.Filter(init, word)) + ToLowerCase(tail);
        { LowerAppend(Seqs.Filter(init, word), tail); }
        ToLowerCase(Seqs.Filter(s, word));
      }
    }
  }

  lemma LowerAppend(a: string, b: string)
    ensures ToLowerCase(a + b) == ToLowerCase(a) + ToLowerCase(b)
  {
  }

  lemma WordsAreKept()
    ensures forall c :: IsWord(c) == (IsKept(c) && IsWord(c))
  {
  }

  lemma HyphenIsNotWord()
    ensures !IsWord('-')
    ensures forall c :: IsHyphen(c) ==> !IsWord(c)
  {
  }

  /** Stripping the end hyphens of a string with no double hyphen gives a slug. */
  lemma StripHyphenEndsIsSlug(s: seq<char>)
    requires forall i :: 0 <= i < |s| ==> IsSlugChar(s[i])
    requires NoDoubleHyphen(s)
    ensures IsSlug(StripHyphenEnds(s))
  {
    var t := if s != [] && s[0] == '-' then s[1..] else s;
    assert forall i :: 0 <= i < |t| ==> IsSlugChar(t[i]);
    assert NoDoubleHyphen(t);
  }

  /** Hangul composition never puts two hyphens side by side. */
  lemma {:induction false} ComposeNoDoubleHyphen(s: seq<char>)
    requires NoDoubleHyphen(s)
    ensures NoDoubleHyphen(Hangul.Compose(s))
    decreases |s|
  {
    if |s| >= 2 {
      if Hangul.Composable(s[0], s[1]) {
        var s' := [Hangul.ComposePair(s[0], s[1])] + s[2..];
        SyllableFacts(s'[0]);
        assert NoDoubleHyphen(s');
        ComposeNoDoubleHyphen(s');
      } else {
        ComposeNoDoubleHyphen(s[1..]);
        var tail := Hangul.Compose(s[1..]);
        assert Hangul.Compose(s) == [s[0]] + tail;
        if Hangul.IsSyllable(tail[0]) { SyllableFacts(tail[0]); }
      }
    }
  }

  /** Hangul composition keeps the shape of a slug. */
  lemma ComposeKeepsSlug(s: seq<char>)
    requires IsSlug(s)
    ensures IsSlug(Hangul.Compose(s))
  {
    var r := Hangul.Compose(s);
    forall i | 0 <= i < |r| ensures IsSlugChar(r[i]) {
      if Hangul.IsSyllable(r[i]) { SyllableFacts(r[i]); }
    }
    if s != [] {
      if Hangul.IsSyllable(r[0]) { SyllableFacts(r[0]); }
      if Hangul.IsSyllable(r[|r| - 1]) { SyllableFacts(r[|r| - 1]); }
    }
    ComposeNoDoubleHyphen(s);
  }

  /** Lower-casing leaves a lower-case string as it is. */
  lemma LowerCaseUnchanged(s: string)
    requires IsLowerCase(s)
    ensures ToLowerCase(s) == s
  {
  }

  /** Every character may appear in a slug and is a hyphen or a character of `s`. */
  predicate SlugCharsFrom(t: seq<char>, s: seq<char>) {
    forall i :: 0 <= i < |t| ==> IsSlugChar(t[i]) && (t[i] == '-' || t[i] in s)
  }

  lemma ComposedIsLowerCase(title: string)
    ensures IsLowerCase(NormalizeNfc(ToLowerCase(Trim(title))))
  {
    var lowered := ToLowerCase(Trim(title));
    var composed := NormalizeNfc(lowered);
    forall i | 0 <= i < |lowered| ensures IsLowerStable(lowered[i]) {
      LowerCharFacts(Trim(title)[i]);
    }
    forall i | 0 <= i < |composed| ensures IsLowerStable(composed[i]) {
      if Hangul.IsSyllable(composed[i]) { SyllableFacts(composed[i]); }
    }
  }

  lemma LowerFromSource(r: seq<char>, s: seq<char>)
    requires IsLowerCase(s) && FromSource(r, s)
    ensures IsLowerCase(r)
  {
    forall i | 0 <= i < |r| ensures IsLowerStable(r[i]) {
      if r[i] != '-' {
        var j :| 0 <= j < |s| && s[j] == r[i];
      }
    }
  }

  lemma HyphenatedChars(kept: seq<char>, s: seq<char>)
    requires forall i :: 0 <= i < |kept| ==> kept[i] in s && IsKept(kept[i])
    ensures SlugCharsFrom(ReplaceRuns(kept, IsWhiteSpace), s)
  {
    var r := ReplaceRuns(kept, IsWhiteSpace);
    forall i | 0 <= i < |r| ensures IsSlugChar(r[i]) && (r[i] == '-' || r[i] in s) {
      if r[i] != '-' {
        var j :| 0 <= j < |kept| && kept[j] == r[i];
      }
    }
  }

  lemma CollapsedChars(hyphenated: seq<char>, s: seq<char>)
    requires SlugCharsFrom(hyphenated, s)
    ensures SlugCharsFrom(ReplaceRuns(hyphenated, IsHyphen), s)
    ensures NoDoubleHyphen(ReplaceRuns(hyphenated, IsHyphen))
  {
    var r := ReplaceRuns(hyphenated, IsHyphen);
    forall i | 0 <= i < |r| ensures IsSlugChar(r[i]) && (r[i] == '-' || r[i] in s) {
      if r[i] != '-' {
        var j :| 0 <= j < |hyphenated| && hyphenated[j] == r[i];
      }
    }
    ReplaceRunsNoDoubleHyphen(hyphenated, IsHyphen);
  }

  lemma StripGivesSlug(collapsed: seq<char>, s: seq<char>)
    requires SlugCharsFrom(collapsed, s) && NoDoubleHyphen(collapsed)
    ensures IsSlug(StripHyphenEnds(collapsed))
    ensures FromSource(StripHyphenEnds(collapsed), s)
  {
    StripHyphenEndsIsSlug(collapsed);
    var r := StripHyphenEnds(collapsed);
    forall i | 0 <= i < |r| ensures r[i] == '-' || r[i] in s {
      var j :| 0 <= j < |collapsed| && collapsed[j] == r[i];
    }
  }

  /** The `replace` steps each leave a slug as it is. */
  lemma SlugFixed(s: seq<char>)
    ensures IsSlug(s) ==> Seqs.Filter(s, IsKept) == s
    ensures IsSlug(s) ==> ReplaceRuns(s, IsWhiteSpace) == s
    ensures IsSlug(s) ==> StripHyphenEnds(ReplaceRuns(s, IsHyphen)) == s
  {
    if IsSlug(s) {
      SlugCharsKeptNotWhite(s);
      Seqs.FilterAll(s, IsKept);
      ReplaceRunsUnchanged(s, IsWhiteSpace);
      ReplaceRunsUnchanged(s, IsHyphen);
    }
  }

  /** On a lower-case slug the as-written pipeline does nothing but compose Hangul. */
  lemma AsWrittenOnSlug(s: string)
    requires IsSlug(s) && IsLowerCase(s)
    ensures CreateSlugFromTitleAsWritten(s) == NormalizeNfc(s)
  {
    TrimUnchanged(s);
    LowerCaseUnchanged(s);
    ComposeKeepsSlug(s);
  }

  lemma SlugCharsKeptNotWhite(s: seq<char>)
    requires IsSlug(s)
    ensures forall i :: 0 <= i < |s| ==> IsKept(s[i]) && !IsWhiteSpace(s[i])
  {
    forall i | 0 <= i < |s| ensures IsKept(s[i]) && !IsWhiteSpace(s[i]) {
      SlugCharFacts(s[i]);
    }
  }

  lemma SlugCharFacts(c: char)
    requires IsSlugChar(c)
    ensures IsKept(c) && !IsWhiteSpace(c)
  {
  }

  /** Applying the as-written pipeline twice gives the corrected slug. */
  lemma AsWrittenTwice(title: string)
    ensures CreateSlugFromTitleAsWritten(CreateSlugFromTitleAsWritten(title)) == CorrectedSlugFromTitle(title)
  {
    AsWrittenOnSlug(CreateSlugFromTitleAsWritten(title));
  }

  /** The as-written pipeline is idempotent on exactly the titles whose slug has no composable jamo pair. */
  lemma AsWrittenIdempotentIff(title: string)
    ensures var s := CreateSlugFromTitleAsWritten(title);
      CreateSlugFromTitleAsWritten(s) == s <==> Hangul.NoComposablePair(s)
  {
    AsWrittenTwice(title);
  }

  /** The corrected pipeline is idempotent. */
  lemma SlugIdempotent(title: string)
    ensures CorrectedSlugFromTitle(CorrectedSlugFromTitle(title)) == CorrectedSlugFromTitle(title)
  {
    AsWrittenOnSlug(CorrectedSlugFromTitle(title));
  }

  predicate IsAsciiAlphanumeric(c: char) {
    ('a' <= c <= 'z') || ('A' <= c <= 'Z') || ('0' <= c <= '9')
  }

  predicate IsAsciiWord(s: string) {
    forall i :: 0 <= i < |s| ==> IsAsciiAlphanumeric(s[i])
  }

  /** A title of ASCII letters and digits becomes its lower-case form. */
  lemma AlphanumericTitle(title: string)
    requires IsAsciiWord(title)
    ensures CreateSlugFromTitleAsWritten(title) == ToLowerCase(title)
    ensures CorrectedSlugFromTitle(title) == ToLowerCase(title)
  {
    AsciiWordTrimmed(title);
    var lowered := ToLowerCase(title);
    AsciiWordLowered(title);
    NfcWithoutHangul(lowered);
  }

  lemma AsciiWordTrimmed(title: string)
    requires IsAsciiWord(title)
    ensures Trim(title) == title
  {
    TrimUnchanged(title);
  }

  lemma AsciiWordLowered(title: string)
    requires IsAsciiWord(title)
    ensures IsSlug(ToLowerCase(title))
    ensures forall i :: 0 <= i < |title| ==> ToLowerCase(title)[i] as int < Hangul.LBase
  {
  }

  /** Neither a letter nor a number. */
  predicate IsNonWord(c: char) { !IsWord(c) }

  /** A title with no letter and no number, such as only whitespace and punctuation, has the empty slug. */
  lemma NoWordCharacters(title: string)
    requires forall i :: 0 <= i < |title| ==> IsNonWord(title[i])
    ensures CreateSlugFromTitleAsWritten(title) == ""
    ensures CorrectedSlugFromTitle(title) == ""
  {
    var trimmed := Trim(title);
    TrimSpec(title);
    var lowered := ToLowerCase(trimmed);
    forall i | 0 <= i < |lowered| ensures IsNonWord(lowered[i]) {
      LowerCharFacts(trimmed[i]);
    }
    NonWordNfc(lowered);
    NonWordReplacements(lowered);
  }

  lemma NonWordNfc(s: string)
    requires forall i :: 0 <= i < |s| ==> IsNonWord(s[i])
    ensures NormalizeNfc(s) == s
  {
  }

  lemma NonWordReplacements(s: string)
    requires forall i :: 0 <= i < |s| ==> IsNonWord(s[i])
    ensures Replacements(s) == ""
  {
    var kept := Seqs.Filter(s, IsKept);
    var hyphenated := ReplaceRuns(kept, IsWhiteSpace);
    assert AllHyphens(hyphenated);
    var collapsed := ReplaceRuns(hyphenated, IsHyphen);
    CollapsedHyphens(hyphenated);
    LoneHyphenStripped(collapsed);
  }

  predicate AllHyphens(s: seq<char>) {
    forall i :: 0 <= i < |s| ==> s[i] == '-'
  }

  lemma CollapsedHyphens(s: seq<char>)
    requires AllHyphens(s)
    ensures AllHyphens(ReplaceRuns(s, IsHyphen)) && NoDoubleHyphen(ReplaceRuns(s, IsHyphen))
  {
    ReplaceRunsNoDoubleHyphen(s, IsHyphen);
  }

  /** A string of hyphens with no two side by side is at most one hyphen, which is stripped. */
  lemma LoneHyphenStripped(s: seq<char>)
    requires AllHyphens(s) && NoDoubleHyphen(s)
    ensures StripHyphenEnds(s) == []
  {
    FirstTwoHyphens(s);
  }

  lemma FirstTwoHyphens(s: seq<char>)
    requires AllHyphens(s)
    ensures |s| >= 2 ==> s[0] == '-' && s[1] == '-'
  {
  }

  /** `properties.title ?? properties.Name`: the `Name` property is read only when there is no `title`. */
  function TitleProperty(properties: Properties): (r: Option<PropertyValue>)
    ensures "title" in properties ==> r == Some(properties["title"])
    ensures "title" !in properties ==> (r.Some? <==> "Name" in properties)
    ensures "title" !in properties && r.Some? ==> r.value == properties["Name"]
  {
    match Lookup(properties, "title")
    case Some(v) => Some(v)
    case None => Lookup(properties, "Name")
  }

  /**
   * `getPostTitleText`: the trimmed text of the first span of a title-typed title
   * property, or "Untitled" when there is no such span or it trims to nothing.
   */
  function GetPostTitleText(page: Page): (r: string)
    ensures r != ""
    ensures Trim(r) == r
    ensures var t := TitleProperty(page.properties);
      r == "Untitled" || (t.Some? && t.value.Title? && t.value.title != [] && r == Trim(t.value.title[0].plainText))
  {
    UntitledTrimmed();
    match TitleProperty(page.properties)
    case Some(Title(spans)) =>
      if spans == [] then "Untitled"
      else
        TrimIdempotent(spans[0].plainText);
        var text := Trim(spans[0].plainText);
        if text == "" then "Untitled" else text
    case _ => "Untitled"
  }

  lemma UntitledTrimmed()
    ensures Trim("Untitled") == "Untitled"
  {
    TrimUnchanged("Untitled");
  }

  /** A title-typed title whose first span has text gives that text, trimmed. */
  lemma TitleTextOfFirstSpan(page: Page, spans: seq<RichText>)
    requires TitleProperty(page.properties) == Some(Title(spans))
    requires spans != [] && Trim(spans[0].plainText) != ""
    ensures GetPostTitleText(page) == Trim(spans[0].plainText)
  {
  }

  /**
   * Without a title-typed property whose first span has text (no property, another
   * type, no span, or a span that trims to nothing) the title text is "Untitled".
   */
  lemma TitleWithoutText(page: Page)
    requires var t := TitleProperty(page.properties);
      !(t.Some? && t.value.Title? && t.value.title != [] && Trim(t.value.title[0].plainText) != "")
    ensures GetPostTitleText(page) == "Untitled"
  {
  }

  /** A `title` property that is not title-typed gives "Untitled", whatever `Name` holds. */
  lemma TitleNotTitleTyped(page: Page)
    requires "title" in page.properties && !page.properties["title"].Title?
    ensures GetPostTitleText(page) == "Untitled"
  {
  }

  /** When a `title` property exists, `Name` plays no part. */
  lemma TitleIgnoresName(page: Page, name: PropertyValue)
    requires "title" in page.properties
    ensures GetPostTitleText(Page(page.id, page.properties["Name" := name])) == GetPostTitleText(page)
  {
    assert TitleProperty(page.properties["Name" := name]) == TitleProperty(page.properties);
  }

  /** When there is no `title` property, `Name` is read exactly as `title` would be. */
  lemma TitleFallsBackToName(page: Page)
    requires "title" !in page.properties && "Name" in page.properties
    ensures GetPostTitleText(page) == GetPostTitleText(Page(page.id, map["title" := page.properties["Name"]]))
  {
  }

  /** `getPostSlugFromTitle`: the slug of the page's title text. */
  function GetPostSlugFromTitle(page: Page): (r: string)
    ensures IsSlug(r) && IsLowerCase(r)
    ensures GetPostTitleText(page) == "Untitled" ==> r == "untitled"
  {
    UntitledSlug();
    CreateSlugFromTitleAsWritten(GetPostTitleText(page))
  }

  /** The default title's slug. */
  lemma UntitledSlug()
    ensures CreateSlugFromTitleAsWritten("Untitled") == "untitled"
  {
    UntitledIsAsciiWord();
    UntitledLowered();
    AlphanumericTitle("Untitled");
  }

  lemma UntitledIsAsciiWord()
    ensures IsAsciiWord("Untitled")
  {
  }

  lemma UntitledLowered()
    ensures ToLowerCase("Untitled") == "untitled"
  {
  }
}
