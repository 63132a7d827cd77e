/**
 * Canonical composition of Hangul conjoining jamo, the algorithmic part of Unicode
 * normalization form C (Unicode Standard Annex #15, section "Hangul" of the Unicode
 * Standard, chapter 3.12). A leading consonant followed by a vowel composes into an
 * LV syllable, and an LV syllable followed by a trailing consonant composes into an
 * LVT syllable.
 */
module Hangul {

  const SBase := 0xAC00
  const LBase := 0x1100
  const VBase := 0x1161
  const TBase := 0x11A7
  const LCount := 19
  const VCount := 21
  const TCount := 28
  const NCount := 588     // VCount * TCount
  const SCount := 11172   // LCount * NCount

  predicate IsLeadingJamo(c: char) { LBase <= c as int < LBase + LCount }
  predicate IsVowelJamo(c: char) { VBase <= c as int < VBase + VCount }
  predicate IsTrailingJamo(c: char) { TBase < c as int < TBase + TCount }
  predicate IsSyllable(c: char) { SBase <= c as int < SBase + SCount }
  predicate IsLvSyllable(c: char) { IsSyllable(c) && (c as int - SBase) % TCount == 0 }

  /** Two adjacent characters that canonical composition replaces by one syllable. */
  predicate Composable(a: char, b: char) {
    (IsLeadingJamo(a) && IsVowelJamo(b)) || (IsLvSyllable(a) && IsTrailingJamo(b))
  }

  /** The syllable that a composable pair composes into. */
  function ComposePair(a: char, b: char): (c: char)
    requires Composable(a, b)
    ensures IsSyllable(c)
    ensures IsLeadingJamo(a) ==> IsLvSyllable(c)
  {
    if IsLeadingJamo(a) then
      var lIndex, vIndex := a as int - LBase, b as int - VBase;
      assert lIndex * NCount <= 18 * NCount;
      (SBase + lIndex * NCount + vIndex * TCount) as char
    else
      (a as int + (b as int - TBase)) as char
  }

  /** The canonical decomposition of a syllable into the pair it was composed from. */
  function DecomposeSyllable(c: char): (pair: (char, char))
    requires IsSyllable(c)
    ensures IsLvSyllable(c) ==> IsLeadingJamo(pair.0) && IsVowelJamo(pair.1)
    ensures !IsLvSyllable(c) ==> IsLvSyllable(pair.0) && IsTrailingJamo(pair.1)
  {
    var sIndex := c as int - SBase;
    var tIndex := sIndex % TCount;
    if tIndex == 0 then
      ((LBase + sIndex / NCount) as char, (VBase + (sIndex % NCount) / TCount) as char)
    else
      ((c as int - tIndex) as char, (TBase + tIndex) as char)
  }

  /** Decomposing a composed pair gives the pair back. */
  lemma DecomposeComposePair(a: char, b: char)
    requires Composable(a, b)
    ensures DecomposeSyllable(ComposePair(a, b)) == (a, b)
  {
    if IsLeadingJamo(a) {
      DecomposeLv(a as int - LBase, b as int - VBase);
    } else {
      var k := (a as int - SBase) / TCount;
      DivModT(a as int - SBase, k, 0);
      DivModT(a as int - SBase + (b as int - TBase), k, b as int - TBase);
    }
  }

  /** The index arithmetic of an LV syllable: its leading and vowel indices come back out. */
  lemma DecomposeLv(lIndex: int, vIndex: int)
    requires 0 <= lIndex < LCount && 0 <= vIndex < VCount
    ensures var sIndex := lIndex * NCount + vIndex * TCount;
      sIndex % TCount == 0 && sIndex / NCount == lIndex && (sIndex % NCount) / TCount == vIndex
  {
    var sIndex := lIndex * NCount + vIndex * TCount;
    DivModN(sIndex, lIndex, vIndex * TCount);
    DivModT(vIndex * TCount, vIndex, 0);
    DivModT(sIndex, lIndex * VCount + vIndex, 0);
  }

  /** Division by `TCount` is determined by a quotient and a remainder in range. */
  lemma DivModT(x: int, q: int, r: int)
    requires 0 <= r < TCount && x == q * TCount + r
    ensures x / TCount == q && x % TCount == r
  {
  }

  /** Division by `NCount` is determined by a quotient and a remainder in range. */
  lemma DivModN(x: int, q: int, r: int)
    requires 0 <= r < NCount && x == q * NCount + r
    ensures x / NCount == q && x % NCount == r
  {
  }

  /** No two adjacent characters of `s` compose. */
  predicate NoComposablePair(s: seq<char>) {
    forall i :: 0 <= i < |s| - 1 ==> !Composable(s[i], s[i + 1])
  }

  /**
   * Canonical composition of a string, restricted to Hangul: every composable pair,
   * scanning from the left, is replaced by its syllable.
   */
  function Compose(s: seq<char>): (r: seq<char>)
    ensures |r| <= |s|
    ensures forall i :: 0 <= i < |r| ==> r[i] in s || IsSyllable(r[i])
    ensures |s| > 0 ==> |r| > 0 && (r[0] == s[0] || IsSyllable(r[0]))
    ensures |s| > 0 ==> r[|r| - 1] == s[|s| - 1] || IsSyllable(r[|r| - 1])
    ensures NoComposablePair(r)
    decreases |s|
  {
    if |s| < 2 then s
    else if Composable(s[0], s[1]) then Compose([ComposePair(s[0], s[1])] + s[2..])
    else [s[0]] + Compose(s[1..])
  }

  /** Composition leaves a string with no composable pair unchanged. */
  lemma {:induction false} ComposeStable(s: seq<char>)
    ensures NoComposablePair(s) ==> Compose(s) == s
    decreases |s|
  {
    if |s| >= 2 && NoComposablePair(s) {
      ComposeStable(s[1..]);
    }
  }

  /** Composition is idempotent. */
  lemma ComposeIdempotent(s: seq<char>)
    ensures Compose(Compose(s)) == Compose(s)
  {
    ComposeStable(Compose(s));
  }

  /**
   * The full canonical decomposition of one character: a syllable becomes its
   * leading consonant, vowel and (for an LVT syllable) trailing consonant; any other
   * character stands for itself.
   */
  function DecomposeChar(c: char): (r: seq<char>)
    ensures 1 <= |r| <= 3
    ensures !IsSyllable(c) <==> r == [c]
  {
    if IsSyllable(c) then
      var pair := DecomposeSyllable(c);
      if IsSyllable(pair.0) then
        var lv := DecomposeSyllable(pair.0);
        [lv.0, lv.1, pair.1]
      else [pair.0, pair.1]
    else [c]
  }

  /** The full canonical decomposition of a string, character by character. */
  function FullDecompose(s: seq<char>): seq<char> {
    if s == [] then [] else DecomposeChar(s[0]) + FullDecompose(s[1..])
  }

  /** A composed syllable decomposes into the decompositions of the pair it came from. */
  lemma DecomposeComposedPair(a: char, b: char)
    requires Composable(a, b)
    ensures DecomposeChar(ComposePair(a, b)) == DecomposeChar(a) + DecomposeChar(b)
  {
    DecomposeComposePair(a, b);
  }

  /**
   * Composition keeps the full decomposition, so its result is canonically
   * equivalent to its input: no character is lost, added or reordered.
   */
  lemma {:induction false} ComposeCanonicallyEquivalent(s: seq<char>)
    ensures FullDecompose(Compose(s)) == FullDecompose(s)
    decreases |s|
  {
    if |s| >= 2 {
      if Composable(s[0], s[1]) {
        var t := [ComposePair(s[0], s[1])] + s[2..];
        assert Compose(s) == Compose(t);
        ComposeCanonicallyEquivalent(t);
        ComposedPairStep(s[0], s[1], s[2..]);
        assert s == [s[0]] + ([s[1]] + s[2..]);
      } else {
        var rest := Compose(s[1..]);
        assert Compose(s) == [s[0]] + rest;
        ComposeCanonicallyEquivalent(s[1..]);
        FullDecomposeCons(s[0], rest);
        FullDecomposeCons(s[0], s[1..]);
      }
    }
  }

  lemma FullDecomposeCons(c: char, t: seq<char>)
    ensures FullDecompose([c] + t) == DecomposeChar(c) + FullDecompose(t)
  {
    assert ([c] + t)[1..] == t;
  }

  /** Replacing a composable pair by its syllable keeps the full decomposition. */
  lemma ComposedPairStep(a: char, b: char, rest: seq<char>)
    requires Composable(a, b)
    ensures FullDecompose([ComposePair(a, b)] + rest) == FullDecompose([a] + ([b] + rest))
  {
    var da, db, dr := DecomposeChar(a), DecomposeChar(b), FullDecompose(rest);
    FullDecomposeCons(ComposePair(a, b), rest);
    DecomposeComposedPair(a, b);
    FullDecomposeCons(b, rest);
    FullDecomposeCons(a, [b] + rest);
    assert (da + db) + dr == da + (db + dr);
  }
}
