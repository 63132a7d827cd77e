/**
 * The ECMAScript string facilities the slug pipeline relies on, over a modelled
 * repertoire: the whitespace class shared by `\s` and `String.prototype.trim`, the
 * Unicode property classes `\p{L}` and `\p{N}`, `toLowerCase` and `normalize("NFC")`.
 *
 * The whitespace class is complete. Letters and numbers are classified exactly for
 * U+0000..U+00FF and the Hangul blocks U+1100..U+11FF (conjoining jamo),
 * U+3131..U+318E (compatibility jamo) and U+AC00..U+D7A3 (syllables); every other
 * character is treated as neither. Lower-casing is exact on
 * U+0000..U+00FF and the identity elsewhere; NFC is Hangul composition only.
 */
module JsText {
  import Hangul

  /** WhiteSpace and LineTerminator of ECMAScript: what `\s` matches and `trim` removes. */
  predicate IsWhiteSpace(c: char) {
    var n := c as int;
    (0x09 <= n <= 0x0D) || n == 0x20 || n == 0xA0 || n == 0x1680
    || (0x2000 <= n <= 0x200A) || n == 0x2028 || n == 0x2029
    || n == 0x202F || n == 0x205F || n == 0x3000 || n == 0xFEFF
  }

  /** `\p{L}` on the modelled repertoire. */
  predicate IsLetter(c: char) {
    var n := c as int;
    ('a' <= c <= 'z') || ('A' <= c <= 'Z')
    || n == 0xAA || n == 0xB5 || n == 0xBA
    || (0xC0 <= n <= 0xD6) || (0xD8 <= n <= 0xF6) || (0xF8 <= n <= 0xFF)
    || (0x1100 <= n <= 0x11FF)   // Hangul conjoining jamo
    || (0x3131 <= n <= 0x318E)   // Hangul compatibility jamo
    || (0xAC00 <= n <= 0xD7A3)   // Hangul syllables
  }

  /** `\p{N}` on the modelled repertoire. */
  predicate IsNumber(c: char) {
    var n := c as int;
    ('0' <= c <= '9') || n == 0xB2 || n == 0xB3 || n == 0xB9 || (0xBC <= n <= 0xBE)
  }

  /** The lower-case mapping of one character (upper-case ASCII and Latin-1 letters). */
  function LowerChar(c: char): char {
    if ('A' <= c <= 'Z') || (0xC0 <= c as int <= 0xDE && c as int != 0xD7) then
      (c as int + 32) as char
    else c
  }

  /** `s.toLowerCase()`. */
  function ToLowerCase(s: seq<char>): (r: seq<char>)
    ensures |r| == |s|
    ensures forall i :: 0 <= i < |s| ==> r[i] == LowerChar(s[i])
  {
    seq(|s|, i requires 0 <= i < |s| => LowerChar(s[i]))
  }

  /** A character that lower-casing leaves as it is. */
  predicate IsLowerStable(c: char) { LowerChar(c) == c }

  /** `s.normalize("NFC")`, restricted to canonical composition of Hangul. */
  function NormalizeNfc(s: seq<char>): (r: seq<char>)
    ensures Hangul.NoComposablePair(r)
    ensures Hangul.NoComposablePair(s) ==> r == s
  {
    Hangul.ComposeStable(s);
    Hangul.Compose(s)
  }

  /** NFC keeps the text: the result is canonically equivalent to the input. */
  lemma NfcCanonicallyEquivalent(s: seq<char>)
    ensures Hangul.FullDecompose(NormalizeNfc(s)) == Hangul.FullDecompose(s)
  {
    Hangul.ComposeCanonicallyEquivalent(s);
  }

  /** Lower-casing is idempotent and keeps each character's class. */
  lemma LowerCharFacts(c: char)
    ensures IsLowerStable(LowerChar(c))
    ensures IsLetter(LowerChar(c)) == IsLetter(c)
    ensures IsNumber(LowerChar(c)) == IsNumber(c)
    ensures IsWhiteSpace(LowerChar(c)) == IsWhiteSpace(c)
    ensures (LowerChar(c) == '-') == (c == '-')
  {
  }

  /** A Hangul syllable is a letter without case. */
  lemma SyllableFacts(c: char)
    requires Hangul.IsSyllable(c)
    ensures IsLetter(c) && IsLowerStable(c) && !IsWhiteSpace(c) && c != '-'
  {
  }

  /** `s.trimStart()`: the longest suffix that does not start with whitespace. */
  function TrimStart(s: seq<char>): (r: seq<char>)
    ensures |r| <= |s| && r == s[|s| - |r|..]
    ensures forall i :: 0 <= i < |s| - |r| ==> IsWhiteSpace(s[i])
    ensures r != [] ==> !IsWhiteSpace(r[0])
  {
    if s != [] && IsWhiteSpace(s[0]) then TrimStart(s[1..]) else s
  }

  /** `s.trimEnd()`: the longest prefix that does not end with whitespace. */
  function TrimEnd(s: seq<char>): (r: seq<char>)
    ensures |r| <= |s| && r == s[..|r|]
    ensures forall i :: |r| <= i < |s| ==> IsWhiteSpace(s[i])
    ensures r != [] ==> !IsWhiteSpace(r[|r| - 1])
  {
    if s != [] && IsWhiteSpace(s[|s| - 1]) then TrimEnd(s[..|s| - 1]) else s
  }

  /** `s.trim()`: never longer than `s`, and with no whitespace at either end. */
  function Trim(s: seq<char>): (r: seq<char>)
    ensures |r| <= |s|
    ensures r != [] ==> !IsWhiteSpace(r[0]) && !IsWhiteSpace(r[|r| - 1])
  {
    var t := TrimStart(s);
    var r := TrimEnd(t);
    assert r != [] ==> r[0] == t[0];
    r
  }

  /** How many characters `Trim` removes at the start. */
  function TrimOffset(s: seq<char>): nat {
    |s| - |TrimStart(s)|
  }

  /**
   * `Trim` removes exactly the whitespace at both ends: the result is a slice of `s`,
   * everything outside it is whitespace, and it neither starts nor ends with whitespace.
   */
  lemma TrimSpec(s: seq<char>)
    ensures TrimOffset(s) + |Trim(s)| <= |s|
    ensures Trim(s) == s[TrimOffset(s)..TrimOffset(s) + |Trim(s)|]
    ensures forall i :: 0 <= i < TrimOffset(s) ==> IsWhiteSpace(s[i])
    ensures forall i :: TrimOffset(s) + |Trim(s)| <= i < |s| ==> IsWhiteSpace(s[i])
    ensures Trim(s) != [] ==> !IsWhiteSpace(Trim(s)[0]) && !IsWhiteSpace(Trim(s)[|Trim(s)| - 1])
  {
    TrimSlice(s);
    TrimTail(s);
  }

  lemma TrimSlice(s: seq<char>)
    ensures TrimOffset(s) + |Trim(s)| <= |s|
    ensures Trim(s) == s[TrimOffset(s)..TrimOffset(s) + |Trim(s)|]
  {
    TrimmedSlice(s, TrimStart(s), TrimEnd(TrimStart(s)));
  }

  lemma TrimTail(s: seq<char>)
    ensures forall i :: 0 <= i < TrimOffset(s) ==> IsWhiteSpace(s[i])
    ensures forall i :: TrimOffset(s) + |Trim(s)| <= i < |s| ==> IsWhiteSpace(s[i])
  {
    TrimmedTail(s, TrimStart(s), TrimEnd(TrimStart(s)));
  }

  lemma TrimmedSlice(s: seq<char>, t: seq<char>, r: seq<char>)
    requires |t| <= |s| && t == s[|s| - |t|..]
    requires |r| <= |t| && r == t[..|r|]
    ensures r == s[|s| - |t|..|s| - |t| + |r|]
  {
    var a := |s| - |t|;
    forall i | 0 <= i < |r| ensures r[i] == s[a + i] {
      assert r[i] == t[i];
    }
  }

  lemma TrimmedTail(s: seq<char>, t: seq<char>, r: seq<char>)
    requires |t| <= |s| && t == s[|s| - |t|..]
    requires |r| <= |t| && forall i :: |r| <= i < |t| ==> IsWhiteSpace(t[i])
    ensures forall i :: |s| - |t| + |r| <= i < |s| ==> IsWhiteSpace(s[i])
  {
    var a := |s| - |t|;
    forall i | a + |r| <= i < |s| ensures IsWhiteSpace(s[i]) {
      assert s[i] == t[i - a];
    }
  }

  /** A string without whitespace at its ends is its own trim. */
  lemma TrimUnchanged(s: seq<char>)
    requires s != [] ==> !IsWhiteSpace(s[0]) && !IsWhiteSpace(s[|s| - 1])
    ensures Trim(s) == s
  {
  }

  /** Trimming a string padded with whitespace gives back the unpadded string. */
  lemma {:induction false} TrimPadded(pre: seq<char>, mid: seq<char>, post: seq<char>)
    requires forall i :: 0 <= i < |pre| ==> IsWhiteSpace(pre[i])
    requires forall i :: 0 <= i < |post| ==> IsWhiteSpace(post[i])
    requires mid != [] && !IsWhiteSpace(mid[0]) && !IsWhiteSpace(mid[|mid| - 1])
    ensures Trim(pre + mid + post) == mid
  {
    TrimStartPadded(pre, mid + post);
    assert pre + mid + post == pre + (mid + post);
    TrimEndPadded(mid, post);
  }

  lemma {:induction false} TrimStartPadded(pre: seq<char>, rest: seq<char>)
    requires forall i :: 0 <= i < |pre| ==> IsWhiteSpace(pre[i])
    requires rest != [] ==> !IsWhiteSpace(rest[0])
    ensures TrimStart(pre + rest) == rest
  {
    if pre == [] {
      assert pre + rest == rest;
    } else {
      assert (pre + rest)[1..] == pre[1..] + rest;
      TrimStartPadded(pre[1..], rest);
    }
  }

  lemma {:induction false} TrimEndPadded(rest: seq<char>, post: seq<char>)
    requires forall i :: 0 <= i < |post| ==> IsWhiteSpace(post[i])
    requires rest != [] ==> !IsWhiteSpace(rest[|rest| - 1])
    ensures TrimEnd(rest + post) == rest
  {
    if post == [] {
      assert rest + post == rest;
    } else {
      var init := post[..|post| - 1];
      assert (rest + post)[..|rest + post| - 1] == rest + init;
      TrimEndPadded(rest, init);
    }
  }

  /** A string with no Hangul jamo or syllable is already in NFC. */
  lemma NfcWithoutHangul(s: seq<char>)
    requires forall i :: 0 <= i < |s| ==> s[i] as int < Hangul.LBase
    ensures NormalizeNfc(s) == s
  {
  }

  /** `trim` is idempotent. */
  lemma TrimIdempotent(s: seq<char>)
    ensures Trim(Trim(s)) == Trim(s)
  {
    TrimSpec(s);
    TrimUnchanged(Trim(s));
  }
}
