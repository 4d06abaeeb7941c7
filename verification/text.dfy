/** The character and string primitives the entity and the collection rely on:
    `char.IsWhiteSpace`, `char.IsLetter`, and ordinal case-insensitive equality and
    substring search (`StringComparison.OrdinalIgnoreCase`). */
module Text {

  /** `char.IsWhiteSpace`: the Unicode White_Space characters. */
  predicate IsWhiteSpace(ch: char) {
    || ('\t' <= ch <= '\r')
    || ch == ' '
    || ch == '\U{85}'
    || ch == '\U{A0}'
    || ch == '\U{1680}'
    || ('\U{2000}' <= ch <= '\U{200A}')
    || ch == '\U{2028}'
    || ch == '\U{2029}'
    || ch == '\U{202F}'
    || ch == '\U{205F}'
    || ch == '\U{3000}'
  }

  /** `char.IsLetter`, restricted to the Basic Latin, Latin-1, Latin Extended-A and
      Cyrillic letters; every other character counts as a non-letter. */
  predicate IsLetter(ch: char) {
    || ('A' <= ch <= 'Z')
    || ('a' <= ch <= 'z')
    || ch == '\U{AA}' || ch == '\U{B5}' || ch == '\U{BA}'
    || ('\U{C0}' <= ch <= '\U{D6}')
    || ('\U{D8}' <= ch <= '\U{F6}')
    || ('\U{F8}' <= ch <= '\U{17F}')
    || ('\U{400}' <= ch <= '\U{481}')
  }

  /** No letter is white space, so a string with a letter is never blank. */
  lemma LetterIsNotWhiteSpace(ch: char)
    requires IsLetter(ch)
    ensures !IsWhiteSpace(ch)
  {
  }

  /** A lower-case letter of Latin Extended-A whose capital is the code point just
      before it. The block alternates capital/small in pairs; the pairing shifts
      after U+0138 and back after U+0149. The dotless i (U+0131), kra (U+0138),
      n preceded by apostrophe (U+0149) and long s (U+017F) are left out. */
  predicate PairedLowerLatinA(ch: char) {
    var n := ch as int;
    if 0x100 <= n <= 0x12F || 0x132 <= n <= 0x137 || 0x14A <= n <= 0x177 then n % 2 == 1
    else if 0x139 <= n <= 0x148 || 0x179 <= n <= 0x17E then n % 2 == 0
    else false
  }

  /** The upper-case mapping used by ordinal case-insensitive comparison, on the
      lower-case letters of Basic Latin, Latin-1 (the micro sign included, which
      maps to Greek capital mu), Latin Extended-A (as `PairedLowerLatinA` says) and
      Cyrillic U+0400..U+0481; every other character maps to itself. */
  function FoldChar(ch: char): char {
    if 'a' <= ch <= 'z' then (ch as int - 32) as char
    else if ch == '\U{B5}' then '\U{39C}'
    else if PairedLowerLatinA(ch) then (ch as int - 1) as char
    else if '\U{460}' <= ch <= '\U{481}' && (ch as int) % 2 == 1 then (ch as int - 1) as char
    else if ('\U{E0}' <= ch <= '\U{FE}') && ch != '\U{F7}' then (ch as int - 32) as char
    else if ch == '\U{FF}' then '\U{178}'
    else if '\U{430}' <= ch <= '\U{44F}' then (ch as int - 32) as char
    else if '\U{450}' <= ch <= '\U{45F}' then (ch as int - 80) as char
    else ch
  }

  /** Case-insensitive equality across the folded blocks: "ōra" and "Ōra", the micro
      sign and Greek capital mu, Cyrillic omega; the dotless i stays apart from "I". */
  lemma FoldExamples()
    ensures EqualsIgnoreCase("\U{14D}ra", "\U{14C}ra")
    ensures EqualsIgnoreCase("\U{B5}", "\U{39C}")
    ensures EqualsIgnoreCase("\U{461}", "\U{460}")
    ensures !EqualsIgnoreCase("\U{131}", "I")
  {
    var dotless, capital := "\U{131}", "I";
    assert FoldChar(dotless[0]) == '\U{131}' != FoldChar(capital[0]);
  }

  /** Folding a character twice is folding it once. */
  lemma FoldCharIdempotent(ch: char)
    ensures FoldChar(FoldChar(ch)) == FoldChar(ch)
  {
  }

  function Fold(s: string): (r: string)
    ensures |r| == |s|
    ensures forall i :: 0 <= i < |s| ==> r[i] == FoldChar(s[i])
  {
    seq(|s|, i requires 0 <= i < |s| => FoldChar(s[i]))
  }

  /** `a.Equals(b, StringComparison.OrdinalIgnoreCase)`: it holds character by
      character, so it needs equal lengths, and every string equals itself. */
  function EqualsIgnoreCase(a: string, b: string): (r: bool)
    ensures r <==> |a| == |b| && forall i :: 0 <= i < |a| ==> FoldChar(a[i]) == FoldChar(b[i])
    ensures a == b ==> r
  {
    Fold(a) == Fold(b)
  }

  /** `pattern` occurs in `s` starting at index `k`. */
  predicate OccursAt(pattern: string, s: string, k: int) {
    0 <= k && k + |pattern| <= |s| && s[k..k + |pattern|] == pattern
  }

  predicate IsPrefix(pattern: string, s: string) {
    |pattern| <= |s| && s[..|pattern|] == pattern
  }

  /** Ordinal substring search: tries every starting position from left to right. */
  function Contains(s: string, pattern: string): (r: bool)
    ensures r <==> exists k :: OccursAt(pattern, s, k)
    decreases |s|
  {
    if IsPrefix(pattern, s) then
      assert OccursAt(pattern, s, 0);
      true
    else if |s| == 0 then
      assert forall k :: !OccursAt(pattern, s, k);
      false
    else
      var r := Contains(s[1..], pattern);
      ShiftOccurrence(pattern, s);
      r
  }

  /** An occurrence in `s` at a position other than 0 is an occurrence in `s[1..]`
      one position earlier, and conversely. */
  lemma ShiftOccurrence(pattern: string, s: string)
    requires |s| > 0 && !IsPrefix(pattern, s)
    ensures (exists k :: OccursAt(pattern, s, k)) <==> (exists k :: OccursAt(pattern, s[1..], k))
  {
    if k :| OccursAt(pattern, s, k) {
      assert k != 0;
      assert s[1..][k - 1..k - 1 + |pattern|] == s[k..k + |pattern|];
      assert OccursAt(pattern, s[1..], k - 1);
    }
    if k :| OccursAt(pattern, s[1..], k) {
      assert s[k + 1..k + 1 + |pattern|] == s[1..][k..k + |pattern|];
      assert OccursAt(pattern, s, k + 1);
    }
  }

  /** The window of `s` at index `k` equals `pattern`, ignoring case. */
  predicate MatchesAt(s: string, pattern: string, k: int) {
    0 <= k && k + |pattern| <= |s| && EqualsIgnoreCase(s[k..k + |pattern|], pattern)
  }

  /** `s.Contains(pattern, StringComparison.OrdinalIgnoreCase)`: some window of `s`
      equals `pattern` ignoring case. */
  function ContainsIgnoreCase(s: string, pattern: string): (r: bool)
    ensures r <==> exists k :: MatchesAt(s, pattern, k)
  {
    FoldedWindows(s, pattern);
    Contains(Fold(s), Fold(pattern))
  }

  /** Folding commutes with taking a window, so the folded pattern occurs in the
      folded string exactly where a window matches ignoring case. */
  lemma FoldedWindows(s: string, pattern: string)
    ensures forall k :: OccursAt(Fold(pattern), Fold(s), k) <==> MatchesAt(s, pattern, k)
  {
    forall k | 0 <= k && k + |pattern| <= |s|
      ensures OccursAt(Fold(pattern), Fold(s), k) <==> MatchesAt(s, pattern, k)
    {
      assert Fold(s)[k..k + |pattern|] == Fold(s[k..k + |pattern|]);
    }
  }

  /** Case-insensitive equality implies case-insensitive containment, and every
      string contains the empty string. */
  lemma EqualsImpliesContains(s: string, pattern: string)
    ensures EqualsIgnoreCase(s, pattern) ==> ContainsIgnoreCase(s, pattern)
    ensures ContainsIgnoreCase(s, "")
  {
  }
}
