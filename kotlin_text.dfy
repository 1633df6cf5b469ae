/**
 * The parts of Kotlin's standard string library the view models rely on:
 * `Char.isWhitespace`, `String.trim`, `CharSequence.isBlank` and
 * `String.length`, which counts UTF-16 code units.
 */
module KotlinText {

  /**
   * Kotlin/JVM `Char.isWhitespace()`: `Character.isWhitespace(c) ||
   * Character.isSpaceChar(c)`, that is the ASCII controls TAB..CR and
   * U+001C..U+001F together with the Unicode space, line and paragraph
   * separators (Zs, Zl, Zp), the no-break spaces included. No printable
   * ASCII character is whitespace, and every whitespace character lies in
   * the Basic Multilingual Plane.
   */
  predicate IsWhitespace(c: char)
    ensures '\U{21}' <= c <= '\U{7E}' ==> !IsWhitespace(c)
    ensures IsWhitespace(c) ==> c <= '\U{FFFF}'
  {
    || ('\t' <= c <= '\r')
    || ('\U{1C}' <= c <= '\U{1F}')
    || c == ' '
    || c == '\U{A0}'
    || c == '\U{1680}'
    || ('\U{2000}' <= c <= '\U{200A}')
    || c == '\U{2028}'
    || c == '\U{2029}'
    || c == '\U{202F}'
    || c == '\U{205F}'
    || c == '\U{3000}'
  }

  /** `CharSequence.isBlank()`: empty, or whitespace only, so that the leading whitespace is all of it. */
  predicate IsBlank(s: string)
    ensures IsBlank(s) <==> LeadingWhitespace(s) == |s|
  {
    forall k :: 0 <= k < |s| ==> IsWhitespace(s[k])
  }

  /** Number of whitespace characters at the start of `s`. */
  function LeadingWhitespace(s: string): (n: nat)
    ensures n <= |s|
    ensures forall k :: 0 <= k < n ==> IsWhitespace(s[k])
    ensures n < |s| ==> !IsWhitespace(s[n])
  {
    if |s| > 0 && IsWhitespace(s[0]) then 1 + LeadingWhitespace(s[1..]) else 0
  }

  /** Number of whitespace characters at the end of `s`. */
  function TrailingWhitespace(s: string): (n: nat)
    ensures n <= |s|
    ensures forall k :: |s| - n <= k < |s| ==> IsWhitespace(s[k])
    ensures n < |s| ==> !IsWhitespace(s[|s| - 1 - n])
  {
    if |s| > 0 && IsWhitespace(s[|s| - 1]) then 1 + TrailingWhitespace(s[..|s| - 1]) else 0
  }

  /**
   * `String.trim()`: the longest infix of `s` that neither starts nor ends
   * with whitespace, everything cut off on either side being whitespace.
   */
  function Trim(s: string): (r: string)
    ensures LeadingWhitespace(s) + |r| <= |s|
    ensures r == s[LeadingWhitespace(s)..LeadingWhitespace(s) + |r|]
    ensures forall k :: LeadingWhitespace(s) + |r| <= k < |s| ==> IsWhitespace(s[k])
    ensures r != [] ==> !IsWhitespace(r[0]) && !IsWhitespace(r[|r| - 1])
    ensures r == [] <==> IsBlank(s)
  {
    var i := LeadingWhitespace(s);
    if i == |s| then [] else s[i..|s| - TrailingWhitespace(s)]
  }

  /** Trimming does not change whether a string is blank. */
  lemma TrimPreservesBlank(s: string)
    ensures IsBlank(Trim(s)) <==> IsBlank(s)
  {
    var r := Trim(s);
    if r != [] {
      assert !IsWhitespace(r[0]);
    }
  }

  /** Trimming twice is trimming once. */
  lemma TrimIdempotent(s: string)
    ensures Trim(Trim(s)) == Trim(s)
  {
    var r := Trim(s);
    if r != [] {
      assert LeadingWhitespace(r) == 0;
      assert TrailingWhitespace(r) == 0;
    }
  }

  /** Every character is in the Basic Multilingual Plane, one UTF-16 code unit each. */
  predicate InBmp(s: string) {
    forall k :: 0 <= k < |s| ==> s[k] <= '\U{FFFF}'
  }

  /** Trimming keeps a string inside the Basic Multilingual Plane. */
  lemma TrimInBmp(s: string)
    requires InBmp(s)
    ensures InBmp(Trim(s))
  {
    var t, l := Trim(s), LeadingWhitespace(s);
    forall k | 0 <= k < |t| ensures t[k] <= '\U{FFFF}' {
      assert t[k] == s[l + k];
    }
  }

  /**
   * Kotlin's `String.length`: the number of UTF-16 code units. A character
   * outside the Basic Multilingual Plane is a surrogate pair and counts twice.
   */
  function Utf16Length(s: string): (n: nat)
    ensures |s| <= n <= 2 * |s|
    ensures InBmp(s) ==> n == |s|
  {
    if s == [] then 0
    else (if s[0] <= '\U{FFFF}' then 1 else 2) + Utf16Length(s[1..])
  }
}
