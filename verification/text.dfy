/** The string primitives the services and the request validators rely on:
    `String.isBlank`, Bean Validation's `@NotBlank` and `@Size`,
    `String.toUpperCase`, `String.equalsIgnoreCase`, and the handful of
    regular expressions used by `@Pattern`. */
module Text {
  import opened Common

  /** `s` holds only characters satisfying `p`. */
  predicate All(s: string, p: char -> bool) {
    if |s| == 0 then true else p(s[0]) && All(s[1..], p)
  }

  /** `s` holds at least one character satisfying `p`. */
  predicate Any(s: string, p: char -> bool) {
    if |s| == 0 then false else p(s[0]) || Any(s[1..], p)
  }

  lemma {:induction false} AllMeans(s: string, p: char -> bool)
    ensures All(s, p) <==> forall i :: 0 <= i < |s| ==> p(s[i])
  {
    if |s| > 0 {
      AllMeans(s[1..], p);
      assert forall i :: 1 <= i < |s| ==> s[1..][i - 1] == s[i];
    }
  }

  lemma {:induction false} AnyMeans(s: string, p: char -> bool)
    ensures Any(s, p) <==> exists i :: 0 <= i < |s| && p(s[i])
  {
    if |s| > 0 {
      AnyMeans(s[1..], p);
      assert forall i :: 1 <= i < |s| ==> s[1..][i - 1] == s[i];
      if Any(s[1..], p) {
        var j :| 0 <= j < |s[1..]| && p(s[1..][j]);
        assert p(s[j + 1]);
      }
    }
  }

  // ---------------------------------------------------------------------
  // Blankness

  /** `Character.isWhitespace`: the ASCII separators and the Unicode
      space, line and paragraph separators other than the no-break spaces. */
  predicate IsWhitespace(c: char) {
    || c == ' ' || c == '\t' || c == '\n' || c == '\U{B}' || c == '\U{C}' || c == '\r'
    || ('\U{1C}' <= c <= '\U{1F}')
    || c == '\U{1680}' || ('\U{2000}' <= c <= '\U{2006}') || ('\U{2008}' <= c <= '\U{200A}')
    || c == '\U{2028}' || c == '\U{2029}' || c == '\U{205F}' || c == '\U{3000}'
  }

  /** `String.isBlank()`: empty or only whitespace. */
  predicate IsBlank(s: string) {
    All(s, IsWhitespace)
  }

  /** A character `String.trim()` removes: code point at most U+0020. */
  predicate IsTrimmed(c: char) {
    c <= ' '
  }

  /** `@NotBlank` (Hibernate Validator): non-null and not empty after `trim()`. */
  predicate NotBlank(s: Option<string>) {
    s.Some? && !All(s.value, IsTrimmed)
  }

  lemma NotBlankMeans(s: Option<string>)
    ensures NotBlank(s) <==> s.Some? && exists i :: 0 <= i < |s.value| && s.value[i] > ' '
  {
    if s.Some? {
      AllMeans(s.value, IsTrimmed);
    }
  }

  // ---------------------------------------------------------------------
  // Lengths

  /** `String.length()`: UTF-16 code units, so a character outside the
      Basic Multilingual Plane counts twice. */
  function Utf16Length(s: string): (n: nat)
    ensures |s| <= n <= 2 * |s|
    ensures All(s, c => c <= '\U{FFFF}') ==> n == |s|
  {
    if |s| == 0 then 0
    else (if s[0] <= '\U{FFFF}' then 1 else 2) + Utf16Length(s[1..])
  }

  /** `@Size(min, max)`: null is valid. */
  predicate SizeBetween(s: Option<string>, min: nat, max: nat) {
    s.None? || (min <= Utf16Length(s.value) <= max)
  }

  // ---------------------------------------------------------------------
  // Case

  predicate IsAsciiLower(c: char) { 'a' <= c <= 'z' }
  predicate IsAsciiUpper(c: char) { 'A' <= c <= 'Z' }
  predicate IsAsciiLetter(c: char) { IsAsciiLower(c) || IsAsciiUpper(c) }
  predicate IsAsciiDigit(c: char) { '0' <= c <= '9' }

  /** Full upper-case mapping of one character by `String.toUpperCase`,
      exact for every character whose upper case is pure ASCII (the ASCII
      letters, dotless i, long s, sharp s and the Latin ligatures);
      every other character is left as it is. */
  function UpperOf(c: char): (u: string)
    ensures 1 <= |u| <= 3
  {
    if IsAsciiLower(c) then [(c as int - 32) as char]
    else if c == '\U{131}' then "I"
    else if c == '\U{17F}' then "S"
    else if c == '\U{DF}' then "SS"
    else if c == '\U{FB00}' then "FF"
    else if c == '\U{FB01}' then "FI"
    else if c == '\U{FB02}' then "FL"
    else if c == '\U{FB03}' then "FFI"
    else if c == '\U{FB04}' then "FFL"
    else if c == '\U{FB05}' || c == '\U{FB06}' then "ST"
    else [c]
  }

  /** `String.toUpperCase()` (root locale). */
  function ToUpper(s: string): string {
    if |s| == 0 then "" else UpperOf(s[0]) + ToUpper(s[1..])
  }

  lemma {:induction false} ToUpperAppend(a: string, b: string)
    ensures ToUpper(a + b) == ToUpper(a) + ToUpper(b)
  {
    if |a| > 0 {
      assert (a + b)[1..] == a[1..] + b;
      ToUpperAppend(a[1..], b);
    } else {
      assert a + b == b;
    }
  }

  /** Upper-casing never shortens a string. */
  lemma {:induction false} ToUpperLength(s: string)
    ensures |ToUpper(s)| >= |s|
  {
    if |s| > 0 {
      ToUpperLength(s[1..]);
    }
  }

  lemma UpperOfIsFixed(c: char)
    ensures ToUpper(UpperOf(c)) == UpperOf(c)
  {
    var u := UpperOf(c);
    if |u| == 1 {
      assert ToUpper(u) == UpperOf(u[0]);
    } else if |u| == 2 {
      assert u == [u[0]] + [u[1]];
      ToUpperAppend([u[0]], [u[1]]);
    } else {
      assert u == [u[0]] + [u[1]] + [u[2]];
      ToUpperAppend([u[0]] + [u[1]], [u[2]]);
      ToUpperAppend([u[0]], [u[1]]);
    }
  }

  /** Upper-casing twice is upper-casing once. */
  lemma {:induction false} ToUpperIdempotent(s: string)
    ensures ToUpper(ToUpper(s)) == ToUpper(s)
  {
    if |s| > 0 {
      ToUpperIdempotent(s[1..]);
      ToUpperAppend(UpperOf(s[0]), ToUpper(s[1..]));
      UpperOfIsFixed(s[0]);
    }
  }

  /** `Character.toUpperCase` on one UTF-16 unit (no expansion). */
  function CharUpper(c: char): char {
    if IsAsciiLower(c) then (c as int - 32) as char
    else if c == '\U{131}' then 'I'
    else if c == '\U{17F}' then 'S'
    else c
  }

  /** `Character.toLowerCase`, exact where the result is ASCII. */
  function CharLower(c: char): char {
    if IsAsciiUpper(c) then (c as int + 32) as char
    else if c == '\U{212A}' then 'k'
    else if c == '\U{130}' then 'i'
    else c
  }

  /** The per-character test of `String.equalsIgnoreCase`. */
  predicate SameIgnoringCase(a: char, b: char) {
    a == b || CharUpper(a) == CharUpper(b) || CharLower(CharUpper(a)) == CharLower(CharUpper(b))
  }

  /** `a.equalsIgnoreCase(b)` for non-null `a` and `b`. */
  predicate EqualsIgnoreCase(a: string, b: string) {
    |a| == |b| && forall i :: 0 <= i < |a| ==> SameIgnoringCase(a[i], b[i])
  }

  /** `equalsIgnoreCase` with a possibly null argument (null never matches). */
  predicate OptEqualsIgnoreCase(a: Option<string>, b: string) {
    a.Some? && EqualsIgnoreCase(a.value, b)
  }

  // ---------------------------------------------------------------------
  // The regular expressions of the request validators. `\d` is ASCII only
  // and `.` excludes line terminators, as in `java.util.regex`.

  predicate IsLineTerminator(c: char) {
    c == '\n' || c == '\r' || c == '\U{85}' || c == '\U{2028}' || c == '\U{2029}'
  }

  predicate IsWordChar(c: char) {
    IsAsciiLetter(c) || IsAsciiDigit(c) || c == '_'
  }

  /** `\d{10}` */
  predicate NationalCodePattern(s: string) {
    |s| == 10 && All(s, IsAsciiDigit)
  }

  /** `09\d{9}` */
  predicate PhonePattern(s: string) {
    |s| == 11 && s[0] == '0' && s[1] == '9' && All(s[2..], IsAsciiDigit)
  }

  /** `^[a-zA-Z0-9_]{3,20}$` */
  predicate UsernamePattern(s: string) {
    3 <= |s| <= 20 && All(s, IsWordChar)
  }

  /** `.{8,}`, `.*[0-9].*` and `.*[a-zA-Z].*` all matched in full. */
  predicate PasswordPatterns(s: string) {
    && !Any(s, IsLineTerminator)
    && |s| >= 8
    && Any(s, IsAsciiDigit)
    && Any(s, IsAsciiLetter)
  }

  /** `@Pattern` accepts null. */
  predicate Matches(s: Option<string>, pattern: string -> bool) {
    s.None? || pattern(s.value)
  }

  lemma PhonePatternMeans(s: string)
    ensures PhonePattern(s) <==>
      |s| == 11 && s[..2] == "09" && forall i :: 2 <= i < 11 ==> IsAsciiDigit(s[i])
  {
    if |s| == 11 {
      AllMeans(s[2..], IsAsciiDigit);
      assert forall i :: 2 <= i < 11 ==> s[2..][i - 2] == s[i];
      if s[..2] == "09" {
        assert s[0] == s[..2][0] && s[1] == s[..2][1];
      }
    }
  }

  lemma PasswordPatternsMean(s: string)
    ensures PasswordPatterns(s) <==>
      && |s| >= 8
      && (forall i :: 0 <= i < |s| ==> !IsLineTerminator(s[i]))
      && (exists i :: 0 <= i < |s| && IsAsciiDigit(s[i]))
      && (exists i :: 0 <= i < |s| && IsAsciiLetter(s[i]))
  {
    AnyMeans(s, IsLineTerminator);
    AnyMeans(s, IsAsciiDigit);
    AnyMeans(s, IsAsciiLetter);
  }

  /** Upper-casing a string of ASCII letters upper-cases each letter. */
  lemma {:induction false} ToUpperAsciiLetters(s: string)
    requires forall i :: 0 <= i < |s| ==> IsAsciiLetter(s[i])
    ensures |ToUpper(s)| == |s|
    ensures forall i :: 0 <= i < |s| ==> ToUpper(s)[i] == CharUpper(s[i])
  {
    if |s| > 0 {
      ToUpperAsciiLetters(s[1..]);
    }
  }

  /** Upper-casing a word of ASCII letters gives `upper` exactly when
      `upper` is the word with each letter upper-cased. */
  lemma ToUpperWord(s: string, upper: string)
    requires forall i :: 0 <= i < |s| ==> IsAsciiLetter(s[i])
    requires |upper| == |s| && forall i :: 0 <= i < |s| ==> upper[i] == CharUpper(s[i])
    ensures ToUpper(s) == upper
  {
    ToUpperAsciiLetters(s);
  }

  /** The upper-cased forms of the type strings the services compare. */
  lemma UpperTest()
    ensures ToUpper("test") == "TEST" && ToUpper("Test") == "TEST" && ToUpper("TEST") == "TEST"
  {
  }

  lemma UpperEssay()
    ensures ToUpper("essay") == "ESSAY" && ToUpper("ESSAY") == "ESSAY"
  {
  }

  /** `descriptive` upper-cases to a word of eleven letters, so it is
      neither `TEST` nor `ESSAY`. */
  lemma UpperDescriptive()
    ensures |ToUpper("descriptive")| == 11
  {
  }
}
