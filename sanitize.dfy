/**
 * `sanitize_filename`: every character outside the allow-list `[\w\-_\.\/\\]`
 * is replaced by `_`, one character at a time, so the relative directory
 * structure of a reference survives.
 */
module Sanitize {

  /** The regular-expression class `\w`, restricted to ASCII (see README, Left out). */
  predicate IsWordChar(c: char) {
    ('a' <= c <= 'z') || ('A' <= c <= 'Z') || ('0' <= c <= '9') || c == '_'
  }

  /** The allow-list of the substitution: word characters, `-`, `_`, `.`, `/` and `\`. */
  predicate IsAllowed(c: char) {
    IsWordChar(c) || c == '-' || c == '_' || c == '.' || c == '/' || c == '\\'
  }

  function SanitizeFilename(s: string): (r: string)
    ensures |r| == |s|
    ensures forall i :: 0 <= i < |s| && IsAllowed(s[i]) ==> r[i] == s[i]
    ensures forall i :: 0 <= i < |s| && !IsAllowed(s[i]) ==> r[i] == '_'
    decreases |s|
  {
    if |s| == 0 then []
    else [if IsAllowed(s[0]) then s[0] else '_'] + SanitizeFilename(s[1..])
  }

  /** Only allow-listed characters come out. */
  lemma SanitizedIsAllowed(s: string)
    ensures forall i :: 0 <= i < |s| ==> IsAllowed(SanitizeFilename(s)[i])
  {
  }

  /** Sanitizing twice is sanitizing once. */
  lemma SanitizeIdempotent(s: string)
    ensures SanitizeFilename(SanitizeFilename(s)) == SanitizeFilename(s)
    decreases |s|
  {
  }

  /** A name is left alone exactly when all its characters are allowed. */
  lemma SanitizeFixedPoint(s: string)
    ensures SanitizeFilename(s) == s <==> forall i :: 0 <= i < |s| ==> IsAllowed(s[i])
  {
  }

  /** Directory separators are kept in place and none is introduced. */
  lemma SanitizeKeepsSeparators(s: string)
    ensures forall i :: 0 <= i < |s| ==>
      (SanitizeFilename(s)[i] == '/' <==> s[i] == '/') &&
      (SanitizeFilename(s)[i] == '\\' <==> s[i] == '\\')
  {
  }

  /** Sanitizing works character by character, so it distributes over concatenation. */
  lemma SanitizeConcat(a: string, b: string)
    ensures SanitizeFilename(a + b) == SanitizeFilename(a) + SanitizeFilename(b)
  {
  }
}
