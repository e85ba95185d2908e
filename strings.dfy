/**
 * The few Python `str` operations the converter relies on, over `seq<char>`:
 * `strip()`, the `in` substring test, `startswith`/`endswith`, `split(' ')[0]`,
 * `split('?', 1)`, `rsplit('.', 1)[0]` and `replace`.
 */
module Strings {

  /** The characters `str.isspace()` accepts, which `str.strip()` removes. */
  predicate IsSpace(c: char) {
    var n := c as int;
    (9 <= n <= 13) || (28 <= n <= 32) || n == 0x85 || n == 0xA0 || n == 0x1680
    || (0x2000 <= n <= 0x200A) || n == 0x2028 || n == 0x2029 || n == 0x202F
    || n == 0x205F || n == 0x3000
  }

  /** `s.lstrip()`: the suffix of `s` left after dropping leading whitespace. */
  function TrimLeft(s: string): string
    decreases |s|
  {
    if |s| > 0 && IsSpace(s[0]) then TrimLeft(s[1..]) else s
  }

  /** `s.rstrip()`: the prefix of `s` left after dropping trailing whitespace. */
  function TrimRight(s: string): string
    decreases |s|
  {
    if |s| > 0 && IsSpace(s[|s| - 1]) then TrimRight(s[..|s| - 1]) else s
  }

  /** `s.strip()`. */
  function Strip(s: string): string {
    TrimRight(TrimLeft(s))
  }

  /** `lstrip` drops whitespace only: what is left is a suffix of `s` starting with a
      non-whitespace character. */
  lemma {:induction false} TrimLeftSpec(s: string)
    ensures |TrimLeft(s)| <= |s| && TrimLeft(s) == s[|s| - |TrimLeft(s)|..]
    ensures forall i :: 0 <= i < |s| - |TrimLeft(s)| ==> IsSpace(s[i])
    ensures TrimLeft(s) != [] ==> !IsSpace(TrimLeft(s)[0])
    decreases |s|
  {
    if |s| > 0 && IsSpace(s[0]) {
      TrimLeftSpec(s[1..]);
    }
  }

  /** `rstrip` drops whitespace only: what is left is a prefix of `s` ending with a
      non-whitespace character. */
  lemma {:induction false} TrimRightSpec(s: string)
    ensures |TrimRight(s)| <= |s| && TrimRight(s) == s[..|TrimRight(s)|]
    ensures forall i :: |TrimRight(s)| <= i < |s| ==> IsSpace(s[i])
    ensures TrimRight(s) != [] ==> !IsSpace(TrimRight(s)[|TrimRight(s)| - 1])
    decreases |s|
  {
    if |s| > 0 && IsSpace(s[|s| - 1]) {
      TrimRightSpec(s[..|s| - 1]);
    }
  }

  predicate StartsWith(s: string, p: string) {
    |p| <= |s| && s[..|p|] == p
  }

  predicate EndsWith(s: string, p: string) {
    |p| <= |s| && s[|s| - |p|..] == p
  }

  /** Python's `p in s`: `p` occurs somewhere in `s` (the empty string occurs everywhere). */
  predicate Contains(s: string, p: string)
    decreases |s|
  {
    StartsWith(s, p) || (|s| > 0 && Contains(s[1..], p))
  }

  /** A string that occurs in `s` is no longer than `s`. */
  lemma {:induction false} ContainsLength(s: string, p: string)
    requires Contains(s, p)
    ensures |p| <= |s|
    decreases |s|
  {
    if !StartsWith(s, p) {
      ContainsLength(s[1..], p);
    }
  }

  /** A whitespace character appended to `s` creates no new occurrence of a string without whitespace. */
  lemma {:induction false} ContainsSnocSpace(s: string, x: char, p: string)
    requires IsSpace(x) && |p| > 0 && forall i :: 0 <= i < |p| ==> !IsSpace(p[i])
    ensures Contains(s + [x], p) <==> Contains(s, p)
    decreases |s|
  {
    var t := s + [x];
    if |p| == |t| {
      assert !IsSpace(p[|p| - 1]) && t[|p| - 1] == x;
    } else if |p| < |t| {
      assert t[..|p|] == s[..|p|];
    }
    if |s| == 0 {
      assert t[1..] == [];
    } else {
      assert t[1..] == s[1..] + [x];
      ContainsSnocSpace(s[1..], x, p);
    }
  }

  /** Stripping whitespace keeps exactly the occurrences of a non-empty string without whitespace:
      `p in s.strip()` is `p in s`. */
  lemma ContainsStrip(s: string, p: string)
    requires |p| > 0 && forall i :: 0 <= i < |p| ==> !IsSpace(p[i])
    ensures Contains(Strip(s), p) <==> Contains(s, p)
  {
    ContainsTrimLeft(s, p);
    ContainsTrimRight(TrimLeft(s), p);
  }

  lemma {:induction false} ContainsTrimLeft(s: string, p: string)
    requires |p| > 0 && forall i :: 0 <= i < |p| ==> !IsSpace(p[i])
    ensures Contains(TrimLeft(s), p) <==> Contains(s, p)
    decreases |s|
  {
    if |s| > 0 && IsSpace(s[0]) {
      assert !IsSpace(p[0]);
      ContainsTrimLeft(s[1..], p);
    }
  }

  lemma {:induction false} ContainsTrimRight(s: string, p: string)
    requires |p| > 0 && forall i :: 0 <= i < |p| ==> !IsSpace(p[i])
    ensures Contains(TrimRight(s), p) <==> Contains(s, p)
    decreases |s|
  {
    if |s| > 0 && IsSpace(s[|s| - 1]) {
      var front := s[..|s| - 1];
      assert s == front + [s[|s| - 1]];
      ContainsSnocSpace(front, s[|s| - 1], p);
      ContainsTrimRight(front, p);
    }
  }

  /** A stripped non-empty string starts with a character that is not whitespace. */
  lemma StripStart(s: string)
    requires |Strip(s)| > 0
    ensures !IsSpace(Strip(s)[0])
  {
    TrimLeftSpec(s);
    TrimRightSpec(TrimLeft(s));
  }

  /** `s.split(' ')[0]`: everything before the first space, or all of `s` when it has none. */
  function FirstField(s: string): (r: string)
    ensures |r| <= |s| && r == s[..|r|]
    ensures ' ' !in r
    ensures |r| < |s| ==> s[|r|] == ' '
    decreases |s|
  {
    if |s| == 0 || s[0] == ' ' then [] else [s[0]] + FirstField(s[1..])
  }

  /** The index of the first `c` in `s`, or `|s|` when `s` has none. */
  function IndexOf(s: string, c: char): (k: nat)
    ensures k <= |s|
    ensures c !in s[..k]
    ensures k < |s| ==> s[k] == c
    decreases |s|
  {
    if |s| == 0 then 0 else if s[0] == c then 0 else 1 + IndexOf(s[1..], c)
  }

  /** `s.replace(pat, rep)`: left to right, non-overlapping; an empty `pat` matches before every
      character and at the end. */
  function ReplaceAll(s: string, pat: string, rep: string): string
    decreases |s|
  {
    if |pat| == 0 then (if |s| == 0 then rep else rep + [s[0]] + ReplaceAll(s[1..], pat, rep))
    else if |s| < |pat| then s
    else if s[..|pat|] == pat then rep + ReplaceAll(s[|pat|..], pat, rep)
    else [s[0]] + ReplaceAll(s[1..], pat, rep)
  }

  /** `s.rsplit(c, 1)[0]`: the part of `s` before its last `c`, or all of `s` when `c` does not occur. */
  function BeforeLast(s: string, c: char): (r: string)
    ensures c in s ==> |r| < |s| && r == s[..|r|] && s[|r|] == c && c !in s[|r| + 1..]
    ensures c !in s ==> r == s
    decreases |s|
  {
    if |s| == 0 then s
    else if s[|s| - 1] == c then s[..|s| - 1]
    else if c in s[..|s| - 1] then
      var r := BeforeLast(s[..|s| - 1], c);
      assert s[|r| + 1..] == s[..|s| - 1][|r| + 1..] + [s[|s| - 1]];
      r
    else s
  }

  /** The part before the last `c` ends where that last `c` is. */
  lemma BeforeLastAt(s: string, c: char, k: nat)
    requires k < |s| && s[k] == c && c !in s[k + 1..]
    ensures BeforeLast(s, c) == s[..k]
  {
  }

  /** `s.replace(a, b)` for single characters `a` and `b`. */
  function ReplaceChar(s: string, a: char, b: char): (r: string)
    ensures |r| == |s|
    ensures forall i :: 0 <= i < |s| ==> r[i] == (if s[i] == a then b else s[i])
    decreases |s|
  {
    if |s| == 0 then [] else [if s[0] == a then b else s[0]] + ReplaceChar(s[1..], a, b)
  }

  /** Concatenation regroups freely; stated once so that callers need not prove it element-wise. */
  lemma AppendAssoc<T>(a: seq<T>, b: seq<T>, c: seq<T>)
    ensures (a + b) + c == a + (b + c)
  {
  }
}
