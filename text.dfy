/**
 * The few string operations of the JavaScript runtime that the command relies on,
 * with the meaning ECMAScript gives them. Strings are sequences of characters.
 */
module Text {
  /** `s.startsWith(p)` */
  predicate StartsWith(s: string, p: string) {
    |p| <= |s| && s[..|p|] == p
  }

  /** `s.endsWith(p)` */
  predicate EndsWith(s: string, p: string) {
    |p| <= |s| && s[|s| - |p|..] == p
  }

  /** An index argument of `String.prototype.slice` resolved against the length:
      a negative index counts from the end, and the result is clamped to [0, len]. */
  function SliceIndex(k: int, len: nat): (r: nat)
    ensures r <= len
  {
    if k < 0 then (if len + k < 0 then 0 else len + k)
    else if k > len then len
    else k
  }

  /** `s.slice(start, end)`: empty when the resolved start is not before the resolved end. */
  function Slice(s: string, start: int, end: int): (r: string)
    ensures |r| <= |s|
    ensures 0 <= start <= |s| && -|s| <= end < 0 && start <= |s| + end ==> r == s[start..|s| + end]
    ensures 0 <= start <= end <= |s| ==> r == s[start..end]
  {
    var from, to := SliceIndex(start, |s|), SliceIndex(end, |s|);
    if from < to then s[from..to] else []
  }

  /** The first index at or after k that holds c, or |s| when there is none. */
  function IndexFrom(s: string, c: char, k: nat): (j: nat)
    requires k <= |s|
    ensures k <= j <= |s|
    decreases |s| - k
  {
    if k == |s| || s[k] == c then k else IndexFrom(s, c, k + 1)
  }

  /** IndexFrom finds the first occurrence: none of the characters it passes is c, and it
      stops on a c unless it reaches the end. */
  lemma {:induction false} IndexFromIsFirst(s: string, c: char, k: nat)
    requires k <= |s|
    ensures forall i :: k <= i < IndexFrom(s, c, k) ==> s[i] != c
    ensures IndexFrom(s, c, k) < |s| ==> s[IndexFrom(s, c, k)] == c
    decreases |s| - k
  {
    if k < |s| && s[k] != c {
      IndexFromIsFirst(s, c, k + 1);
    }
  }

  /** Searching in b behind a prefix a finds what searching in b alone finds, shifted by |a|. */
  lemma {:induction false} IndexFromShift(a: string, b: string, c: char, k: nat)
    requires k <= |b|
    ensures IndexFrom(a + b, c, |a| + k) == |a| + IndexFrom(b, c, k)
    decreases |b| - k
  {
    if k < |b| {
      assert (a + b)[|a| + k] == b[k];
      if b[k] != c {
        IndexFromShift(a, b, c, k + 1);
      }
    }
  }

  /** The characters the pattern class `\s` matches: ECMAScript's WhiteSpace and
      LineTerminator code points. */
  predicate IsWhiteSpace(c: char) {
    || c == '\t' || c == '\n' || c == '\U{000B}' || c == '\U{000C}' || c == '\r'
    || c == ' ' || c == '\U{00A0}' || c == '\U{1680}'
    || ('\U{2000}' <= c <= '\U{200A}')
    || c == '\U{2028}' || c == '\U{2029}' || c == '\U{202F}' || c == '\U{205F}'
    || c == '\U{3000}' || c == '\U{FEFF}'
  }

  /** The first index at or after k that holds a white-space character, or |s|. */
  function WhiteSpaceFrom(s: string, k: nat): (j: nat)
    requires k <= |s|
    ensures k <= j <= |s|
    decreases |s| - k
  {
    if k == |s| || IsWhiteSpace(s[k]) then k else WhiteSpaceFrom(s, k + 1)
  }

  /** WhiteSpaceFrom ends the longest run of non-white-space characters starting at k. */
  lemma {:induction false} WhiteSpaceFromEndsRun(s: string, k: nat)
    requires k <= |s|
    ensures forall i :: k <= i < WhiteSpaceFrom(s, k) ==> !IsWhiteSpace(s[i])
    ensures WhiteSpaceFrom(s, k) < |s| ==> IsWhiteSpace(s[WhiteSpaceFrom(s, k)])
    decreases |s| - k
  {
    if k < |s| && !IsWhiteSpace(s[k]) {
      WhiteSpaceFromEndsRun(s, k + 1);
    }
  }

  /** Searching in b behind a prefix a finds what searching in b alone finds, shifted by |a|. */
  lemma {:induction false} WhiteSpaceFromShift(a: string, b: string, k: nat)
    requires k <= |b|
    ensures WhiteSpaceFrom(a + b, |a| + k) == |a| + WhiteSpaceFrom(b, k)
    decreases |b| - k
  {
    if k < |b| {
      assert (a + b)[|a| + k] == b[k];
      if !IsWhiteSpace(b[k]) {
        WhiteSpaceFromShift(a, b, k + 1);
      }
    }
  }

  lemma ConcatAssoc<T>(a: seq<T>, b: seq<T>, c: seq<T>)
    ensures a + (b + c) == (a + b) + c
  {
  }

  lemma ConcatRegroup<T>(a: seq<T>, b: seq<T>, c: seq<T>, d: seq<T>)
    ensures a + b + c + d == a + (b + c + d)
  {
  }

  /** `parts.join(sep)` */
  function Join(parts: seq<string>, sep: string): string
  {
    if |parts| == 0 then []
    else if |parts| == 1 then parts[0]
    else parts[0] + sep + Join(parts[1..], sep)
  }

  /** Joining lists the parts left to right: one more part adds one separator and
      that part at the end. */
  lemma {:induction false} JoinAppend(parts: seq<string>, p: string, sep: string)
    ensures Join(parts + [p], sep) == if parts == [] then p else Join(parts, sep) + sep + p
    decreases |parts|
  {
    if |parts| == 0 {
      assert parts + [p] == [p];
    } else if |parts| == 1 {
      assert (parts + [p])[1..] == [p];
    } else {
      assert (parts + [p])[1..] == parts[1..] + [p];
      JoinAppend(parts[1..], p, sep);
    }
  }
}
