/**
 Python's `str.strip()` with no argument: removal of leading and trailing
 whitespace, where whitespace is the set of characters `str.isspace()`
 accepts.
 */
module Whitespace {

  /** The characters Python's `str.isspace()` accepts: the ASCII controls
      U+0009..U+000D (tab, line feed, vertical tab, form feed, carriage
      return), the separators U+001C..U+001F, the space, and the Unicode
      space and line/paragraph separators. */
  predicate IsWhitespace(c: char) {
    || ('\t' <= c <= '\r')
    || ('\U{1C}' <= c <= ' ')
    || c == '\U{85}'
    || c == '\U{A0}'
    || c == '\U{1680}'
    || ('\U{2000}' <= c <= '\U{200A}')
    || c == '\U{2028}'
    || c == '\U{2029}'
    || c == '\U{202F}'
    || c == '\U{205F}'
    || c == '\U{3000}'
  }

  /** Every character of `s` is whitespace (vacuously so for ""). */
  predicate AllWhitespace(s: string) {
    forall i :: 0 <= i < |s| ==> IsWhitespace(s[i])
  }

  /** `s` neither starts nor ends with whitespace. */
  predicate IsStripped(s: string) {
    s == "" || (!IsWhitespace(s[0]) && !IsWhitespace(s[|s| - 1]))
  }

  /** `s` without its leading whitespace (Python `str.lstrip()`). */
  function TrimStart(s: string): string
  {
    if |s| > 0 && IsWhitespace(s[0]) then TrimStart(s[1..]) else s
  }

  /** `s` without its trailing whitespace (Python `str.rstrip()`). */
  function TrimEnd(s: string): string
  {
    if |s| > 0 && IsWhitespace(s[|s| - 1]) then TrimEnd(s[..|s| - 1]) else s
  }

  /** Python `s.strip()`. */
  function Strip(s: string): string
  {
    TrimEnd(TrimStart(s))
  }

  /** Where the stripped text begins in `s`: the number of leading
      whitespace characters. */
  function StripStart(s: string): int
  {
    |s| - |TrimStart(s)|
  }

  /** Trimming the start drops exactly the leading whitespace: what is left
      is a suffix of `s` that does not start with whitespace, and only
      whitespace was dropped. */
  lemma {:induction false} TrimStartDropsLeadingWhitespace(s: string)
    ensures |TrimStart(s)| <= |s| && TrimStart(s) == s[|s| - |TrimStart(s)|..]
    ensures AllWhitespace(s[..|s| - |TrimStart(s)|])
    ensures TrimStart(s) == "" || !IsWhitespace(TrimStart(s)[0])
    decreases |s|
  {
    if |s| > 0 && IsWhitespace(s[0]) {
      TrimStartDropsLeadingWhitespace(s[1..]);
      var r := TrimStart(s[1..]);
      assert s[..|s| - |r|] == [s[0]] + s[1..][..|s| - 1 - |r|];
    }
  }

  /** Trimming the end drops exactly the trailing whitespace: what is left
      is a prefix of `s` that does not end with whitespace, and only
      whitespace was dropped. */
  lemma {:induction false} TrimEndDropsTrailingWhitespace(s: string)
    ensures |TrimEnd(s)| <= |s| && TrimEnd(s) == s[..|TrimEnd(s)|]
    ensures AllWhitespace(s[|TrimEnd(s)|..])
    ensures TrimEnd(s) == "" || !IsWhitespace(TrimEnd(s)[|TrimEnd(s)| - 1])
    decreases |s|
  {
    if |s| > 0 && IsWhitespace(s[|s| - 1]) {
      TrimEndDropsTrailingWhitespace(s[..|s| - 1]);
      var r := TrimEnd(s[..|s| - 1]);
      assert s[|r|..] == s[..|s| - 1][|r|..] + [s[|s| - 1]];
    }
  }

  /** `Strip(s)` is the slice of `s` starting at `StripStart(s)` that is
      stripped and has only whitespace on either side of it. */
  lemma StripIsTrimmedSlice(s: string)
    ensures IsStripped(Strip(s))
    ensures 0 <= StripStart(s) && StripStart(s) + |Strip(s)| <= |s|
    ensures Strip(s) == s[StripStart(s)..StripStart(s) + |Strip(s)|]
    ensures AllWhitespace(s[..StripStart(s)])
    ensures AllWhitespace(s[StripStart(s) + |Strip(s)|..])
  {
    var t := TrimStart(s);
    var r := TrimEnd(t);
    TrimStartDropsLeadingWhitespace(s);
    TrimEndDropsTrailingWhitespace(t);
    var i := StripStart(s);
    assert s[i..i + |r|] == t[..|r|];
    assert s[i + |r|..] == t[|r|..];
  }

  /** Stripping leaves nothing exactly when the text is all whitespace. */
  lemma StripEmptyIff(s: string)
    ensures Strip(s) == "" <==> AllWhitespace(s)
  {
    var i := StripStart(s);
    StripIsTrimmedSlice(s);
    if Strip(s) == "" {
      assert s == s[..i] + s[i..];
    } else {
      var r := Strip(s);
      assert r[0] == s[i];
    }
  }

  /** Text that is already stripped is left alone. */
  lemma StripOfStripped(s: string)
    requires IsStripped(s)
    ensures Strip(s) == s
  {
    StripIsTrimmedSlice(s);
  }

  /** Stripping twice is stripping once. */
  lemma StripIdempotent(s: string)
    ensures Strip(Strip(s)) == Strip(s)
  {
    StripIsTrimmedSlice(s);
    StripOfStripped(Strip(s));
  }

  /** Stripping cannot introduce a character the text did not hold. */
  lemma StripKeepsOut(s: string, c: char)
    requires c !in s
    ensures c !in Strip(s)
  {
    var i := StripStart(s);
    var r := Strip(s);
    StripIsTrimmedSlice(s);
    forall k | 0 <= k < |r|
      ensures r[k] != c
    {
      assert r[k] == s[i + k];
    }
  }

  /** One space in front of a non-empty stripped text is stripped away. */
  lemma StripLeadingSpace(t: string)
    requires t != "" && IsStripped(t)
    ensures Strip(" " + t) == t
  {
    var s := " " + t;
    assert s[1..] == t;
    assert TrimStart(s) == TrimStart(t);
    assert TrimStart(t) == t;
    StripOfStripped(t);
  }
}
