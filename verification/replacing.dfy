/**
 Python's `s.replace(old, new)` (no count argument): the text is scanned
 left to right, the leftmost occurrence of `old` is replaced each time and
 scanning resumes after it, so every non-overlapping occurrence is replaced.
 An empty `old` puts `new` before every character and once more at the end.
 */
module Replacing {
  import opened Splitting

  /** Python `s.replace(old, new)`. */
  function ReplaceAll(s: string, target: string, replacement: string): string
    decreases |s|
  {
    if target == "" then
      (if s == "" then replacement
       else replacement + [s[0]] + ReplaceAll(s[1..], target, replacement))
    else if |s| < |target| then s
    else if s[..|target|] == target then replacement + ReplaceAll(s[|target|..], target, replacement)
    else [s[0]] + ReplaceAll(s[1..], target, replacement)
  }

  /** Python's identity `s.replace(old, new) == new.join(s.split(old))`
      for a non-empty `target`: replacing is cutting at every occurrence and
      gluing the pieces back with `replacement`. */
  lemma {:induction false} ReplaceAllIsJoinOfSplit(s: string, target: string, replacement: string)
    requires target != ""
    ensures ReplaceAll(s, target, replacement) == Join(Split(s, target), replacement)
    decreases |s|
  {
    if |s| < |target| {
    } else if s[..|target|] == target {
      var rest := Split(s[|target|..], target);
      ReplaceAllIsJoinOfSplit(s[|target|..], target, replacement);
      assert ([""] + rest)[1..] == rest;
    } else {
      var rest := Split(s[1..], target);
      ReplaceAllIsJoinOfSplit(s[1..], target, replacement);
      JoinPrefixFirst([s[0]], rest, replacement);
    }
  }

  /** `parts` cut `s` at every occurrence of `sep`: glued back with `sep`
      they give `s`, and none of them holds `sep`. */
  predicate CutsAtEvery(s: string, sep: string, parts: seq<string>) {
    Join(parts, sep) == s && forall k :: 0 <= k < |parts| ==> !Occurs(sep, parts[k])
  }

  /** `r` is `s` with every occurrence of `target` replaced: the split of
      `s` at `target` cuts at every occurrence, and `r` is its pieces glued
      with `replacement` instead. */
  predicate ReplacesEveryOccurrence(s: string, target: string, replacement: string, r: string)
    requires target != ""
  {
    var parts := Split(s, target);
    CutsAtEvery(s, target, parts) && r == Join(parts, replacement)
  }

  /** Every occurrence met by the scan is replaced. */
  lemma {:induction false} ReplaceAllReplacesEveryOccurrence(s: string, target: string, replacement: string)
    requires target != ""
    ensures ReplacesEveryOccurrence(s, target, replacement, ReplaceAll(s, target, replacement))
  {
    JoinSplit(s, target);
    SplitPiecesAvoidTarget(s, target);
    ReplaceAllIsJoinOfSplit(s, target, replacement);
  }

  /** Text in which `target` does not occur comes back unchanged. */
  lemma {:induction false} ReplaceAbsent(s: string, target: string, replacement: string)
    requires target != "" && !Occurs(target, s)
    ensures ReplaceAll(s, target, replacement) == s
    decreases |s|
  {
    if |s| >= |target| {
      assert !MatchAt(s, target, 0);
      assert !Occurs(target, s[1..]) by {
        forall i | 0 <= i <= |s[1..]| && MatchAt(s[1..], target, i)
          ensures false
        {
          assert s[1..][i..i + |target|] == s[i + 1..i + 1 + |target|];
          assert MatchAt(s, target, i + 1);
        }
      }
      ReplaceAbsent(s[1..], target, replacement);
      assert s == [s[0]] + s[1..];
    }
  }

  /** A text that ends in `target`, with no occurrence of `target` starting
      before that final one, has exactly that final occurrence replaced. */
  lemma {:induction false} ReplaceFinalOccurrence(stem: string, target: string, replacement: string)
    requires target != ""
    requires forall i :: 0 <= i < |stem| ==> !MatchAt(stem + target, target, i)
    ensures ReplaceAll(stem + target, target, replacement) == stem + replacement
    decreases |stem|
  {
    var s := stem + target;
    if stem == "" {
      assert s == target;
      assert s[|target|..] == "";
    } else {
      var t := stem[1..] + target;
      assert s[1..] == t;
      assert !MatchAt(s, target, 0);
      forall i | 0 <= i < |stem[1..]|
        ensures !MatchAt(t, target, i)
      {
        assert !MatchAt(s, target, i + 1);
        assert s[i + 1..i + 1 + |target|] == t[i..i + |target|];
      }
      ReplaceFinalOccurrence(stem[1..], target, replacement);
      assert ReplaceAll(s, target, replacement) == [s[0]] + ReplaceAll(t, target, replacement);
      assert stem == [stem[0]] + stem[1..];
    }
  }

  /** The characters of `s`, each as a one-character text (Python
      `list(s)`). */
  function Characters(s: string): seq<string>
  {
    seq(|s|, i requires 0 <= i < |s| => [s[i]])
  }

  /** With an empty target, `replacement` goes in front of every character
      and once more at the end: `"abc".replace("", "-") == "-a-b-c-"`, that
      is `new + new.join(list(s)) + new` for a non-empty text. */
  lemma {:induction false} ReplaceEmptyTarget(s: string, replacement: string)
    ensures ReplaceAll(s, "", replacement)
         == if s == "" then replacement
            else replacement + Join(Characters(s), replacement) + replacement
    decreases |s|
  {
    if |s| >= 2 {
      ReplaceEmptyTarget(s[1..], replacement);
      assert Characters(s)[1..] == Characters(s[1..]);
    } else if |s| == 1 {
      assert s[1..] == "";
    }
  }

  /** A character that neither the text nor `replacement` holds is not in the
      result: replacing only copies characters of the text or of `replacement`. */
  lemma {:induction false} ReplaceKeepsOut(s: string, target: string, replacement: string, c: char)
    requires c !in s && c !in replacement
    ensures c !in ReplaceAll(s, target, replacement)
    decreases |s|
  {
    if target == "" {
      if s != "" {
        ReplaceKeepsOut(s[1..], target, replacement, c);
      }
    } else if |s| < |target| {
    } else if s[..|target|] == target {
      assert forall j :: 0 <= j < |s[|target|..]| ==> s[|target|..][j] == s[|target| + j];
      ReplaceKeepsOut(s[|target|..], target, replacement, c);
    } else {
      ReplaceKeepsOut(s[1..], target, replacement, c);
    }
  }
}
