/**
 Python's `str.split(sep)` with an explicit separator and `sep.join(parts)`.
 `Split` scans left to right and cuts at the leftmost occurrence of the
 separator each time, so it always yields one more piece than the number of
 cuts; `Join` glues pieces back together with the separator between them.
 */
module Splitting {
  import opened Whitespace

  /** `pat` occurs in `s` starting at position `i`. */
  predicate MatchAt(s: string, pat: string, i: nat) {
    i + |pat| <= |s| && s[i..i + |pat|] == pat
  }

  /** `pat` occurs somewhere in `s` (Python `pat in s`). */
  predicate Occurs(pat: string, s: string) {
    exists i :: 0 <= i <= |s| && MatchAt(s, pat, i)
  }


  /** Python `sep.join(parts)`: the pieces with `sep` between neighbours;
      the join of no pieces is "". */
  function Join(parts: seq<string>, sep: string): string
  {
    if |parts| == 0 then ""
    else if |parts| == 1 then parts[0]
    else parts[0] + sep + Join(parts[1..], sep)
  }

  /** Python `s.split(sep)` for a non-empty separator (Python raises
      `ValueError` for an empty one). */
  function Split(s: string, sep: string): (parts: seq<string>)
    requires sep != ""
    ensures |parts| >= 1
    decreases |s|
  {
    if |s| < |sep| then [s]
    else if s[..|sep|] == sep then [""] + Split(s[|sep|..], sep)
    else
      var rest := Split(s[1..], sep);
      [[s[0]] + rest[0]] + rest[1..]
  }

  /** The last piece of a split: Python `s.split(sep)[-1]`. */
  function LastPiece(s: string, sep: string): string
    requires sep != ""
  {
    var parts := Split(s, sep);
    parts[|parts| - 1]
  }

  /** The number of occurrences of `c` in `s` (Python `s.count(c)` for a
      one-character string). */
  function Count(s: string, c: char): (n: nat)
    ensures n <= |s|
    ensures n == 0 <==> c !in s
  {
    if s == [] then 0
    else (if s[0] == c then 1 else 0) + Count(s[1..], c)
  }

  /** Putting text in front of the first piece puts it in front of the
      joined text. */
  lemma JoinPrefixFirst(x: string, parts: seq<string>, sep: string)
    requires |parts| >= 1
    ensures Join([x + parts[0]] + parts[1..], sep) == x + Join(parts, sep)
  {
    var q := [x + parts[0]] + parts[1..];
    assert q[1..] == parts[1..];
  }

  /** Joining the pieces of a split gives back the text: the split loses
      nothing and invents nothing. */
  lemma {:induction false} JoinSplit(s: string, sep: string)
    requires sep != ""
    ensures Join(Split(s, sep), sep) == s
    decreases |s|
  {
    if |s| < |sep| {
    } else if s[..|sep|] == sep {
      var rest := Split(s[|sep|..], sep);
      JoinSplit(s[|sep|..], sep);
      assert ([""] + rest)[1..] == rest;
      assert s == s[..|sep|] + s[|sep|..];
    } else {
      var rest := Split(s[1..], sep);
      JoinSplit(s[1..], sep);
      JoinPrefixFirst([s[0]], rest, sep);
      assert s == [s[0]] + s[1..];
    }
  }

  /** No piece of a split on a single character contains that character. */
  lemma {:induction false} SplitPiecesAvoidSeparator(s: string, c: char)
    ensures forall k :: 0 <= k < |Split(s, [c])| ==> c !in Split(s, [c])[k]
    decreases |s|
  {
    var parts := Split(s, [c]);
    if |s| < 1 {
    } else if s[..1] == [c] {
      SplitPiecesAvoidSeparator(s[1..], c);
      var rest := Split(s[1..], [c]);
      assert parts == [""] + rest;
      forall k | 0 <= k < |parts|
        ensures c !in parts[k]
      {
        if k > 0 {
          assert parts[k] == rest[k - 1];
        }
      }
    } else {
      SplitPiecesAvoidSeparator(s[1..], c);
      var rest := Split(s[1..], [c]);
      assert s[0] != c;
      assert parts == [[s[0]] + rest[0]] + rest[1..];
      forall k | 0 <= k < |parts|
        ensures c !in parts[k]
      {
        if k > 0 {
          assert parts[k] == rest[k];
        }
      }
    }
  }

  /** A split on a single character yields one piece more than there are
      occurrences of the character: Python's `len(s.split(c)) ==
      s.count(c) + 1`. */
  lemma {:induction false} SplitCount(s: string, c: char)
    ensures |Split(s, [c])| == Count(s, c) + 1
    decreases |s|
  {
    if |s| >= 1 {
      SplitCount(s[1..], c);
      assert s[..1] == [c] <==> s[0] == c;
    }
  }

  /** The one case `SplitJoin` leaves out: no pieces join to "", and
      splitting "" gives one empty piece, so `"\n".join([]).split("\n")`
      is `[""]`, not `[]`. */
  lemma SplitOfEmptyJoin(sep: string)
    requires sep != ""
    ensures Join([], sep) == ""
    ensures Split(Join([], sep), sep) == [""]
  {
  }

  /** Splitting a join recovers a non-empty list of pieces when the
      separator is a single character that none of them contains. */
  lemma {:induction false} SplitJoin(parts: seq<string>, c: char)
    requires |parts| >= 1
    requires forall k :: 0 <= k < |parts| ==> c !in parts[k]
    ensures Split(Join(parts, [c]), [c]) == parts
    decreases |parts|, |parts[0]|
  {
    var s := Join(parts, [c]);
    var p := parts[0];
    if p == [] {
      if |parts| == 1 {
      } else {
        assert s == [c] + Join(parts[1..], [c]);
        assert s[..1] == [c];
        assert s[1..] == Join(parts[1..], [c]);
        SplitJoin(parts[1..], c);
        assert parts == [""] + parts[1..];
      }
    } else {
      var q := [p[1..]] + parts[1..];
      assert q[1..] == parts[1..];
      forall k | 0 <= k < |q|
        ensures c !in q[k]
      {
        if k == 0 {
          assert forall j :: 0 <= j < |p[1..]| ==> p[1..][j] == p[j + 1];
        } else {
          assert q[k] == parts[k];
        }
      }
      JoinPrefixFirst([p[0]], q, [c]);
      assert p == [p[0]] + p[1..];
      assert [[p[0]] + q[0]] + q[1..] == parts;
      assert s == [p[0]] + Join(q, [c]);
      assert s[0] == p[0] && p[0] != c;
      assert s[1..] == Join(q, [c]);
      SplitJoin(q, c);
    }
  }

  /** Joining more than one piece ends with the separator and the last
      piece. */
  lemma {:induction false} JoinLast(parts: seq<string>, sep: string)
    requires |parts| >= 2
    ensures Join(parts, sep) == Join(parts[..|parts| - 1], sep) + sep + parts[|parts| - 1]
    decreases |parts|
  {
    var n := |parts|;
    if n > 2 {
      JoinLast(parts[1..], sep);
      assert parts[1..][..n - 2] == parts[..n - 1][1..];
    } else {
      assert parts[..n - 1] == [parts[0]];
    }
  }

  /** The first piece of a split is a prefix of the text. */
  lemma {:induction false} SplitFirstIsPrefix(s: string, sep: string)
    requires sep != ""
    ensures |Split(s, sep)[0]| <= |s|
    ensures Split(s, sep)[0] == s[..|Split(s, sep)[0]|]
    decreases |s|
  {
    if |s| >= |sep| && s[..|sep|] != sep {
      SplitFirstIsPrefix(s[1..], sep);
      var first := Split(s[1..], sep)[0];
      assert [s[0]] + first == s[..|first| + 1];
    }
  }

  /** No piece of a split holds the separator, whatever its length: the
      split cuts at every occurrence that the scan meets. */
  lemma {:induction false} SplitPiecesAvoidTarget(s: string, sep: string)
    requires sep != ""
    ensures forall k :: 0 <= k < |Split(s, sep)| ==> !Occurs(sep, Split(s, sep)[k])
    decreases |s|
  {
    var parts := Split(s, sep);
    if |s| < |sep| {
      assert parts == [s];
    } else if s[..|sep|] == sep {
      var rest := Split(s[|sep|..], sep);
      SplitPiecesAvoidTarget(s[|sep|..], sep);
      assert parts == [""] + rest;
      forall k | 0 <= k < |parts|
        ensures !Occurs(sep, parts[k])
      {
        if k > 0 {
          assert parts[k] == rest[k - 1];
        }
      }
    } else {
      var rest := Split(s[1..], sep);
      SplitPiecesAvoidTarget(s[1..], sep);
      SplitFirstIsPrefix(s[1..], sep);
      var first := [s[0]] + rest[0];
      assert first == s[..|rest[0]| + 1];
      assert parts == [first] + rest[1..];
      forall i | 0 <= i <= |first|
        ensures !MatchAt(first, sep, i)
      {
        if i == 0 {
          if |sep| <= |first| {
            assert first[..|sep|] == s[..|sep|];
          }
        } else if i + |sep| <= |first| {
          assert first[i..i + |sep|] == rest[0][i - 1..i - 1 + |sep|];
          assert !MatchAt(rest[0], sep, i - 1);
        }
      }
      forall k | 0 <= k < |parts|
        ensures !Occurs(sep, parts[k])
      {
        if k > 0 {
          assert parts[k] == rest[k];
        }
      }
    }
  }

  /** Every piece is part of the joined text. */
  lemma {:induction false} JoinHoldsPieces(parts: seq<string>, sep: string, k: nat)
    requires k < |parts|
    ensures forall c :: c in parts[k] ==> c in Join(parts, sep)
    decreases |parts|
  {
    if |parts| >= 2 && k > 0 {
      JoinHoldsPieces(parts[1..], sep, k - 1);
    }
  }

  /** Joining lines with a whitespace separator gives all-whitespace text
      exactly when every line is all whitespace. */
  lemma {:induction false} JoinAllWhitespace(lines: seq<string>, sep: string)
    requires AllWhitespace(sep)
    ensures AllWhitespace(Join(lines, sep)) <==> forall k :: 0 <= k < |lines| ==> AllWhitespace(lines[k])
    decreases |lines|
  {
    if |lines| >= 2 {
      JoinAllWhitespace(lines[1..], sep);
      var tail := Join(lines[1..], sep);
      var s := lines[0] + sep + tail;
      assert forall i :: 0 <= i < |lines[0]| ==> s[i] == lines[0][i];
      assert forall i :: 0 <= i < |sep| ==> s[|lines[0]| + i] == sep[i];
      assert forall i :: 0 <= i < |tail| ==> s[|lines[0]| + |sep| + i] == tail[i];
      assert forall k :: 1 <= k < |lines| ==> lines[k] == lines[1..][k - 1];
    }
  }

  /** The last piece is a suffix of the text that is either the whole text
      or directly preceded by the separator. */
  lemma LastPieceIsSuffix(s: string, sep: string)
    requires sep != ""
    ensures |LastPiece(s, sep)| <= |s|
    ensures s[|s| - |LastPiece(s, sep)|..] == LastPiece(s, sep)
    ensures |LastPiece(s, sep)| == |s|
            || (|LastPiece(s, sep)| + |sep| <= |s|
                && s[|s| - |LastPiece(s, sep)| - |sep|..|s| - |LastPiece(s, sep)|] == sep)
  {
    var parts := Split(s, sep);
    var last := LastPiece(s, sep);
    JoinSplit(s, sep);
    if |parts| >= 2 {
      JoinLast(parts, sep);
      var front := Join(parts[..|parts| - 1], sep);
      assert s == front + sep + last;
      assert s[|s| - |last|..] == last;
      assert s[|s| - |last| - |sep|..|s| - |last|] == sep;
    }
  }
}
