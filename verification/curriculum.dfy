/**
 Curriculum preprocessing (`preprocess_curriculum` in lambda_function.py):
 the raw curriculum text is split into lines at every line feed, each line
 is stripped of surrounding whitespace, and the stripped lines that are not
 empty become the topics, in input order.
 */
module Curriculum {
  import opened Whitespace
  import opened Splitting

  /** The separator the curriculum text is split on. */
  const LineFeed: char := '\n'

  /** What every topic looks like: non-empty, no surrounding whitespace, and
      on one line. */
  predicate IsTopic(t: string) {
    t != "" && IsStripped(t) && LineFeed !in t
  }

  /** Every element of `ts` is a topic. */
  predicate AreTopics(ts: seq<string>) {
    forall k :: 0 <= k < |ts| ==> IsTopic(ts[k])
  }

  /** The loop of `preprocess_curriculum` over already-split lines: keep the
      stripped form of each line whose stripped form is not empty. */
  function KeepTopics(lines: seq<string>): seq<string>
    decreases |lines|
  {
    if lines == [] then []
    else
      var t := Strip(lines[0]);
      (if t == "" then [] else [t]) + KeepTopics(lines[1..])
  }

  /** `preprocess_curriculum(content)`. */
  function PreprocessCurriculum(content: string): seq<string>
  {
    KeepTopics(Split(content, [LineFeed]))
  }

  /** Every topic is a non-empty stripped text on one line, and there are
      at most as many topics as the text has lines. */
  lemma PreprocessYieldsTopics(content: string)
    ensures |PreprocessCurriculum(content)| <= Count(content, LineFeed) + 1
    ensures AreTopics(PreprocessCurriculum(content))
  {
    var lines := Split(content, [LineFeed]);
    SplitCount(content, LineFeed);
    SplitPiecesAvoidSeparator(content, LineFeed);
    KeepTopicsKeepsOut(lines, LineFeed);
  }

  /** There are never more topics than lines, every kept line is non-empty
      and stripped, and a character no line holds is held by no kept line. */
  lemma {:induction false} KeepTopicsKeepsOut(lines: seq<string>, c: char)
    requires forall k :: 0 <= k < |lines| ==> c !in lines[k]
    ensures |KeepTopics(lines)| <= |lines|
    ensures forall k :: 0 <= k < |KeepTopics(lines)| ==>
              KeepTopics(lines)[k] != "" && IsStripped(KeepTopics(lines)[k]) && c !in KeepTopics(lines)[k]
    decreases |lines|
  {
    if lines != [] {
      StripIsTrimmedSlice(lines[0]);
      StripKeepsOut(lines[0], c);
      KeepTopicsKeepsOut(lines[1..], c);
    }
  }

  /** The positions of the lines from `j` on whose stripped form is not
      empty, in increasing order. */
  function NonBlankFrom(lines: seq<string>, j: nat): seq<nat>
    requires j <= |lines|
    decreases |lines| - j
  {
    if j == |lines| then []
    else (if Strip(lines[j]) != "" then [j] else []) + NonBlankFrom(lines, j + 1)
  }

  /** `topics` lists, via the increasing positions `idx`, the stripped form
      of exactly those lines from `j` on whose stripped form is not empty. */
  ghost predicate SelectsNonBlank(lines: seq<string>, j: nat, topics: seq<string>, idx: seq<nat>) {
    && |idx| == |topics|
    && (forall k :: 0 <= k < |idx| ==> j <= idx[k] < |lines| && topics[k] == Strip(lines[idx[k]]))
    && (forall k, m :: 0 <= k < m < |idx| ==> idx[k] < idx[m])
    && (forall i :: j <= i < |lines| ==> (Strip(lines[i]) != "" <==> i in idx))
  }

  /** A blank line at position `j` adds nothing to a selection. */
  lemma SelectsSkipBlank(lines: seq<string>, j: nat, topics: seq<string>, idx: seq<nat>)
    requires j < |lines| && Strip(lines[j]) == ""
    requires SelectsNonBlank(lines, j + 1, topics, idx)
    ensures SelectsNonBlank(lines, j, topics, idx)
  {
  }

  /** A non-blank line at position `j` goes in front of a selection. */
  lemma SelectsKeepLine(lines: seq<string>, j: nat, topics: seq<string>, idx: seq<nat>)
    requires j < |lines| && Strip(lines[j]) != ""
    requires SelectsNonBlank(lines, j + 1, topics, idx)
    ensures SelectsNonBlank(lines, j, [Strip(lines[j])] + topics, [j] + idx)
  {
    var topics' := [Strip(lines[j])] + topics;
    var idx' := [j] + idx;
    forall k | 0 <= k < |idx'|
      ensures j <= idx'[k] < |lines| && topics'[k] == Strip(lines[idx'[k]])
    {
      if k > 0 {
        assert idx'[k] == idx[k - 1] && topics'[k] == topics[k - 1];
      }
    }
    forall k, m | 0 <= k < m < |idx'|
      ensures idx'[k] < idx'[m]
    {
      assert idx'[m] == idx[m - 1];
      if k > 0 {
        assert idx'[k] == idx[k - 1];
      }
    }
    forall i | j <= i < |lines|
      ensures Strip(lines[i]) != "" <==> i in idx'
    {
      if i > j {
        assert i in idx' <==> i in idx;
      }
    }
  }

  /** The topics kept from the lines `j..` are exactly the stripped
      non-blank lines among them, in line order. */
  lemma {:induction false} KeepTopicsSelectsFrom(lines: seq<string>, j: nat)
    requires j <= |lines|
    ensures SelectsNonBlank(lines, j, KeepTopics(lines[j..]), NonBlankFrom(lines, j))
    decreases |lines| - j
  {
    if j < |lines| {
      KeepTopicsSelectsFrom(lines, j + 1);
      assert lines[j..][1..] == lines[j + 1..];
      var rest := KeepTopics(lines[j + 1..]);
      var idx := NonBlankFrom(lines, j + 1);
      if Strip(lines[j]) == "" {
        SelectsSkipBlank(lines, j, rest, idx);
      } else {
        SelectsKeepLine(lines, j, rest, idx);
      }
    }
  }

  /** `topics` are exactly the stripped non-blank lines of
      `content.split("\n")`, in input order. */
  ghost predicate AreNonBlankLinesOf(content: string, topics: seq<string>) {
    var lines := Split(content, [LineFeed]);
    SelectsNonBlank(lines, 0, topics, NonBlankFrom(lines, 0))
  }

  /** Preprocessing keeps exactly the stripped non-blank lines, in input
      order. */
  lemma TopicsAreNonBlankLines(content: string)
    ensures AreNonBlankLinesOf(content, PreprocessCurriculum(content))
  {
    var lines := Split(content, [LineFeed]);
    KeepTopicsSelectsFrom(lines, 0);
    assert lines[0..] == lines;
  }

  /** No topics are kept exactly when every line is all whitespace. */
  lemma {:induction false} KeepTopicsEmptyIff(lines: seq<string>)
    ensures KeepTopics(lines) == [] <==> forall k :: 0 <= k < |lines| ==> AllWhitespace(lines[k])
    decreases |lines|
  {
    if lines != [] {
      StripEmptyIff(lines[0]);
      KeepTopicsEmptyIff(lines[1..]);
      assert forall k :: 1 <= k < |lines| ==> lines[k] == lines[1..][k - 1];
    }
  }

  /** Preprocessing yields no topics exactly when the text is made only of
      whitespace (line feeds included); in particular "" yields none. */
  lemma BlankContentIff(content: string)
    ensures PreprocessCurriculum(content) == [] <==> AllWhitespace(content)
  {
    var lines := Split(content, [LineFeed]);
    JoinSplit(content, [LineFeed]);
    JoinAllWhitespace(lines, [LineFeed]);
    KeepTopicsEmptyIff(lines);
  }

  /** Lines that are already topics are all kept, unchanged. */
  lemma {:induction false} KeepTopicsOfTopics(ts: seq<string>)
    requires AreTopics(ts)
    ensures KeepTopics(ts) == ts
    decreases |ts|
  {
    if ts != [] {
      StripOfStripped(ts[0]);
      KeepTopicsOfTopics(ts[1..]);
      assert ts == [ts[0]] + ts[1..];
    }
  }

  /** Round trip: topics written one per line and preprocessed again come
      back unchanged. */
  lemma PreprocessJoinRoundTrip(ts: seq<string>)
    requires AreTopics(ts)
    ensures PreprocessCurriculum(Join(ts, [LineFeed])) == ts
  {
    var s := Join(ts, [LineFeed]);
    assert PreprocessCurriculum(s) == KeepTopics(Split(s, [LineFeed]));
    if ts == [] {
      assert |s| == 0 && Split(s, [LineFeed]) == [s];
      assert Strip(s) == s;
      assert KeepTopics([s]) == [];
    } else {
      SplitJoin(ts, LineFeed);
      KeepTopicsOfTopics(ts);
    }
  }

  /** Preprocessing is idempotent: writing the topics back one per line and
      preprocessing again changes nothing. */
  lemma PreprocessIdempotent(content: string)
    ensures PreprocessCurriculum(Join(PreprocessCurriculum(content), [LineFeed]))
         == PreprocessCurriculum(content)
  {
    PreprocessYieldsTopics(content);
    PreprocessJoinRoundTrip(PreprocessCurriculum(content));
  }

  /** The example text has five lines, two of them blank. */
  lemma SplitExample()
    ensures Split("a\n\nb \n \nc", [LineFeed]) == ["a", "", "b ", " ", "c"]
  {
    var lines := ["a", "", "b ", " ", "c"];
    assert Join(lines[4..], [LineFeed]) == "c";
    assert Join(lines[3..], [LineFeed]) == " \nc";
    assert Join(lines[2..], [LineFeed]) == "b \n \nc";
    assert Join(lines[1..], [LineFeed]) == "\nb \n \nc";
    assert Join(lines, [LineFeed]) == "a\n\nb \n \nc";
    assert forall k :: 0 <= k < |lines| ==> LineFeed !in lines[k];
    SplitJoin(lines, LineFeed);
  }

  /** Blank lines and the whitespace around a topic are dropped. */
  lemma PreprocessExample()
    ensures PreprocessCurriculum("a\n\nb \n \nc") == ["a", "b", "c"]
  {
    SplitExample();
    KeepExample();
  }

  /** The example's lines, stripped, with the blank ones dropped. */
  lemma KeepExample()
    ensures KeepTopics(["a", "", "b ", " ", "c"]) == ["a", "b", "c"]
  {
    assert Strip("b ") == "b";
  }

  /** Empty text, and text of spaces and line feeds only, yield no topics. */
  lemma PreprocessBlankExamples()
    ensures PreprocessCurriculum("") == []
    ensures PreprocessCurriculum("   \n\n  ") == []
  {
    BlankContentIff("");
    BlankContentIff("   \n\n  ");
  }
}
