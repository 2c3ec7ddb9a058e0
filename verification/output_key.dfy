/**
 The key under which `lambda_handler` in lambda_function.py stores a
 generated question bank: the text after the last "/" of the uploaded
 object's key, with every ".csv" in it replaced by "_questions.json", under
 the fixed folder "questions/".
 */
module OutputKey {
  import opened Splitting
  import opened Replacing

  /** The folder every question bank is written to. */
  const OutputPrefix: string := "questions/"

  /** The text that is replaced in the file name. */
  const CsvExtension: string := ".csv"

  /** What it is replaced with. */
  const QuestionsSuffix: string := "_questions.json"

  /** The separator of the folders in an object key. */
  const PathSeparator: char := '/'

  /** `key.split('/')[-1]`: the file name, the text after the last "/". */
  function LastSegment(key: string): string
  {
    LastPiece(key, [PathSeparator])
  }

  /** `"questions/" + key.split('/')[-1].replace(".csv", "_questions.json")`. */
  function DeriveOutputKey(key: string): string
  {
    OutputPrefix + ReplaceAll(LastSegment(key), CsvExtension, QuestionsSuffix)
  }

  /** `seg` ends `key`, holds no "/", and is either all of `key` or
      directly preceded by a "/". */
  predicate IsLastSegment(key: string, seg: string) {
    && |seg| <= |key|
    && key[|key| - |seg|..] == seg
    && PathSeparator !in seg
    && (|seg| == |key| || key[|key| - |seg| - 1] == PathSeparator)
  }

  /** The file name is the one text that ends the key, holds no "/", and is
      the whole key or preceded by a "/". */
  lemma LastSegmentIff(key: string, seg: string)
    ensures IsLastSegment(key, seg) <==> seg == LastSegment(key)
  {
    LastSegmentIsLast(key);
    if IsLastSegment(key, seg) {
      LastSegmentUnique(key, seg, LastSegment(key));
    }
  }

  /** `LastSegment` meets its description. */
  lemma LastSegmentIsLast(key: string)
    ensures IsLastSegment(key, LastSegment(key))
  {
    var parts := Split(key, [PathSeparator]);
    LastPieceIsSuffix(key, [PathSeparator]);
    SplitPiecesAvoidSeparator(key, PathSeparator);
    assert LastSegment(key) == parts[|parts| - 1];
  }

  /** Two texts that both meet the description are the same. */
  lemma LastSegmentUnique(key: string, a: string, b: string)
    requires IsLastSegment(key, a) && IsLastSegment(key, b)
    ensures a == b
  {
  }

  /** A key without "/" is its own file name. */
  lemma LastSegmentOfPlainName(name: string)
    requires PathSeparator !in name
    ensures LastSegment(name) == name
  {
    assert name[|name| - |name|..] == name;
    LastSegmentIff(name, name);
  }

  /** The folders in front of a file name do not change the file name. */
  lemma LastSegmentAfterFolder(folder: string, name: string)
    ensures LastSegment(folder + [PathSeparator] + name) == LastSegment(name)
  {
    var key := folder + [PathSeparator] + name;
    var seg := LastSegment(name);
    LastSegmentIsLast(name);
    assert key[|key| - |name|..] == name;
    assert key[|key| - |seg|..] == name[|name| - |seg|..];
    if |seg| == |name| {
      assert key[|key| - |seg| - 1] == PathSeparator;
    } else {
      assert key[|key| - |seg| - 1] == name[|name| - |seg| - 1];
    }
    LastSegmentIff(key, seg);
  }

  /** The derived key always lies directly in the "questions/" folder: it
      starts with "questions/" and the rest holds no "/". */
  lemma DerivedKeyShape(key: string)
    ensures |OutputPrefix| <= |DeriveOutputKey(key)|
    ensures DeriveOutputKey(key)[..|OutputPrefix|] == OutputPrefix
    ensures PathSeparator !in DeriveOutputKey(key)[|OutputPrefix|..]
  {
    LastSegmentIsLast(key);
    ReplaceKeepsOut(LastSegment(key), CsvExtension, QuestionsSuffix, PathSeparator);
    assert DeriveOutputKey(key)[|OutputPrefix|..]
        == ReplaceAll(LastSegment(key), CsvExtension, QuestionsSuffix);
  }

  /** The derived key depends only on the file name: the folders in front
      of it are dropped. */
  lemma DerivedKeyIgnoresFolder(folder: string, name: string)
    ensures DeriveOutputKey(folder + [PathSeparator] + name) == DeriveOutputKey(name)
  {
    LastSegmentAfterFolder(folder, name);
  }

  /** A key that ends in "/" has an empty file name and derives exactly
      "questions/". */
  lemma TrailingSeparatorKey(key: string)
    requires key != [] && key[|key| - 1] == PathSeparator
    ensures DeriveOutputKey(key) == OutputPrefix
  {
    assert key[|key| - 0..] == "";
    LastSegmentIff(key, "");
  }

  /** A file name without ".csv" is kept unchanged. */
  lemma NoCsvKeptUnchanged(key: string)
    requires !Occurs(CsvExtension, LastSegment(key))
    ensures DeriveOutputKey(key) == OutputPrefix + LastSegment(key)
  {
    ReplaceAbsent(LastSegment(key), CsvExtension, QuestionsSuffix);
  }

  /** ".csv" cannot start inside a stem it does not occur in and run into a
      ".csv" appended to it: only its first character is a ".". */
  lemma NoMatchInsideStem(stem: string)
    requires !Occurs(CsvExtension, stem)
    ensures forall i :: 0 <= i < |stem| ==> !MatchAt(stem + CsvExtension, CsvExtension, i)
  {
    var s := stem + CsvExtension;
    forall i | 0 <= i < |stem|
      ensures !MatchAt(s, CsvExtension, i)
    {
      if i + |CsvExtension| <= |stem| {
        assert stem[i..i + |CsvExtension|] == s[i..i + |CsvExtension|];
        assert !MatchAt(stem, CsvExtension, i);
      } else if i + |CsvExtension| <= |s| {
        var d := |stem| - i;
        assert s[i..i + |CsvExtension|][d] == s[|stem|] == '.';
        assert CsvExtension[d] != '.';
      }
    }
  }

  /** A file name that is a stem plus ".csv", the stem holding no ".csv",
      becomes the stem plus "_questions.json" in the "questions/" folder,
      whatever folder it was uploaded to. */
  lemma CsvFileKey(folder: string, stem: string)
    requires PathSeparator !in stem
    requires !Occurs(CsvExtension, stem)
    ensures DeriveOutputKey(stem + CsvExtension) == OutputPrefix + stem + QuestionsSuffix
    ensures DeriveOutputKey(folder + [PathSeparator] + stem + CsvExtension)
         == OutputPrefix + stem + QuestionsSuffix
  {
    var name := stem + CsvExtension;
    assert PathSeparator !in name by {
      assert forall j :: 0 <= j < |name| ==> name[j] == (if j < |stem| then stem[j] else CsvExtension[j - |stem|]);
    }
    LastSegmentOfPlainName(name);
    NoMatchInsideStem(stem);
    ReplaceFinalOccurrence(stem, CsvExtension, QuestionsSuffix);
    assert folder + [PathSeparator] + stem + CsvExtension == folder + [PathSeparator] + name;
    DerivedKeyIgnoresFolder(folder, name);
  }

  /** A stem with no "." holds no ".csv". */
  lemma NoDotNoCsv(stem: string)
    requires '.' !in stem
    ensures !Occurs(CsvExtension, stem)
  {
    forall i | 0 <= i <= |stem|
      ensures !MatchAt(stem, CsvExtension, i)
    {
      if i + |CsvExtension| <= |stem| {
        assert stem[i..i + |CsvExtension|][0] == stem[i];
      }
    }
  }

  /** The curriculum example's keys and result, spelled out from their
      parts. */
  lemma CurriculumSpellings()
    ensures "curriculum" + CsvExtension == "curriculum.csv"
    ensures "folder" + [PathSeparator] + "curriculum" + CsvExtension == "folder/curriculum.csv"
    ensures OutputPrefix + "curriculum" + QuestionsSuffix == "questions/curriculum_questions.json"
  {
  }

  /** "folder/curriculum.csv" and "curriculum.csv" both give
      "questions/curriculum_questions.json". */
  lemma CurriculumFileExample()
    ensures DeriveOutputKey("folder/curriculum.csv") == "questions/curriculum_questions.json"
    ensures DeriveOutputKey("curriculum.csv") == "questions/curriculum_questions.json"
  {
    NoDotNoCsv("curriculum");
    CsvFileKey("folder", "curriculum");
    CurriculumSpellings();
  }

  /** Both occurrences in ".csv.csv" are replaced. */
  lemma TwoExtensionsReplaced()
    ensures ReplaceAll(".csv.csv", CsvExtension, QuestionsSuffix) == QuestionsSuffix + QuestionsSuffix
  {
    assert ReplaceAll(".csv", CsvExtension, QuestionsSuffix) == QuestionsSuffix;
  }

  /** After the "a", both occurrences are replaced. */
  lemma DoubleExtensionReplaced()
    ensures ReplaceAll("a.csv.csv", CsvExtension, QuestionsSuffix) == "a" + QuestionsSuffix + QuestionsSuffix
  {
    TwoExtensionsReplaced();
  }

  /** "a.csv.csv" is its own file name, with both occurrences replaced. */
  lemma DoubleExtensionKey()
    ensures DeriveOutputKey("a.csv.csv") == OutputPrefix + "a" + QuestionsSuffix + QuestionsSuffix
  {
    LastSegmentOfPlainName("a.csv.csv");
    DoubleExtensionReplaced();
  }

  /** The double-extension result, spelled out from its parts. */
  lemma DoubleExtensionSpelling()
    ensures OutputPrefix + "a" + QuestionsSuffix + QuestionsSuffix
         == "questions/a_questions.json_questions.json"
  {
  }

  /** Every ".csv" is replaced, not only a final one: "a.csv.csv" gives
      "questions/a_questions.json_questions.json". */
  lemma DoubleExtensionExample()
    ensures DeriveOutputKey("a.csv.csv") == "questions/a_questions.json_questions.json"
  {
    DoubleExtensionKey();
    DoubleExtensionSpelling();
  }
}
