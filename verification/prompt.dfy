/**
 The generation request of `generate_questions_bedrock` in
 lambda_function.py: a fixed instruction followed by the topics joined with
 ", ", and a fixed ceiling on the number of generated tokens. The request is
 only built here; sending it to the model is not part of this model.
 */
module Prompt {
  import opened Whitespace
  import opened Splitting
  import Curriculum

  /** The fixed instruction in front of the topic list, trailing space
      included. */
  const PromptPrefix: string := "Generate a question bank based on these topics: "

  /** What the topics are joined with. */
  const TopicSeparator: string := ", "

  /** The `max_tokens` field: fixed, whatever the topics. */
  const MaxTokens: nat := 300

  /** The request payload, without its floating-point temperature. */
  datatype GenerationRequest = GenerationRequest(prompt: string, maxTokens: nat)

  datatype Option<T> = None | Some(value: T)

  /** The `"prompt"` string: the instruction followed by
      `", ".join(topics)`. */
  function BuildPrompt(topics: seq<string>): string
  {
    PromptPrefix + Join(topics, TopicSeparator)
  }

  /** The request for a list of topics. */
  function BuildRequest(topics: seq<string>): GenerationRequest
  {
    GenerationRequest(BuildPrompt(topics), MaxTokens)
  }

  /** A topic that can be read back out of a prompt: non-empty, stripped,
      and free of commas. */
  predicate IsPromptTopic(t: string) {
    t != "" && IsStripped(t) && ',' !in t
  }

  /** Every piece, stripped. */
  function StripEach(parts: seq<string>): seq<string>
  {
    seq(|parts|, i requires 0 <= i < |parts| => Strip(parts[i]))
  }

  /** Reads the topics back out of a prompt: `None` unless the prompt starts
      with the instruction; otherwise the rest cut at every comma, each
      piece stripped, and no topics at all when nothing follows the
      instruction. */
  function PromptTopics(prompt: string): Option<seq<string>>
  {
    if |prompt| < |PromptPrefix| || prompt[..|PromptPrefix|] != PromptPrefix then None
    else
      var clause := prompt[|PromptPrefix|..];
      if clause == "" then Some([]) else Some(StripEach(Split(clause, ",")))
  }

  /** The topics with a space put in front of every one but the first. */
  function Indent(topics: seq<string>): seq<string>
  {
    seq(|topics|, i requires 0 <= i < |topics| => if i == 0 then topics[0] else " " + topics[i])
  }

  /** Joining with ", " is joining the indented topics with ",". */
  lemma {:induction false} JoinCommaSpace(topics: seq<string>)
    ensures Join(topics, TopicSeparator) == Join(Indent(topics), ",")
    decreases |topics|
  {
    if |topics| >= 2 {
      var rest := topics[1..];
      JoinCommaSpace(rest);
      var ir := Indent(rest);
      var it := Indent(topics);
      assert it[1..] == [" " + ir[0]] + ir[1..];
      JoinPrefixFirst(" ", ir, ",");
      assert Join(it, ",") == topics[0] + "," + Join(it[1..], ",");
    } else if |topics| == 1 {
      assert Indent(topics) == topics;
    }
  }

  /** The prompt always starts with the fixed instruction, and what follows
      it is the topics joined with ", ". */
  lemma PromptLayout(topics: seq<string>)
    ensures |PromptPrefix| <= |BuildPrompt(topics)|
    ensures BuildPrompt(topics)[..|PromptPrefix|] == PromptPrefix
    ensures BuildPrompt(topics)[|PromptPrefix|..] == Join(topics, TopicSeparator)
  {
  }

  /** Round trip: topics that are non-empty, stripped and comma-free are
      read back exactly from the prompt built from them. */
  lemma PromptRoundTrip(topics: seq<string>)
    requires forall k :: 0 <= k < |topics| ==> IsPromptTopic(topics[k])
    ensures PromptTopics(BuildPrompt(topics)) == Some(topics)
  {
    var p := BuildPrompt(topics);
    PromptLayout(topics);
    var clause := p[|PromptPrefix|..];
    if topics != [] {
      JoinCommaSpace(topics);
      var it := Indent(topics);
      forall k | 0 <= k < |it|
        ensures ',' !in it[k]
      {
        if k > 0 {
          assert forall j :: 0 <= j < |it[k]| ==> it[k][j] == ' ' || it[k][j] in topics[k];
        }
      }
      SplitJoin(it, ',');
      assert Split(clause, ",") == it;
      forall k | 0 <= k < |it|
        ensures Strip(it[k]) == topics[k]
      {
        if k == 0 {
          StripOfStripped(topics[0]);
        } else {
          StripLeadingSpace(topics[k]);
        }
      }
      assert StripEach(it) == topics;
      if |topics| == 1 {
        assert clause == topics[0];
      } else {
        assert clause == topics[0] + TopicSeparator + Join(topics[1..], TopicSeparator);
      }
    }
  }

  /** Topics taken from a curriculum without commas are read back exactly
      from the prompt built from them. */
  lemma PromptOfPreprocessed(content: string)
    requires ',' !in content
    ensures PromptTopics(BuildPrompt(Curriculum.PreprocessCurriculum(content)))
         == Some(Curriculum.PreprocessCurriculum(content))
  {
    var lines := Split(content, [Curriculum.LineFeed]);
    var topics := Curriculum.PreprocessCurriculum(content);
    Curriculum.PreprocessYieldsTopics(content);
    JoinSplit(content, [Curriculum.LineFeed]);
    forall k | 0 <= k < |lines|
      ensures ',' !in lines[k]
    {
      JoinHoldsPieces(lines, [Curriculum.LineFeed], k);
    }
    Curriculum.KeepTopicsKeepsOut(lines, ',');
    PromptRoundTrip(topics);
  }

  /** `max_tokens` is 300 whatever the topics are. */
  lemma MaxTokensFixed(topics: seq<string>)
    ensures BuildRequest(topics).maxTokens == 300
    ensures BuildRequest(topics).prompt == BuildPrompt(topics)
  {
  }

  /** No topics give exactly the instruction, trailing space included; two
      topics are joined with ", ". */
  lemma PromptExamples()
    ensures BuildPrompt([]) == "Generate a question bank based on these topics: "
    ensures BuildPrompt(["Math", "Science"])
         == "Generate a question bank based on these topics: Math, Science"
  {
    assert Join(["Math", "Science"], TopicSeparator) == "Math, Science";
  }
}
