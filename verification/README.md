# Question-bank generator: the pure string logic

The service turns an uploaded curriculum file into a question bank. An
upload event names an object key. The service reads the curriculum text and
cuts it into topics. It sends one generation request holding those topics to
a text-generation model. The answer is stored under a key derived from the
uploaded key, recorded in a metadata table, and announced by a notification.

Three pieces of that pipeline are pure functions of strings. This project
models those three in Dafny and proves properties of them.

- **Curriculum preprocessing** (`Curriculum.PreprocessCurriculum`). The text
  is split at every line feed (Python `content.split("\n")`). Each line is
  stripped of surrounding whitespace (`line.strip()`). The non-empty
  stripped lines are kept, in input order.
- **The generation request** (`Prompt.BuildPrompt`, `Prompt.BuildRequest`).
  The prompt is the fixed instruction
  `"Generate a question bank based on these topics: "` followed by
  `", ".join(topics)`. The token ceiling is the constant 300.
- **The output key** (`OutputKey.DeriveOutputKey`). This is
  `"questions/" + key.split('/')[-1].replace(".csv", "_questions.json")`.

The Python library operations involved are modelled once, in their own
modules:

- `Whitespace` models `str.strip()`. Its whitespace set is the one
  `str.isspace()` accepts.
- `Splitting` models `str.split(sep)` for a non-empty separator, and
  `sep.join(parts)`.
- `Replacing` models `str.replace(old, new)`. It scans left to right and
  replaces the leftmost occurrence each time. An empty `old` is also
  covered: Python then inserts `new` before every character and at the end.

Each operation has a partner that it is proved against:

- `Split` and `Join` invert each other. Joining the pieces of a split gives
  back the text, for any separator. Splitting a join gives back a non-empty
  list of pieces when the separator is one character that none of them
  holds. The empty list is the exception: it joins to "", which splits into
  `[""]`.
- `ReplaceAll` is proved equal to Python's identity
  `new.join(s.split(old))`. No piece of that split holds `old`, whatever
  its length, so every occurrence the scan meets is replaced.
- Preprocessing is characterised as selecting exactly the non-blank lines.
  It round-trips with joining on line feeds.
- The prompt has a decoder, `PromptTopics`, that reads the topics back.
- `LastSegment` is characterised as the unique suffix that holds no "/" and
  is either the whole key or preceded by a "/".

`replace` changes every ".csv" in the file name, not only a trailing one,
so "a.csv.csv" gives "questions/a_questions.json_questions.json"
(`OutputKey.DoubleExtensionExample`).

## Model

| member | source | states |
|---|---|---|
| Whitespace.Strip | lambda_function.py:60-61 | `line.strip()`; characterised by `Whitespace.StripIsTrimmedSlice` below |
| Whitespace.StripIsTrimmedSlice | lambda_function.py:60-61 | `line.strip()` is a contiguous slice of the line with no whitespace at either end; everything cut off on either side is whitespace |
| Whitespace.StripEmptyIff | lambda_function.py:60 | a stripped line is empty (the `if line.strip()` test fails) exactly when the line is all whitespace |
| Whitespace.StripIdempotent | lambda_function.py:60-61 | stripping an already stripped topic changes nothing |
| Whitespace.StripKeepsOut | lambda_function.py:60-61 | stripping adds no character that the line did not hold |
| Splitting.Join | lambda_function.py:68 | `sep.join(parts)`: "" for no parts, the pieces with `sep` between neighbours; inverted by `Split` for a non-empty list of pieces none of which holds a one-character separator (`Splitting.SplitJoin`); the empty list joins to "" and splits back as `[""]` (`Splitting.SplitOfEmptyJoin`) |
| Splitting.Split | lambda_function.py:58 | `content.split("\n")` always yields at least one piece, even for "" |
| Splitting.JoinSplit | lambda_function.py:58 | joining the pieces of a split with the separator gives back the original text, so the split neither loses nor invents characters |
| Splitting.SplitCount | lambda_function.py:58 | a split on one character yields one more piece than the character has occurrences |
| Splitting.SplitPiecesAvoidSeparator | lambda_function.py:58 | no piece of `split("\n")` contains a line feed |
| Splitting.SplitFirstIsPrefix | lambda_function.py:58 | the first piece of a split is a prefix of the text |
| Splitting.SplitPiecesAvoidTarget | lambda_function.py:34 | no piece of `s.split(sep)` holds `sep`, for a separator of any length such as ".csv" |
| Splitting.SplitJoin | lambda_function.py:58 | splitting a join recovers a non-empty list of pieces when the separator is one character that no piece holds |
| Splitting.SplitOfEmptyJoin | lambda_function.py:58 | the empty list of pieces is not recovered: it joins to "", and `"".split(sep)` is `[""]` |
| Splitting.LastPieceIsSuffix | lambda_function.py:34 | `split(sep)[-1]` is a suffix of the text that is either the whole text or directly preceded by the separator |
| Curriculum.PreprocessCurriculum | lambda_function.py:56-63 | `preprocess_curriculum(content)`; characterised by `Curriculum.TopicsAreNonBlankLines` and `Curriculum.PreprocessJoinRoundTrip` |
| Curriculum.PreprocessYieldsTopics | lambda_function.py:58-61 | every topic is non-empty, has no leading or trailing whitespace and holds no line feed; there are at most `count("\n") + 1` topics |
| Curriculum.TopicsAreNonBlankLines | lambda_function.py:58-61 | the topics are exactly the stripped forms of the non-blank lines of `split("\n")`, in line order, each non-blank line contributing once |
| Curriculum.BlankContentIff | lambda_function.py:57-63 | preprocessing yields no topics exactly when the text is whitespace and line feeds only |
| Curriculum.PreprocessBlankExamples | lambda_function.py:57-63 | "" and "   \n\n  " yield no topics, without error |
| Curriculum.PreprocessJoinRoundTrip | lambda_function.py:56-63 | non-empty, stripped, newline-free topics joined with "\n" and preprocessed come back unchanged |
| Curriculum.PreprocessIdempotent | lambda_function.py:56-63 | preprocessing the topics written back one per line gives the same topics |
| Curriculum.PreprocessExample | lambda_function.py:56-63 | "a\n\nb \n \nc" yields ["a", "b", "c"] |
| Prompt.BuildPrompt | lambda_function.py:68 | the `"prompt"` string; inverted by the decoder `PromptTopics` in `Prompt.PromptRoundTrip` |
| Prompt.BuildRequest | lambda_function.py:67-69 | the request with its prompt and `max_tokens`; stated by `Prompt.MaxTokensFixed` |
| Prompt.PromptLayout | lambda_function.py:68 | the prompt starts with the fixed instruction, and the rest is `", ".join(topics)` |
| Prompt.JoinCommaSpace | lambda_function.py:68 | joining with ", " is joining with "," after putting a space in front of every topic but the first |
| Prompt.PromptRoundTrip | lambda_function.py:68 | non-empty, stripped, comma-free topics are read back exactly from the prompt built from them |
| Prompt.PromptOfPreprocessed | lambda_function.py:30-32 | the topics preprocessed from a comma-free curriculum are read back exactly from the prompt built from them |
| Prompt.MaxTokensFixed | lambda_function.py:67-69 | `max_tokens` is 300 whatever the topics, and the request carries the built prompt |
| Prompt.PromptExamples | lambda_function.py:68 | [] gives exactly the instruction, trailing space included; ["Math", "Science"] gives the instruction followed by "Math, Science" |
| Replacing.ReplaceAll | lambda_function.py:34 | `s.replace(old, new)`; characterised by `Replacing.ReplaceAllReplacesEveryOccurrence` and `Replacing.ReplaceEmptyTarget` |
| Replacing.ReplaceAllReplacesEveryOccurrence | lambda_function.py:34 | for a non-empty `old`, the text is cut into pieces none of which holds `old`, the pieces joined with `old` give the text back, and the result is the same pieces joined with `new`: every occurrence the scan meets is replaced |
| Replacing.ReplaceAllIsJoinOfSplit | lambda_function.py:34 | `s.replace(old, new)` equals `new.join(s.split(old))` for a non-empty `old` |
| Replacing.ReplaceAbsent | lambda_function.py:34 | text in which the target does not occur is returned unchanged |
| Replacing.ReplaceFinalOccurrence | lambda_function.py:34 | text ending in the target, with no earlier occurrence, has just that final occurrence replaced |
| Replacing.ReplaceEmptyTarget | lambda_function.py:34 | the `str.replace` used here, given an empty `old`, yields `new + new.join(list(s)) + new` for non-empty text and `new` for "" (line 34 itself always passes ".csv") |
| Replacing.ReplaceKeepsOut | lambda_function.py:34 | replacing introduces no character that is in neither the text nor the replacement |
| OutputKey.LastSegment | lambda_function.py:34 | `key.split('/')[-1]`; characterised by `OutputKey.LastSegmentIff` |
| OutputKey.DeriveOutputKey | lambda_function.py:34 | the output key; characterised by `OutputKey.DerivedKeyShape`, `OutputKey.DerivedKeyIgnoresFolder` and `OutputKey.CsvFileKey` |
| OutputKey.LastSegmentIff | lambda_function.py:34 | `key.split('/')[-1]` is the one suffix of the key that holds no "/" and is the whole key or preceded by a "/" |
| OutputKey.LastSegmentOfPlainName | lambda_function.py:34 | a key without "/" is its own file name |
| OutputKey.LastSegmentAfterFolder | lambda_function.py:34 | putting a folder and a "/" in front of a key does not change its file name |
| OutputKey.DerivedKeyShape | lambda_function.py:34 | the derived key starts with "questions/" and the rest holds no "/" |
| OutputKey.DerivedKeyIgnoresFolder | lambda_function.py:34 | the derived key depends only on the file name, not on the folders in front of it |
| OutputKey.TrailingSeparatorKey | lambda_function.py:34 | a key ending in "/" derives exactly "questions/" |
| OutputKey.NoCsvKeptUnchanged | lambda_function.py:34 | a file name without ".csv" is kept unchanged under "questions/" |
| OutputKey.CsvFileKey | lambda_function.py:34 | a file name `stem + ".csv"`, with no ".csv" in the stem, becomes `"questions/" + stem + "_questions.json"` in any folder |
| OutputKey.CurriculumFileExample | lambda_function.py:34 | "folder/curriculum.csv" and "curriculum.csv" both give "questions/curriculum_questions.json" |
| OutputKey.DoubleExtensionExample | lambda_function.py:34 | every ".csv" is replaced: "a.csv.csv" gives "questions/a_questions.json_questions.json" |

## Left out

- Reading and writing the storage objects (lambda_function.py:46-54, 85-91), including the UTF-8 decode at line 49. These are I/O through the cloud SDK. The curriculum is modelled as an already decoded `string`.
- The model invocation and the JSON encoding and decoding around it (lambda_function.py:72-83). This is a call to an external service whose answer is opaque. Only the request the service is sent is modelled (`Prompt.GenerationRequest`).
- The metadata table write (lambda_function.py:93-107) and the notification (lambda_function.py:109-115). Both are side effects only.
- All logging. It is a side effect only.
- The control flow of `lambda_handler` (lambda_function.py:15-44). It runs the external calls in sequence and turns any exception into a 500 response. Its only local logic is the three pieces modelled here.
- `temperature: 0.7` (lambda_function.py:70). It is a floating-point constant, so `GenerationRequest` carries only the prompt and the token ceiling.
- config.py. It holds only bucket, table, topic, model and log-level names, with no logic.
- Prompt.PromptRoundTrip: the decoder cannot read back topics that contain a comma or that are empty or unstripped. The prompt format itself cannot tell "a, b" as one topic apart from two topics.
