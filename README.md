# Text analyzer and analysis history, modelled in Dafny

The system is a pair of HTTP handlers in `function_app.py`. `TextAnalyzer`
takes a text and computes word, character, sentence and paragraph statistics,
the longest word and a 100-character preview. It then tries to store the
record in a table and answers 200 even when the write fails. `GetAnalysisHistory`
settles a `limit` parameter (default 10, clamped to 1..50), walks the stored
rows of the `TextAnalyzer` partition and returns at most `limit` of them.

The model has five modules:

- `Wrappers` holds `Option` (Python's `None`) and `Result` (a value, or the
  text of the exception raised instead).
- `PyStr` states the Python string operations the analyzer is built from, over
  `seq<char>`:
  - `str.split()` is `Runs(s, IsWordChar)`, the maximal runs of non-whitespace.
  - `re.findall(r"[.!?]+", s)` is `Runs(s, IsSentenceEnd)`.
  - `str.split(sep)` is `SplitOn`, `str.count(sep)` is `CountOf`, `sep.join` is `Join`.
  - `str.strip()` is `Strip`, and `str.replace(" ", "")` is `RemoveChar`.
  - Whitespace (`IsSpace`) is CPython's set: code points 9-13, 28-32, 0x85,
    0xA0, 0x1680, 0x2000-0x200A, 0x2028, 0x2029, 0x202F, 0x205F and 0x3000.
  - Each operation has a partner: an independent count (`RunStarts`, `CountOf`),
    an inverse (`Join`), or a content statement (`Filter`, `Occurrences`).
- `TextAnalyzer` holds the statistics as functions. It also holds how the
  handler picks its text and the response it builds.
- `TextAnalyzerExamples` works out the statistics of one concrete request,
  `"Hello world. How are you?"`. The result is 5 words, 2 sentences, 1 paragraph
  and longest word `"world."`: `"Hello"` has 5 characters and `"world."` has 6.
  It also splits `"ab c"` into `"ab"` and `"c"`, and counts two paragraphs in
  `"a\n\nb"`.
- `AnalysisHistory` holds the history handler:
  - Limit handling is a method that reassigns `limit` step by step, as the
    source does.
  - The collection loop is a method with a `while` loop. Its invariants keep
    `results` equal to the mapped prefix of the entities, with
    `count == |results|`, and `count <= limit` for a positive limit.

Inputs that come from outside the code are parameters:
- the query parameter and the JSON body field;
- the generated id and the timestamp;
- the outcome of the table write;
- the parsed `limit`;
- the rows the table query yields.

Lengths count Unicode scalar values. Python's `len` counts code points, and
the two agree except on lone surrogates (see "Left out").

## Model

| member | source | states |
|---|---|---|
| `PyStr.Runs` | function_app.py:61 | every maximal run of a character class is non-empty and consists only of characters of that class |
| `PyStr.RunsEmptyIff` | function_app.py:61-65 | there are no runs exactly when no character of the text is in the class |
| `PyStr.RunsCount` | function_app.py:65 | the number of runs equals the independently counted positions where a run starts |
| `PyStr.RunsConcat` | function_app.py:61 | the runs laid end to end are exactly the text's characters of the class, in order |
| `PyStr.RunsSplitAt` | function_app.py:61-65 | a character outside the class cuts the text: the runs of the whole are the runs before it followed by the runs after it |
| `PyStr.RunsOfRun` | function_app.py:61-65 | a non-empty text made only of class characters is a single run, itself |
| `PyStr.RunsOfJoin` | function_app.py:61 | joining tokens with a separator outside the class and splitting again returns the same tokens |
| `PyStr.SplitOn` | function_app.py:66 | `str.split(sep)` always yields at least one part |
| `PyStr.SplitOnCount` | function_app.py:66 | `str.split(sep)` yields exactly one more part than `str.count(sep)` occurrences |
| `PyStr.JoinSplitOn` | function_app.py:66 | `sep.join(s.split(sep)) == s` |
| `PyStr.AllSpaceJoin` | function_app.py:66 | with a whitespace separator, a joined text is blank exactly when every part is blank |
| `PyStr.Strip` | function_app.py:66 | `strip()` is empty exactly when the text is all whitespace; otherwise neither end of the result is whitespace |
| `PyStr.RemoveChar` | function_app.py:64 | `replace(x, "")` shortens the text by the number of `x` occurrences, leaves no `x`, and keeps every other character as often as it occurred |
| `TextAnalyzer.Words` | function_app.py:61-62 | tokens are non-empty and whitespace-free; there are none exactly when the text is blank; together they are the text's non-whitespace characters in order; their number is the number of token starts |
| `TextAnalyzer.WordsOfJoin` | function_app.py:61 | splitting `" ".join(ws)` gives back `ws` for whitespace-free tokens |
| `TextAnalyzer.WordsSplitAt` | function_app.py:61 | a whitespace character separates tokens: the tokens of `a + c + b` are those of `a` followed by those of `b` |
| `TextAnalyzer.WordsOfToken` | function_app.py:61 | a non-empty whitespace-free text is exactly one token, itself |
| `TextAnalyzer.SentenceCount` | function_app.py:65 | at least 1; exactly 1 without `.`, `!` or `?`; otherwise the number of maximal runs of those characters |
| `TextAnalyzer.CountNonBlank` | function_app.py:66 | counted from the last part backwards: at most the number of parts, and 0 exactly when every part is blank |
| `TextAnalyzer.CountNonBlankPrepend` | function_app.py:66 | the backward count equals the first part's contribution plus the count of the rest |
| `TextAnalyzer.NonBlank` | function_app.py:66 | every non-blank part is kept and nothing else is; there are as many as `CountNonBlank` counts; empty exactly when every part is blank |
| `TextAnalyzer.NonBlankAppend` | function_app.py:66 | filtering splits over concatenation, so the kept parts stay in their original order |
| `TextAnalyzer.NonBlankSingle` | function_app.py:66 | a single part is kept exactly when it is not blank |
| `TextAnalyzer.ParagraphCount` | function_app.py:66 | the number of non-blank pieces of `text.split("\n\n")`, counted independently; at most one more than the number of `"\n\n"` occurrences; 0 exactly when the text is blank |
| `TextAnalyzer.FirstLongest` | function_app.py:69 | an index of a longest token, with every earlier token strictly shorter |
| `TextAnalyzer.LongestWord` | function_app.py:69 | `""` without words; otherwise a word of maximal length, with no earlier word of that length |
| `TextAnalyzer.TextPreview` | function_app.py:72 | at most 103 characters; the text itself when it has at most 100; otherwise its first 100 characters followed by `"..."` |
| `TextAnalyzer.Analyze` | function_app.py:61-86 | each field is the statistic of the same text: `Words`, `len`, `RemoveChar`, `SentenceCount`, `ParagraphCount`, `LongestWord`; the two character counts differ by the number of ASCII spaces; there is at least one sentence; no words, no longest word, no paragraph and a blank text all coincide |
| `TextAnalyzer.ResolveText` | function_app.py:38-46 | a non-empty query parameter wins, else a non-empty body field, else no text; a resolved text is never empty |
| `TextAnalyzer.HandleAnalyze` | function_app.py:38-120 | 400 exactly when no text resolves; otherwise the record holds the given id and timestamp, `Analyze` and `TextPreview` of the resolved text. The record does not depend on the outcome of the table write, which neither changes the status nor does anything but set `storageWarning` |
| `TextAnalyzerExamples.GreetingWords` | function_app.py:61 | `"Hello world. How are you?"` splits into its five words |
| `TextAnalyzerExamples.GreetingLongestWord` | function_app.py:69 | for that text the longest word is `"world."` |
| `TextAnalyzerExamples.GreetingSentences` | function_app.py:65 | for that text the sentence matches are `"."` and `"?"` |
| `TextAnalyzerExamples.GreetingParagraphs` | function_app.py:66 | that text is one paragraph |
| `TextAnalyzerExamples.GreetingAnalysis` | function_app.py:61-69 | that text gives 5 words, 25 characters, 2 sentences, 1 paragraph and longest word `"world."` |
| `TextAnalyzerExamples.TokensEndAtSpace` | function_app.py:61 | `"ab c".split()` is `["ab", "c"]` |
| `TextAnalyzerExamples.TwoParagraphs` | function_app.py:66 | `"a\n\nb"` is two paragraphs |
| `AnalysisHistory.ClampLimit` | function_app.py:127-137 | the limit is always in [1, 50]: 10 when missing or unparsable; a parsed value is kept exactly when it is in [1, 50], and otherwise replaced by the bound it crosses |
| `AnalysisHistory.EffectiveLimit` | function_app.py:127-137 | the step-by-step settling of `limit` yields `ClampLimit` of the parse |
| `AnalysisHistory.CollectHistory` | function_app.py:149-165 | `count` is the number of results, which is the smaller of `limit` and the number of entities (0 for a non-positive limit); item `k` is built from entity `k`: its id is the row key, and its analysis and metadata are the stored fields, or `"{}"` where a field is missing |
| `AnalysisHistory.GetAnalysisHistory` | function_app.py:127-179 | 500 with the error text exactly when the query fails; otherwise the smaller of `ClampLimit` of the parse and the number of entities, so at most 50 (10 without a limit); item `k` carries the row key of entity `k`, in store order |

## Left out

- `averageWordLength` and `readingTimeMinutes` (function_app.py:67-68) are floating-point divisions rounded with `round(…, 1)`. `Analysis` omits both. The only integer logic there is the `word_count > 0` guard: the average is 0 without words.
- `get_table_client` (function_app.py:15-31) reads the environment and creates the table over the network. It is not part of this model, nor is the connection-string check.
- Writing the entity (function_app.py:94-109) is not modelled. `HandleAnalyze` takes only the outcome of the write, as the exception text or nothing. The entity's fields are JSON text produced by `json.dumps`, so the write-then-read round trip of the analysis is not stated.
- `json.loads` on the stored fields (function_app.py:156-157) is library code. History items keep the stored JSON text, and a malformed stored field, which raises and gives 500, is not modelled.
- The table query (function_app.py:144-147) is lazy in the source. An error can surface while iterating. The model takes the whole query outcome as one `Result`. The `results_per_page` hint and the partition filter are the store's concern; the entities passed in are those it yields.
- `int(limit_str)` follows Python's integer grammar. `EffectiveLimit` takes the parse as an `Option<int>`: `None` stands for a missing parameter (`"10"`, which parses to 10) or one that does not parse.
- `uuid.uuid4()`, `datetime.utcnow()` and `logging` are inputs or have no effect on results. The HTTP routing, the JSON rendering of the responses and the usage-instruction payload (function_app.py:34-58, 116-120, 167-179) are not modelled.
- `TextAnalyzer.ResolveText`: a JSON body whose `text` field is not a string (a number, say) is outside the model, because the body field is taken as `Option<string>`.
- `TextAnalyzer.ResolveText`: a body that is valid JSON but not an object (`[1]`, `"x"`, `null`) makes `req_body.get("text")` raise `AttributeError` (function_app.py:42). `except ValueError` (function_app.py:43) does not catch it, so the request fails with an unhandled error. The model cannot express that body, and its nearest input, a missing body field, gives 400.
- Lone surrogates (code points 0xD800-0xDFFF) can occur in a Python `str` but are not Dafny `char`s, so texts holding them are outside the model.
