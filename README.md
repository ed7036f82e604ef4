# SRS Generator text post-processing, in Dafny

The SRS Generator asks a language model for clarifying questions about a
project, then asks it for a Software Requirements Specification (SRS)
document. The only deterministic logic in `tool.py` is what happens to the
model's replies. This project models that logic and proves properties of it.

- `cleanup_text` deletes every `*` and every `#` from a text. It does this
  with two chained `str.replace` calls. It is a blunt character filter, not
  a markdown parser.
- `generate_questions` turns the model's reply into a question list with
  `[q.strip() for q in response.split('\n') if q.strip()]`.
- `generate_srs` returns `cleanup_text` of the model's reply.

The model calls are not modelled. Each reply is a parameter of the function
that post-processes it.

Files:

- `pystr.dfy` (module `PyStr`) models the Python `str` operations that
  `tool.py` relies on, on `seq<char>`:
  - `str.isspace` is `IsSpace`, using Python 3's whitespace code points.
  - `s.replace(c, '')` is `RemoveAll`.
  - `s.split(sep)` is `Split`. It always returns one more piece than there
    are separators.
  - `sep.join(...)` is `Join`, modelled as the inverse of `Split`.
  - `s.strip()` is `Strip`. Like CPython, it scans forward from the start
    and backward from the end for the first character that is not
    whitespace.
- `tool.dfy` (module `Tool`) models `cleanup_text` as `CleanupText`, the
  comprehension as `ParseQuestions`, and the last step of `generate_srs` as
  `GenerateSrs`. Each comes with lemmas that relate it to an independent
  reference definition: `KeepPlain` for the filter and `NonBlankPositions`
  for the selection.

## Model

| member | source | states |
|---|---|---|
| `PyStr.RemoveAll` | tool.py:7-8 | `text.replace(c, '')` leaves no `c`, only keeps characters of the input, and never makes the text longer |
| `PyStr.RemoveAllCounts` | tool.py:7-8 | only `c` is deleted: the length drops by the number of `c`s, and every other character keeps its number of occurrences |
| `PyStr.RemoveAllConcat` | tool.py:7-8 | deleting a character distributes over concatenation, so the kept characters stay in their original order |
| `PyStr.RemoveAllAbsent` | tool.py:7-8 | deleting a character that does not occur leaves the text unchanged |
| `PyStr.Split` | tool.py:36 | `response.split('\n')` has exactly one more piece than the response has line breaks, and no piece contains one |
| `PyStr.JoinSplit` | tool.py:36 | joining the split pieces with the separator gives back the original string, so splitting loses no character |
| `PyStr.SplitJoin` | tool.py:36 | splitting the join of separator-free pieces gives back those pieces: the other direction of the round trip |
| `PyStr.SplitAtSep` | tool.py:36 | a separator after a separator-free prefix ends the first piece, and the rest is split independently |
| `PyStr.SplitAllSpace` | tool.py:36 | when the separator is whitespace, a string is all whitespace exactly when every piece of its split is |
| `PyStr.Strip` | tool.py:36 | `q.strip()` neither starts nor ends with whitespace, and it is empty exactly when `q` is all whitespace |
| `PyStr.StripSlice` | tool.py:36 | `q.strip()` is a contiguous slice of `q` with only whitespace before it and after it |
| `PyStr.StripTrimmed` | tool.py:36 | a string that neither starts nor ends with whitespace is its own strip |
| `Tool.CleanupText` | tool.py:6-9 | the cleaned text contains no `*` and no `#` |
| `Tool.CleanupCounts` | tool.py:6-9 | the length drops by exactly the number of `*` and `#`, and every other character keeps its number of occurrences |
| `Tool.CleanupIsFilter` | tool.py:6-9 | the two chained replacements equal a one-pass filter that drops exactly `*` and `#` and keeps everything else in order |
| `Tool.CleanupConcat` | tool.py:6-9 | cleaning distributes over concatenation |
| `Tool.CleanupIdempotent` | tool.py:7-8 | cleaning a cleaned text changes nothing |
| `Tool.CleanupUnchangedIff` | tool.py:7-8 | a text is left unchanged if and only if it contains neither `*` nor `#`, so `_` and backticks pass through untouched |
| `Tool.CleanupHeading` | tool.py:7-8 | a `## ` heading marker is dropped, and the space and heading text after it stay |
| `Tool.CleanupBold` | tool.py:7-8 | `**` bold markers around a text are dropped |
| `Tool.StrippedNonBlank` | tool.py:36 | the comprehension over given pieces yields at most one question per piece, each non-empty and without whitespace at either end |
| `Tool.StrippedNonBlankEmptyIff` | tool.py:36 | the comprehension yields nothing exactly when every piece is all whitespace |
| `Tool.StrippedNonBlankNoBreak` | tool.py:36 | pieces without a line break give questions without a line break |
| `Tool.StripSubset` | tool.py:36 | stripping only removes characters, so no line break can appear in a question |
| `Tool.ParseQuestions` | tool.py:36 | every question is non-empty, trimmed and free of `'\n'`, and there are at most (number of `'\n'`) + 1 questions |
| `Tool.ParseQuestionsEmptyIff` | tool.py:36 | the list is empty exactly when the reply is empty or made only of whitespace and line breaks |
| `Tool.NonBlankPositions` | tool.py:36 | reference selection: the positions of the non-blank pieces, strictly increasing, in range, and containing a position if and only if that piece is not all whitespace |
| `Tool.StrippedNonBlankSelects` | tool.py:36 | the comprehension over any suffix of the pieces yields, in order, the stripped pieces at exactly the non-blank positions |
| `Tool.ParseQuestionsSelects` | tool.py:36 | the questions are, in order, the stripped lines of the reply at exactly the positions of its non-blank lines |
| `Tool.StrippedNonBlankConcat` | tool.py:36 | the comprehension distributes over concatenation of piece lists, so question order follows line order |
| `Tool.StrippedNonBlankTrimmed` | tool.py:36 | pieces that are already trimmed are all kept, one for one, with nothing deduplicated |
| `Tool.StripCarriageReturn` | tool.py:36 | the `'\r'` left at the end of a piece by a `\r\n` line ending is removed by the strip |
| `Tool.SplitTwoLines` | tool.py:36 | two lines that each end in `'\n'` split into the two lines and a final empty piece |
| `Tool.ParseTwoLines` | tool.py:36 | two non-blank lines that each end in `'\n'` give their two stripped forms, and the trailing empty piece is dropped |
| `Tool.ParseQuestionsExample` | tool.py:36 | `"What platform?\nWho are users?\n"` gives `["What platform?", "Who are users?"]` |
| `Tool.ParseQuestionsCrLfExample` | tool.py:36 | the same reply with `\r\n` line endings gives the same two questions |
| `Tool.ParseQuestionsKeepsDuplicates` | tool.py:36 | a question that appears twice in the reply is listed twice |
| `Tool.GenerateSrs` | tool.py:99-105 | for any model reply, the returned document is the reply with `*` and `#` filtered out and everything else in order; it holds no `*` or `#` and is already clean |

## Left out

- Model invocation: `ChatGoogleGenerativeAI`, `ChatPromptTemplate` and
  `StrOutputParser` (tool.py:14, 29-35, 42, 96-102). These are
  nondeterministic foreign calls. Their reply is a parameter instead.
- The writes to `os.environ["GOOGLE_API_KEY"]` (tool.py:13, 41). They
  change process-global state and have no effect on the text logic.
- The prompt template texts (tool.py:16-27, 44-94). They are fixed literals
  that a library fills in, so there is no logic in them to verify.
- The `api_key`, `specialist`, `requirements` and `conversation` parameters.
  They only reach the model call, so `ParseQuestions` and `GenerateSrs` take
  the reply alone.
- An empty question list is not an error. A design description of this
  system calls an empty question list a generation failure. The code
  returns the empty list and raises nothing, and the model follows the
  code: `ParseQuestionsEmptyIff` says exactly when the list is empty.
- app.py and api.py are not part of this model. They hold the Streamlit
  UI, speech recognition, text-to-speech, PDF rendering and HTTP routing.
- A conversation state machine and session store are described for this
  system. No file of the repository implements them, so they are not
  modelled.
- Python strings may contain lone surrogate code points, which Dafny's
  `char` cannot hold.
- `IsSpace` follows the whitespace set of current Python 3 Unicode tables.
  Older tables that differ, such as U+180E before Unicode 6.3, are not
  modelled.
