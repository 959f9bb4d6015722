# Text to SQL: prompt building and reply splitting

A Dafny model of the text handling in the Text to SQL app (`app.py`). The app
turns a natural-language question, plus an optional database schema, into a
prompt for a chat-completion model. It then splits the model's reply into an
explanation and a SQL fragment at the marker `SQL Query:`. The model covers:

- the prompt builder, `Generation.BuildPrompt`. The schema clause is added only
  when the schema is truthy in Python's sense: neither `None` nor `""`;
- the reply splitter, `Generation.SplitResponse`. It does what
  `rsplit('SQL Query:', 1)` does when `'SQL Query:' in reply`, and otherwise
  keeps the whole reply as explanation. Both parts are then put through
  `strip()`. The Python built-ins it uses are modelled in module `Text`:
  `in`, `rsplit(sep, 1)` through a right-to-left search, and `strip()`;
- `generate_sql_query` as a whole, `Generation.GenerateSqlQuery`. The
  completion endpoint becomes a function parameter `complete` from prompt to
  reply;
- the canned examples, `Examples.ExampleAt`. The index stands for the choice
  `random.choice` makes;
- the empty-input guard of `handle_query_submission`, `Submission.Submit` and
  `Submission.HandleSubmission`.

`strip()` is modelled with Python 3's whole whitespace set, not only the ASCII
one. That set is U+0009 to U+000D, U+001C to U+0020, U+0085, U+00A0, U+1680,
U+2000 to U+200A, U+2028, U+2029, U+202F, U+205F and U+3000. It follows the
Unicode database that CPython ships.

Files: `wrappers.dfy` (Option), `text.dfy` (module Text), `generation.dfy`
(module Generation), `examples.dfy` (module Examples), `submission.dfy`
(module Submission).

## Model

| member | source | states |
|---|---|---|
| Generation.BuildPrompt | app.py:18-20 | the prompt starts with the fixed request text, then holds the question verbatim, closed by a quote; with a truthy schema the rest is exactly the schema clause followed by the schema, and with `None` or `""` there is nothing after the quote |
| Generation.PromptDeterminesSchema | app.py:19-20 | for one question, two schemas give the same prompt if and only if they agree after `""` is identified with `None` |
| Generation.PromptNotInjective | app.py:18-20 | the question is interpolated without escaping: the question `q + "'" + clause + s` with no schema gives the same prompt as the question `q` with the schema `s + "'"` |
| Generation.SplitResponse | app.py:29-30 | both parts are stripped; without the marker the result is the stripped reply and `""`; with it, the parts are the stripped text before and after the rightmost occurrence |
| Generation.SplitAtLastMarker | app.py:29-30 | for any reply of the form `before + "SQL Query:" + after` with no marker in `after`, the result is `(strip(before), strip(after))`, whatever `before` holds |
| Generation.SplitReconstructs | app.py:29 | a reply with the marker is `before + marker + after` at the cut the splitter uses, with no marker in `after` |
| Generation.SplitKeepsEarlierMarkers | app.py:29 | a marker inside the explanation stays in the explanation; only the last one separates the SQL |
| Generation.SqlHasNoMarker | app.py:29-30 | the SQL part never contains the marker |
| Generation.MarkerHeadUnique | app.py:29 | the marker's first character does not recur in it, so two occurrences of it in a reply cannot overlap |
| Generation.GenerateSqlQuery | app.py:16-30 | for every reply the endpoint may give, both returned parts are stripped and the SQL part is free of the marker |
| Text.Strip | app.py:30 | `strip()` returns a slice of its input that neither starts nor ends with whitespace, with only whitespace cut off on either side |
| Text.SkipWhitespace | app.py:30 | the start of the stripped text: only whitespace is skipped, and it stops at the first non-whitespace character or at the end |
| Text.SkipWhitespaceBack | app.py:30 | the end of the stripped text: only whitespace is dropped from the back, and it stops after the last non-whitespace character or at the start |
| Text.StripPadded | app.py:30 | conversely, trimmed text between two runs of whitespace is exactly what `strip()` returns |
| Text.StripIdempotent | app.py:30 | stripping twice is stripping once |
| Text.Contains | app.py:29 | the `in` test is true exactly when the pattern occurs at some index |
| Text.RFindAtOrBefore | app.py:29 | the right-to-left search returns the largest start position, at or before the given one, where the pattern occurs, and `None` when there is none |
| Text.RFind | app.py:29 | the search returns the rightmost occurrence of the pattern, or `None` when it does not occur |
| Text.RSplitOnce | app.py:29 | `rsplit(sep, 1)` gives one part (the text) exactly when `sep` does not occur; otherwise two parts that rebuild the text around `sep` at its rightmost occurrence, and the second part is free of `sep` |
| Text.LastOccurrenceSplits | app.py:29 | cutting at the rightmost occurrence rebuilds the text and leaves a pattern-free tail |
| Text.SplitIsLastOccurrence | app.py:29 | for a pattern whose occurrences cannot overlap, an occurrence followed by pattern-free text is the rightmost one |
| Examples.ExampleAt | app.py:35-42 | each pick is one of the five fixed example questions and is never empty |
| Examples.EveryExampleReachable | app.py:35-42 | every one of the five examples is the pick for some index |
| Examples.ExamplesDistinct | app.py:35-41 | the five examples are pairwise different |
| Submission.Submit | app.py:52-70 | the outcome is the warning if and only if the question is empty; otherwise generation gets the question and the schema unchanged |
| Submission.ExampleAlwaysGenerates | app.py:35-42 | a question filled in from the examples always goes on to generation |
| Submission.HandleSubmission | app.py:52-57 | an empty question gives no result; any other gives what `generate_sql_query` returns for the question and schema |
| Submission.EmptyInputMakesNoCall | app.py:52-70 | with an empty question the result does not depend on the completion endpoint: it is not called |

## Left out

- The OpenAI client, the chat-completion call and the reading of
  `response.choices[0].message.content` (app.py:12, 22-26). This is a network
  call; the model takes the reply as the value of the parameter `complete`. A
  reply of `None` is not modelled, and neither is the exception it or a failed
  call would raise.
- The `except` branch that shows the error (app.py:67-68). It handles
  exceptions from the network call, which is not modelled.
- `load_dotenv` and the API key read from the environment (app.py:9, 12).
  These are configuration I/O.
- `sqlparse.format` (app.py:62). It is a third-party formatter whose code is
  not part of this model.
- The randomness of `random.choice` (app.py:42). The index argument of
  `Examples.ExampleAt` stands for the choice.
- All Streamlit layout and rendering, and the session-state wiring. This
  includes the example button's rerun (app.py:76-82, 131-133) and the spinner.
- The second call of `handle_query_submission` on every render
  (app.py:143-148). It is UI control flow.
- The SQL Server sidebar fields (app.py:90-95) and the `database` parameter of
  `generate_sql_query`. They are never read by any logic.
- Text.RSplitOnce: requires a non-empty separator. Python raises ValueError on
  an empty one. The app's only call passes the ten-character marker.
- Generation.SplitResponse: Unicode whitespace follows one fixed version of the
  Unicode database. A CPython built on a later version could differ.
