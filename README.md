# Text counter and spell check, modelled in Dafny

This project models the logic of `script.js`, a browser page with a text box
and two buttons.

- **Counters.** On every edit, `updateStats` shows five counts for the text in
  the box:
  - characters;
  - characters that are not whitespace;
  - words;
  - sentences;
  - non-empty lines.
- **Spell check.** `checkSpelling` trims the text and refuses an empty text or
  one longer than 500 characters. Otherwise it sends the text to an online
  spell checker. It then pulls the JSON payload out of the callback-wrapped
  reply and shows one of three things:
  - a "no errors" message;
  - a numbered list of errata with the corrected text;
  - a fallback message pointing to two other services.
- **Clear.** `clearText` empties the box and recomputes the counters.

The model has four modules:

- `Wrappers` (`wrappers.dfy`) holds the `Option` type.
- `JsString` (`js_string.dfy`) holds the pieces of ECMAScript string handling
  the script relies on:
  - the `\s` class, which is the same set of characters `trim` removes;
  - `trim`;
  - `split` with a one-or-more character-class pattern (`/\s+/`, `/[.!?]+/`),
    which splits at maximal runs, so `""` gives `[""]`;
  - `split` with a one-character string (`'\n'`), which splits at every
    occurrence;
  - `filter`.
- `TextStats` (`text_stats.dfy`) computes the five counters exactly as the
  script does. The second counter is proved equal to the length minus
  `WsCount(s)`, an independent count of whitespace characters. Each of the
  three run counts is proved against an independent reference definition,
  `Segments(s, sep, blank)`. That definition counts the maximal runs of `s`
  that contain no `sep` character and hold at least one character that is
  neither `sep` nor `blank`:
  - words are the runs of non-whitespace;
  - sentences are the runs between `.`, `!` and `?` that hold a
    non-whitespace character;
  - lines are the runs between line feeds.
- `SpellCheck` (`spell_check.dfy`) covers `checkSpelling`:
  - the validation;
  - the regular-expression extraction `/\((.+)\)/`: the leftmost `(` that
    starts a match, then a greedy `.+` that cannot cross a line terminator;
  - the classification of the decoded reply.

  The service and `JSON.parse` are parameters of `CheckSpelling`: `fetch`
  returns a reply or a transport failure, and `decode` returns a decoded
  payload or `None` when parsing fails. The `forEach` that builds the errata
  list is the loop in `ListErrata`.

`script.js` sends one request with at most 500 characters and never retries.
As a worked example, the model proves that "Hello world. How are you?" has
25 characters, 21 of them non-space, 5 words, 2 sentences and 1 line.

## Model

| member | source | states |
|---|---|---|
| JsString.Leading | script.js:26 | `trim` drops exactly the leading whitespace: every dropped character is whitespace and the next one is not |
| JsString.TrimmedEnd | script.js:26 | the end of the trimmed text: everything after it is whitespace and the last character kept is not |
| JsString.Trim | script.js:26 | the result is a slice of the input; only whitespace is dropped at either end; the first and last kept characters are not whitespace; the result is empty exactly when the input is all whitespace |
| JsString.FindFirst | script.js:26 | the first separator of the text, or its length when it has none |
| JsString.Span | script.js:26 | the length of the separator run a greedy `C+` consumes at the front |
| JsString.WhitespaceIsStandard | script.js:22 | `\s` is exactly ECMAScript WhiteSpace and LineTerminator, and `.` stops at exactly the four line terminators |
| JsString.SplitRuns | script.js:26 | `split(/C+/)` returns at least one piece; every piece but the first and the last is non-empty, and the first is non-empty when the text starts with a non-separator |
| JsString.RunMatches | script.js:26 | the texts `C+` matches: one fewer than the pieces, each a non-empty run of separators |
| JsString.SplitRunsJoin | script.js:26 | the pieces with the matched separator runs put back between them are the text |
| JsString.SplitRunsSepFree | script.js:26 | no piece of `split(/C+/)` holds a separator |
| JsString.IndexOf | script.js:34 | the first occurrence of a character: none before it, the character at it |
| JsString.SplitOn | script.js:34 | `split(c)` returns at least one piece, and joining the pieces with `c` gives back the text |
| JsString.SplitOnCount | script.js:34 | `split(c)` returns one more piece than there are occurrences of `c` |
| JsString.SplitOnPieces | script.js:34 | no piece of `split(c)` contains `c` |
| JsString.Keeps | script.js:26-34 | the three filter tests: `length > 0` keeps exactly the non-empty pieces, `trim().length > 0` exactly the pieces with a non-whitespace character |
| JsString.Filter | script.js:26 | `filter` never lengthens the list; which pieces it keeps, how often and in what order is stated by `FilterMembers`, `FilterCounts` and `FilterAppend` |
| JsString.FilterMembers | script.js:26 | `filter` keeps exactly the pieces that pass its test |
| JsString.FilterCounts | script.js:26 | a piece that passes is kept as often as it occurs, one that fails not at all |
| JsString.FilterAppend | script.js:26 | filtering a concatenation filters each part and keeps the order |
| TextStats.RemoveWs | script.js:22 | `replace(/\s/g, '')` is never longer than its input |
| TextStats.RemoveWsMembers | script.js:22 | a character is left exactly when it is in the text and is not whitespace |
| TextStats.RemoveWsAppend | script.js:22 | deleting whitespace distributes over concatenation |
| TextStats.RemoveWsLength | script.js:22 | deleting whitespace leaves the length minus the number of whitespace characters |
| TextStats.NonSpaceChars | script.js:22-23 | the second counter is the length minus the number of whitespace characters |
| TextStats.WordCount | script.js:26-27 | the word count is the number of maximal runs of non-whitespace |
| TextStats.SentenceCount | script.js:30-31 | the sentence count is the number of maximal runs free of `.!?` that hold a non-whitespace character |
| TextStats.LineCount | script.js:34-35 | the line count is the number of maximal runs free of line feeds, so lines of spaces count and empty lines do not |
| TextStats.Stats | script.js:15-36 | the five counters, each equal to its reference definition: length, length minus whitespace, and the three run counts |
| TextStats.SplitRunsCount | script.js:26-30 | filtering the pieces of `split(/C+/)` with the script's test leaves one piece per counted run |
| TextStats.SegmentsTrim | script.js:26 | trimming before splitting on `\s+` changes no run |
| TextStats.SegmentsZeroIff | script.js:26-34 | no run is counted exactly when the text has no counted character |
| TextStats.LineSplitCount | script.js:34 | the non-empty pieces of `split('\n')` are the maximal runs free of line feeds |
| TextStats.RunsBelowNonSpace | script.js:22-26 | there are no more words than non-space characters |
| TextStats.CountsOrdered | script.js:19-27 | words <= non-space characters <= characters |
| TextStats.NoWordsIffBlank | script.js:26 | the word count is 0 exactly when the text is all whitespace |
| TextStats.NoSentencesIffPunctuation | script.js:30 | the sentence count is 0 exactly when every character is whitespace or one of `.!?` |
| TextStats.OneSentenceWithoutTerminator | script.js:30 | a text with a non-space character and no `.!?` is one sentence |
| TextStats.OneLineWithoutNewline | script.js:34 | a non-empty text without a line feed is one line, even when it is all spaces |
| TextStats.LinesBound | script.js:34 | the line count is at most one more than the number of line feeds |
| TextStats.ClearedCountersAreZero | script.js:121-124 | after clearing, all five counters are 0 |
| TextStats.SampleLengthAndLines | script.js:19-35 | "Hello world. How are you?" has 25 characters and 1 line |
| TextStats.SampleNonSpace | script.js:22-23 | ... and 21 characters that are not whitespace |
| TextStats.SampleWords | script.js:26-27 | ... and 5 words |
| TextStats.SampleSentences | script.js:30-31 | ... and 2 sentences |
| SpellCheck.LineEnd | script.js:67 | where `.` stops matching: no line terminator before it, one at it |
| SpellCheck.LastClose | script.js:67 | the last `)` in a range, or none |
| SpellCheck.MatchEnd | script.js:67 | a match starting at `i` starts with `(` and ends with a `)` at least two characters on |
| SpellCheck.MatchEndGreedy | script.js:67 | the match found at `i` is a match of `\((.+)\)` and no longer match starts at `i` |
| SpellCheck.MatchEndComplete | script.js:67 | when any match starts at `i`, one is found, and it is at least as long |
| SpellCheck.FirstOpen | script.js:67 | the leftmost position where a match starts: matches start there and nowhere before |
| SpellCheck.ExtractPayload | script.js:67-72 | the captured group is non-empty and holds no line terminator |
| SpellCheck.LeftmostLongest | script.js:67-70 | the group is `None` exactly when the reply has no match; otherwise it is the group of the leftmost match, taken at its longest |
| SpellCheck.CapturedGroupIsWrapped | script.js:67-72 | the group occurs in the reply between a `(` and a `)` |
| SpellCheck.ExtractFromCallback | script.js:61-72 | a reply `name(payload)tail` with no `(` in the name and no `)` in the tail yields exactly the payload when the payload is one non-empty line |
| SpellCheck.NoWrapperFallsBack | script.js:67-70 | a reply with no match shows the fallback |
| SpellCheck.HelpText | script.js:93 | `error.help || ''`: the help text when there is one, otherwise the empty string |
| SpellCheck.NumberErrata | script.js:83-97 | entry k of the errata becomes item k + 1 with its original word, candidate and help text (`''` when absent) |
| SpellCheck.ListErrata | script.js:83-97 | the loop builds the same numbered list |
| SpellCheck.ResultOf | script.js:74-75 | there is a result exactly when the payload parsed, has a `message`, and that message has a `result` |
| SpellCheck.Respond | script.js:64-117 | a reply never leads to a validation message; an error list never comes with a reported count of 0, and its items are numbered 1, 2, ... in order |
| SpellCheck.FallbackIffFailure | script.js:64-117 | the fallback is shown exactly when the request fails, the reply has no match, `message.result` is missing, or errors are reported without a walkable `errata` |
| SpellCheck.NoErrorsIffZeroCount | script.js:74-78 | the no-errors message is shown exactly when a result arrives with `errata_count` equal to 0 |
| SpellCheck.ErrataNumberedInOrder | script.js:79-101 | an errata list is shown only for a non-zero count; it reports `errata_count`, has one item per entry, numbered from 1 in the service's order, each with its original word, candidate and help text, and is followed by `result.html` |
| SpellCheck.CheckSpelling | script.js:39-118 | an empty trimmed text gives the enter-text message and sends nothing; more than 500 characters gives the warning and sends nothing (500 itself is sent); otherwise the trimmed text is sent and the outcome is that of the reply |

## Left out

- DOM lookups, event wiring and the initial call (script.js:1-12, 127-133) are wiring, not logic.
- The counters' `toLocaleString` formatting and all HTML markup are presentation. The model returns the numbers and the structured outcome.
- `text.length` counts UTF-16 code units, and the model counts Dafny `char`s, which are Unicode scalar values. A character outside the Basic Multilingual Plane counts 2 in the script and 1 here.
- The loading message (script.js:52) is not modelled, because every outcome overwrites it.
- The request body's encoding (`encodeURIComponent`, the fixed callback name, script.js:56-62) is not modelled. `CheckSpelling` records the text it sends.
- The network and `response.text()` are the `fetch` parameter.
- `JSON.parse` is the `decode` parameter. The decoder also settles the shapes the script meets at run time:
  - a parse exception, a missing or falsy `message`, and a missing or falsy `result` are `None`;
  - an `errata_count` that is not a number is `None`;
  - an `errata` that is not an array is `None`, since `forEach` throws and the fallback is shown;
  - an `errata` array holding `null` is `None` as well, since reading `error.orgStr` throws and the fallback is shown;
  - the entries' `orgStr` and `candWord` are strings, so a non-null primitive entry or an object without these fields, which the script renders as "undefined", is folded into `Erratum` strings and not distinguished;
  - `result.html` is a string, so an absent one, which the script would render as "undefined", is not distinguished.
- `console.error` (script.js:108) is a log with no effect on the page.
- `clearText` also empties the box and the result area (script.js:122, 124). Only the recomputed counters are modelled.
- Overlapping clicks while a request is in flight are not modelled. Each call of `CheckSpelling` is independent.

