# hrbot search handler and conversation counter, in Dafny

A model of the data handling inside the Teams bot of
`AgentsToolkitProjects/hrbot/teamsBot.js`: the `/search_candidates` handler
(query extraction, shaping of the search service's results into one text
entry per candidate, and the packing of those entries into chat messages of
at most 3800 UTF-16 code units) and the conversation counter kept by `/reset`,
`/count` and the echo handler.

Files (one module each):

- `wrappers.dfy` — `Wrappers.Option`, standing for JavaScript's
  `undefined`/`null` and for `??`.
- `text.dfy` — `Text`: the JavaScript string operations the handler relies on,
  written character by character: `\s`, `trim`, ASCII case-insensitive
  comparison (what a `/i` regex without the `u` flag does with an ASCII
  pattern), `indexOf`, `replace` with a string pattern (first occurrence
  only), `join`, and `split(/\s+/)` with its empty first/last pieces.
- `chunking.dfy` — `Chunking`: the chunking loop. `Groups` says which entries
  share a message and `Render` how a message is spelled; the method
  `ChunkMessages` is the loop over strings, proved to emit
  `RenderAll(Groups(entries))`.
- `search.dfy` — `Search`: query extraction, employee ID, display name,
  snippet, entry formatting, the top-20 slice and the handler as a whole.
- `counter.dfy` — `Counter`: the counter as a state machine over
  `ConversationState(count: Option<nat>)`.

A `char` is a Unicode scalar value. JavaScript's `length`, which the
chunking loop compares with 3800, counts UTF-16 code units; `Text.JsLength`
computes it, counting a character outside the Basic Multilingual Plane (an
emoji, say) as two. The fixed message texts are reproduced code point by code
point as the file spells them.

Behaviour of the code that the model keeps exactly:

- The chunk limit is not absolute. An entry that does not fit into the
  current chunk starts a new chunk on its own, whatever its length, so a
  single entry longer than 3800 code units is sent as a message longer
  than 3800.
- The first chunk is grown from the empty string, so it begins with a blank
  line. If the very first entry is longer than 3798 code units, an empty
  first message is sent.
- The employee ID removes the first `.txt` wherever it occurs (`"a.txtb"`
  gives `"ab"`).
- The display name is trimmed after matching, so `name= ,` yields an empty
  name rather than `"Unknown"`.
- The profile lookup of lines 100-101 runs outside the `try` of lines
  90-98. A text that parses to `null`, or that lists a `null` profile,
  makes it throw; the whole search then answers with the single error
  message of line 134, like a result without a file name or text.

## Model

| member | source | states |
|---|---|---|
| `Text.IsSpace` | AgentsToolkitProjects/hrbot/teamsBot.js:52 | the `\s` class of ECMAScript; every whitespace character is a single UTF-16 code unit |
| `Text.JsLengthConcat` | AgentsToolkitProjects/hrbot/teamsBot.js:119 | `length` of a concatenation is the sum of the lengths, as the test `(currentChunk + "\n\n" + entry).length` relies on |
| `Text.JsLengthBmp` | AgentsToolkitProjects/hrbot/teamsBot.js:119 | for text inside the Basic Multilingual Plane (the separator `"\n\n"`) `length` counts characters |
| `Text.Trim` | AgentsToolkitProjects/hrbot/teamsBot.js:52 | the result is the slice of the input that is left once all whitespace is stripped from both ends; it is empty exactly when the input is all whitespace |
| `Text.TrimUnique` | AgentsToolkitProjects/hrbot/teamsBot.js:83 | any slice with only whitespace outside it and no whitespace at its ends is exactly what `trim` returns |
| `Text.TrimAfterSkip` | AgentsToolkitProjects/hrbot/teamsBot.js:52 | removing the whitespace after the command before trimming changes nothing: the query is the trim of the whole rest of the message |
| `Text.IndexOf` | AgentsToolkitProjects/hrbot/teamsBot.js:77 | `indexOf` finds an occurrence of the pattern with none before it, and reports none exactly when the pattern occurs nowhere |
| `Text.ReplaceFirst` | AgentsToolkitProjects/hrbot/teamsBot.js:77 | without an occurrence the string is returned unchanged; with one, exactly the pattern's length is exchanged for the replacement's |
| `Text.ReplaceAbsent` | AgentsToolkitProjects/hrbot/teamsBot.js:77 | a string in which the pattern occurs nowhere is returned unchanged |
| `Text.ReplaceLeftmost` | AgentsToolkitProjects/hrbot/teamsBot.js:77 | `pre + pat + post` with no occurrence starting inside `pre` becomes `pre + rep + post`: only the leftmost occurrence is replaced, and what follows it is kept as it is |
| `Text.JoinWith` | AgentsToolkitProjects/hrbot/teamsBot.js:86 | `join` begins with the first piece |
| `Text.JoinSpaceCount` | AgentsToolkitProjects/hrbot/teamsBot.js:86 | whitespace-free pieces joined by `" "` give a text with exactly one space fewer than there are pieces |
| `Text.JoinPrefixSep` | AgentsToolkitProjects/hrbot/teamsBot.js:86 | the join of the first n pieces, followed by the separator, begins the join of all of them |
| `Text.SplitOnSpaces` | AgentsToolkitProjects/hrbot/teamsBot.js:86 | `split(/\s+/)` gives at least one piece, and no piece contains whitespace |
| `Text.SplitPiecesNonEmpty` | AgentsToolkitProjects/hrbot/teamsBot.js:86 | only the first and the last piece of `split(/\s+/)` can be empty, and the first is non-empty when the text starts with a non-space |
| `Text.SplitJoinCollapses` | AgentsToolkitProjects/hrbot/teamsBot.js:86 | `split(/\s+/)` then `join(" ")` gives the text with every whitespace run collapsed to one space, every other character kept in order |
| `Search.HasCommandPrefix` | AgentsToolkitProjects/hrbot/teamsBot.js:52 | a message matching `/^\/search_candidates\s+/i` is longer than the command, equals it letter by letter ignoring ASCII case, and has whitespace right after it |
| `Search.StripCommand` | AgentsToolkitProjects/hrbot/teamsBot.js:52 | the command (any case) and all whitespace after it are removed, leaving a suffix that does not start with whitespace; text without the prefix is untouched |
| `Search.ExtractQuery` | AgentsToolkitProjects/hrbot/teamsBot.js:52-54 | the query is the text after the command prefix, trimmed; it is empty exactly when that text is all whitespace, and never starts or ends with whitespace |
| `Search.HandleSearch` | AgentsToolkitProjects/hrbot/teamsBot.js:51-135 | a request is made exactly when the query is non-empty, and it carries that query; an empty query sends exactly the validation message; once a request is made the reply to the service's answer is sent; a failed request sends exactly one error message with the upstream detail; every path sends at least one message |
| `Search.ReplyTo` | AgentsToolkitProjects/hrbot/teamsBot.js:67-135 | at least one message is always sent; a failed call sends exactly the error message with its detail; an answer without results, or with none, sends exactly the no-candidates message; a result among the first 20 that cannot be formatted makes the reply exactly the one error message, so no partial results are sent |
| `Search.EmployeeId` | AgentsToolkitProjects/hrbot/teamsBot.js:77 | a file name without `.txt` is kept; otherwise exactly the four characters of one `.txt` are removed |
| `Search.EmployeeIdWithoutSuffix` | AgentsToolkitProjects/hrbot/teamsBot.js:77 | a file name containing no `.txt` is its own employee ID |
| `Search.EmployeeIdRemovesFirst` | AgentsToolkitProjects/hrbot/teamsBot.js:77 | a file name `pre + ".txt" + post` with no `.txt` starting inside `pre` has the ID `pre + post`: the first `.txt` is cut out wherever it stands, later ones are kept |
| `Search.FirstNameMatch` | AgentsToolkitProjects/hrbot/teamsBot.js:81 | the regex scan finds the leftmost index where `name=` (any case) is followed by a character other than `,` or `}`, or reports that there is none |
| `Search.NameRunLength` | AgentsToolkitProjects/hrbot/teamsBot.js:81 | the greedy `[^,}]+` takes the maximal run of characters other than `,` and `}` |
| `Search.ExtractName` | AgentsToolkitProjects/hrbot/teamsBot.js:80-84 | the name never contains `,` or `}`; with no match it is `"Unknown"`; extraction never fails |
| `Search.ExtractNameSpec` | AgentsToolkitProjects/hrbot/teamsBot.js:80-84 | with a match at `i`, leftmost, the name is the trimmed maximal run of characters other than `,` and `}` after the key, and that run is non-empty |
| `Search.BlankNameIsEmpty` | AgentsToolkitProjects/hrbot/teamsBot.js:82-83 | `name=` followed by nothing but whitespace and then a comma gives the empty name, not `"Unknown"` |
| `Search.Snippet` | AgentsToolkitProjects/hrbot/teamsBot.js:86 | the snippet ends in `" ..."` and the text before it holds fewer than ten spaces, so at most ten words are kept |
| `Search.SnippetSpec` | AgentsToolkitProjects/hrbot/teamsBot.js:86 | the snippet is a prefix of the whitespace-collapsed text followed by `" ..."`: the whole collapsed text when it has at most ten words, and otherwise exactly the part before its tenth space, which holds nine spaces |
| `Search.KeepFirstWords` | AgentsToolkitProjects/hrbot/teamsBot.js:86 | keeping the first n of more whitespace-free words gives a text that, followed by a space, begins the join of all words, and holds n - 1 spaces |
| `Search.ScoreLine` | AgentsToolkitProjects/hrbot/teamsBot.js:107-109 | a score line names its score kind and ends with the printed score, or `N/A` when it is missing, and a newline |
| `Search.EntryBody` | AgentsToolkitProjects/hrbot/teamsBot.js:104-111 | an entry shows the name in bold first, and ends with the profile links when there are any and with the snippet's closing backtick and newline when there are none |
| `Search.FormatEntry` | AgentsToolkitProjects/hrbot/teamsBot.js:76-113 | an entry is produced exactly when the result has a file name and a text and the profile lookup of lines 100-101 does not throw (otherwise the `TypeError` path); it is non-empty and begins with the person icon |
| `Search.MapOrThrow` | AgentsToolkitProjects/hrbot/teamsBot.js:76 | mapping succeeds exactly when every element formats; then it has one entry per result, each the formatting of the result at the same index |
| `Search.TopResults` | AgentsToolkitProjects/hrbot/teamsBot.js:74 | the kept results are a prefix of the results of length min(n, 20) |
| `Search.ShapeResults` | AgentsToolkitProjects/hrbot/teamsBot.js:74-113 | when shaping succeeds there are exactly min(n, 20) entries, entry i the formatting of result i |
| `Search.ShapeResultsSpec` | AgentsToolkitProjects/hrbot/teamsBot.js:74-113 | shaping succeeds exactly when every one of the first 20 results can be formatted |
| `Search.ShapeIgnoresRest` | AgentsToolkitProjects/hrbot/teamsBot.js:74 | with at least 20 results, appending more results changes nothing |
| `Search.SuccessfulSearchChunks` | AgentsToolkitProjects/hrbot/teamsBot.js:67-130 | the reply to a non-empty list whose first 20 results can be formatted is the chunks of the min(n, 20) formatted entries, entry i formatting result i |
| `Search.SuccessfulSearch` | AgentsToolkitProjects/hrbot/teamsBot.js:74-130 | the reply's messages joined by a blank line spell, behind one leading blank line, the formatted entries of the first 20 results joined by a blank line |
| `Search.SuccessfulSearchStarts` | AgentsToolkitProjects/hrbot/teamsBot.js:116-126 | only the reply's first message starts with the blank line (or is empty); every later message starts with an entry's icon |
| `Chunking.ChunkMessages` | AgentsToolkitProjects/hrbot/teamsBot.js:116-126 | the loop emits the rendering of `Groups`: no entries, no messages; a message over 3800 UTF-16 code units is one entry opening a later chunk; the first message is empty exactly when the first entry exceeds 3798 code units; the messages rejoin to the entries |
| `Chunking.Groups` | AgentsToolkitProjects/hrbot/teamsBot.js:116-126 | the grouping the loop performs is well shaped: every chunk but the first holds an entry, every chunk fits within 3800 code units or is one single entry, and a chunk was closed only because the next entry would not fit |
| `Chunking.GroupsSpec` | AgentsToolkitProjects/hrbot/teamsBot.js:116-126 | the grouping keeps every entry once and in order (a final empty entry starting its own chunk excepted), only the first group can be empty, and it is empty exactly when the first entry is longer than 3798 code units |
| `Chunking.GroupFromWellGrouped` | AgentsToolkitProjects/hrbot/teamsBot.js:118-126 | every chunk built by appending stays within 3800 code units, a chunk over 3800 is a single entry, and a chunk is closed only because the next entry would not fit |
| `Chunking.GroupFromFlatten` | AgentsToolkitProjects/hrbot/teamsBot.js:118-126 | the loop loses no entry and reorders none, the lone exception being a trailing empty entry whose chunk renders as "" |
| `Chunking.GroupFromKeeps` | AgentsToolkitProjects/hrbot/teamsBot.js:118-126 | emitted chunks are never taken back, the current chunk only grows, and a non-empty current chunk is eventually emitted |
| `Chunking.ChunkBounds` | AgentsToolkitProjects/hrbot/teamsBot.js:119-121 | no entries gives no messages; every message is within 3800 code units unless it is a later message consisting of one single entry |
| `Chunking.FirstGroup` | AgentsToolkitProjects/hrbot/teamsBot.js:117-123 | the first group exists for any entries and is empty exactly when the first entry is longer than 3798 code units |
| `Chunking.LaterChunksStartWith` | AgentsToolkitProjects/hrbot/teamsBot.js:119-123 | when every entry starts with a given text, so does every message after the first |
| `Chunking.ChunkStarts` | AgentsToolkitProjects/hrbot/teamsBot.js:117-123 | the first message is empty exactly when the first entry exceeds 3798 code units and otherwise starts with a blank line; later messages start with an entry |
| `Chunking.ChunksRejoin` | AgentsToolkitProjects/hrbot/teamsBot.js:116-126 | joined by a blank line the messages give a blank line followed by the entries joined by a blank line |
| `Chunking.ChunkFacts` | AgentsToolkitProjects/hrbot/teamsBot.js:116-126 | the chunk-level promises of the three lemmas above, stated of the message texts |
| `Counter.Step` | AgentsToolkitProjects/hrbot/teamsBot.js:152-155 | one handler call (the echo here, `/reset` and `/count` of lines 19-28 alike) moves the counter as the independent count `Expected` says, only `/count` reports the count, and an echo reports the count it stores |
| `Counter.RunCount` | AgentsToolkitProjects/hrbot/teamsBot.js:152-155 | after any sequence of commands the counter equals the number of echoes since the last reset (plus the starting count when there was none), `/count` leaving it alone |
| `Counter.CountsChangeNothing` | AgentsToolkitProjects/hrbot/teamsBot.js:25-28 | `/count` is read-only: deleting every `/count` from a conversation leaves the final state as it was and removes exactly the replies to the queries, the other replies staying in order |
| `Counter.ResetThenCount` | AgentsToolkitProjects/hrbot/teamsBot.js:19-28 | after `/reset`, `/count` reports 0, from any state |
| `Counter.EchoesCount` | AgentsToolkitProjects/hrbot/teamsBot.js:152-155 | k echoes report the counts c+1, ..., c+k in order and leave the counter at c+k |
| `Counter.ThreeEchoesAfterReset` | AgentsToolkitProjects/hrbot/teamsBot.js:152-155 | three echoes after a reset report 1, 2 and 3 |
| `Counter.Decimal` | AgentsToolkitProjects/hrbot/teamsBot.js:27 | the printed count is a non-empty string of decimal digits without a leading zero |
| `Counter.DecimalRoundTrip` | AgentsToolkitProjects/hrbot/teamsBot.js:155 | reading the printed count back gives the count |

## Left out

- The HTTP request (lines 60-65): the endpoint, headers and 10-second timeout
  are I/O. The service's answer, or the failure of the call, is the input
  `Search.Response`, consulted only when a request is made.
- The choice of error detail `error.response?.data || error.message` (line
  133) depends on the shape of the HTTP library's error object; the detail is
  an opaque string carried by `Response.Failed`.
- The wording of the `TypeError` raised for a result without a string
  `filename` or `text`, or by the profile lookup, belongs to the JavaScript
  engine; it is the opaque constant `TypeErrorDetail`. A `null` element of
  `results` throws like a result without a `filename` and is represented as
  one. A `results` value that is not an array is not modelled.
- A failure of `sendActivity` part-way through sending the chunks (lines
  128-130), which would leave some chunks sent before the error message, is
  transport behaviour and not modelled.
- The social-profiles heuristic (lines 88-102) feeds a regex rewrite to
  `JSON.parse`; it is the function parameter `profiles`, from a result's text
  to `Some(links)` (the joined links, "" for none) or to `None` when line 100
  or 101 throws.
- The scores are printed by JavaScript's number-to-string conversion; they
  are kept as the already-printed optional strings of `SearchResult`.
- Handler registration and dispatch order (lines 13-16, 159-169), the
  `/diag`, `/state` and `/runtime` commands (lines 31-49) and the greeting
  (lines 145-149) belong to the hosting framework or print its objects; they
  have no behaviour to state here. `state.load` and the storage are likewise
  external.
- Chunking.ChunkMessages: a JavaScript string may hold an unpaired
  surrogate, which no `string` of the model can, since a `char` is a Unicode
  scalar value; every other text has its `length` computed exactly by
  `JsLength`.
- `Counter.ReplyText` fixes the messages' wording but no property is
  stated about it beyond `Counter.DecimalRoundTrip`; a `count` field holding a
  non-number is not modelled.
