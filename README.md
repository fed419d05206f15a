# Issue-summarizer core, modelled in Dafny

The bot this models watches a Slack channel for a trigger message. It
searches a GitHub repository for recently updated open issues and posts
one language-model summary per issue back to the channel. Its
deterministic core lives in `src/lib.rs` and has four parts. This project
models each of them and proves what each one does.

- **`squeeze_fit_remove_quoted`** (module `RemoveQuoted`). It cleans an
  issue post or a comment line by line:
  - lines inside fenced blocks (` ``` ` or `"""`) are dropped, and so are
    the fence lines themselves;
  - words of 150 UTF-8 bytes or more are dropped;
  - the surviving words of each line are joined with single spaces and
    end with a newline;
  - a head/tail "drain" of the word list is then meant to cut posts with
    more than `max_len` words.

  The drain range it computes is always empty (see Findings). So the
  function never drops a word: over the cap it only re-joins the same words
  with single spaces.
- **`squeeze_fit_post_texts`** (module `PostTexts`). It cuts the middle out
  of a text's token list so that `max_len` tokens remain, then decodes what
  is left. Decode failures fall back to the literal `failed to decode tokens`.
- **`custom_json_parser`** and the `GitHubIssueSummary` record (module
  `SummaryParser`). This is a lenient line scanner over the model's JSON-ish
  reply:
  - a quoted key, a colon, then a value of at least 15 bytes that parses
    as JSON, stored in a map where the last write wins;
  - then five independently optional fields filled by typed conversion;
  - the result is always `Some`.
- **The countdown loop of `handler`** (module `Batch`). It sends one message
  per issue. After the tenth it sends a limit notice and stops.

Shared pieces:
- `Text` models the parts of Rust's `str` API the core uses, on strings of
  Unicode scalar values:
  - `char::is_whitespace`, with the full Unicode White_Space set;
  - UTF-8 byte length for `len()`;
  - `lines`, `split_whitespace`, `split`, `join`, `trim`, `trim_matches`,
    `contains`.
- `Budget` models the `f32` split as an exact fraction. It defines the
  floor (`as usize`) and ceiling (`.ceil() as usize`) head counts and the
  "first h, last n - h" slice.
- `Wrappers` holds `Option`.

External calls are parameters of the modelled operations. These are the
tokenizer's `encode_ordinary`/`decode`, `serde_json::from_str`, and
`analyze_issue`. Nothing is assumed about them, with one exception:
`PostTexts.SqueezeFitPostTexts` requires that the head count derived from
`encode_ordinary`'s token count fits the budget (see "Left out"). The Slack
sends of the countdown become the returned sequence of messages, in order.

## Model

| member | source | states |
|---|---|---|
| `RemoveQuoted.SqueezeFitRemoveQuoted` | src/lib.rs:125-173 | At or under the cap the result is the cleaned text itself (each kept line's short words joined by single spaces plus a newline); over the cap it is the same words joined by single spaces; in both cases the result has exactly the cleaned text's words, which are the short words of the kept lines in order |
| `RemoveQuoted.DrainRange` | src/lib.rs:146-162 | For every body length and every head count up to it, the drain start and end both equal the head count, so the drained range is empty |
| `RemoveQuoted.ShortWords` | src/lib.rs:136-140 | Every word kept is shorter than 150 bytes, and a word is kept exactly when it is one of the line's words and shorter than 150 bytes |
| `RemoveQuoted.ShortWordsAppend` | src/lib.rs:137-139 | The word filter distributes over concatenation, so the kept words keep their order and their multiplicity |
| `RemoveQuoted.IsFence` | src/lib.rs:130 | Defines a fence line: one containing three backticks or three double quotes; `FenceLineContributesNothing` and `ClosedFenceRemoved` state what such lines do |
| `RemoveQuoted.InsideQuote` | src/lib.rs:127-133 | Defines the `inside_quote` flag after a run of lines, flipped by each fence line; `InsideQuoteIsOddFences` states it is set exactly after an odd number of fences |
| `RemoveQuoted.KeptAfter` | src/lib.rs:130-135 | Defines when a line is cleaned and appended: it has no fence marker and no fence is open before it; `BodyStep` and `OddFencesDropLine` state what it decides |
| `RemoveQuoted.CleanLine` | src/lib.rs:136-140 | The cleaned line splits back into exactly the line's words shorter than 150 bytes, in order |
| `RemoveQuoted.Cleaned` | src/lib.rs:129-144 | The cleaned text is empty or ends with a newline, and its words are exactly the short words of the kept lines, in order |
| `RemoveQuoted.Body` | src/lib.rs:126-144 | The accumulated body is empty or ends with a newline |
| `RemoveQuoted.BodyWords` | src/lib.rs:135-143 | Every word of the cleaned text is a non-empty whitespace-free word of fewer than 150 bytes |
| `RemoveQuoted.BodyWordsAreWords` | src/lib.rs:146 | Splitting the accumulated body at whitespace gives exactly the short words of the kept lines, line after line |
| `RemoveQuoted.KeptLineWords` | src/lib.rs:141-142 | Appending one cleaned line and its newline to the body appends exactly that line's words |
| `RemoveQuoted.BodyStep` | src/lib.rs:129-143 | One more line appends its cleaned form and a newline when it is no fence and no fence is open, appends nothing otherwise, and a fence line flips the flag |
| `RemoveQuoted.BodyCongruence` | src/lib.rs:129-143 | Two line prefixes with the same body and the same flag give the same body and flag after any common continuation |
| `RemoveQuoted.StepCongruence` | src/lib.rs:129-143 | The same for a single further line |
| `RemoveQuoted.OpenFenceSwallows` | src/lib.rs:130-135 | After an opening fence, lines without a fence add nothing to the body and the flag stays set |
| `RemoveQuoted.UnclosedFenceDropsRest` | src/lib.rs:130-135 | A fence that is never closed drops every later line |
| `RemoveQuoted.ClosedFenceRemoved` | src/lib.rs:130-135 | A fenced block that opens and closes is removed with both fences: the body is the body of the text without it |
| `RemoveQuoted.InsideQuoteIsOddFences` | src/lib.rs:127-133 | The flag is set exactly after an odd number of fence lines |
| `RemoveQuoted.OddFencesDropLine` | src/lib.rs:135 | A line after an odd number of fence lines adds neither text nor words |
| `RemoveQuoted.FenceLineContributesNothing` | src/lib.rs:130-133 | A line containing a fence marker adds neither text nor words |
| `RemoveQuoted.EmptyPostIsEmpty` | src/lib.rs:125-173 | An empty post cleans to the empty text with no words |
| `RemoveQuoted.OverCapKeepsEveryWord` | src/lib.rs:164-167 | As written, a post over the cap comes back with as many words as it had, more than the cap |
| `RemoveQuoted.IntendedWords` | src/lib.rs:148-167 | Corrected drain: over the cap, exactly `max_len` words remain, the first floor(`max_len` × split) words and then the last ones; at or under the cap all words remain |
| `PostTexts.SqueezeFitPostTexts` | src/lib.rs:175-193 | Below the budget the text comes back unchanged; otherwise the result is the decoding of the first ceil(n × split) tokens followed by the last `max_len` minus that many tokens, or `failed to decode tokens` when decoding fails |
| `PostTexts.HeadFits` | src/lib.rs:181-184 | Defines the condition under which `max_len - n_take_from_beginning` does not underflow when the text is cut; `HeadOverflowsBudget` and `CallSiteUnderflow` show the inputs that break it |
| `PostTexts.KeptTokens` | src/lib.rs:183-188 | The kept token list has exactly `max_len` tokens: the first h input tokens at their positions, then the input's last `max_len - h` tokens, and the two spans do not overlap |
| `PostTexts.HeadOverflowsBudget` | src/lib.rs:183-184 | As written, once n × split exceeds `max_len` the head count exceeds `max_len`, so `max_len - n_take_from_beginning` underflows |
| `PostTexts.CallSiteUnderflow` | src/lib.rs:245 | At the call site (12000 tokens, split 0.4) a text of 30001 tokens already underflows |
| `PostTexts.IntendedKeptTokens` | src/lib.rs:183-188 | Corrected head count ceil(`max_len` × split): for every input and every split at most one, below the budget the tokens come back unchanged, otherwise exactly `max_len` tokens remain, head then tail |
| `Budget.FloorOf` | src/lib.rs:148 | A head count floor(n × split) with split at most one is at most n |
| `Budget.CeilOf` | src/lib.rs:183 | A head count ceil(n × split) with split at most one is at most n |
| `Budget.FloorOfBounds` | src/lib.rs:148 | The floor count h is the largest with h × den ≤ n × num, and it is at most n when split ≤ 1 |
| `Budget.CeilOfBounds` | src/lib.rs:183 | The ceiling count h is the smallest with n × num ≤ h × den, and it is at most n when split ≤ 1 |
| `Budget.CeilAtLeast` | src/lib.rs:183 | The ceiling count is at least n × split |
| `Budget.HeadTail` | src/lib.rs:186-188 | The first `head` elements followed by the last `total - head`: exactly `total` long, head and tail as in the input, not overlapping |
| `SummaryParser.KeyValue` | src/lib.rs:354-358 | A line yields a pair exactly when its trimmed form starts with a double quote and it contains a colon; the value is exactly the text after the first colon, and the key is the text before it with quotes and spaces trimmed from both ends |
| `SummaryParser.StartsWithQuote` | src/lib.rs:354 | Defines the test `line.trim().starts_with("\"")`; `KeyValue` and `StrayLineIgnored` state its role |
| `SummaryParser.IsQuoteOrSpace` | src/lib.rs:357 | Defines the closure trimmed off a key; `KeyValue` and `EntryByColon` state the key it leaves |
| `SummaryParser.CustomJsonParser` | src/lib.rs:348-409 | Always returns `Some`, and the record is the one filled from the map left by scanning every line in order |
| `SummaryParser.Entry` | src/lib.rs:354-364 | Defines the pair a line stores, if any; `EntryByColon` states it on the line itself, and `ShortValueIgnored`, `ScannedKeys` and `LastWriteWins` state what it means for the map |
| `SummaryParser.EntryByColon` | src/lib.rs:354-364 | A line stores a pair exactly when its trimmed form starts with a double quote, it has a colon, and the text after the first colon is at least 15 bytes long and parses; the key is then the text before that colon with quotes and spaces trimmed off, and the value is what the parser returned for the text after it |
| `SummaryParser.Stored` | src/lib.rs:349-368 | Defines the map after a sequence of insertions, skipping lines that store nothing; its meaning is stated by `StoredStep`, `ScannedKeys`, `LastWriteWins` and `NothingStored` |
| `SummaryParser.Scanned` | src/lib.rs:349-368 | Defines `parsed_data` after every line of the reply; `ScannedKeys`, `LastWriteWins` and `IgnoredLineKeepsMap` state what it holds |
| `SummaryParser.Fill` | src/lib.rs:370-406 | Defines the record filled from the map, each field from its own key by its own conversion; `FieldsByShape` and `FieldsIndependent` state its properties |
| `SummaryParser.Insert` | src/lib.rs:363 | Defines one `HashMap::insert`, or none for a line that stores nothing; `StoredStep`, `LastWriteWins` and `IgnoredLineKeepsMap` state its effect |
| `SummaryParser.ListField` | src/lib.rs:378-400 | Defines one list field: the `get` of its key followed by `from_value::<Vec<String>>`; `FieldsByShape` and `FieldsIndependent` state its properties |
| `SummaryParser.StoredStep` | src/lib.rs:363 | Each line's entry is inserted into the map left by the lines before it |
| `SummaryParser.ScannedKeys` | src/lib.rs:353-368 | A key is in the map exactly when some line stored a pair under it |
| `SummaryParser.LastWriteWins` | src/lib.rs:363 | The value under a key is the one from the last line that stored that key |
| `SummaryParser.IgnoredLineKeepsMap` | src/lib.rs:354-366 | A line that stores nothing leaves the map unchanged |
| `SummaryParser.NothingStored` | src/lib.rs:349-368 | When no line stores anything the map stays empty |
| `SummaryParser.ShortValueIgnored` | src/lib.rs:360 | A value shorter than 15 bytes is never stored, whatever the JSON parser makes of it |
| `SummaryParser.FieldsByShape` | src/lib.rs:370-406 | Each field is present, with exactly the stored strings, exactly when its key is in the map with an array of strings (a string for the summary field) under it |
| `SummaryParser.FieldsIndependent` | src/lib.rs:378-406 | Storing a value under one key changes at most that key's field |
| `SummaryParser.FieldFromLastLine` | src/lib.rs:363-381 | The principal-arguments field holds exactly the strings of the last line that stored its key, when that value is an array of strings |
| `SummaryParser.StringListRoundTrip` | src/lib.rs:379 | An array of strings converts back to exactly those strings |
| `SummaryParser.StringIsNoList` | src/lib.rs:379 | A plain JSON string does not convert to a list, so a list field with a string under it stays empty |
| `SummaryParser.AsStringList` | src/lib.rs:379 | A successful list conversion came from an array of exactly those strings |
| `SummaryParser.AsString` | src/lib.rs:402-404 | Defines `from_value::<String>` on the JSON value type; `FieldsByShape` states that the summary field is `Some(s)` exactly when a JSON string `s` is stored under its key |
| `SummaryParser.StringItems` | src/lib.rs:379 | The items convert exactly when all of them are strings, and then they are those strings |
| `SummaryParser.ValueAfterColon` | src/lib.rs:355-358 | In a line made of a colon-free key, a colon and a value, the first colon follows the key and the value is the rest |
| `SummaryParser.ShortListLineIgnored` | src/lib.rs:360 | The line `"PrincipalArguments": ["a", "b"]` stores nothing: its value is 11 bytes long |
| `SummaryParser.StrayLineIgnored` | src/lib.rs:354 | The line `SuggestedSolutions: cannot parse this` stores nothing: it does not start with a quote |
| `SummaryParser.TwoLines` | src/lib.rs:352 | Two lines joined by a single line feed split back into those two lines |
| `SummaryParser.ShortListAndStrayLine` | src/lib.rs:348-409 | A reply with the short list line and then the stray line yields a record with every field empty |
| `Batch.ReportIssues` | src/lib.rs:80-101 | With fewer than ten issues, one message per issue in order and no notice; with ten or more, the messages of the first ten in order followed by exactly one limit notice, and nothing for later issues |
| `Batch.IssueMessage` | src/lib.rs:85-91 | Every message ends with the issue's URL |
| `Batch.Messages` | src/lib.rs:82-93 | One message per issue, the i-th built from the i-th issue's analysis and URL |
| `Batch.MessagesStep` | src/lib.rs:93 | One more issue appends its message at the end |
| `Text.Lines` | src/lib.rs:352 | `str::lines` gives no lines exactly for the empty text |
| `Text.IsWhitespace` | src/lib.rs:137 | Defines `char::is_whitespace` as the Unicode White_Space set; `Words` and `Trim` are stated in terms of it |
| `Text.Words` | src/lib.rs:137 | `split_whitespace` yields only non-empty words free of whitespace |
| `Text.ByteLen` | src/lib.rs:360 | `str::len` counts UTF-8 bytes: between one and four per character |
| `Text.Split` | src/lib.rs:355 | `split(':')` gives at least one piece, and two or more exactly when the line has a colon |
| `Text.SplitJoin` | src/lib.rs:355-358 | Joining the pieces of a split with the separator gives back the text |
| `Text.SplitFirstRest` | src/lib.rs:355-358 | The first piece is the text before the first separator, and the remaining pieces joined with it are exactly the text after it |
| `Text.Join` | src/lib.rs:140 | Defines `[&str]::join`; `SplitJoin`, `SplitFirstRest`, `WordsOfJoin` and `WordsOfJoinAlone` state its properties |
| `Text.WordsOfJoin` | src/lib.rs:140 | Words joined with single spaces, followed by text starting with whitespace, split back into those words and then the words of that text |
| `Text.WordsOfJoinAlone` | src/lib.rs:167 | Words joined with single spaces split back into exactly those words |
| `Text.WordsAppend` | src/lib.rs:146 | Text ending in whitespace splits into words independently of what follows it |
| `Text.TrimStart` | src/lib.rs:357 | Trimming from the start removes exactly a prefix of matching characters and stops at a non-matching one |
| `Text.TrimEnd` | src/lib.rs:357 | Trimming from the end removes exactly a suffix of matching characters and stops at a non-matching one |
| `Text.TrimMatches` | src/lib.rs:357 | Defines `trim_matches` as a start trim followed by an end trim; `TrimMatchesSlice` states what it keeps |
| `Text.TrimMatchesSlice` | src/lib.rs:357 | Trimming keeps one contiguous slice of the text that neither starts nor ends with a matching character, and removes only matching characters on either side of it |
| `Text.Trim` | src/lib.rs:354 | Defines `str::trim` as `trim_matches` with the whitespace predicate, so `TrimMatchesSlice` applies to it |
| `Text.StartsWith` | src/lib.rs:354 | Defines `starts_with`: the text begins with the prefix |
| `Text.Contains` | src/lib.rs:130 | Defines `str::contains` with a string pattern; `ContainsAt` and `ContainsWitness` state that it holds exactly when the pattern occurs at some position |
| `Text.ContainsAt` | src/lib.rs:130 | An occurrence of the pattern at any position makes `contains` hold |
| `Text.ContainsWitness` | src/lib.rs:130 | When `contains` holds, the pattern occurs at the position returned |
| `Text.AsciiByteLen` | src/lib.rs:360 | On ASCII text the byte length is the character count |

## Left out

- `run`, the trigger parsing with `Regex` (src/lib.rs:32-47), the `chrono` date arithmetic (66-67), the GitHub search and comment listing, the error messages of `handler`, and all logging. These are I/O and library calls.
- `analyze_issue` (195-337) is a parameter of `Batch.ReportIssues`. That covers its prompt assembly, the OpenAI call, the debug send at 295, the model choice at 254, and the rendering of the record at 298-321, which relies on Rust's `Debug` escaping.
- Floating point: `split` is an exact fraction. Rounding of `f32` products is not modelled, nor are negative or NaN splits, nor counts beyond 2^24 where `f32` loses integers.
- `RemoveQuoted.SqueezeFitRemoveQuoted`: requires floor(`body_len` × split) to be at most `body_len`. Otherwise `body_len - n_take_from_beginning` on line 149 underflows, which panics in debug builds. Every split up to one meets this; above one it fails only once floor(`body_len` × split) exceeds `body_len`. Both call sites (205, 232) pass 0.6.
- `PostTexts.SqueezeFitPostTexts`: requires the head count to fit in `max_len` whenever the text is cut. Otherwise line 184 underflows and the function panics; `PostTexts.HeadOverflowsBudget` shows the inputs where that happens.
- `PostTexts.SqueezeFitPostTexts`: `encode_ordinary` and `decode` are arbitrary functions, because the `cl100k_base` tokenizer is not part of this model. Nothing is claimed about re-encoding the decoded text.
- `SummaryParser.CustomJsonParser`: `serde_json::from_str` is an arbitrary function from text to an optional JSON value. JSON syntax itself is not modelled; the two typed conversions are modelled exactly on that value type.
- `Batch.ReportIssues`: the Slack sends become the returned sequence of messages. Send failures and the asynchronous scheduling are not modelled. Issues are reduced to their number and URL: the loop itself reads only the URL, and the number is there for the analysis, which `analyze_issue` keys on the issue number.
- The record's `Debug`/`Deserialize` derivations are left out; nothing here depends on them.

Three behaviours of the code a reader might not expect:
- over the cap, `squeeze_fit_remove_quoted` does not shorten the text (see Findings);
- with exactly ten issues the limit notice is still sent, right after the tenth message;
- a reply line `"PrincipalArguments": ["a", "b"]` is dropped, because its value is only 11 bytes long (`SummaryParser.ShortListAndStrayLine`).

## Findings

| source | as written | input that shows it | evidently intended | confidence | as-written member | corrected member |
|---|---|---|---|---|---|---|
| src/lib.rs:148-166 | `drain_start` and `drain_end` are both `n_take_from_beginning`, so `drain(drain_start..drain_end)` removes nothing and the word cap is never enforced | any post whose cleaned text has more than `max_len` words, e.g. 501 words at `max_len` 500, split 0.6: 501 words come back | keep the first floor(`max_len` × split) words and the last `max_len` minus that many, dropping the middle | not executed | `RemoveQuoted.OverCapKeepsEveryWord` | `RemoveQuoted.IntendedWords` |
| src/lib.rs:183-184 | the head count is ceil(`input_len` × split), so `max_len - n_take_from_beginning` underflows (a panic) once `input_len` × split exceeds `max_len` | at the call site on line 245 (`max_len` 12000, split 0.4), any text of 30001 or more tokens | take the head share of `max_len`: ceil(`max_len` × split) tokens from the start, the rest from the end | not executed | `PostTexts.HeadOverflowsBudget` | `PostTexts.IntendedKeptTokens` |
