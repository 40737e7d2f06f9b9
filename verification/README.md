# Word counter text metrics, in Dafny

The word counter is a single-page widget (`script.js`). On every edit of its
text box, `updateCounts` recomputes a set of metrics from the text:

- the words: `text.trim().split(/\s+/)`;
- the word count;
- the character count;
- the line count: `text.split(/\r*\n/).length`;
- the unique-word count: `[...new Set(words)]`;
- the reading time at 200 words per minute;
- the keyword counts that `calculateKeywordDensity` builds;
- the ten most frequent words that `calculateTop10Words` returns.

This project models that computation as pure Dafny functions and proves what
the metrics mean.

## How the model is built

- **Strings.** A string is a sequence of UTF-16 code units (`JsText.JsString`),
  because `String.prototype.length` counts code units.
- **Whitespace.** `JsText.IsWs` is the WhiteSpace and LineTerminator set of
  ECMA-262. The `\s` class escape (section 22.2.2.9) and
  `String.prototype.trim` (section 22.1.3.32) share this set.
- **Splitting.** `RegexSplit.Split` follows the splitter loop of
  `RegExp.prototype[@@split]` (ECMA-262, section 22.2.6.14) step by step:
  - a sticky match is tried at each position;
  - a failed match moves on by one code unit;
  - a match closes the current piece.

  `RegexSplit.MatchAt` gives the greedy match length for the two separators
  the widget uses, `/\s+/` and `/\r*\n/`.
- **Blank text.** The tokeniser is modelled literally, quirk included. Trimming
  a blank text (empty or all whitespace) gives `""`, and `"".split(/\s+/)` is
  `[""]`. So every text has at least one word, and the reading time is at
  least one minute. An empty text might be expected to count zero words and
  show "Less than 1 min", and clearing the text to reset every metric to
  zero. The code does neither, and the model follows the code:
  - `Metrics.ReadingTimeAlwaysInMinutes` proves the 'Less than 1 min' branch
    can never be taken;
  - `Metrics.ClearedTextMetrics` gives the metrics after a clear: one word,
    one unique word, one line and one minute.
- **Counting.** Both counting loops (lines 60-66 and 91-94) build the same
  map, so one function models them: `Frequency.KeywordCounts`.
- **Sorting.** The keys are taken in first-occurrence order. They are sorted
  by a stable insertion sort (`TopWords.SortByFrequency`), because
  `Array.prototype.sort` has been stable since ECMAScript 2019.

## Model

| member | source | states |
|---|---|---|
| JsText.TrimStartSpec | script.js:28 | the leading-whitespace half of `trim` leaves a suffix of the text that is empty or starts with non-whitespace, and everything it dropped is whitespace |
| JsText.TrimEndSpec | script.js:28 | the trailing half of `trim` leaves a prefix that is empty or ends with non-whitespace, and everything it dropped is whitespace |
| JsText.TrimSpec | script.js:28 | `trim` gives the empty string exactly when the text is all whitespace; otherwise the result starts and ends with non-whitespace; it keeps every non-whitespace code unit in order |
| JsText.TrimMargins | script.js:28 | the text is the trimmed text between two all-whitespace margins |
| JsText.TrimFramed | script.js:28 | trimming any whitespace-framed body that starts and ends with non-whitespace gives that body back (the inverse of `TrimMargins`) |
| RegexSplit.WsRunMatch | script.js:28 | `/\s+/` at a position matches the maximal whitespace run there, and matches at all exactly when the position holds whitespace |
| RegexSplit.CrLfMatch | script.js:37 | a match of `/\r*\n/` is CRs followed by one LF; when there is no match at a position, no LF after it is reached through CRs alone |
| RegexSplit.Split | script.js:28-37 | `split` with a RegExp separator and no limit always returns at least one piece |
| Words.Tokens | script.js:28-29 | the word list is never empty, so the word count is at least 1 |
| Words.TokensOfText | script.js:28-29 | no word contains whitespace; a blank text gives exactly `[""]` and a non-blank one gives no empty word; the words glued together are the text's non-whitespace code units in order |
| Words.TokensReweave | script.js:28 | the text is recovered from its words and the non-empty whitespace runs that tokenising dropped between them, plus the trimmed margins |
| Words.TokensRoundTrip | script.js:28 | tokenising non-empty whitespace-free words, joined by non-empty whitespace runs and framed by whitespace margins, gives back exactly those words |
| Lines.SplitLines | script.js:37 | splitting into lines always gives at least one line |
| Lines.LinesOfText | script.js:37 | the line count is the number of LFs plus one; no line holds an LF; joining the lines with LF gives the text back up to CRs |
| Lines.StrayCarriageReturn | script.js:37 | inserting a CR anywhere does not change the line count |
| Lines.LineCountIgnoresCarriageReturns | script.js:37 | removing every CR does not change the line count |
| Lines.LinesRoundTrip | script.js:37 | lines that hold no LF, none but the last ending in CR, come back unchanged from splitting their LF-join |
| Frequency.Distinct | script.js:41-42 | the unique words are exactly the words, each once, and no more of them than there are words |
| Frequency.KeywordCounts | script.js:60-66 | the keys are exactly the words, and each key maps to its number of occurrences (at least 1) |
| Frequency.UniqueWordCountIsKeyCount | script.js:41-42 | the unique-word count equals the number of keys of the count map, and lies between 1 and the word count when there is a word |
| Frequency.KeysAreWords | script.js:60-65 | the key set of the count map is the set of words |
| Frequency.CountsSumToWordCount | script.js:60-65 | the counts add up to the number of words |
| TopWords.InsertByFrequency | script.js:96 | one insertion step keeps the words and adds the inserted one (multiset equation) |
| TopWords.InsertKeepsRanked | script.js:96 | inserting into a list with non-increasing counts keeps the counts non-increasing |
| TopWords.SortByFrequency | script.js:96 | the sorted keys are a permutation of the keys |
| TopWords.SortByFrequencyRanks | script.js:96 | the counts along the sorted keys do not increase |
| TopWords.Top10Length | script.js:96-97 | the top list has `min(10, unique-word count)` entries |
| TopWords.Top10WordsSpec | script.js:90-98 | the top list has `min(10, #keys)` entries, each a distinct key with its count, in non-increasing order of count; a key left out means the list is full and the key is counted no more often than the last entry |
| Metrics.ReadingMinutes | script.js:46-47 | the reading time `m` is the ceiling of words/200: `(m-1)*200 < words <= m*200` |
| Metrics.ReadingTimeAlwaysInMinutes | script.js:46-48 | the reading time is at least one minute, so the 'Less than 1 min' text is never shown |
| Metrics.CountsOfText | script.js:28-37 | word count = number of words >= 1; character count = length of the raw text, whitespace included, and at least the total length of the words; line count = number of LFs + 1 |
| Metrics.VocabularyOfText | script.js:41-55 | 1 <= unique-word count <= word count; unique-word count = number of keys; keys = set of words; the counts sum to the word count; the top list has `min(10, unique-word count)` entries |
| Metrics.ClearedTextMetrics | script.js:129-131 | after clearing, the metrics are one word (the empty one, counted once), no characters, one line, one unique word and one minute |

## Left out

- DOM lookups, event wiring, table rendering and clearing (script.js lines 1-21, 30, 34, 38, 43, 69-87, 101-117, 132-134, 143-155) are display plumbing. The model returns the values that would be written into the page.
- Keyword density percentages (script.js line 73) are floating-point divisions formatted with `toFixed(2)`. The model stops at the integer counts they are computed from.
- `highlightWord` (script.js lines 120-126) builds a regular expression from unescaped user input and writes HTML. Its behaviour is general regex-engine semantics and DOM mutation.
- `copyTextToClipboard` (script.js lines 137-141) is a browser clipboard call.
- Frequency.KeywordCounts: models a true map from strings to counts. A plain JavaScript object used as a map misbehaves on keys such as `__proto__`, where the assignment goes to the prototype and the count is lost.
- TopWords.Top10WordsSpec: leaves the order among words of equal count unspecified, because `Object.keys` lists integer-like keys first. That source order decides ties, and the model's first-occurrence order does not reproduce it.
- Metrics.ReadingMinutes: computes an exact integer ceiling. The source divides in floating point, which gives the same result for every word count below 2^53.
- JsText.IsWs: fixes the Unicode space separators (Zs) as of Unicode 15. An engine built on another Unicode version may differ.
