/** The pure part of `updateCounts` (script.js lines 24-57): every metric the
    page shows, computed from the text of the input box. */
module Metrics {
  import opened JsText
  import opened Words
  import opened Lines
  import opened Frequency
  import opened TopWords

  /** Reading speed, in words per minute. */
  const WordsPerMinute := 200

  datatype TextMetrics = TextMetrics(
    wordCount: nat,
    charCount: nat,
    lineCount: nat,
    uniqueWordCount: nat,
    readingMinutes: nat,
    keywordCounts: map<JsString, nat>,
    topWords: seq<TopEntry>)

  /** What the reading-time field shows. */
  datatype ReadingTime = Minutes(minutes: nat) | LessThanOneMinute

  /** The word count over the reading speed, rounded up: the fewest whole
      minutes in which `numWords` words can be read. */
  function ReadingMinutes(numWords: nat): (m: nat)
    ensures (m - 1) * WordsPerMinute < numWords <= m * WordsPerMinute
  {
    (numWords + WordsPerMinute - 1) / WordsPerMinute
  }

  /** What the reading-time field shows: the minutes when there are any,
      otherwise the 'Less than 1 min' text. */
  function ShowReadingTime(minutes: nat): ReadingTime {
    if minutes > 0 then Minutes(minutes) else LessThanOneMinute
  }

  /** The metrics `updateCounts` computes for `text`. */
  function UpdateCounts(text: JsString): TextMetrics {
    var words := Tokens(text);
    TextMetrics(
      |words|,
      |text|,
      LineCount(text),
      UniqueWordCount(words),
      ReadingMinutes(|words|),
      KeywordCounts(words),
      Top10Words(words))
  }

  /** The counts of one text: there is always a word, the character count
      is the length of the raw text (whitespace included, so it is at least
      the length of the words together), and the line count is one more than
      the number of LFs. */
  lemma CountsOfText(text: JsString)
    ensures var r := UpdateCounts(text);
      && r.wordCount == |Tokens(text)| >= 1
      && r.charCount == |text|
      && |Concat(Tokens(text))| <= r.charCount
      && r.lineCount == multiset(text)[LF] + 1
  {
    var r := UpdateCounts(text);
    assert r.wordCount == |Tokens(text)| && r.charCount == |text| && r.lineCount == LineCount(text);
    TokensFitInText(text);
    LinesOfText(text);
  }

  lemma TokensFitInText(text: JsString)
    ensures |Concat(Tokens(text))| <= |text|
  {
    TokensOfText(text);
    if AllWs(text) {
      assert Concat([[]]) == [];
    } else {
      assert |NonWs(text)| <= |text|;
    }
  }

  /** The vocabulary of one text: between one and `wordCount` distinct words,
      as many as the count map has keys; the keys are the words; the counts add
      up to the word count; and the top list has `min(10, uniqueWordCount)`
      entries. */
  lemma VocabularyOfText(text: JsString)
    ensures var r := UpdateCounts(text);
      && 1 <= r.uniqueWordCount <= r.wordCount
      && r.uniqueWordCount == |r.keywordCounts|
      && r.keywordCounts.Keys == set w | w in Tokens(text)
      && SumCounts(Distinct(Tokens(text)), r.keywordCounts) == r.wordCount
      && |r.topWords| == Min(TopCount, r.uniqueWordCount)
  {
    var words := Tokens(text);
    var r := UpdateCounts(text);
    assert r.wordCount == |words| && r.uniqueWordCount == UniqueWordCount(words);
    assert r.keywordCounts == KeywordCounts(words) && r.topWords == Top10Words(words);
    UniqueWordCountIsKeyCount(words);
    KeysAreWords(words);
    CountsSumToWordCount(words);
    Top10Length(words);
  }

  /** Every text has at least one word, so the reading time is at least one
      minute and the 'Less than 1 min' text is never shown. */
  lemma ReadingTimeAlwaysInMinutes(text: JsString)
    ensures UpdateCounts(text).readingMinutes >= 1
    ensures ShowReadingTime(UpdateCounts(text).readingMinutes) == Minutes(UpdateCounts(text).readingMinutes)
  {
  }

  /** The metrics `clearInputText` recomputes after emptying the text box
      (it then empties the two tables): one word, the empty one, counted once;
      no characters; one line; one minute of reading. */
  lemma ClearedTextMetrics()
    ensures UpdateCounts([]) == TextMetrics(1, 0, 1, 1, 1, map[[] := 1], [TopEntry([], 1)])
  {
    var empty: JsString := [];
    assert Trim(empty) == [];
    assert Tokens(empty) == [[]];
    assert SplitLines(empty) == [[]];
    var words := [empty];
    assert Distinct(words) == [[]];
    assert KeywordCounts(words) == map[[] := 1];
    assert SortByFrequency([[]], map[[] := 1]) == [[]];
    assert Top10Words(words) == [TopEntry([], 1)];
  }
}
