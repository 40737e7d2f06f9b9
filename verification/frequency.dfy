/** Word frequencies: the count map both `calculateKeywordDensity`
    (script.js lines 60-66) and `calculateTop10Words` (lines 91-94) build,
    and the unique-word count of `updateCounts` (lines 41-42). */
module Frequency {
  import opened JsText

  /** The distinct words in first-occurrence order: the order of
      the elements of a `Set` built from `words`, and of `Object.keys` over a map filled from `words`
      (for keys that are not array indices). */
  function Distinct(words: seq<JsString>): (keys: seq<JsString>)
    ensures forall w :: w in keys <==> w in words
    ensures NoDup(keys)
    ensures |keys| <= |words|
  {
    if words == [] then []
    else
      var n := |words| - 1;
      var w := words[n];
      assert words == words[..n] + [w];
      Distinct(words[..n]) + (if w in words[..n] then [] else [w])
  }

  /** The count map the two counting loops build, one word at a time, from an
      empty object: every word is a key, every key is a word, and a key maps to
      how often it occurs in `words`. */
  function KeywordCounts(words: seq<JsString>): (counts: map<JsString, nat>)
    ensures forall w :: w in counts <==> w in words
    ensures forall w :: w in counts ==> counts[w] == multiset(words)[w] && counts[w] >= 1
  {
    if words == [] then map[]
    else
      var n := |words| - 1;
      var w := words[n];
      assert words == words[..n] + [w];
      Tally(KeywordCounts(words[..n]), w)
  }

  /** One turn of the counting loop: the word's count, missing counted as 0,
      goes up by one. */
  function Tally(counts: map<JsString, nat>, w: JsString): map<JsString, nat> {
    counts[w := (if w in counts then counts[w] else 0) + 1]
  }

  /** The size of the set of words (an ECMAScript `Set` built from them). */
  function UniqueWordCount(words: seq<JsString>): nat {
    |Distinct(words)|
  }

  /** The sum of `counts` over `keys`. */
  function SumCounts(keys: seq<JsString>, counts: map<JsString, nat>): nat
    requires forall k :: k in keys ==> k in counts
  {
    if keys == [] then 0
    else SumCounts(keys[..|keys| - 1], counts) + counts[keys[|keys| - 1]]
  }

  /** The unique-word count is the number of keys of the count map; it is at
      least 1 and at most the word count as soon as there is a word. */
  lemma UniqueWordCountIsKeyCount(words: seq<JsString>)
    ensures UniqueWordCount(words) == |KeywordCounts(words)|
    ensures words != [] ==> 1 <= UniqueWordCount(words) <= |words|
  {
    var keys := Distinct(words);
    NoDupCardinality(keys);
    KeysAreDistinctWords(words);
    if words != [] {
      assert words[0] in keys;
    }
  }

  /** The keys of the count map are exactly the words. */
  lemma KeysAreWords(words: seq<JsString>)
    ensures KeywordCounts(words).Keys == set w | w in words
  {
    var counts := KeywordCounts(words);
    forall w | w in words
      ensures w in counts.Keys
    {
    }
  }

  lemma KeysAreDistinctWords(words: seq<JsString>)
    ensures KeywordCounts(words).Keys == set k | k in Distinct(words)
  {
    var keys := Distinct(words);
    var counts := KeywordCounts(words);
    forall k | k in counts.Keys
      ensures k in keys
    {
      assert k in words;
    }
    forall k | k in keys
      ensures k in counts.Keys
    {
      assert k in words;
    }
  }

  /** The counts add up to the word count. */
  lemma {:induction false} CountsSumToWordCount(words: seq<JsString>)
    ensures SumCounts(Distinct(words), KeywordCounts(words)) == |words|
  {
    if words != [] {
      var n := |words| - 1;
      var prefix := words[..n];
      CountsSumToWordCount(prefix);
      TallySum(Distinct(prefix), KeywordCounts(prefix), words[n]);
      assert KeywordCounts(words) == Tally(KeywordCounts(prefix), words[n]);
      assert Distinct(words) == Distinct(prefix) + (if words[n] in prefix then [] else [words[n]]);
    }
  }

  /** One turn of the counting loop adds one to the sum of the counts, over
      the keys extended by the word when it is new. */
  lemma TallySum(keys: seq<JsString>, before: map<JsString, nat>, w: JsString)
    requires NoDup(keys)
    requires forall k :: k in keys <==> k in before
    ensures var keys' := keys + (if w in keys then [] else [w]);
      SumCounts(keys', Tally(before, w)) == SumCounts(keys, before) + 1
  {
    if w in keys {
      var after := before[w := before[w] + 1];
      assert Tally(before, w) == after;
      assert keys + [] == keys;
      SumAfterUpdate(keys, before, w, before[w] + 1);
    } else {
      var after := before[w := 1];
      assert Tally(before, w) == after;
      SumAfterUpdate(keys, before, w, 1);
      assert (keys + [w])[..|keys|] == keys;
    }
  }

  /** Setting the count of `w` changes the sum over `keys` by the difference
      when `w` is one of the keys (once), and not at all otherwise. */
  lemma {:induction false} SumAfterUpdate(keys: seq<JsString>, counts: map<JsString, nat>, w: JsString, c: nat)
    requires forall k :: k in keys ==> k in counts
    requires NoDup(keys)
    ensures w !in keys ==> SumCounts(keys, counts[w := c]) == SumCounts(keys, counts)
    ensures w in keys ==> SumCounts(keys, counts[w := c]) == SumCounts(keys, counts) - counts[w] + c
  {
    if keys != [] {
      var n := |keys| - 1;
      assert keys == keys[..n] + [keys[n]];
      SumAfterUpdate(keys[..n], counts, w, c);
    }
  }

  lemma {:induction false} NoDupCardinality<T>(s: seq<T>)
    requires NoDup(s)
    ensures |set x | x in s| == |s|
  {
    if s != [] {
      var n := |s| - 1;
      NoDupCardinality(s[..n]);
      assert (set x | x in s) == (set x | x in s[..n]) + {s[n]};
    }
  }

  /** A sequence without repetitions holds each element once. */
  lemma {:induction false} NoDupOnce<T>(s: seq<T>, x: T)
    requires NoDup(s)
    ensures multiset(s)[x] <= 1
    ensures x in s ==> multiset(s)[x] == 1
  {
    if s != [] {
      var n := |s| - 1;
      assert s == s[..n] + [s[n]];
      NoDupOnce(s[..n], x);
    }
  }
}
