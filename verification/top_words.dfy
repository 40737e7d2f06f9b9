/** `calculateTop10Words` (script.js lines 90-98): the distinct words sorted by
    descending frequency, the first ten of them, each with its frequency. */
module TopWords {
  import opened JsText
  import opened Frequency

  const TopCount := 10

  /** One entry of the top list: a word and its count. */
  datatype TopEntry = TopEntry(word: JsString, frequency: nat)

  function Min(a: nat, b: nat): nat {
    if a <= b then a else b
  }

  /** Every word of `ws` has a count. */
  predicate Counted(ws: seq<JsString>, counts: map<JsString, nat>) {
    forall i :: 0 <= i < |ws| ==> ws[i] in counts
  }

  /** Every word has a count, and the counts do not increase along `ws`. */
  predicate Ranked(ws: seq<JsString>, counts: map<JsString, nat>) {
    && Counted(ws, counts)
    && (forall i, j :: 0 <= i < j < |ws| ==> counts[ws[i]] >= counts[ws[j]])
  }

  /** Every word of `ws` has a count, and none is above `c`. */
  predicate AtMost(ws: seq<JsString>, counts: map<JsString, nat>, c: nat) {
    forall i :: 0 <= i < |ws| ==> ws[i] in counts && counts[ws[i]] <= c
  }

  /** Puts `w` into a sequence of words, after the leading words counted at
      least as often; on a ranked sequence, words of equal count thus keep the
      order they came in. The result holds the same words and `w` besides. */
  function InsertByFrequency(w: JsString, ranked: seq<JsString>, counts: map<JsString, nat>): (r: seq<JsString>)
    requires w in counts && Counted(ranked, counts)
    ensures multiset(r) == multiset(ranked) + multiset{w}
    ensures Counted(r, counts)
  {
    if ranked == [] then [w]
    else if counts[ranked[0]] < counts[w] then [w] + ranked
    else
      assert ranked == [ranked[0]] + ranked[1..];
      [ranked[0]] + InsertByFrequency(w, ranked[1..], counts)
  }

  /** Inserting into a ranked sequence keeps it ranked. */
  lemma {:induction false} InsertKeepsRanked(w: JsString, ranked: seq<JsString>, counts: map<JsString, nat>)
    requires w in counts && Ranked(ranked, counts)
    ensures Ranked(InsertByFrequency(w, ranked, counts), counts)
  {
    if ranked == [] {
    } else if counts[ranked[0]] < counts[w] {
      RankedBelow(ranked, counts);
      assert AtMost(ranked, counts, counts[w]);
      RankedCons(w, ranked, counts);
    } else {
      var head := ranked[0];
      var rest := InsertByFrequency(w, ranked[1..], counts);
      assert ranked == [head] + ranked[1..];
      RankedBelow(ranked, counts);
      InsertKeepsRanked(w, ranked[1..], counts);
      assert AtMost(ranked[1..] + [w], counts, counts[head]);
      AtMostPermutation(rest, ranked[1..] + [w], counts, counts[head]);
      RankedCons(head, rest, counts);
    }
  }

  lemma RankedBelow(ranked: seq<JsString>, counts: map<JsString, nat>)
    requires ranked != [] && Ranked(ranked, counts)
    ensures AtMost(ranked[1..], counts, counts[ranked[0]])
    ensures AtMost(ranked, counts, counts[ranked[0]])
  {
  }

  lemma RankedCons(x: JsString, ws: seq<JsString>, counts: map<JsString, nat>)
    requires x in counts && Ranked(ws, counts) && AtMost(ws, counts, counts[x])
    ensures Ranked([x] + ws, counts)
  {
    var r := [x] + ws;
    forall i, j | 0 <= i < j < |r|
      ensures counts[r[i]] >= counts[r[j]]
    {
      assert r[j] == ws[j - 1];
      if i > 0 {
        assert r[i] == ws[i - 1];
      }
    }
  }

  lemma AtMostPermutation(a: seq<JsString>, b: seq<JsString>, counts: map<JsString, nat>, c: nat)
    requires multiset(a) == multiset(b) && AtMost(b, counts, c)
    ensures AtMost(a, counts, c)
  {
    forall i | 0 <= i < |a|
      ensures a[i] in counts && counts[a[i]] <= c
    {
      assert a[i] in multiset(b);
      var j :| 0 <= j < |b| && b[j] == a[i];
    }
  }

  /** The keys sorted by descending count, as an insertion sort: a
      permutation of the keys. The sort is stable, like `Array.prototype.sort`
      since ECMAScript 2019. */
  function SortByFrequency(keys: seq<JsString>, counts: map<JsString, nat>): (r: seq<JsString>)
    requires Counted(keys, counts)
    ensures multiset(r) == multiset(keys)
    ensures Counted(r, counts)
  {
    if keys == [] then []
    else
      var n := |keys| - 1;
      assert keys == keys[..n] + [keys[n]];
      InsertByFrequency(keys[n], SortByFrequency(keys[..n], counts), counts)
  }

  /** The sorted keys are ranked: their counts do not increase. */
  lemma {:induction false} SortByFrequencyRanks(keys: seq<JsString>, counts: map<JsString, nat>)
    requires Counted(keys, counts)
    ensures Ranked(SortByFrequency(keys, counts), counts)
  {
    if keys != [] {
      var n := |keys| - 1;
      SortByFrequencyRanks(keys[..n], counts);
      InsertKeepsRanked(keys[n], SortByFrequency(keys[..n], counts), counts);
    }
  }

  /** The ten most frequent words of `words` with their frequencies. */
  function Top10Words(words: seq<JsString>): seq<TopEntry> {
    var counts := KeywordCounts(words);
    TopEntries(SortByFrequency(Distinct(words), counts), counts)
  }

  /** The first ten ranked words (fewer when there are fewer), each paired
      with its count. */
  function TopEntries(ranked: seq<JsString>, counts: map<JsString, nat>): seq<TopEntry>
    requires Counted(ranked, counts)
  {
    var k := Min(TopCount, |ranked|);
    seq(k, i requires 0 <= i < k => TopEntry(ranked[i], counts[ranked[i]]))
  }

  /** The top list has an entry for each distinct word, up to ten. */
  lemma Top10Length(words: seq<JsString>)
    ensures |Top10Words(words)| == Min(TopCount, UniqueWordCount(words))
  {
    var keys := Distinct(words);
    var ranked := SortByFrequency(keys, KeywordCounts(words));
    assert |ranked| == |multiset(ranked)| == |multiset(keys)| == |keys|;
    assert |Top10Words(words)| == Min(TopCount, |ranked|);
  }

  /** The top list holds `min(10, number of distinct words)` entries, each a
      distinct word with its count, in non-increasing order of count; a word
      that did not make the list is counted no more often than the last
      entry, and can only be missing when the list is full. */
  lemma Top10WordsSpec(words: seq<JsString>)
    ensures var top := Top10Words(words);
      var counts := KeywordCounts(words);
      && |top| == Min(TopCount, |counts|)
      && (forall i :: 0 <= i < |top| ==> top[i].word in counts && top[i].frequency == counts[top[i].word])
      && (forall i, j :: 0 <= i < j < |top| ==> top[i].word != top[j].word)
      && (forall i, j :: 0 <= i < j < |top| ==> top[i].frequency >= top[j].frequency)
      && (forall w :: w in counts && (forall i :: 0 <= i < |top| ==> top[i].word != w) ==>
            |top| == TopCount && counts[w] <= top[TopCount - 1].frequency)
  {
    var counts := KeywordCounts(words);
    var keys := Distinct(words);
    var ranked := SortByFrequency(keys, counts);
    UniqueWordCountIsKeyCount(words);
    SortByFrequencyRanks(keys, counts);
    PermutationNoDup(ranked, keys);
    EveryKeyRanked(words, ranked);
    TopOfRanked(ranked, counts);
  }

  lemma EveryKeyRanked(words: seq<JsString>, ranked: seq<JsString>)
    requires multiset(ranked) == multiset(Distinct(words))
    ensures forall w :: w in KeywordCounts(words) ==> w in ranked
  {
    var keys := Distinct(words);
    forall w | w in KeywordCounts(words)
      ensures w in ranked
    {
      assert w in keys;
      assert w in multiset(keys);
    }
  }

  /** The same facts, stated of any ranking of the keys without repetitions. */
  lemma TopOfRanked(ranked: seq<JsString>, counts: map<JsString, nat>)
    requires Ranked(ranked, counts) && NoDup(ranked)
    requires forall w :: w in counts ==> w in ranked
    requires |ranked| == |counts|
    ensures var top := TopEntries(ranked, counts);
      && |top| == Min(TopCount, |counts|)
      && (forall i :: 0 <= i < |top| ==> top[i].word in counts && top[i].frequency == counts[top[i].word])
      && (forall i, j :: 0 <= i < j < |top| ==> top[i].word != top[j].word)
      && (forall i, j :: 0 <= i < j < |top| ==> top[i].frequency >= top[j].frequency)
      && (forall w :: w in counts && (forall i :: 0 <= i < |top| ==> top[i].word != w) ==>
            |top| == TopCount && counts[w] <= top[TopCount - 1].frequency)
  {
    TopEntriesAt(ranked, counts);
    TopInOrder(ranked, counts);
    TopOmitted(ranked, counts);
  }

  /** The entries are counted keys, distinct, in non-increasing order of count. */
  lemma TopInOrder(ranked: seq<JsString>, counts: map<JsString, nat>)
    requires Ranked(ranked, counts) && NoDup(ranked)
    ensures var top := TopEntries(ranked, counts);
      && (forall i :: 0 <= i < |top| ==> top[i].word in counts && top[i].frequency == counts[top[i].word])
      && (forall i, j :: 0 <= i < j < |top| ==> top[i].word != top[j].word)
      && (forall i, j :: 0 <= i < j < |top| ==> top[i].frequency >= top[j].frequency)
  {
    TopEntriesAt(ranked, counts);
  }

  lemma TopEntriesAt(ranked: seq<JsString>, counts: map<JsString, nat>)
    requires Counted(ranked, counts)
    ensures var top := TopEntries(ranked, counts);
      && |top| == Min(TopCount, |ranked|)
      && forall i :: 0 <= i < |top| ==> top[i] == TopEntry(ranked[i], counts[ranked[i]])
  {
  }

  /** A key missing from the top list leaves it full, and is counted no more
      often than its last entry. */
  lemma TopOmitted(ranked: seq<JsString>, counts: map<JsString, nat>)
    requires Ranked(ranked, counts)
    requires forall w :: w in counts ==> w in ranked
    ensures var top := TopEntries(ranked, counts);
      forall w :: w in counts && (forall i :: 0 <= i < |top| ==> top[i].word != w) ==>
        |top| == TopCount && counts[w] <= top[TopCount - 1].frequency
  {
    var k := Min(TopCount, |ranked|);
    var top := TopEntries(ranked, counts);
    TopEntriesAt(ranked, counts);
    forall w | w in counts && (forall i :: 0 <= i < |top| ==> top[i].word != w)
      ensures |top| == TopCount && counts[w] <= top[TopCount - 1].frequency
    {
      var j :| 0 <= j < |ranked| && ranked[j] == w;
      var e := if j < k then j else 0;
      assert top[e].word == ranked[e];
      assert counts[ranked[TopCount - 1]] >= counts[ranked[j]];
    }
  }

  /** A permutation of a sequence without repetitions has none either. */
  lemma PermutationNoDup<T>(a: seq<T>, b: seq<T>)
    requires multiset(a) == multiset(b) && NoDup(b)
    ensures NoDup(a) && |a| == |b|
  {
    assert |a| == |multiset(a)| == |multiset(b)| == |b|;
    forall i, j | 0 <= i < j < |a|
      ensures a[i] != a[j]
    {
      TwoPositions(a, i, j);
      NoDupOnce(b, a[i]);
    }
  }

  lemma TwoPositions<T>(a: seq<T>, i: nat, j: nat)
    requires i < j < |a|
    ensures a[i] == a[j] ==> multiset(a)[a[i]] >= 2
  {
    assert a == a[..j] + a[j..];
    assert a[..j][i] == a[i];
    assert a[j..][0] == a[j];
  }
}
