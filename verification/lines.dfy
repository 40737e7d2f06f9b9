/** The line count of the word counter: the number of pieces the text falls
    into when it is split at every `/\r*\n/` (script.js line 37). */
module Lines {
  import opened JsText
  import opened RegexSplit

  /** The lines of `text`: the pieces between the `\r*\n` separators. */
  function SplitLines(text: JsString): (lines: seq<JsString>)
    ensures |lines| >= 1
  {
    Split(CrLf, text, 0)
  }

  function LineCount(text: JsString): nat {
    |SplitLines(text)|
  }

  /** There is one line more than there are LF code units, so even the empty
      text has one line; no line holds an LF; and re-joining the lines with LF
      gives the text back up to the CRs that stood in front of each LF. */
  lemma LinesOfText(text: JsString)
    ensures LineCount(text) == multiset(text)[LF] + 1
    ensures forall i :: 0 <= i < |SplitLines(text)| ==> LF !in SplitLines(text)[i]
    ensures Without(Join(SplitLines(text), [LF]), CR) == Without(text, CR)
  {
    assert text[..0] == [];
    SplitOnNewlines(text, 0);
  }

  /** A CR that is not part of a CR...CRLF line break does not start a line:
      inserting a CR anywhere leaves the line count as it was. */
  lemma StrayCarriageReturn(a: JsString, b: JsString)
    ensures LineCount(a + [CR] + b) == LineCount(a + b)
  {
    LinesOfText(a + [CR] + b);
    LinesOfText(a + b);
  }

  /** More generally, the line count does not depend on the CRs at all. */
  lemma LineCountIgnoresCarriageReturns(text: JsString)
    ensures LineCount(Without(text, CR)) == LineCount(text)
  {
    LinesOfText(text);
    LinesOfText(Without(text, CR));
    WithoutKeepsOthers(text, CR, LF);
  }

  /** Lines that hold no LF, and of which none but the last ends in a CR
      (such a CR would be read as part of the line break), are what splitting
      their LF-join gives back. */
  lemma {:induction false} LinesRoundTrip(lines: seq<JsString>)
    requires |lines| >= 1
    requires forall i :: 0 <= i < |lines| ==> LF !in lines[i]
    requires forall i :: 0 <= i < |lines| - 1 ==> lines[i] == [] || lines[i][|lines[i]| - 1] != CR
    ensures SplitLines(Join(lines, [LF])) == lines
    decreases |lines|
  {
    var head := lines[0];
    var s := Join(lines, [LF]);
    if |lines| == 1 {
      assert s == head;
      NoBreakBefore(s, 0, |s|);
      assert Split(CrLf, s, |s|) == [s];
    } else {
      var rest := Join(lines[1..], [LF]);
      assert s == head + [LF] + rest;
      NoBreakBefore(s, 0, |head|);
      LinesRoundTrip(lines[1..]);
      BreakAfter(s, head, rest);
      assert lines == [head] + lines[1..];
    }
  }

  /** `/\r*\n/` matches nowhere in `s[q..k]` when that stretch holds no LF
      and, unless it runs to the end of `s`, does not end in a CR: the scan
      moves on to `k`. */
  lemma {:induction false} NoBreakBefore(s: JsString, q: nat, k: nat)
    requires q <= k <= |s| && LF !in s[q..k]
    requires q < k < |s| ==> s[k - 1] != CR
    ensures Split(CrLf, s, q) == Split(CrLf, s, k)
    decreases k - q
  {
    if q < k {
      var t := s[q..];
      LeadingCrsSpec(t);
      var n := LeadingCrs(t);
      CrPrefixAt(t, n, k - 1 - q);
      if q + n < k {
        assert s[q..k][n] == t[n];
      }
      assert MatchAt(CrLf, t) == 0;
      assert s[q + 1..k] == s[q..k][1..];
      NoBreakBefore(s, q + 1, k);
    }
  }

  lemma CrPrefixAt(t: JsString, n: nat, i: int)
    requires n <= |t| && AllCr(t[..n])
    ensures 0 <= i < n ==> t[i] == CR
  {
    if 0 <= i < n {
      assert t[..n][i] == t[i];
    }
  }

  /** The LF right after `head` is a line break on its own. */
  lemma BreakAfter(s: JsString, head: JsString, rest: JsString)
    requires s == head + [LF] + rest
    ensures Split(CrLf, s, |head|) == [head] + Split(CrLf, rest, 0)
  {
    var q := |head|;
    assert s[q..] == [LF] + rest;
    assert LeadingCrs(s[q..]) == 0;
    assert MatchAt(CrLf, s[q..]) == 1;
    assert s[q + 1..] == rest;
    assert s[..q] == head;
  }

  lemma {:induction false} WithoutKeepsOthers(s: JsString, c: CodeUnit, d: CodeUnit)
    requires c != d
    ensures multiset(Without(s, c))[d] == multiset(s)[d]
  {
    if s != [] {
      assert s == [s[0]] + s[1..];
      WithoutKeepsOthers(s[1..], c, d);
    }
  }

  lemma {:induction false} WithoutAllCr(s: JsString)
    requires AllCr(s)
    ensures Without(s, CR) == []
    ensures LF !in s
  {
    if s != [] {
      WithoutAllCr(s[1..]);
    }
  }

  /** What one match of `/\r*\n/` contributes: one LF, and nothing once its
      CRs are dropped. */
  lemma LineBreak(m: JsString)
    requires m != [] && m[|m| - 1] == LF && AllCr(m[..|m| - 1])
    ensures multiset(m)[LF] == 1
    ensures Without(m, CR) == [LF]
  {
    var crs := m[..|m| - 1];
    assert m == crs + [LF];
    WithoutAllCr(crs);
    WithoutAppend(crs, [LF], CR);
    assert [LF][1..] == [];
    assert Without([LF], CR) == [LF];
    assert multiset(m) == multiset(crs) + multiset{LF};
  }

  /** Facts about one `/\r*\n/` match found at `q`. */
  lemma MatchedBreak(s: JsString, q: nat) returns (m: JsString, rest: JsString)
    requires q < |s| && MatchAt(CrLf, s[q..]) > 0
    ensures s == s[..q] + m + rest
    ensures rest == s[q + MatchAt(CrLf, s[q..])..]
    ensures Split(CrLf, s, q) == [s[..q]] + Split(CrLf, rest, 0)
    ensures multiset(m)[LF] == 1 && Without(m, CR) == [LF]
  {
    var n := MatchAt(CrLf, s[q..]);
    CrLfMatch(s[q..]);
    rest := s[q + n..];
    m := s[q..q + n];
    assert m == s[q..][..n];
    assert m[..n - 1] == s[q..][..n - 1];
    LineBreak(m);
    assert s == s[..q] + m + rest;
  }

  lemma {:induction false} SplitOnNewlines(s: JsString, q: nat)
    requires q <= |s| && LF !in s[..q]
    ensures |Split(CrLf, s, q)| == multiset(s)[LF] + 1
    ensures forall i :: 0 <= i < |Split(CrLf, s, q)| ==> LF !in Split(CrLf, s, q)[i]
    ensures Without(Join(Split(CrLf, s, q), [LF]), CR) == Without(s, CR)
    decreases |s| - q
  {
    if q == |s| {
      assert s[..q] == s;
      assert multiset(s)[LF] == 0;
    } else if MatchAt(CrLf, s[q..]) == 0 {
      CrLfMatch(s[q..]);
      assert s[q..][..0] == [];
      assert s[q..][0] == s[q];
      assert s[..q + 1] == s[..q] + [s[q]];
      SplitOnNewlines(s, q + 1);
    } else {
      var m, rest := MatchedBreak(s, q);
      assert rest[..0] == [];
      SplitOnNewlines(rest, 0);
      var tail := Split(CrLf, rest, 0);
      RejoinStep(s[..q], m, rest, tail);
      assert multiset(s) == multiset(s[..q]) + multiset(m) + multiset(rest);
    }
  }

  lemma RejoinStep(head: JsString, m: JsString, rest: JsString, tail: seq<JsString>)
    requires Without(m, CR) == [LF]
    requires |tail| >= 1
    requires Without(Join(tail, [LF]), CR) == Without(rest, CR)
    ensures Without(Join([head] + tail, [LF]), CR) == Without(head + m + rest, CR)
  {
    var pieces := [head] + tail;
    assert pieces[1..] == tail;
    assert Without([LF], CR) == [LF] by {
      assert [LF][1..] == [];
    }
    calc {
      Without(Join(pieces, [LF]), CR);
      Without(head + [LF] + Join(tail, [LF]), CR);
      { WithoutAppend(head + [LF], Join(tail, [LF]), CR); }
      Without(head + [LF], CR) + Without(Join(tail, [LF]), CR);
      { WithoutAppend(head, [LF], CR); }
      Without(head, CR) + Without(m, CR) + Without(rest, CR);
      { WithoutAppend(head, m, CR); }
      Without(head + m, CR) + Without(rest, CR);
      { WithoutAppend(head + m, rest, CR); }
      Without(head + m + rest, CR);
    }
  }
}
