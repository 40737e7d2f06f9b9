/** Tokenisation of the word counter: the trimmed text split at every
    whitespace run (script.js line 28), and what the tokens are. */
module Words {
  import opened JsText
  import opened RegexSplit

  /** The word list of `updateCounts`. A blank text gives the one token `""`. */
  function Tokens(text: JsString): (words: seq<JsString>)
    ensures |words| >= 1
  {
    Split(WsRun, Trim(text), 0)
  }

  /** `toks[0] + seps[0] + toks[1] + ... + seps[k-1] + toks[k]`. */
  function Weave(toks: seq<JsString>, seps: seq<JsString>): JsString
    requires |toks| == |seps| + 1
    decreases |seps|
  {
    if seps == [] then toks[0]
    else toks[0] + seps[0] + Weave(toks[1..], seps[1..])
  }

  /** The whitespace runs `split(/\s+/)` consumes between the pieces it returns. */
  function Separators(s: JsString, q: nat): (seps: seq<JsString>)
    requires q <= |s|
    ensures |seps| + 1 == |Split(WsRun, s, q)|
    decreases |s| - q
  {
    if q == |s| then []
    else
      var n := MatchAt(WsRun, s[q..]);
      if n == 0 then Separators(s, q + 1)
      else [s[q..q + n]] + Separators(s[q + n..], 0)
  }

  predicate WellFormedWords(toks: seq<JsString>, seps: seq<JsString>) {
    && |toks| == |seps| + 1
    && (forall i :: 0 <= i < |toks| ==> toks[i] != [] && NoWs(toks[i]))
    && (forall i :: 0 <= i < |seps| ==> seps[i] != [] && AllWs(seps[i]))
  }

  /** No token contains whitespace; on a blank text (empty or all whitespace)
      the tokens are exactly `[""]`, and otherwise every token is non-empty and
      the tokens, glued together, are the non-whitespace code units of the
      text in order. */
  lemma TokensOfText(text: JsString)
    ensures forall i :: 0 <= i < |Tokens(text)| ==> NoWs(Tokens(text)[i])
    ensures AllWs(text) <==> Tokens(text) == [[]]
    ensures !AllWs(text) ==> forall i :: 0 <= i < |Tokens(text)| ==> Tokens(text)[i] != []
    ensures !AllWs(text) ==> Concat(Tokens(text)) == NonWs(text)
  {
    var t := Trim(text);
    TrimSpec(text);
    assert t[..0] == [];
    SplitOnWs(t, 0);
    if AllWs(text) {
      assert Split(WsRun, t, 0) == [t];
    } else {
      SplitOnWsNonEmpty(t, 0);
      assert Split(WsRun, t, 0)[0] != [];
    }
  }

  /** Re-weaving the tokens with the whitespace the tokeniser dropped gives the
      text back: the margins `trim` removed, and one non-empty whitespace run
      between each pair of neighbouring tokens. */
  lemma TokensReweave(text: JsString)
    ensures AllWs(LeadingMargin(text)) && AllWs(TrailingMargin(text))
    ensures var seps := Separators(Trim(text), 0);
      && (forall i :: 0 <= i < |seps| ==> seps[i] != [] && AllWs(seps[i]))
      && text == LeadingMargin(text) + Weave(Tokens(text), seps) + TrailingMargin(text)
  {
    var t := Trim(text);
    TrimMargins(text);
    SeparatorsAreWs(t, 0);
    SplitReweaves(t, 0);
  }

  /** Weaving well-formed words with whitespace runs, between whitespace
      margins, and tokenising the result gives the words back. */
  lemma TokensRoundTrip(lead: JsString, toks: seq<JsString>, seps: seq<JsString>, trail: JsString)
    requires AllWs(lead) && AllWs(trail)
    requires WellFormedWords(toks, seps)
    ensures Tokens(lead + Weave(toks, seps) + trail) == toks
  {
    var body := Weave(toks, seps);
    WeaveEnds(toks, seps);
    TrimFramed(lead, body, trail);
    SplitWeave(toks, seps);
  }

  /** The matcher finds no whitespace at `q`: the scan moves on by one. */
  lemma WsUnmatched(s: JsString, q: nat)
    requires q < |s| && MatchAt(WsRun, s[q..]) == 0
    ensures !IsWs(s[q])
    ensures Split(WsRun, s, q) == Split(WsRun, s, q + 1)
    ensures Separators(s, q) == Separators(s, q + 1)
  {
    WsRunMatch(s[q..]);
    assert s[q..][0] == s[q];
  }

  /** The matcher finds the whitespace run `s[q..q + n]`: it closes the piece
      `s[..q]`, and the rest is split from scratch. */
  lemma WsMatched(s: JsString, q: nat) returns (n: nat)
    requires q < |s| && MatchAt(WsRun, s[q..]) > 0
    ensures n == MatchAt(WsRun, s[q..]) && 0 < n && q + n <= |s|
    ensures IsWs(s[q]) && AllWs(s[q..q + n]) && IsWs(s[q + n - 1])
    ensures q + n < |s| ==> !IsWs(s[q + n])
    ensures s == s[..q] + s[q..q + n] + s[q + n..]
    ensures Split(WsRun, s, q) == [s[..q]] + Split(WsRun, s[q + n..], 0)
    ensures Separators(s, q) == [s[q..q + n]] + Separators(s[q + n..], 0)
  {
    n := MatchAt(WsRun, s[q..]);
    WsRunMatch(s[q..]);
    assert s[q..q + n] == s[q..][..n];
    assert s[q..][0] == s[q];
    assert s[q..q + n][n - 1] == s[q + n - 1];
    if q + n < |s| {
      assert s[q..][n] == s[q + n];
    }
    assert s[..q] + s[q..q + n] == s[..q + n];
  }

  lemma SplitOnWs(s: JsString, q: nat)
    requires q <= |s| && NoWs(s[..q])
    ensures forall i :: 0 <= i < |Split(WsRun, s, q)| ==> NoWs(Split(WsRun, s, q)[i])
    ensures Concat(Split(WsRun, s, q)) == NonWs(s)
  {
    SplitPiecesNoWs(s, q);
    SplitConcat(s, q);
  }

  lemma {:induction false} SplitPiecesNoWs(s: JsString, q: nat)
    requires q <= |s| && NoWs(s[..q])
    ensures forall i :: 0 <= i < |Split(WsRun, s, q)| ==> NoWs(Split(WsRun, s, q)[i])
    decreases |s| - q
  {
    if q == |s| {
      assert s[..q] == s;
      assert Split(WsRun, s, q) == [s];
    } else if MatchAt(WsRun, s[q..]) == 0 {
      WsUnmatched(s, q);
      NoWsSnoc(s, q);
      SplitPiecesNoWs(s, q + 1);
    } else {
      var n := WsMatched(s, q);
      var rest := s[q + n..];
      assert rest[..0] == [];
      SplitPiecesNoWs(rest, 0);
      ConsNoWs(s[..q], Split(WsRun, rest, 0));
    }
  }

  lemma ConsNoWs(head: JsString, tail: seq<JsString>)
    requires NoWs(head) && forall i :: 0 <= i < |tail| ==> NoWs(tail[i])
    ensures forall i :: 0 <= i < |[head] + tail| ==> NoWs(([head] + tail)[i])
  {
    forall i | 0 < i < |[head] + tail|
      ensures NoWs(([head] + tail)[i])
    {
      assert ([head] + tail)[i] == tail[i - 1];
    }
  }

  lemma ConsNonEmpty(head: JsString, tail: seq<JsString>)
    requires head != [] && forall i :: 0 <= i < |tail| ==> tail[i] != []
    ensures forall i :: 0 <= i < |[head] + tail| ==> ([head] + tail)[i] != []
  {
    forall i | 0 < i < |[head] + tail|
      ensures ([head] + tail)[i] != []
    {
      assert ([head] + tail)[i] == tail[i - 1];
    }
  }

  lemma NoWsSnoc(s: JsString, q: nat)
    requires q < |s| && NoWs(s[..q]) && !IsWs(s[q])
    ensures NoWs(s[..q + 1])
  {
    assert s[..q + 1] == s[..q] + [s[q]];
  }

  lemma {:induction false} SplitConcat(s: JsString, q: nat)
    requires q <= |s| && NoWs(s[..q])
    ensures Concat(Split(WsRun, s, q)) == NonWs(s)
    decreases |s| - q
  {
    if q == |s| {
      assert s[..q] == s;
      NonWsOfNoWs(s);
      assert Split(WsRun, s, q) == [s];
      assert Concat([s]) == s + Concat([]);
    } else if MatchAt(WsRun, s[q..]) == 0 {
      WsUnmatched(s, q);
      NoWsSnoc(s, q);
      SplitConcat(s, q + 1);
    } else {
      var n := WsMatched(s, q);
      var rest := s[q + n..];
      assert rest[..0] == [];
      SplitConcat(rest, 0);
      ConcatCons(s[..q], Split(WsRun, rest, 0));
      NonWsAcrossSeparator(s[..q], s[q..q + n], rest);
    }
  }

  lemma NonWsAcrossSeparator(head: JsString, sep: JsString, rest: JsString)
    requires NoWs(head) && AllWs(sep)
    ensures NonWs(head + sep + rest) == head + NonWs(rest)
  {
    calc {
      NonWs(head + sep + rest);
      { NonWsAppend(head + sep, rest); }
      NonWs(head + sep) + NonWs(rest);
      { NonWsAppend(head, sep); NonWsOfNoWs(head); NonWsOfAllWs(sep); }
      head + [] + NonWs(rest);
    }
    assert head + [] == head;
  }

  lemma ConcatCons(head: JsString, tail: seq<JsString>)
    ensures Concat([head] + tail) == head + Concat(tail)
  {
    assert ([head] + tail)[1..] == tail;
  }

  lemma {:induction false} SplitOnWsNonEmpty(s: JsString, q: nat)
    requires q <= |s|
    requires s != [] && !IsWs(s[0]) && !IsWs(s[|s| - 1])
    ensures forall i :: 0 <= i < |Split(WsRun, s, q)| ==> Split(WsRun, s, q)[i] != []
    decreases |s| - q
  {
    if q == |s| {
      assert Split(WsRun, s, q) == [s];
    } else if MatchAt(WsRun, s[q..]) == 0 {
      WsUnmatched(s, q);
      SplitOnWsNonEmpty(s, q + 1);
    } else {
      var n := WsMatched(s, q);
      var rest := s[q + n..];
      assert q > 0 && q + n < |s|;
      assert rest[0] == s[q + n] && rest[|rest| - 1] == s[|s| - 1];
      SplitOnWsNonEmpty(rest, 0);
      ConsNonEmpty(s[..q], Split(WsRun, rest, 0));
    }
  }

  lemma {:induction false} SeparatorsAreWs(s: JsString, q: nat)
    requires q <= |s|
    ensures forall i :: 0 <= i < |Separators(s, q)| ==>
      Separators(s, q)[i] != [] && AllWs(Separators(s, q)[i])
    decreases |s| - q
  {
    if q == |s| {
    } else if MatchAt(WsRun, s[q..]) == 0 {
      WsUnmatched(s, q);
      SeparatorsAreWs(s, q + 1);
    } else {
      var n := WsMatched(s, q);
      SeparatorsAreWs(s[q + n..], 0);
    }
  }

  lemma {:induction false} SplitReweaves(s: JsString, q: nat)
    requires q <= |s|
    ensures s == Weave(Split(WsRun, s, q), Separators(s, q))
    decreases |s| - q
  {
    if q == |s| {
      assert Split(WsRun, s, q) == [s];
    } else if MatchAt(WsRun, s[q..]) == 0 {
      WsUnmatched(s, q);
      SplitReweaves(s, q + 1);
    } else {
      var n := WsMatched(s, q);
      var rest := s[q + n..];
      SplitReweaves(rest, 0);
      WeaveCons(s[..q], s[q..q + n], Split(WsRun, rest, 0), Separators(rest, 0));
    }
  }

  lemma WeaveCons(tok: JsString, sep: JsString, toks: seq<JsString>, seps: seq<JsString>)
    requires |toks| == |seps| + 1
    ensures Weave([tok] + toks, [sep] + seps) == tok + sep + Weave(toks, seps)
  {
    assert ([tok] + toks)[1..] == toks;
    assert ([sep] + seps)[1..] == seps;
  }

  lemma {:induction false} SkipUnmatched(s: JsString, q: nat, k: nat)
    requires q <= k <= |s| && NoWs(s[q..k])
    ensures Split(WsRun, s, q) == Split(WsRun, s, k)
    decreases k - q
  {
    if q < k {
      assert s[q..][0] == s[q..k][0];
      WsUnmatched(s, q);
      assert s[q + 1..k] == s[q..k][1..];
      SkipUnmatched(s, q + 1, k);
    }
  }

  lemma {:induction false} LeadingWsFramed(ws: JsString, rest: JsString)
    requires AllWs(ws)
    requires rest != [] && !IsWs(rest[0])
    ensures LeadingWs(ws + rest) == |ws|
  {
    if ws == [] {
      assert ws + rest == rest;
    } else {
      assert (ws + rest)[1..] == ws[1..] + rest;
      LeadingWsFramed(ws[1..], rest);
    }
  }

  lemma {:induction false} WeaveEnds(toks: seq<JsString>, seps: seq<JsString>)
    requires |toks| == |seps| + 1
    requires forall i :: 0 <= i < |toks| ==> toks[i] != []
    ensures var w := Weave(toks, seps);
      && |w| >= |toks[0]| && w[..|toks[0]|] == toks[0]
      && w[|w| - 1] == toks[|toks| - 1][|toks[|toks| - 1]| - 1]
    decreases |seps|
  {
    if seps != [] {
      var rest := Weave(toks[1..], seps[1..]);
      assert toks[1..][|toks| - 2] == toks[|toks| - 1];
      WeaveEnds(toks[1..], seps[1..]);
      var w := toks[0] + seps[0] + rest;
      assert Weave(toks, seps) == w;
      assert w[..|toks[0]|] == toks[0];
      assert w[|w| - 1] == rest[|rest| - 1];
    }
  }

  lemma {:induction false} SplitWeave(toks: seq<JsString>, seps: seq<JsString>)
    requires WellFormedWords(toks, seps)
    ensures Split(WsRun, Weave(toks, seps), 0) == toks
    decreases |seps|
  {
    var s := Weave(toks, seps);
    var k := |toks[0]|;
    WeaveEnds(toks, seps);
    assert NoWs(s[0..k]) by {
      assert s[0..k] == toks[0];
    }
    SkipUnmatched(s, 0, k);
    if seps == [] {
      assert Split(WsRun, s, k) == [s];
    } else {
      var rest := Weave(toks[1..], seps[1..]);
      assert WellFormedWords(toks[1..], seps[1..]);
      WeaveEnds(toks[1..], seps[1..]);
      SplitWeave(toks[1..], seps[1..]);
      assert s == toks[0] + seps[0] + rest;
      WovenStep(s, toks[0], seps[0], rest);
      assert toks == [toks[0]] + toks[1..];
    }
  }

  /** One step of the tokeniser over `tok + sep + rest`: the matcher, tried
      right after `tok`, consumes exactly `sep`. */
  lemma WovenStep(s: JsString, tok: JsString, sep: JsString, rest: JsString)
    requires s == tok + sep + rest
    requires sep != [] && AllWs(sep)
    requires rest != [] && !IsWs(rest[0])
    ensures Split(WsRun, s, |tok|) == [tok] + Split(WsRun, rest, 0)
  {
    var k := |tok|;
    assert s[k..] == sep + rest;
    LeadingWsFramed(sep, rest);
    assert MatchAt(WsRun, s[k..]) == |sep|;
    assert s[k + |sep|..] == rest;
    assert s[..k] == tok;
  }
}
