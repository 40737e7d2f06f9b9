/** `String.prototype.split` with a regular-expression separator, for the two
    separators the word counter uses. */
module RegexSplit {
  import opened JsText

  /** `/\s+/` (word separator) and `/\r*\n/` (line separator). */
  datatype Pattern = WsRun | CrLf

  predicate AllCr(s: JsString) {
    forall i :: 0 <= i < |s| ==> s[i] == CR
  }

  /** Length of the longest all-whitespace prefix of `s`. */
  function LeadingWs(s: JsString): (n: nat)
    ensures n <= |s|
  {
    if s != [] && IsWs(s[0]) then 1 + LeadingWs(s[1..]) else 0
  }

  /** Length of the longest all-CR prefix of `s`. */
  function LeadingCrs(s: JsString): (n: nat)
    ensures n <= |s|
  {
    if s != [] && s[0] == CR then 1 + LeadingCrs(s[1..]) else 0
  }

  /** Length of the match of `pat` anchored at the start of `s`, or 0 when
      there is none. Both patterns are greedy and neither matches the empty
      string, so 0 is never the length of a match. */
  function MatchAt(pat: Pattern, s: JsString): (n: nat)
    ensures n <= |s|
  {
    match pat
    case WsRun => LeadingWs(s)
    case CrLf =>
      var k := LeadingCrs(s);
      if k < |s| && s[k] == LF then k + 1 else 0
  }

  /** `LeadingWs` is the longest whitespace prefix: all of it is whitespace,
      and it stops at the first code unit that is not. */
  lemma {:induction false} LeadingWsSpec(s: JsString)
    ensures var n := LeadingWs(s);
      && AllWs(s[..n])
      && (n < |s| ==> !IsWs(s[n]))
  {
    if s != [] && IsWs(s[0]) {
      LeadingWsSpec(s[1..]);
      var n := LeadingWs(s);
      assert s[..n] == [s[0]] + s[1..][..n - 1];
    }
  }

  /** `LeadingCrs` is the longest all-CR prefix. */
  lemma {:induction false} LeadingCrsSpec(s: JsString)
    ensures var n := LeadingCrs(s);
      && AllCr(s[..n])
      && (n < |s| ==> s[n] != CR)
  {
    if s != [] && s[0] == CR {
      LeadingCrsSpec(s[1..]);
      var n := LeadingCrs(s);
      assert s[..n] == [s[0]] + s[1..][..n - 1];
    }
  }

  /** `/\s+/` at the start of `s` matches the maximal run of whitespace there,
      and matches at all exactly when `s` starts with whitespace. */
  lemma WsRunMatch(s: JsString)
    ensures var n := MatchAt(WsRun, s);
      && AllWs(s[..n])
      && (n < |s| ==> !IsWs(s[n]))
      && (n > 0 <==> s != [] && IsWs(s[0]))
  {
    LeadingWsSpec(s);
  }

  /** `/\r*\n/` at the start of `s` matches CRs followed by one LF; when it
      does not match, no LF in `s` is preceded by CRs alone. */
  lemma CrLfMatch(s: JsString)
    ensures var n := MatchAt(CrLf, s);
      && (n > 0 ==> s[n - 1] == LF && AllCr(s[..n - 1]))
      && (n == 0 ==> forall k :: 0 <= k < |s| && s[k] == LF ==> !AllCr(s[..k]))
  {
    LeadingCrsSpec(s);
    var k := LeadingCrs(s);
    if k < |s| && s[k] == LF {
      assert s[..k + 1][..k] == s[..k];
    } else {
      forall j | 0 <= j < |s| && s[j] == LF
        ensures !AllCr(s[..j])
      {
        if k < j {
          assert s[..j][k] == s[k];
        }
      }
    }
  }

  /** The pieces of the splitter loop of `String.prototype.split` when the
      separator is a RegExp and no limit is given (ECMA-262, section 22.2.6.14,
      `RegExp.prototype[@@split]`). `s` is the input from the start of the
      current piece on, and `q` is where the sticky matcher is tried next: no
      match moves `q` on by one code unit; a match closes the piece `s[..q]`
      and the next piece starts right after the match. When the matcher has
      run off the end, the rest is the last piece. The special case for an
      empty input (return `[S]` when the separator does not match it) needs no
      branch of its own: neither pattern matches the empty string, and the
      loop then yields the same `[S]`. */
  function Split(pat: Pattern, s: JsString, q: nat): (pieces: seq<JsString>)
    requires q <= |s|
    ensures |pieces| >= 1
    decreases |s| - q
  {
    if q == |s| then [s]
    else
      var n := MatchAt(pat, s[q..]);
      if n == 0 then Split(pat, s, q + 1)
      else [s[..q]] + Split(pat, s[q + n..], 0)
  }
}
