/** JavaScript strings as the word counter sees them: sequences of UTF-16 code
    units, with the whitespace class that `\s` and `String.prototype.trim`
    share, and the few sequence operations the metrics are stated with. */
module JsText {

  /** One UTF-16 code unit; a JavaScript string's `length` counts these. */
  newtype CodeUnit = u: int | 0 <= u < 0x1_0000

  type JsString = seq<CodeUnit>

  const LF: CodeUnit := 0x0A
  const CR: CodeUnit := 0x0D

  /** WhiteSpace together with LineTerminator (ECMA-262, the `\s` class escape
      of section 22.2.2.9 and `String.prototype.trim` of section 22.1.3.32):
      TAB LF VT FF CR, SP, NBSP, the other Unicode space separators (Zs),
      LS PS, and ZWNBSP. */
  predicate IsWs(c: CodeUnit) {
    || (0x09 <= c <= 0x0D) || c == 0x20 || c == 0xA0 || c == 0x1680 || (0x2000 <= c <= 0x200A)
    || c == 0x2028 || c == 0x2029 || c == 0x202F || c == 0x205F || c == 0x3000 || c == 0xFEFF
  }

  predicate AllWs(s: JsString) {
    forall i :: 0 <= i < |s| ==> IsWs(s[i])
  }

  predicate NoWs(s: JsString) {
    forall i :: 0 <= i < |s| ==> !IsWs(s[i])
  }

  predicate NoDup<T(==)>(s: seq<T>) {
    forall i, j :: 0 <= i < j < |s| ==> s[i] != s[j]
  }

  /** The non-whitespace code units of `s`, in order. */
  function NonWs(s: JsString): (r: JsString)
    ensures NoWs(r)
    ensures |r| <= |s|
  {
    if s == [] then []
    else (if IsWs(s[0]) then [] else [s[0]]) + NonWs(s[1..])
  }

  /** `s` with every occurrence of `c` removed. */
  function Without(s: JsString, c: CodeUnit): JsString {
    if s == [] then []
    else (if s[0] == c then [] else [s[0]]) + Without(s[1..], c)
  }

  /** The pieces glued end to end. */
  function Concat(pieces: seq<JsString>): JsString {
    if pieces == [] then [] else pieces[0] + Concat(pieces[1..])
  }

  /** The pieces glued with `sep` between neighbours (`Array.prototype.join`). */
  function Join(pieces: seq<JsString>, sep: JsString): JsString {
    if pieces == [] then []
    else if |pieces| == 1 then pieces[0]
    else pieces[0] + sep + Join(pieces[1..], sep)
  }

  /** Drops the leading whitespace (see `TrimStartSpec`). */
  function TrimStart(s: JsString): (r: JsString)
    ensures |r| <= |s|
  {
    if s != [] && IsWs(s[0]) then TrimStart(s[1..]) else s
  }

  /** Drops the trailing whitespace (see `TrimEndSpec`). */
  function TrimEnd(s: JsString): (r: JsString)
    ensures |r| <= |s|
  {
    if s != [] && IsWs(s[|s| - 1]) then TrimEnd(s[..|s| - 1]) else s
  }

  /** What `TrimStart` leaves is a suffix that does not start with whitespace,
      and everything it dropped is whitespace. */
  lemma {:induction false} TrimStartSpec(s: JsString)
    ensures var r := TrimStart(s);
      var k := |s| - |r|;
      && s[k..] == r
      && AllWs(s[..k])
      && (r == [] || !IsWs(r[0]))
  {
    if s != [] && IsWs(s[0]) {
      var t := s[1..];
      TrimStartSpec(t);
      var r := TrimStart(t);
      var k := |t| - |r|;
      assert s[k + 1..] == t[k..];
      assert s[..k + 1] == [s[0]] + t[..k];
      AllWsCons(s[..k + 1]);
    }
  }

  /** What `TrimEnd` leaves is a prefix that does not end with whitespace,
      and everything it dropped is whitespace. */
  lemma {:induction false} TrimEndSpec(s: JsString)
    ensures var r := TrimEnd(s);
      && s[..|r|] == r
      && AllWs(s[|r|..])
      && (r == [] || !IsWs(r[|r| - 1]))
  {
    if s != [] && IsWs(s[|s| - 1]) {
      var t := s[..|s| - 1];
      TrimEndSpec(t);
      var r := TrimEnd(t);
      assert s[..|r|] == t[..|r|];
      assert s[|r|..] == t[|r|..] + [s[|s| - 1]];
      AllWsSnoc(s[|r|..]);
    }
  }

  /** `String.prototype.trim`. */
  function Trim(s: JsString): JsString {
    TrimEnd(TrimStart(s))
  }

  /** The whitespace `trim` removes in front of the text. */
  function LeadingMargin(text: JsString): JsString {
    text[..|text| - |TrimStart(text)|]
  }

  /** The whitespace `trim` removes behind the text. */
  function TrailingMargin(text: JsString): JsString {
    TrimStart(text)[|TrimEnd(TrimStart(text))|..]
  }

  /** The text is the trimmed text between two whitespace margins. */
  lemma TrimMargins(text: JsString)
    ensures AllWs(LeadingMargin(text)) && AllWs(TrailingMargin(text))
    ensures text == LeadingMargin(text) + Trim(text) + TrailingMargin(text)
  {
    var t := TrimStart(text);
    TrimStartSpec(text);
    TrimEndSpec(t);
    assert text == LeadingMargin(text) + t;
    assert t == Trim(text) + TrailingMargin(text);
  }

  /** Trimming leaves nothing exactly when the text is all whitespace;
      otherwise what is left starts and ends with non-whitespace; and it keeps
      every non-whitespace code unit. */
  lemma TrimSpec(s: JsString)
    ensures Trim(s) == [] <==> AllWs(s)
    ensures Trim(s) != [] ==> !IsWs(Trim(s)[0]) && !IsWs(Trim(s)[|Trim(s)| - 1])
    ensures NonWs(Trim(s)) == NonWs(s)
  {
    TrimKeepsNonWs(s);
    TrimEmptyIffBlank(s);
    TrimBoundaries(s);
  }

  lemma TrimBoundaries(s: JsString)
    ensures var r := TrimEnd(TrimStart(s));
      r != [] ==> !IsWs(r[0]) && !IsWs(r[|r| - 1])
  {
    var t := TrimStart(s);
    var r := TrimEnd(t);
    TrimStartSpec(s);
    TrimEndSpec(t);
    if r != [] {
      assert r[0] == t[0];
    }
  }

  lemma TrimKeepsNonWs(s: JsString)
    ensures NonWs(TrimEnd(TrimStart(s))) == NonWs(s)
  {
    var t := TrimStart(s);
    var r := TrimEnd(t);
    TrimStartSpec(s);
    TrimEndSpec(t);
    assert s == s[..|s| - |t|] + t;
    assert t == r + t[|r|..];
    NonWsAppend(s[..|s| - |t|], t);
    NonWsAppend(r, t[|r|..]);
    NonWsOfAllWs(s[..|s| - |t|]);
    NonWsOfAllWs(t[|r|..]);
  }

  lemma TrimEmptyIffBlank(s: JsString)
    ensures TrimEnd(TrimStart(s)) == [] <==> AllWs(s)
  {
    var t := TrimStart(s);
    TrimStartSpec(s);
    TrimStartBlank(s);
    TrimEndBlank(t);
    if t != [] {
      assert !IsWs(t[0]);
    }
  }

  lemma {:induction false} TrimStartBlank(s: JsString)
    ensures TrimStart(s) == [] <==> AllWs(s)
  {
    if s != [] {
      AllWsCons(s);
      if IsWs(s[0]) {
        TrimStartBlank(s[1..]);
      }
    }
  }

  lemma {:induction false} TrimEndBlank(s: JsString)
    ensures TrimEnd(s) == [] <==> AllWs(s)
  {
    if s != [] {
      AllWsSnoc(s);
      if IsWs(s[|s| - 1]) {
        TrimEndBlank(s[..|s| - 1]);
      }
    }
  }

  lemma AllWsCons(s: JsString)
    requires s != []
    ensures AllWs(s) <==> IsWs(s[0]) && AllWs(s[1..])
  {
    assert forall i :: 0 <= i < |s[1..]| ==> s[1..][i] == s[i + 1];
  }

  lemma AllWsSnoc(s: JsString)
    requires s != []
    ensures AllWs(s) <==> IsWs(s[|s| - 1]) && AllWs(s[..|s| - 1])
  {
    assert forall i :: 0 <= i < |s| - 1 ==> s[..|s| - 1][i] == s[i];
  }

  lemma {:induction false} NonWsAppend(a: JsString, b: JsString)
    ensures NonWs(a + b) == NonWs(a) + NonWs(b)
  {
    if a == [] {
      assert a + b == b;
    } else {
      assert (a + b)[1..] == a[1..] + b;
      NonWsAppend(a[1..], b);
    }
  }

  lemma {:induction false} NonWsOfAllWs(s: JsString)
    requires AllWs(s)
    ensures NonWs(s) == []
  {
    if s != [] {
      NonWsOfAllWs(s[1..]);
    }
  }

  lemma {:induction false} NonWsOfNoWs(s: JsString)
    requires NoWs(s)
    ensures NonWs(s) == s
  {
    if s != [] {
      NonWsOfNoWs(s[1..]);
      assert s == [s[0]] + s[1..];
    }
  }

  lemma AllWsAppend(a: JsString, b: JsString)
    requires AllWs(a) && AllWs(b)
    ensures AllWs(a + b)
  {
  }

  lemma {:induction false} WithoutAppend(a: JsString, b: JsString, c: CodeUnit)
    ensures Without(a + b, c) == Without(a, c) + Without(b, c)
  {
    if a == [] {
      assert a + b == b;
    } else {
      assert (a + b)[1..] == a[1..] + b;
      WithoutAppend(a[1..], b, c);
    }
  }

  lemma {:induction false} ConcatAppend(a: seq<JsString>, b: seq<JsString>)
    ensures Concat(a + b) == Concat(a) + Concat(b)
  {
    if a == [] {
      assert a + b == b;
    } else {
      assert (a + b)[1..] == a[1..] + b;
      ConcatAppend(a[1..], b);
    }
  }

  /** Trimming recovers exactly the middle of a text whose margins are
      whitespace and whose middle starts and ends with non-whitespace. */
  lemma TrimFramed(lead: JsString, body: JsString, trail: JsString)
    requires AllWs(lead) && AllWs(trail)
    requires body != [] && !IsWs(body[0]) && !IsWs(body[|body| - 1])
    ensures Trim(lead + body + trail) == body
  {
    assert lead + body + trail == lead + (body + trail);
    TrimStartSkipsLead(lead, body + trail);
    TrimEndSkipsTrail(body, trail);
  }

  lemma {:induction false} TrimStartSkipsLead(lead: JsString, rest: JsString)
    requires AllWs(lead)
    requires rest != [] && !IsWs(rest[0])
    ensures TrimStart(lead + rest) == rest
  {
    if lead == [] {
      assert lead + rest == rest;
    } else {
      assert (lead + rest)[1..] == lead[1..] + rest;
      TrimStartSkipsLead(lead[1..], rest);
    }
  }

  lemma {:induction false} TrimEndSkipsTrail(rest: JsString, trail: JsString)
    requires AllWs(trail)
    requires rest != [] && !IsWs(rest[|rest| - 1])
    ensures TrimEnd(rest + trail) == rest
  {
    if trail == [] {
      assert rest + trail == rest;
    } else {
      var n := |trail| - 1;
      assert (rest + trail)[..|rest + trail| - 1] == rest + trail[..n];
      TrimEndSkipsTrail(rest, trail[..n]);
    }
  }
}
