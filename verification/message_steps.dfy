/**
 * What each step of the message parser commits to, stated against the byte
 * classes of module Grammar: one lemma per element of a start line or a
 * field line, each giving the step's exact outcome on the buffer it sees.
 */
module MessageSteps {
  import opened Abnf
  import opened Grammar
  import opened GrammarProperties
  import opened RequestTarget
  import opened Message

  /** method and field-name: the whole leading tchar run, or absent when it is empty. */
  lemma TokenStep(d: seq<byte>, f: Finder, e: string)
    requires f == FindMethod || f == FindFieldName
    ensures var n := Run(IsTChar, d);
      TakeLongest(d, f, e) == if n == 0 then Failure(e) else Success(ParseResult(d[..n], d[n..]))
  {
    TokenMatches(d);
    LongestOfUpto(d, f, 1, Run(IsTChar, d));
  }

  /** A token run that stops at a byte outside tchar. */
  lemma TokenStepOn(name: seq<byte>, rest: seq<byte>, f: Finder, e: string)
    requires f == FindMethod || f == FindFieldName
    requires IsToken(name) && |rest| > 0 && !IsTChar(rest[0])
    ensures TakeLongest(name + rest, f, e) == Success(ParseResult(name, rest))
  {
    var d := name + rest;
    RunOfPrefix(IsTChar, name, rest);
    TokenStep(d, f, e);
    assert d[..|name|] == name && d[|name|..] == rest;
  }

  /** One SP, longest match. */
  lemma SpStep(d: seq<byte>, e: string)
    ensures TakeLongest(d, FindSp, e) ==
      if |d| > 0 && d[0] == SP then Success(ParseResult([SP], d[1..])) else Failure(e)
  {
    LongestOfByte(d, FindSp, SP);
  }

  lemma SpStepOn(rest: seq<byte>, e: string)
    ensures TakeLongest([SP] + rest, FindSp, e) == Success(ParseResult([SP], rest))
  {
    SpStep([SP] + rest, e);
    assert ([SP] + rest)[1..] == rest;
  }

  /** ":" by the shortest match. */
  lemma ColonStep(d: seq<byte>, e: string)
    ensures TakeShortest(d, FindColon, e) ==
      if |d| > 0 && d[0] == COLON then Success(ParseResult([COLON], d[1..])) else Failure(e)
  {
    ShortestOfByte(d, FindColon, COLON);
  }

  /** CRLF by the shortest match. */
  lemma CrLfStep(d: seq<byte>, e: string)
    ensures TakeShortest(d, FindCrLf, e) ==
      if |d| >= 2 && d[..2] == CRLF then Success(ParseResult(CRLF, d[2..])) else Failure(e)
  {
    ShortestOfBytes(d, FindCrLf, CRLF);
  }

  lemma CrLfStepOn(rest: seq<byte>, e: string)
    ensures TakeShortest(CRLF + rest, FindCrLf, e) == Success(ParseResult(CRLF, rest))
  {
    var d := CRLF + rest;
    CrLfStep(d, e);
    assert d[..2] == CRLF && d[2..] == rest;
  }

  /** CRLF by the longest match: the same outcome as the shortest, since CRLF matches only at 2. */
  lemma CrLfLongestStep(d: seq<byte>, e: string)
    ensures TakeLongest(d, FindCrLf, e) == TakeShortest(d, FindCrLf, e)
  {
    CrLfStep(d, e);
    if |d| >= 2 && d[..2] == CRLF {
      LongestIs(d, FindCrLf, 2);
    } else {
      LongestNone(d, FindCrLf);
    }
  }

  /** OWS: the whole leading SP/HTAB run, possibly empty. */
  lemma OwsStep(d: seq<byte>)
    ensures var n := Run(IsWs, d);
      ParseLongest(d, FindOws) == ParseResult(d[..n], d[n..])
  {
    WhitespaceMatches(d);
    LongestOfUpto(d, FindOws, 0, Run(IsWs, d));
  }

  /** HTTP-version: the first 8 bytes when they spell one, absent otherwise. */
  lemma VersionStep(d: seq<byte>, e: string)
    ensures TakeLongest(d, FindHttpVersion, e) ==
      if IsHttpVersionAt(d) then Success(ParseResult(d[..8], d[8..])) else Failure(e)
  {
    HttpVersionMatches(d);
    if IsHttpVersionAt(d) {
      LongestIs(d, FindHttpVersion, 8);
    } else {
      LongestNone(d, FindHttpVersion);
    }
  }

  /** status-code: the first 3 bytes when they are digits, absent otherwise. */
  lemma StatusCodeStep(d: seq<byte>, e: string)
    ensures TakeLongest(d, FindStatusCode, e) ==
      if IsStatusCodeAt(d) then Success(ParseResult(d[..3], d[3..])) else Failure(e)
  {
    StatusCodeMatches(d);
    if IsStatusCodeAt(d) {
      LongestIs(d, FindStatusCode, 3);
    } else {
      LongestNone(d, FindStatusCode);
    }
  }

  /** reason-phrase: the whole leading text-byte run, or absent when it is empty. */
  lemma ReasonStep(d: seq<byte>, e: string)
    ensures var n := Run(IsTextByte, d);
      TakeLongest(d, FindReasonPhrase, e) == if n == 0 then Failure(e) else Success(ParseResult(d[..n], d[n..]))
  {
    ReasonPhraseMatches(d);
    LongestOfUpto(d, FindReasonPhrase, 1, Run(IsTextByte, d));
  }

  lemma VersionStepOn(v: seq<byte>, rest: seq<byte>, e: string)
    requires |v| == 8 && IsHttpVersionAt(v)
    ensures TakeLongest(v + rest, FindHttpVersion, e) == Success(ParseResult(v, rest))
  {
    var d := v + rest;
    assert d[..8] == v && d[8..] == rest;
    assert d[..4] == v[..4];
    VersionStep(d, e);
  }

  lemma StatusCodeStepOn(c: seq<byte>, rest: seq<byte>, e: string)
    requires |c| == 3 && IsStatusCodeAt(c)
    ensures TakeLongest(c + rest, FindStatusCode, e) == Success(ParseResult(c, rest))
  {
    var d := c + rest;
    assert d[..3] == c && d[3..] == rest;
    StatusCodeStep(d, e);
  }

  lemma ReasonStepOn(p: seq<byte>, rest: seq<byte>, e: string)
    requires |p| > 0 && (forall i :: 0 <= i < |p| ==> IsTextByte(p[i]))
    requires |rest| > 0 && !IsTextByte(rest[0])
    ensures TakeLongest(p + rest, FindReasonPhrase, e) == Success(ParseResult(p, rest))
  {
    var d := p + rest;
    RunOfPrefix(IsTextByte, p, rest);
    ReasonStep(d, e);
    assert d[..|p|] == p && d[|p|..] == rest;
  }

  lemma ColonStepOn(rest: seq<byte>, e: string)
    ensures TakeShortest([COLON] + rest, FindColon, e) == Success(ParseResult([COLON], rest))
  {
    ColonStep([COLON] + rest, e);
    assert ([COLON] + rest)[1..] == rest;
  }

  /** OWS over a whitespace run that stops at a byte outside SP/HTAB. */
  lemma OwsStepOn(ws: seq<byte>, rest: seq<byte>)
    requires forall i :: 0 <= i < |ws| ==> IsWs(ws[i])
    requires |rest| > 0 && !IsWs(rest[0])
    ensures ParseLongest(ws + rest, FindOws) == ParseResult(ws, rest)
  {
    var d := ws + rest;
    RunOfPrefix(IsWs, ws, rest);
    OwsStep(d);
    assert d[..|ws|] == ws && d[|ws|..] == rest;
  }

  /** OWS before a byte outside SP/HTAB takes nothing. */
  lemma OwsStepNone(rest: seq<byte>)
    requires |rest| > 0 && !IsWs(rest[0])
    ensures ParseLongest(rest, FindOws) == ParseResult([], rest)
  {
    OwsStep(rest);
  }

  /** A field value followed by a byte that cannot continue it is taken whole. */
  lemma FieldValueStepOn(v: seq<byte>, rest: seq<byte>, e: string)
    requires FieldValueShape(v) && |rest| > 0 && !IsFieldContentByte(rest[0])
    ensures TakeLongest(v + rest, FindFieldValue, e) == Success(ParseResult(v, rest))
  {
    var d := v + rest;
    assert d[..|v|] == v;
    FieldValueAt(d, |v|);
    forall k | k in FindFieldValue(d) && k <= |d| ensures k <= |v| {
      FieldValueAt(d, k);
    }
    LongestIs(d, FindFieldValue, |v|);
    assert d[|v|..] == rest;
  }

  /** A field value followed by whitespace and then a byte that cannot continue it is taken without the whitespace. */
  lemma FieldValueStepBeforeWs(v: seq<byte>, ws: seq<byte>, rest: seq<byte>, e: string)
    requires FieldValueShape(v) && (forall i :: 0 <= i < |ws| ==> IsWs(ws[i]))
    requires |rest| > 0 && !IsFieldContentByte(rest[0])
    ensures TakeLongest(v + (ws + rest), FindFieldValue, e) == Success(ParseResult(v, ws + rest))
  {
    var d := v + (ws + rest);
    assert d[..|v|] == v;
    FieldValueAt(d, |v|);
    forall k | k in FindFieldValue(d) && k <= |d| ensures k <= |v| {
      if k > |v| {
        assert !FieldValueShape(d[..k]) by {
          if k <= |v| + |ws| {
            assert d[..k][k - 1] == ws[k - 1 - |v|];
          } else {
            assert d[..k][|v| + |ws|] == rest[0];
          }
        }
      }
      FieldValueAt(d, k);
    }
    LongestIs(d, FindFieldValue, |v|);
    assert d[|v|..] == ws + rest;
  }

  /** A buffer opening with a byte outside field-vchar has no field value to take. */
  lemma FieldValueAbsent(d: seq<byte>, e: string)
    requires |d| > 0 && !IsFieldVChar(d[0])
    ensures TakeLongest(d, FindFieldValue, e) == Failure(e)
    ensures 0 in FindFieldValue(d)
  {
    forall k | k in FindFieldValue(d) && k <= |d| ensures k == 0 {
      FieldValueAt(d, k);
    }
    LongestNone(d, FindFieldValue);
    FieldValueAt(d, 0);
  }

  /** What a taken field value is: a prefix of the buffer with the shape of a field value. */
  lemma FieldValueTaken(d: seq<byte>, e: string)
    requires TakeLongest(d, FindFieldValue, e).Success?
    ensures FieldValueShape(TakeLongest(d, FindFieldValue, e).value.parsed)
  {
    LongestSpec(d, FindFieldValue);
    var p := ParseLongest(d, FindFieldValue);
    assert d[..|p.parsed|] == p.parsed;
    FieldValueAt(d, |p.parsed|);
  }

  /** A taken token is a token. */
  lemma TokenTaken(d: seq<byte>, f: Finder, e: string)
    requires f == FindMethod || f == FindFieldName
    requires TakeLongest(d, f, e).Success?
    ensures IsToken(TakeLongest(d, f, e).value.parsed)
  {
    TokenStep(d, f, e);
    var n := Run(IsTChar, d);
    RunStops(IsTChar, d);
    assert forall i :: 0 <= i < n ==> d[..n][i] == d[i];
  }

  /**
   * request-target: a target that the request-target rule matches whole,
   * followed by SP, is taken whole, given URI rules that depend only on the
   * bytes they consume and never consume SP.
   */
  lemma TargetStepOn(u: UriGrammar, t: seq<byte>, rest: seq<byte>, e: string)
    requires UriLocal(u) && UriAvoids(u, SP)
    requires |t| > 0 && |t| in FindRequestTarget(u, t)
    requires |rest| > 0 && rest[0] == SP
    ensures TakeLongest(t + rest, RequestTargetFinder(u), e) == Success(ParseResult(t, rest))
  {
    var f := RequestTargetFinder(u);
    var d := t + rest;
    RequestTargetLocal(u);
    RequestTargetAvoidsSp(u);
    LocalAt(f, t, rest, |t|);
    forall k | k in f(d) && k <= |d| ensures k <= |t| {
      AvoidsBound(f, SP, d, k, |t|);
    }
    LongestIs(d, f, |t|);
    assert d[..|t|] == t && d[|t|..] == rest;
  }

  /** A taken request target is one the rule matches whole. */
  lemma TargetTaken(u: UriGrammar, d: seq<byte>, e: string)
    requires UriLocal(u)
    requires TakeLongest(d, RequestTargetFinder(u), e).Success?
    ensures var t := TakeLongest(d, RequestTargetFinder(u), e).value.parsed;
      |t| > 0 && |t| in FindRequestTarget(u, t)
  {
    var f := RequestTargetFinder(u);
    LongestSpec(d, f);
    var p := ParseLongest(d, f);
    RequestTargetLocal(u);
    LocalAt(f, p.parsed, p.remaining, |p.parsed|);
  }

  /** A taken HTTP-version is 8 bytes that spell one. */
  lemma VersionTaken(d: seq<byte>, e: string)
    requires TakeLongest(d, FindHttpVersion, e).Success?
    ensures var v := TakeLongest(d, FindHttpVersion, e).value.parsed;
      |v| == 8 && IsHttpVersionAt(v)
  {
    VersionStep(d, e);
    assert d[..8][..4] == d[..4];
  }

  /** A taken status-code is three digits. */
  lemma StatusCodeTaken(d: seq<byte>, e: string)
    requires TakeLongest(d, FindStatusCode, e).Success?
    ensures var c := TakeLongest(d, FindStatusCode, e).value.parsed;
      |c| == 3 && IsStatusCodeAt(c)
  {
    StatusCodeStep(d, e);
  }

  /** A taken reason phrase is a non-empty run of text bytes. */
  lemma ReasonTaken(d: seq<byte>, e: string)
    requires TakeLongest(d, FindReasonPhrase, e).Success?
    ensures var p := TakeLongest(d, FindReasonPhrase, e).value.parsed;
      |p| > 0 && forall i :: 0 <= i < |p| ==> IsTextByte(p[i])
  {
    ReasonStep(d, e);
    var n := Run(IsTextByte, d);
    RunStops(IsTextByte, d);
    assert forall i :: 0 <= i < n ==> d[..n][i] == d[i];
  }

  /** OWS takes only SP and HTAB. */
  lemma OwsTaken(d: seq<byte>)
    ensures var w := ParseLongest(d, FindOws).parsed;
      forall i :: 0 <= i < |w| ==> IsWs(w[i])
  {
    OwsStep(d);
    var n := Run(IsWs, d);
    RunStops(IsWs, d);
    assert forall i :: 0 <= i < n ==> d[..n][i] == d[i];
  }

  /** ":" and CRLF, when taken, are exactly those bytes. */
  lemma ColonTaken(d: seq<byte>, e: string)
    requires TakeShortest(d, FindColon, e).Success?
    ensures TakeShortest(d, FindColon, e).value.parsed == [COLON]
  {
    ColonStep(d, e);
  }

  lemma CrLfTaken(d: seq<byte>, e: string)
    requires TakeShortest(d, FindCrLf, e).Success?
    ensures TakeShortest(d, FindCrLf, e).value.parsed == CRLF
  {
    CrLfStep(d, e);
  }
}
