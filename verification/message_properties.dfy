/**
 * What the message parser and serializer of module Message promise about
 * each other: parsing inverts serializing for well-formed values, every
 * parsed value is well-formed, parsing is idempotent, and the first error
 * each parser reports is pinned to the input that causes it.
 */
module MessageProperties {
  import opened Abnf
  import opened Grammar
  import opened GrammarProperties
  import opened Message
  import opened MessageSteps

  // ---------------------------------------------------------------------
  // Well-formed values: what the parser can produce

  predicate WellFormedFieldLine(l: FieldLine)
  {
    IsToken(l.fieldName) && FieldValueShape(l.fieldValue)
  }

  predicate WellFormedFieldLines(ls: seq<FieldLine>)
  {
    forall i :: 0 <= i < |ls| ==> WellFormedFieldLine(ls[i])
  }

  predicate IsVersion(v: seq<byte>)
  {
    |v| == 8 && IsHttpVersionAt(v)
  }

  predicate IsStatusCode(c: seq<byte>)
  {
    |c| == 3 && IsStatusCodeAt(c)
  }

  /** A non-empty run of HTAB / SP / VCHAR / obs-text. */
  predicate IsReasonPhrase(p: seq<byte>)
  {
    |p| > 0 && forall i :: 0 <= i < |p| ==> IsTextByte(p[i])
  }

  /** A request target that the request-target rule matches whole. */
  predicate IsRequestTarget(u: UriGrammar, t: seq<byte>)
  {
    |t| > 0 && |t| in FindRequestTarget(u, t)
  }

  predicate WellFormedRequest(u: UriGrammar, r: Request)
  {
    && IsToken(r.requestMethod)
    && IsRequestTarget(u, r.requestTarget)
    && IsVersion(r.httpVersion)
    && WellFormedFieldLines(r.fieldLines)
  }

  predicate WellFormedResponse(r: Response)
  {
    && IsVersion(r.httpVersion)
    && IsStatusCode(r.statusCode)
    && IsReasonPhrase(r.reasonPhrase)
    && WellFormedFieldLines(r.fieldLines)
  }

  // ---------------------------------------------------------------------
  // Parsing inverts serializing

  /** The field-line parser, given the outcome of each of its steps. */
  lemma FieldLineFromSteps(name: seq<byte>, value: seq<byte>, rest: seq<byte>,
                           d0: seq<byte>, d1: seq<byte>, d2: seq<byte>, d3: seq<byte>, d4: seq<byte>)
    requires TakeLongest(d0, FindFieldName, "field-name not found") == Success(ParseResult(name, d1))
    requires TakeShortest(d1, FindColon, "\":\" after field-name not found") == Success(ParseResult([COLON], d2))
    requires ParseLongest(d2, FindOws).remaining == d3
    requires TakeLongest(d3, FindFieldValue, "field-value not found") == Success(ParseResult(value, d4))
    requires TakeShortest(ParseLongest(d4, FindOws).remaining, FindCrLf, "CRLF after field-line not found")
      == Success(ParseResult(CRLF, rest))
    ensures MarshalFieldLine(d0) == Success(Parsed(FieldLine(name, value), rest))
  {
  }

  /** field-name and ":" of a serialized field line. */
  lemma FieldLineHeadSteps(name: seq<byte>, d2: seq<byte>)
    requires IsToken(name)
    ensures TakeLongest(name + ([COLON] + d2), FindFieldName, "field-name not found")
      == Success(ParseResult(name, [COLON] + d2))
    ensures TakeShortest([COLON] + d2, FindColon, "\":\" after field-name not found") == Success(ParseResult([COLON], d2))
  {
    TokenStepOn(name, [COLON] + d2, FindFieldName, "field-name not found");
    ColonStepOn(d2, "\":\" after field-name not found");
  }

  /** OWS, field-value, OWS and CRLF of a serialized field line. */
  lemma FieldLineTailSteps(value: seq<byte>, rest: seq<byte>)
    requires FieldValueShape(value)
    ensures ParseLongest([SP] + (value + (CRLF + rest)), FindOws).remaining == value + (CRLF + rest)
    ensures TakeLongest(value + (CRLF + rest), FindFieldValue, "field-value not found")
      == Success(ParseResult(value, CRLF + rest))
    ensures TakeShortest(ParseLongest(CRLF + rest, FindOws).remaining, FindCrLf, "CRLF after field-line not found")
      == Success(ParseResult(CRLF, rest))
  {
    var d4 := CRLF + rest;
    OwsStepOn([SP], value + d4);
    FieldValueStepOn(value, d4, "field-value not found");
    OwsStepNone(d4);
    CrLfStepOn(rest, "CRLF after field-line not found");
  }

  /** One serialized field line parses back to itself, the OWS after ":" dropped. */
  lemma FieldLineRoundTrip(l: FieldLine, rest: seq<byte>)
    requires WellFormedFieldLine(l)
    ensures MarshalFieldLine(FieldLineBytes(l) + rest) == Success(Parsed(l, rest))
  {
    var name, value := l.fieldName, l.fieldValue;
    var d4 := CRLF + rest;
    var d3 := value + d4;
    var d2 := [SP] + d3;
    var d1 := [COLON] + d2;
    FieldLineBytesNest(l, rest);
    FieldLineHeadSteps(name, d2);
    FieldLineTailSteps(value, rest);
    FieldLineFromSteps(name, value, rest, name + d1, d1, d2, d3, d4);
  }

  lemma FieldLineBytesNest(l: FieldLine, rest: seq<byte>)
    ensures FieldLineBytes(l) + rest == l.fieldName + ([COLON] + ([SP] + (l.fieldValue + (CRLF + rest))))
  {
  }

  /** A buffer that opens with CR holds no field line. */
  lemma NoFieldLineAtCr(d: seq<byte>)
    requires |d| > 0 && d[0] == CR
    ensures FindFieldLine(d) == {}
  {
    assert !IsTChar(d[0]);
    assert Run(IsTChar, d) == 0;
    FieldLineNonEmpty(d);
  }

  /** A serialized field line opens with a field line. */
  lemma FieldLineOpensBytes(l: FieldLine, rest: seq<byte>)
    requires WellFormedFieldLine(l)
    ensures FindFieldLine(FieldLineBytes(l) + rest) != {}
  {
    var after := [COLON] + ([SP] + (l.fieldValue + (CRLF + rest)));
    var d := l.fieldName + after;
    FieldLineBytesNest(l, rest);
    RunOfPrefix(IsTChar, l.fieldName, after);
    assert d[|l.fieldName|] == COLON;
    FieldLineNonEmpty(d);
  }

  /** The field-line loop, given the outcome of its first round and of the rounds after it. */
  lemma FieldLinesFromStep(d: seq<byte>, l: FieldLine, after: seq<byte>, ls: seq<FieldLine>, tail: seq<byte>)
    requires FindFieldLine(d) != {}
    requires MarshalFieldLine(d) == Success(Parsed(l, after))
    requires MarshalFieldLines(after) == Success(Parsed(ls, tail))
    ensures MarshalFieldLines(d) == Success(Parsed([l] + ls, tail))
  {
  }

  lemma FieldLinesBytesCons(ls: seq<FieldLine>, tail: seq<byte>)
    requires |ls| > 0
    ensures FieldLinesBytes(ls) + tail == FieldLineBytes(ls[0]) + (FieldLinesBytes(ls[1..]) + tail)
  {
  }

  lemma WellFormedTail(ls: seq<FieldLine>)
    requires |ls| > 0 && WellFormedFieldLines(ls)
    ensures WellFormedFieldLine(ls[0]) && WellFormedFieldLines(ls[1..])
  {
    forall i | 0 <= i < |ls[1..]| ensures WellFormedFieldLine(ls[1..][i]) {
      assert ls[1..][i] == ls[i + 1];
    }
  }

  /** The field-line loop stops at once before the CR that ends the header section. */
  lemma FieldLinesStopAtCr(tail: seq<byte>)
    requires |tail| > 0 && tail[0] == CR
    ensures MarshalFieldLines(tail) == Success(Parsed([], tail))
  {
    NoFieldLineAtCr(tail);
  }

  /** One well-formed field line in front of bytes the loop reads as ls adds that line in front of ls. */
  lemma FieldLinesConsStep(l: FieldLine, after: seq<byte>, ls: seq<FieldLine>, tail: seq<byte>)
    requires WellFormedFieldLine(l)
    requires MarshalFieldLines(after) == Success(Parsed(ls, tail))
    ensures MarshalFieldLines(FieldLineBytes(l) + after) == Success(Parsed([l] + ls, tail))
  {
    FieldLineOpensBytes(l, after);
    FieldLineRoundTrip(l, after);
    FieldLinesFromStep(FieldLineBytes(l) + after, l, after, ls, tail);
  }

  /** One more serialized field line in front of lines that already parse back. */
  lemma FieldLinesRoundTripStep(ls: seq<FieldLine>, tail: seq<byte>)
    requires |ls| > 0 && WellFormedFieldLine(ls[0])
    requires MarshalFieldLines(FieldLinesBytes(ls[1..]) + tail) == Success(Parsed(ls[1..], tail))
    ensures MarshalFieldLines(FieldLinesBytes(ls) + tail) == Success(Parsed(ls, tail))
  {
    var after := FieldLinesBytes(ls[1..]) + tail;
    FieldLinesConsStep(ls[0], after, ls[1..], tail);
    FieldLinesBytesCons(ls, tail);
    HeadTail(ls);
  }

  /**
   * Serialized field lines parse back to the same lines, in the same order,
   * duplicates kept, and the loop stops at the CR that ends the header section.
   */
  lemma {:induction false} FieldLinesRoundTrip(ls: seq<FieldLine>, tail: seq<byte>)
    requires WellFormedFieldLines(ls)
    requires |tail| > 0 && tail[0] == CR
    ensures MarshalFieldLines(FieldLinesBytes(ls) + tail) == Success(Parsed(ls, tail))
    decreases |ls|
  {
    if |ls| == 0 {
      assert FieldLinesBytes(ls) + tail == tail;
      FieldLinesStopAtCr(tail);
    } else {
      WellFormedTail(ls);
      FieldLinesRoundTrip(ls[1..], tail);
      FieldLinesRoundTripStep(ls, tail);
    }
  }

  /** Three fields joined by SP, then the rest, regrouped from the right. */
  lemma LineNest(a: seq<byte>, b: seq<byte>, c: seq<byte>, rest: seq<byte>)
    ensures a + [SP] + b + [SP] + c + rest == a + ([SP] + (b + ([SP] + (c + rest))))
  {
  }

  /** A start line, CRLF, field lines, CRLF and body, regrouped from the right after the start line. */
  lemma MessageNest(line: seq<byte>, fields: seq<byte>, body: seq<byte>)
    ensures line + CRLF + fields + CRLF + body == line + (CRLF + (fields + (CRLF + body)))
  {
  }

  lemma RequestLineRoundTrip(u: UriGrammar, m: seq<byte>, t: seq<byte>, v: seq<byte>, rest: seq<byte>)
    requires UriLocal(u) && UriAvoids(u, SP)
    requires IsToken(m) && IsRequestTarget(u, t) && IsVersion(v)
    ensures MarshalRequestLine(u, m + [SP] + t + [SP] + v + rest) == Success(Parsed(RequestLine(m, t, v), rest))
  {
    var d3 := [SP] + (v + rest);
    var d1 := [SP] + (t + d3);
    LineNest(m, t, v, rest);
    TokenStepOn(m, d1, FindMethod, "method not found");
    SpStepOn(t + d3, "SP after method not found");
    TargetStepOn(u, t, d3, "request-target not found");
    SpStepOn(v + rest, "SP after request-target not found");
    VersionStepOn(v, rest, "http-version not found");
  }

  lemma StatusLineRoundTrip(v: seq<byte>, c: seq<byte>, p: seq<byte>, rest: seq<byte>)
    requires IsVersion(v) && IsStatusCode(c) && IsReasonPhrase(p)
    requires |rest| > 0 && !IsTextByte(rest[0])
    ensures MarshalStatusLine(v + [SP] + c + [SP] + p + rest) == Success(Parsed(StatusLine(v, c, p), rest))
  {
    var d3 := [SP] + (p + rest);
    var d1 := [SP] + (c + d3);
    LineNest(v, c, p, rest);
    VersionStepOn(v, d1, "http-version not found");
    SpStepOn(c + d3, "SP after http-version not found");
    StatusCodeStepOn(c, d3, "status-code not found");
    SpStepOn(p + rest, "SP after status-code not found");
    ReasonStepOn(p, rest, "reason-phrase not found");
  }

  /** Parsing a serialized well-formed request gives the request back, body included. */
  lemma RequestRoundTrip(u: UriGrammar, r: Request)
    requires UriLocal(u) && UriAvoids(u, SP)
    requires WellFormedRequest(u, r)
    ensures MarshalRequest(u, UnmarshalRequest(r)) == Success(r)
  {
    var e2 := CRLF + r.messageBody;
    var e1 := FieldLinesBytes(r.fieldLines) + e2;
    var rest := CRLF + e1;
    MessageNest(r.requestMethod + [SP] + r.requestTarget + [SP] + r.httpVersion, FieldLinesBytes(r.fieldLines), r.messageBody);
    RequestLineRoundTrip(u, r.requestMethod, r.requestTarget, r.httpVersion, rest);
    CrLfStepOn(e1, "CRLF after request-line not found");
    FieldLinesRoundTrip(r.fieldLines, e2);
    CrLfStepOn(r.messageBody, "CRLF before message-body not found");
  }

  /** Parsing a serialized well-formed response gives the response back, body included. */
  lemma ResponseRoundTrip(r: Response)
    requires WellFormedResponse(r)
    ensures MarshalResponse(UnmarshalResponse(r)) == Success(r)
  {
    var e2 := CRLF + r.messageBody;
    var e1 := FieldLinesBytes(r.fieldLines) + e2;
    var rest := CRLF + e1;
    MessageNest(r.httpVersion + [SP] + r.statusCode + [SP] + r.reasonPhrase, FieldLinesBytes(r.fieldLines), r.messageBody);
    StatusLineRoundTrip(r.httpVersion, r.statusCode, r.reasonPhrase, rest);
    CrLfStepOn(e1, "CRLF after request-line not found");
    FieldLinesRoundTrip(r.fieldLines, e2);
    CrLfStepOn(r.messageBody, "CRLF before message-body not found");
  }

  // ---------------------------------------------------------------------
  // What the parser produces is well-formed, and it reads the input in order

  /**
   * A parsed request line is a token, a request target the rule matches
   * whole and an HTTP-version, and the input is exactly those three fields
   * joined by single SPs, followed by the bytes left over.
   */
  lemma RequestLineSound(u: UriGrammar, d: seq<byte>)
    requires UriLocal(u) && MarshalRequestLine(u, d).Success?
    ensures var r := MarshalRequestLine(u, d).value;
      && IsToken(r.value.requestMethod)
      && IsRequestTarget(u, r.value.requestTarget)
      && IsVersion(r.value.httpVersion)
      && d == r.value.requestMethod + ([SP] + (r.value.requestTarget + ([SP] + (r.value.httpVersion + r.remaining))))
  {
    var m := TakeLongest(d, FindMethod, "method not found").value;
    TokenTaken(d, FindMethod, "method not found");
    var s1 := TakeLongest(m.remaining, FindSp, "SP after method not found").value;
    SpStep(m.remaining, "SP after method not found");
    var t := TakeLongest(s1.remaining, RequestTargetFinder(u), "request-target not found").value;
    TargetTaken(u, s1.remaining, "request-target not found");
    var s2 := TakeLongest(t.remaining, FindSp, "SP after request-target not found").value;
    SpStep(t.remaining, "SP after request-target not found");
    var v := TakeLongest(s2.remaining, FindHttpVersion, "http-version not found").value;
    VersionTaken(s2.remaining, "http-version not found");
  }

  /**
   * The request target is the longest match, over the union of the four
   * request-target forms, in the bytes after the method and its SP.
   */
  lemma RequestTargetLongest(u: UriGrammar, d: seq<byte>)
    requires MarshalRequestLine(u, d).Success?
    ensures var r := MarshalRequestLine(u, d).value;
      var t := r.value.requestTarget;
      var d1 := t + ([SP] + (r.value.httpVersion + r.remaining));
      && |t| in FindRequestTarget(u, d1)
      && forall k ::
           (k in FindOriginForm(u, d1) || k in FindAbsoluteForm(u, d1) || k in FindAuthorityForm(u, d1) || k in FindAsteriskForm(d1))
           && k <= |d1|
           ==> k <= |t|
  {
    var m := TakeLongest(d, FindMethod, "method not found").value;
    var s1 := TakeLongest(m.remaining, FindSp, "SP after method not found").value;
    var t := TakeLongest(s1.remaining, RequestTargetFinder(u), "request-target not found").value;
    LongestSpec(s1.remaining, RequestTargetFinder(u));
    var s2 := TakeLongest(t.remaining, FindSp, "SP after request-target not found").value;
    SpStep(t.remaining, "SP after request-target not found");
  }

  /**
   * A parsed status line is an HTTP-version, a status-code and a non-empty
   * reason phrase, and the input is exactly those three fields joined by
   * single SPs, followed by the bytes left over.
   */
  lemma StatusLineSound(d: seq<byte>)
    requires MarshalStatusLine(d).Success?
    ensures var r := MarshalStatusLine(d).value;
      && IsVersion(r.value.httpVersion)
      && IsStatusCode(r.value.statusCode)
      && IsReasonPhrase(r.value.reasonPhrase)
      && d == r.value.httpVersion + ([SP] + (r.value.statusCode + ([SP] + (r.value.reasonPhrase + r.remaining))))
  {
    var v := TakeLongest(d, FindHttpVersion, "http-version not found").value;
    VersionTaken(d, "http-version not found");
    var s1 := TakeLongest(v.remaining, FindSp, "SP after http-version not found").value;
    SpStep(v.remaining, "SP after http-version not found");
    var c := TakeLongest(s1.remaining, FindStatusCode, "status-code not found").value;
    StatusCodeTaken(s1.remaining, "status-code not found");
    var s2 := TakeLongest(c.remaining, FindSp, "SP after status-code not found").value;
    SpStep(c.remaining, "SP after status-code not found");
    ReasonTaken(s2.remaining, "reason-phrase not found");
  }

  /** Every byte of w is SP or HTAB. */
  predicate IsWhitespace(w: seq<byte>)
  {
    forall i :: 0 <= i < |w| ==> IsWs(w[i])
  }

  /**
   * A parsed field line is a token and a field value with no whitespace at
   * either end, and the input is that name, ":", whitespace, that value,
   * whitespace and CRLF, followed by the bytes left over.
   */
  lemma FieldLineSound(d: seq<byte>) returns (ws1: seq<byte>, ws2: seq<byte>)
    requires MarshalFieldLine(d).Success?
    ensures var r := MarshalFieldLine(d).value;
      && WellFormedFieldLine(r.value)
      && IsWhitespace(ws1) && IsWhitespace(ws2)
      && d == r.value.fieldName + ([COLON] + (ws1 + (r.value.fieldValue + (ws2 + (CRLF + r.remaining)))))
  {
    var name := TakeLongest(d, FindFieldName, "field-name not found").value;
    TokenTaken(d, FindFieldName, "field-name not found");
    var colon := TakeShortest(name.remaining, FindColon, "\":\" after field-name not found").value;
    ColonTaken(name.remaining, "\":\" after field-name not found");
    var ows1 := ParseLongest(colon.remaining, FindOws);
    OwsTaken(colon.remaining);
    var value := TakeLongest(ows1.remaining, FindFieldValue, "field-value not found").value;
    FieldValueTaken(ows1.remaining, "field-value not found");
    var ows2 := ParseLongest(value.remaining, FindOws);
    OwsTaken(value.remaining);
    CrLfTaken(ows2.remaining, "CRLF after field-line not found");
    ws1, ws2 := ows1.parsed, ows2.parsed;
  }

  /** s is what is left of d after some prefix. */
  predicate IsSuffix(s: seq<byte>, d: seq<byte>)
  {
    |s| <= |d| && d[|d| - |s|..] == s
  }

  lemma SuffixTrans(s: seq<byte>, t: seq<byte>, d: seq<byte>)
    requires IsSuffix(s, t) && IsSuffix(t, d)
    ensures IsSuffix(s, d)
  {
    assert d[|d| - |s|..] == d[|d| - |t|..][|t| - |s|..];
  }

  lemma FieldLineSuffix(name: seq<byte>, ws1: seq<byte>, value: seq<byte>, ws2: seq<byte>, rest: seq<byte>)
    ensures IsSuffix(rest, name + ([COLON] + (ws1 + (value + (ws2 + (CRLF + rest))))))
  {
    var d := name + ([COLON] + (ws1 + (value + (ws2 + (CRLF + rest)))));
    assert d == (name + [COLON] + ws1 + value + ws2 + CRLF) + rest;
  }

  /** One round of the field-line loop, when a field line opens the buffer and the loop succeeds. */
  lemma FieldLinesUnfold(d: seq<byte>)
    requires FindFieldLine(d) != {} && MarshalFieldLines(d).Success?
    ensures MarshalFieldLine(d).Success?
    ensures var line := MarshalFieldLine(d).value;
      && |line.remaining| < |d|
      && MarshalFieldLines(line.remaining).Success?
      && MarshalFieldLines(d).value.value == [line.value] + MarshalFieldLines(line.remaining).value.value
      && MarshalFieldLines(d).value.remaining == MarshalFieldLines(line.remaining).value.remaining
  {
    FieldLineConsumes(d);
  }

  lemma WellFormedCons(l: FieldLine, ls: seq<FieldLine>)
    requires WellFormedFieldLine(l) && WellFormedFieldLines(ls)
    ensures WellFormedFieldLines([l] + ls)
  {
    forall i | 0 <= i < |[l] + ls| ensures WellFormedFieldLine(([l] + ls)[i]) {
      if i > 0 {
        assert ([l] + ls)[i] == ls[i - 1];
      }
    }
  }

  /**
   * The field-line loop yields well-formed lines, leaves a suffix of its
   * input, and stops only where no field line opens.
   */
  lemma {:induction false} FieldLinesSound(d: seq<byte>)
    requires MarshalFieldLines(d).Success?
    ensures var r := MarshalFieldLines(d).value;
      && WellFormedFieldLines(r.value)
      && IsSuffix(r.remaining, d)
      && FindFieldLine(r.remaining) == {}
    decreases |d|
  {
    if FindFieldLine(d) == {} {
      assert d[|d| - |d|..] == d;
    } else {
      FieldLinesUnfold(d);
      var line := MarshalFieldLine(d).value;
      var ws1, ws2 := FieldLineSound(d);
      FieldLineSuffix(line.value.fieldName, ws1, line.value.fieldValue, ws2, line.remaining);
      FieldLinesSound(line.remaining);
      var rest := MarshalFieldLines(line.remaining).value;
      SuffixTrans(rest.remaining, line.remaining, d);
      WellFormedCons(line.value, rest.value);
    }
  }

  lemma SuffixOfJoin(a: seq<byte>, s: seq<byte>)
    ensures IsSuffix(s, a + s)
  {
    assert (a + s)[|a|..] == s;
  }

  lemma StartLineSuffix(f1: seq<byte>, f2: seq<byte>, f3: seq<byte>, rest: seq<byte>)
    ensures IsSuffix(rest, f1 + ([SP] + (f2 + ([SP] + (f3 + rest)))))
  {
    var d := f1 + ([SP] + (f2 + ([SP] + (f3 + rest))));
    assert d == (f1 + [SP] + f2 + [SP] + f3) + rest;
  }

  /** What follows a start line that parsed: CRLF, field lines, CRLF, body. */
  lemma HeaderSectionSound(rest: seq<byte>, e: string)
    requires var c1 := TakeShortest(rest, FindCrLf, e);
      && c1.Success?
      && MarshalFieldLines(c1.value.remaining).Success?
      && TakeShortest(MarshalFieldLines(c1.value.remaining).value.remaining, FindCrLf, "CRLF before message-body not found").Success?
    ensures var fields := MarshalFieldLines(TakeShortest(rest, FindCrLf, e).value.remaining).value;
      var body := TakeShortest(fields.remaining, FindCrLf, "CRLF before message-body not found").value.remaining;
      && WellFormedFieldLines(fields.value)
      && fields.remaining == CRLF + body
      && IsSuffix(CRLF + body, rest)
  {
    var c1 := TakeShortest(rest, FindCrLf, e).value;
    CrLfTaken(rest, e);
    SuffixOfJoin(c1.parsed, c1.remaining);
    FieldLinesSound(c1.remaining);
    var fields := MarshalFieldLines(c1.remaining).value;
    SuffixTrans(fields.remaining, c1.remaining, rest);
    CrLfTaken(fields.remaining, "CRLF before message-body not found");
  }

  // ---------------------------------------------------------------------
  // The body is the rest of the input: bytes appended to a message that
  // parses end up in its body, and nothing else changes

  /** OWS, field-value, OWS and CRLF of a field line with any whitespace around its value. */
  lemma FieldLineWsTailSteps(ws1: seq<byte>, value: seq<byte>, ws2: seq<byte>, rest: seq<byte>)
    requires FieldValueShape(value) && IsWhitespace(ws1) && IsWhitespace(ws2)
    ensures ParseLongest(ws1 + (value + (ws2 + (CRLF + rest))), FindOws).remaining == value + (ws2 + (CRLF + rest))
    ensures TakeLongest(value + (ws2 + (CRLF + rest)), FindFieldValue, "field-value not found")
      == Success(ParseResult(value, ws2 + (CRLF + rest)))
    ensures TakeShortest(ParseLongest(ws2 + (CRLF + rest), FindOws).remaining, FindCrLf, "CRLF after field-line not found")
      == Success(ParseResult(CRLF, rest))
  {
    var d5 := CRLF + rest;
    OwsStepOn(ws1, value + (ws2 + d5));
    FieldValueStepBeforeWs(value, ws2, d5, "field-value not found");
    OwsStepOn(ws2, d5);
    CrLfStepOn(rest, "CRLF after field-line not found");
  }

  /** A field line with any whitespace around its value parses to that name and value. */
  lemma FieldLineWsRoundTrip(name: seq<byte>, ws1: seq<byte>, value: seq<byte>, ws2: seq<byte>, rest: seq<byte>)
    requires IsToken(name) && FieldValueShape(value) && IsWhitespace(ws1) && IsWhitespace(ws2)
    ensures MarshalFieldLine(name + ([COLON] + (ws1 + (value + (ws2 + (CRLF + rest))))))
      == Success(Parsed(FieldLine(name, value), rest))
  {
    var d4 := ws2 + (CRLF + rest);
    var d3 := value + d4;
    var d2 := ws1 + d3;
    var d1 := [COLON] + d2;
    FieldLineHeadSteps(name, d2);
    FieldLineWsTailSteps(ws1, value, ws2, rest);
    FieldLineFromSteps(name, value, rest, name + d1, d1, d2, d3, d4);
  }

  /** A token followed by ":" opens a field line, whatever follows. */
  lemma FieldLineOpensAt(name: seq<byte>, after: seq<byte>)
    requires IsToken(name)
    ensures FindFieldLine(name + ([COLON] + after)) != {}
  {
    var d := name + ([COLON] + after);
    RunOfPrefix(IsTChar, name, [COLON] + after);
    assert d[|name|] == COLON;
    FieldLineNonEmpty(d);
  }

  lemma FieldLineExtendNest(name: seq<byte>, ws1: seq<byte>, value: seq<byte>, ws2: seq<byte>, rest: seq<byte>, e: seq<byte>)
    ensures name + ([COLON] + (ws1 + (value + (ws2 + (CRLF + rest))))) + e
      == name + ([COLON] + (ws1 + (value + (ws2 + (CRLF + (rest + e))))))
  {
  }

  /** Bytes appended after a field line that parses are left over after it, and the line is unchanged. */
  lemma FieldLineExtends(d: seq<byte>, e: seq<byte>)
    requires MarshalFieldLine(d).Success?
    ensures var l := MarshalFieldLine(d).value;
      && FindFieldLine(d + e) != {}
      && MarshalFieldLine(d + e) == Success(Parsed(l.value, l.remaining + e))
  {
    var l := MarshalFieldLine(d).value;
    var ws1, ws2 := FieldLineSound(d);
    var name, value := l.value.fieldName, l.value.fieldValue;
    FieldLineExtendNest(name, ws1, value, ws2, l.remaining, e);
    FieldLineWsRoundTrip(name, ws1, value, ws2, l.remaining + e);
    FieldLineOpensAt(name, ws1 + (value + (ws2 + (CRLF + (l.remaining + e)))));
  }

  /**
   * Bytes appended after field lines that stop at a CR are left over after
   * them, and the loop reads the same lines.
   */
  lemma {:induction false} FieldLinesExtends(d: seq<byte>, e: seq<byte>)
    requires MarshalFieldLines(d).Success?
    requires var t := MarshalFieldLines(d).value.remaining; |t| > 0 && t[0] == CR
    ensures var r := MarshalFieldLines(d).value;
      MarshalFieldLines(d + e) == Success(Parsed(r.value, r.remaining + e))
    decreases |d|
  {
    if FindFieldLine(d) == {} {
      assert (d + e)[0] == d[0];
      FieldLinesStopAtCr(d + e);
    } else {
      FieldLinesUnfold(d);
      var line := MarshalFieldLine(d).value;
      FieldLineExtends(d, e);
      FieldLinesExtends(line.remaining, e);
      var rest := MarshalFieldLines(line.remaining).value;
      FieldLinesFromStep(d + e, line.value, line.remaining + e, rest.value, rest.remaining + e);
    }
  }

  /** A CRLF taken by the shortest match is still taken, with the appended bytes left over. */
  lemma CrLfExtends(d: seq<byte>, err: string, e: seq<byte>)
    requires TakeShortest(d, FindCrLf, err).Success?
    ensures |d| > 0 && d[0] == CR
    ensures TakeShortest(d + e, FindCrLf, err) == Success(ParseResult(CRLF, TakeShortest(d, FindCrLf, err).value.remaining + e))
  {
    CrLfStep(d, err);
    var rest := d[2..];
    assert d + e == CRLF + (rest + e);
    CrLfStepOn(rest + e, err);
  }

  /** CRLF, field lines and CRLF after a start line: appended bytes reach the body unchanged. */
  lemma HeaderSectionExtends(rest: seq<byte>, err: string, e: seq<byte>)
    requires var c1 := TakeShortest(rest, FindCrLf, err);
      && c1.Success?
      && MarshalFieldLines(c1.value.remaining).Success?
      && TakeShortest(MarshalFieldLines(c1.value.remaining).value.remaining, FindCrLf, "CRLF before message-body not found").Success?
    ensures var c1 := TakeShortest(rest, FindCrLf, err).value;
      var fields := MarshalFieldLines(c1.remaining).value;
      var body := TakeShortest(fields.remaining, FindCrLf, "CRLF before message-body not found").value.remaining;
      && |rest| > 0 && rest[0] == CR
      && TakeShortest(rest + e, FindCrLf, err) == Success(ParseResult(CRLF, c1.remaining + e))
      && MarshalFieldLines(c1.remaining + e) == Success(Parsed(fields.value, fields.remaining + e))
      && TakeShortest(fields.remaining + e, FindCrLf, "CRLF before message-body not found") == Success(ParseResult(CRLF, body + e))
  {
    var c1 := TakeShortest(rest, FindCrLf, err).value;
    CrLfExtends(rest, err, e);
    var fields := MarshalFieldLines(c1.remaining).value;
    CrLfExtends(fields.remaining, "CRLF before message-body not found", e);
    FieldLinesExtends(c1.remaining, e);
  }

  lemma LineExtendNest(a: seq<byte>, b: seq<byte>, c: seq<byte>, rest: seq<byte>, e: seq<byte>)
    ensures a + ([SP] + (b + ([SP] + (c + rest)))) + e == a + [SP] + b + [SP] + c + (rest + e)
  {
  }

  /** Bytes appended after a request line that parses are left over after it, and the line is unchanged. */
  lemma RequestLineExtends(u: UriGrammar, d: seq<byte>, e: seq<byte>)
    requires UriLocal(u) && UriAvoids(u, SP)
    requires MarshalRequestLine(u, d).Success?
    ensures var l := MarshalRequestLine(u, d).value;
      MarshalRequestLine(u, d + e) == Success(Parsed(l.value, l.remaining + e))
  {
    var l := MarshalRequestLine(u, d).value;
    RequestLineSound(u, d);
    var m, t, v := l.value.requestMethod, l.value.requestTarget, l.value.httpVersion;
    LineExtendNest(m, t, v, l.remaining, e);
    RequestLineRoundTrip(u, m, t, v, l.remaining + e);
  }

  /**
   * Bytes appended after a status line that parses, and stops before a byte
   * that cannot continue the reason phrase, are left over after it.
   */
  lemma StatusLineExtends(d: seq<byte>, e: seq<byte>)
    requires MarshalStatusLine(d).Success?
    requires var rest := MarshalStatusLine(d).value.remaining; |rest| > 0 && !IsTextByte(rest[0])
    ensures var l := MarshalStatusLine(d).value;
      MarshalStatusLine(d + e) == Success(Parsed(l.value, l.remaining + e))
  {
    var l := MarshalStatusLine(d).value;
    StatusLineSound(d);
    var v, c, p := l.value.httpVersion, l.value.statusCode, l.value.reasonPhrase;
    LineExtendNest(v, c, p, l.remaining, e);
    assert (l.remaining + e)[0] == l.remaining[0];
    StatusLineRoundTrip(v, c, p, l.remaining + e);
  }

  /**
   * The parser takes everything after the header section as the body, with
   * no length check: bytes appended to a request that parses are appended
   * to its body, and every other field stays as it was.
   */
  lemma RequestExtends(u: UriGrammar, d: seq<byte>, e: seq<byte>)
    requires UriLocal(u) && UriAvoids(u, SP)
    requires MarshalRequest(u, d).Success?
    ensures var r := MarshalRequest(u, d).value;
      MarshalRequest(u, d + e) == Success(r.(messageBody := r.messageBody + e))
  {
    var line := MarshalRequestLine(u, d).value;
    RequestLineExtends(u, d, e);
    HeaderSectionExtends(line.remaining, "CRLF after request-line not found", e);
  }

  /**
   * The parser takes everything after the header section as the body, with
   * no length check: bytes appended to a response that parses are appended
   * to its body, and every other field stays as it was.
   */
  lemma ResponseExtends(d: seq<byte>, e: seq<byte>)
    requires MarshalResponse(d).Success?
    ensures var r := MarshalResponse(d).value;
      MarshalResponse(d + e) == Success(r.(messageBody := r.messageBody + e))
  {
    var line := MarshalStatusLine(d).value;
    HeaderSectionExtends(line.remaining, "CRLF after request-line not found", e);
    StatusLineExtends(d, e);
  }

  /**
   * A parsed request is well-formed and its body follows a CRLF at the end
   * of the input. The body is exactly what follows the header section,
   * whatever its length: bytes appended to the input are appended to the
   * body and change nothing else (given URI rules that never consume SP).
   */
  lemma RequestSound(u: UriGrammar, d: seq<byte>)
    requires UriLocal(u) && MarshalRequest(u, d).Success?
    ensures var r := MarshalRequest(u, d).value;
      WellFormedRequest(u, r) && IsSuffix(CRLF + r.messageBody, d)
    ensures var r := MarshalRequest(u, d).value;
      UriAvoids(u, SP) ==> forall e :: MarshalRequest(u, d + e) == Success(r.(messageBody := r.messageBody + e))
  {
    if UriAvoids(u, SP) {
      forall e ensures MarshalRequest(u, d + e) == Success(MarshalRequest(u, d).value.(messageBody := MarshalRequest(u, d).value.messageBody + e)) {
        RequestExtends(u, d, e);
      }
    }
    var line := MarshalRequestLine(u, d).value;
    RequestLineSound(u, d);
    StartLineSuffix(line.value.requestMethod, line.value.requestTarget, line.value.httpVersion, line.remaining);
    HeaderSectionSound(line.remaining, "CRLF after request-line not found");
    var r := MarshalRequest(u, d).value;
    SuffixTrans(CRLF + r.messageBody, line.remaining, d);
  }

  /**
   * A parsed response is well-formed and its body follows a CRLF at the end
   * of the input. The body is exactly what follows the header section,
   * whatever its length: bytes appended to the input are appended to the
   * body and change nothing else.
   */
  lemma ResponseSound(d: seq<byte>)
    requires MarshalResponse(d).Success?
    ensures var r := MarshalResponse(d).value;
      WellFormedResponse(r) && IsSuffix(CRLF + r.messageBody, d)
    ensures var r := MarshalResponse(d).value;
      forall e :: MarshalResponse(d + e) == Success(r.(messageBody := r.messageBody + e))
  {
    forall e ensures MarshalResponse(d + e) == Success(MarshalResponse(d).value.(messageBody := MarshalResponse(d).value.messageBody + e)) {
      ResponseExtends(d, e);
    }
    var line := MarshalStatusLine(d).value;
    StatusLineSound(d);
    StartLineSuffix(line.value.httpVersion, line.value.statusCode, line.value.reasonPhrase, line.remaining);
    HeaderSectionSound(line.remaining, "CRLF after request-line not found");
    var r := MarshalResponse(d).value;
    SuffixTrans(CRLF + r.messageBody, line.remaining, d);
  }

  // ---------------------------------------------------------------------
  // Parsing is idempotent

  /** Serializing a parsed request and parsing again gives the same request. */
  lemma RequestIdempotent(u: UriGrammar, d: seq<byte>)
    requires UriLocal(u) && UriAvoids(u, SP)
    requires MarshalRequest(u, d).Success?
    ensures MarshalRequest(u, UnmarshalRequest(MarshalRequest(u, d).value)) == MarshalRequest(u, d)
  {
    RequestSound(u, d);
    RequestRoundTrip(u, MarshalRequest(u, d).value);
  }

  /** Serializing a parsed response and parsing again gives the same response. */
  lemma ResponseIdempotent(d: seq<byte>)
    requires MarshalResponse(d).Success?
    ensures MarshalResponse(UnmarshalResponse(MarshalResponse(d).value)) == MarshalResponse(d)
  {
    ResponseSound(d);
    ResponseRoundTrip(MarshalResponse(d).value);
  }

  // ---------------------------------------------------------------------
  // Which error each parser reports, and on which input

  /** The errors the field-line loop can report. */
  const FIELD_LINE_ERRORS: set<string> := {
    "field-name not found", "\":\" after field-name not found",
    "field-value not found", "CRLF after field-line not found"
  }

  /** One field line fails only with one of the field-line errors. */
  lemma FieldLineErrors(d: seq<byte>)
    ensures MarshalFieldLine(d).Failure? ==> MarshalFieldLine(d).error in FIELD_LINE_ERRORS
  {
    var name := TakeLongest(d, FindFieldName, "field-name not found");
    if name.Success? {
      var colon := TakeShortest(name.value.remaining, FindColon, "\":\" after field-name not found");
      if colon.Success? {
        var ows1 := ParseLongest(colon.value.remaining, FindOws);
        var value := TakeLongest(ows1.remaining, FindFieldValue, "field-value not found");
        if value.Success? {
          var ows2 := ParseLongest(value.value.remaining, FindOws);
          var crlf := TakeShortest(ows2.remaining, FindCrLf, "CRLF after field-line not found");
          assert crlf.Failure? ==> MarshalFieldLine(d) == Failure(crlf.error);
        }
      }
    }
  }

  /** Where a failure of the field-line loop comes from: the first field line, or the rounds after it. */
  lemma FieldLinesFailure(d: seq<byte>)
    requires MarshalFieldLines(d).Failure?
    ensures FindFieldLine(d) != {}
    ensures || MarshalFieldLine(d) == Failure(MarshalFieldLines(d).error)
            || (&& MarshalFieldLine(d).Success?
                && |MarshalFieldLine(d).value.remaining| < |d|
                && MarshalFieldLines(MarshalFieldLine(d).value.remaining) == Failure(MarshalFieldLines(d).error))
  {
    if MarshalFieldLine(d).Success? {
      FieldLineConsumes(d);
    }
  }

  /** The field-line loop fails only with one of the field-line errors. */
  lemma {:induction false} FieldLinesErrors(d: seq<byte>)
    ensures MarshalFieldLines(d).Failure? ==> MarshalFieldLines(d).error in FIELD_LINE_ERRORS
    decreases |d|
  {
    if MarshalFieldLines(d).Failure? {
      FieldLinesFailure(d);
      FieldLineErrors(d);
      if MarshalFieldLine(d).Success? {
        FieldLinesErrors(MarshalFieldLine(d).value.remaining);
      }
    }
  }

  /** After the start line, the header section fails only with a CRLF or field-line error. */
  lemma HeaderSectionErrors(rest: seq<byte>, e: string)
    ensures var c1 := TakeShortest(rest, FindCrLf, e);
      c1.Success? ==>
        var fields := MarshalFieldLines(c1.value.remaining);
        fields.Failure? ==> fields.error in FIELD_LINE_ERRORS
  {
    var c1 := TakeShortest(rest, FindCrLf, e);
    if c1.Success? {
      FieldLinesErrors(c1.value.remaining);
    }
  }

  /** The errors the header section can report after a start line that parsed. */
  const HEADER_ERRORS: set<string> :=
    FIELD_LINE_ERRORS + {"CRLF after request-line not found", "CRLF before message-body not found"}

  /** A request fails with its request line's error, or with a header-section error after a request line that parsed. */
  lemma RequestErrorSource(u: UriGrammar, d: seq<byte>)
    ensures MarshalRequestLine(u, d).Failure? ==> MarshalRequest(u, d) == Failure(MarshalRequestLine(u, d).error)
    ensures MarshalRequestLine(u, d).Success? && MarshalRequest(u, d).Failure? ==> MarshalRequest(u, d).error in HEADER_ERRORS
  {
    var line := MarshalRequestLine(u, d);
    if line.Success? {
      HeaderSectionErrors(line.value.remaining, "CRLF after request-line not found");
    }
  }

  /** A response fails with its status line's error, or with a header-section error after a status line that parsed. */
  lemma ResponseErrorSource(d: seq<byte>)
    ensures MarshalStatusLine(d).Failure? ==> MarshalResponse(d) == Failure(MarshalStatusLine(d).error)
    ensures MarshalStatusLine(d).Success? && MarshalResponse(d).Failure? ==> MarshalResponse(d).error in HEADER_ERRORS
  {
    var line := MarshalStatusLine(d);
    if line.Success? {
      HeaderSectionErrors(line.value.remaining, "CRLF after request-line not found");
    }
  }

  /** The start-line errors are not header-section errors. */
  lemma StartLineErrorsDistinct()
    ensures "method not found" !in HEADER_ERRORS
    ensures "http-version not found" !in HEADER_ERRORS
    ensures "reason-phrase not found" !in HEADER_ERRORS
    ensures "method not found" !in AFTER_METHOD_ERRORS
    ensures "http-version not found" !in AFTER_VERSION_ERRORS
    ensures "reason-phrase not found" !in BEFORE_REASON_ERRORS
  {
  }

  /** A first error of a start line passes to the whole message when no header-section error shares its text. */
  lemma FirstErrorPasses<T, L>(msg: Result<T>, line: Result<L>, e: string, cause: bool)
    requires line.Failure? ==> msg == Failure(line.error)
    requires line.Success? && msg.Failure? ==> msg.error in HEADER_ERRORS
    requires e !in HEADER_ERRORS
    requires line == Failure(e) <==> cause
    ensures msg == Failure(e) <==> cause
  {
  }

  /** The errors a request line can report once its method is taken. */
  const AFTER_METHOD_ERRORS: set<string> := {
    "SP after method not found", "request-target not found",
    "SP after request-target not found", "http-version not found"
  }

  /** Once a method is taken, the request line fails only with a later step's error. */
  lemma RequestLineAfterMethod(u: UriGrammar, d: seq<byte>)
    requires TakeLongest(d, FindMethod, "method not found").Success?
    ensures MarshalRequestLine(u, d).Failure? ==> MarshalRequestLine(u, d).error in AFTER_METHOD_ERRORS
  {
    var m := TakeLongest(d, FindMethod, "method not found").value;
    var sp1 := TakeLongest(m.remaining, FindSp, "SP after method not found");
    if sp1.Success? {
      var t := TakeLongest(sp1.value.remaining, RequestTargetFinder(u), "request-target not found");
      if t.Success? {
        var sp2 := TakeLongest(t.value.remaining, FindSp, "SP after request-target not found");
        if sp2.Success? {
          var v := TakeLongest(sp2.value.remaining, FindHttpVersion, "http-version not found");
          assert v.Failure? ==> MarshalRequestLine(u, d) == Failure(v.error);
        }
      }
    }
  }

  /** The request line fails with "method not found" exactly when no tchar opens the input. */
  lemma RequestLineMethodMissing(u: UriGrammar, d: seq<byte>)
    ensures MarshalRequestLine(u, d) == Failure("method not found") <==> Run(IsTChar, d) == 0
  {
    TokenStep(d, FindMethod, "method not found");
    if Run(IsTChar, d) != 0 {
      RequestLineAfterMethod(u, d);
      StartLineErrorsDistinct();
    }
  }

  /** A request fails with "method not found" exactly when no tchar opens the input. */
  lemma RequestMethodMissing(u: UriGrammar, d: seq<byte>)
    ensures MarshalRequest(u, d) == Failure("method not found") <==> Run(IsTChar, d) == 0
  {
    RequestLineMethodMissing(u, d);
    RequestErrorSource(u, d);
    StartLineErrorsDistinct();
    FirstErrorPasses(MarshalRequest(u, d), MarshalRequestLine(u, d), "method not found", Run(IsTChar, d) == 0);
  }

  /** An empty request fails with "method not found". */
  lemma EmptyRequestRejected(u: UriGrammar)
    ensures MarshalRequest(u, []) == Failure("method not found")
  {
    RequestMethodMissing(u, []);
  }

  /** The errors a status line can report once its HTTP-version is taken. */
  const AFTER_VERSION_ERRORS: set<string> := {
    "SP after http-version not found", "status-code not found",
    "SP after status-code not found", "reason-phrase not found"
  }

  /** Once an HTTP-version is taken, the status line fails only with a later step's error. */
  lemma StatusLineAfterVersion(d: seq<byte>)
    requires TakeLongest(d, FindHttpVersion, "http-version not found").Success?
    ensures MarshalStatusLine(d).Failure? ==> MarshalStatusLine(d).error in AFTER_VERSION_ERRORS
  {
  }

  /** The status line fails with "http-version not found" exactly when no HTTP-version opens the input. */
  lemma StatusLineVersionMissing(d: seq<byte>)
    ensures MarshalStatusLine(d) == Failure("http-version not found") <==> !IsHttpVersionAt(d)
  {
    VersionStep(d, "http-version not found");
    if IsHttpVersionAt(d) {
      StatusLineAfterVersion(d);
      StartLineErrorsDistinct();
    }
  }

  /** A response fails with "http-version not found" exactly when no HTTP-version opens the input. */
  lemma ResponseVersionMissing(d: seq<byte>)
    ensures MarshalResponse(d) == Failure("http-version not found") <==> !IsHttpVersionAt(d)
  {
    StatusLineVersionMissing(d);
    ResponseErrorSource(d);
    StartLineErrorsDistinct();
    FirstErrorPasses(MarshalResponse(d), MarshalStatusLine(d), "http-version not found", !IsHttpVersionAt(d));
  }

  /** An empty response fails with "http-version not found". */
  lemma EmptyResponseRejected()
    ensures MarshalResponse([]) == Failure("http-version not found")
  {
    ResponseVersionMissing([]);
  }

  // ---------------------------------------------------------------------
  // The status line, byte by byte

  /** The errors a status line can report before its reason phrase. */
  const BEFORE_REASON_ERRORS: set<string> := {
    "http-version not found", "SP after http-version not found",
    "status-code not found", "SP after status-code not found"
  }

  /** The status-line parser, given the outcome of the steps before the reason phrase. */
  lemma StatusLineFromSteps(v: seq<byte>, c: seq<byte>,
                            d0: seq<byte>, d1: seq<byte>, d2: seq<byte>, d3: seq<byte>, d4: seq<byte>)
    requires TakeLongest(d0, FindHttpVersion, "http-version not found") == Success(ParseResult(v, d1))
    requires TakeLongest(d1, FindSp, "SP after http-version not found") == Success(ParseResult([SP], d2))
    requires TakeLongest(d2, FindStatusCode, "status-code not found") == Success(ParseResult(c, d3))
    requires TakeLongest(d3, FindSp, "SP after status-code not found") == Success(ParseResult([SP], d4))
    ensures var p := TakeLongest(d4, FindReasonPhrase, "reason-phrase not found");
      MarshalStatusLine(d0) ==
        if p.Failure? then Failure(p.error) else Success(Parsed(StatusLine(v, c, p.value.parsed), p.value.remaining))
  {
  }

  /** Once HTTP-version SP status-code SP opens the input, the reason phrase decides the outcome. */
  lemma StatusLineOpeningSteps(d: seq<byte>)
    requires IsStatusLineOpening(d)
    ensures var p := TakeLongest(d[13..], FindReasonPhrase, "reason-phrase not found");
      MarshalStatusLine(d) ==
        if p.Failure? then Failure(p.error) else Success(Parsed(StatusLine(d[..8], d[9..12], p.value.parsed), p.value.remaining))
  {
    StatusLineOpeningTaken(d);
    StatusLineFromSteps(d[..8], d[9..12], d, d[8..], d[9..], d[12..], d[13..]);
  }

  /** The four steps before the reason phrase, on an input that HTTP-version SP status-code SP opens. */
  lemma StatusLineOpeningTaken(d: seq<byte>)
    requires IsStatusLineOpening(d)
    ensures TakeLongest(d, FindHttpVersion, "http-version not found") == Success(ParseResult(d[..8], d[8..]))
    ensures TakeLongest(d[8..], FindSp, "SP after http-version not found") == Success(ParseResult([SP], d[9..]))
    ensures TakeLongest(d[9..], FindStatusCode, "status-code not found") == Success(ParseResult(d[9..12], d[12..]))
    ensures TakeLongest(d[12..], FindSp, "SP after status-code not found") == Success(ParseResult([SP], d[13..]))
  {
    VersionStep(d, "http-version not found");
    SpAt(d, 8, "SP after http-version not found");
    StatusCodeThenSp(d);
  }

  /** status-code SP, taken at offset 9. */
  lemma StatusCodeThenSp(d: seq<byte>)
    requires |d| >= 13 && IsStatusCodeAt(d[9..]) && d[12] == SP
    ensures TakeLongest(d[9..], FindStatusCode, "status-code not found") == Success(ParseResult(d[9..12], d[12..]))
    ensures TakeLongest(d[12..], FindSp, "SP after status-code not found") == Success(ParseResult([SP], d[13..]))
  {
    StatusCodeAt(d, 9, "status-code not found");
    SpAt(d, 12, "SP after status-code not found");
  }

  /** SP taken at offset i. */
  lemma SpAt(d: seq<byte>, i: nat, e: string)
    requires i < |d| && d[i] == SP
    ensures TakeLongest(d[i..], FindSp, e) == Success(ParseResult([SP], d[i + 1..]))
  {
    SpStep(d[i..], e);
    assert d[i..][1..] == d[i + 1..];
  }

  /** status-code taken at offset i. */
  lemma StatusCodeAt(d: seq<byte>, i: nat, e: string)
    requires i + 3 <= |d| && IsStatusCodeAt(d[i..])
    ensures TakeLongest(d[i..], FindStatusCode, e) == Success(ParseResult(d[i..i + 3], d[i + 3..]))
  {
    StatusCodeStep(d[i..], e);
    assert d[i..][..3] == d[i..i + 3] && d[i..][3..] == d[i + 3..];
  }

  /** Without HTTP-version SP status-code SP in front, the status line fails before its reason phrase. */
  lemma StatusLineNoOpening(d: seq<byte>)
    requires !IsStatusLineOpening(d)
    ensures MarshalStatusLine(d).Failure? && MarshalStatusLine(d).error in BEFORE_REASON_ERRORS
  {
    VersionStep(d, "http-version not found");
    if IsHttpVersionAt(d) {
      SpStep(d[8..], "SP after http-version not found");
      if |d| > 8 && d[8] == SP {
        assert d[8..][1..] == d[9..];
        StatusCodeStep(d[9..], "status-code not found");
        if IsStatusCodeAt(d[9..]) {
          assert d[9..][3..] == d[12..];
          SpStep(d[12..], "SP after status-code not found");
        }
      }
    }
  }

  /**
   * The status line parses exactly when HTTP-version SP status-code SP opens
   * the input and at least one text byte follows; it fails with
   * "reason-phrase not found" exactly when the opening is there and no text
   * byte follows it.
   */
  lemma StatusLineOutcome(d: seq<byte>)
    ensures MarshalStatusLine(d).Success? <==> IsStatusLineOpening(d) && Run(IsTextByte, d[13..]) > 0
    ensures MarshalStatusLine(d) == Failure("reason-phrase not found") <==>
      IsStatusLineOpening(d) && Run(IsTextByte, d[13..]) == 0
  {
    if IsStatusLineOpening(d) {
      StatusLineOpeningSteps(d);
      ReasonStep(d[13..], "reason-phrase not found");
    } else {
      StatusLineNoOpening(d);
      StartLineErrorsDistinct();
    }
  }

  /**
   * A response fails with "reason-phrase not found" exactly when
   * HTTP-version SP status-code SP opens the input and no text byte follows.
   */
  lemma ResponseReasonMissing(d: seq<byte>)
    ensures MarshalResponse(d) == Failure("reason-phrase not found") <==>
      IsStatusLineOpening(d) && Run(IsTextByte, d[13..]) == 0
  {
    StatusLineOutcome(d);
    ResponseErrorSource(d);
    StartLineErrorsDistinct();
    FirstErrorPasses(MarshalResponse(d), MarshalStatusLine(d), "reason-phrase not found",
                     IsStatusLineOpening(d) && Run(IsTextByte, d[13..]) == 0);
  }

  /**
   * An empty reason phrase is a status line to the grammar, which matches
   * the 13 bytes before it, yet the response parser rejects it.
   */
  lemma EmptyReasonRejected(d: seq<byte>)
    requires IsStatusLineOpening(d) && Run(IsTextByte, d[13..]) == 0
    ensures 13 in FindStatusLine(d)
    ensures MarshalResponse(d) == Failure("reason-phrase not found")
  {
    StatusLineAt(d, 13);
    ResponseReasonMissing(d);
  }

  // ---------------------------------------------------------------------
  // An empty field value

  /** The field-line parser, given steps up to a field value that is absent. */
  lemma FieldLineValueFails(name: seq<byte>, d0: seq<byte>, d1: seq<byte>, d2: seq<byte>, d3: seq<byte>, e: string)
    requires TakeLongest(d0, FindFieldName, "field-name not found") == Success(ParseResult(name, d1))
    requires TakeShortest(d1, FindColon, "\":\" after field-name not found") == Success(ParseResult([COLON], d2))
    requires ParseLongest(d2, FindOws).remaining == d3
    requires TakeLongest(d3, FindFieldValue, e) == Failure(e)
    requires e == "field-value not found"
    ensures MarshalFieldLine(d0) == Failure(e)
  {
  }

  /** The loop fails with the first field line's error when that line opens the buffer but does not parse. */
  lemma FieldLinesFirstFails(d: seq<byte>)
    requires FindFieldLine(d) != {} && MarshalFieldLine(d).Failure?
    ensures MarshalFieldLines(d) == Failure(MarshalFieldLine(d).error)
  {
  }

  /**
   * A field line whose value is empty: the grammar matches it, since
   * field-value may be empty, yet the parser fails with "field-value not found".
   */
  lemma EmptyFieldValueRejected(name: seq<byte>, ws: seq<byte>, rest: seq<byte>)
    requires IsToken(name) && IsWhitespace(ws)
    ensures 0 in FindFieldValue(CRLF + rest)
    ensures FindFieldLine(name + ([COLON] + (ws + (CRLF + rest)))) != {}
    ensures MarshalFieldLine(name + ([COLON] + (ws + (CRLF + rest)))) == Failure("field-value not found")
    ensures MarshalFieldLines(name + ([COLON] + (ws + (CRLF + rest)))) == Failure("field-value not found")
  {
    var e := "field-value not found";
    var d3 := CRLF + rest;
    var d2 := ws + d3;
    var d1 := [COLON] + d2;
    var d := name + d1;
    TokenStepOn(name, d1, FindFieldName, "field-name not found");
    ColonStepOn(d2, "\":\" after field-name not found");
    OwsStepOn(ws, d3);
    FieldValueAbsent(d3, e);
    FieldLineValueFails(name, d, d1, d2, d3, e);
    RunOfPrefix(IsTChar, name, d1);
    assert d[|name|] == COLON;
    FieldLineNonEmpty(d);
    FieldLinesFirstFails(d);
  }

  // ---------------------------------------------------------------------
  // The string view

  /** Each character of the string view has the code of the byte at the same place, so the bytes come back. */
  lemma BytesStringRoundTrip(b: seq<byte>)
    ensures forall i :: 0 <= i < |BytesToString(b)| ==> BytesToString(b)[i] as int == b[i]
    ensures StringToBytes(BytesToString(b)) == b
  {
  }

  /** The string of a request spells the bytes its serializer emits. */
  lemma RequestStringBytes(r: Request)
    ensures |RequestString(r)| == |UnmarshalRequest(r)|
    ensures StringToBytes(RequestString(r)) == UnmarshalRequest(r)
  {
    BytesStringRoundTrip(UnmarshalRequest(r));
  }

  /** The string of a response spells the bytes its serializer emits. */
  lemma ResponseStringBytes(r: Response)
    ensures |ResponseString(r)| == |UnmarshalResponse(r)|
    ensures StringToBytes(ResponseString(r)) == UnmarshalResponse(r)
  {
    BytesStringRoundTrip(UnmarshalResponse(r));
  }
}
