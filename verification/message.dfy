/**
 * The HTTP/1.1 message layer that commits the grammar's match-sets to one
 * parse: the request and response values, their parsers ("Marshal", the
 * name the library gives the bytes-to-value direction), their serializers
 * ("Unmarshal") and their string views.
 *
 * Start-line fields, field-name, OWS and field-value take the longest match
 * of their production; ":" and CRLF take the shortest.  After the start line
 * a loop reads field lines while one opens the remaining bytes, then one
 * CRLF ends the header section and whatever follows is the body.
 */
module Message {
  import opened Abnf
  import opened Grammar

  datatype Result<T> = Success(value: T) | Failure(error: string)
  {
    predicate IsFailure() { Failure? }

    function PropagateFailure<U>(): Result<U>
      requires Failure?
    {
      Failure(error)
    }

    function Extract(): T
      requires Success?
    {
      value
    }
  }

  /** A value read from the front of a buffer, and the bytes after it. */
  datatype Parsed<T> = Parsed(value: T, remaining: seq<byte>)

  datatype FieldLine = FieldLine(fieldName: seq<byte>, fieldValue: seq<byte>)

  datatype Request = Request(
    requestMethod: seq<byte>,
    requestTarget: seq<byte>,
    httpVersion: seq<byte>,
    fieldLines: seq<FieldLine>,
    messageBody: seq<byte>)

  datatype Response = Response(
    httpVersion: seq<byte>,
    statusCode: seq<byte>,
    reasonPhrase: seq<byte>,
    fieldLines: seq<FieldLine>,
    messageBody: seq<byte>)

  datatype RequestLine = RequestLine(requestMethod: seq<byte>, requestTarget: seq<byte>, httpVersion: seq<byte>)

  datatype StatusLine = StatusLine(httpVersion: seq<byte>, statusCode: seq<byte>, reasonPhrase: seq<byte>)

  // ---------------------------------------------------------------------
  // Parsing

  /** One required element under the longest-match policy: absent when nothing non-empty matches. */
  function TakeLongest(d: seq<byte>, f: Finder, error: string): Result<ParseResult>
  {
    var p := ParseLongest(d, f);
    if |p.parsed| == 0 then Failure(error) else Success(p)
  }

  /** One required element under the shortest-match policy. */
  function TakeShortest(d: seq<byte>, f: Finder, error: string): Result<ParseResult>
  {
    var p := ParseShortest(d, f);
    if |p.parsed| == 0 then Failure(error) else Success(p)
  }

  /** request-line = method SP request-target SP HTTP-version */
  function MarshalRequestLine(u: UriGrammar, data: seq<byte>): Result<Parsed<RequestLine>>
  {
    var m :- TakeLongest(data, FindMethod, "method not found");
    var sp1 :- TakeLongest(m.remaining, FindSp, "SP after method not found");
    var t :- TakeLongest(sp1.remaining, RequestTargetFinder(u), "request-target not found");
    var sp2 :- TakeLongest(t.remaining, FindSp, "SP after request-target not found");
    var v :- TakeLongest(sp2.remaining, FindHttpVersion, "http-version not found");
    Success(Parsed(RequestLine(m.parsed, t.parsed, v.parsed), v.remaining))
  }

  /** status-line = HTTP-version SP status-code SP reason-phrase, the reason phrase required here. */
  function MarshalStatusLine(data: seq<byte>): Result<Parsed<StatusLine>>
  {
    var v :- TakeLongest(data, FindHttpVersion, "http-version not found");
    var sp1 :- TakeLongest(v.remaining, FindSp, "SP after http-version not found");
    var c :- TakeLongest(sp1.remaining, FindStatusCode, "status-code not found");
    var sp2 :- TakeLongest(c.remaining, FindSp, "SP after status-code not found");
    var p :- TakeLongest(sp2.remaining, FindReasonPhrase, "reason-phrase not found");
    Success(Parsed(StatusLine(v.parsed, c.parsed, p.parsed), p.remaining))
  }

  /** field-name ":" OWS field-value OWS CRLF, without the check that a field line opens the buffer. */
  function MarshalFieldLine(data: seq<byte>): Result<Parsed<FieldLine>>
  {
    var name :- TakeLongest(data, FindFieldName, "field-name not found");
    var colon :- TakeShortest(name.remaining, FindColon, "\":\" after field-name not found");
    var ows1 := ParseLongest(colon.remaining, FindOws);
    var value :- TakeLongest(ows1.remaining, FindFieldValue, "field-value not found");
    var ows2 := ParseLongest(value.remaining, FindOws);
    var crlf :- TakeShortest(ows2.remaining, FindCrLf, "CRLF after field-line not found");
    Success(Parsed(FieldLine(name.parsed, value.parsed), crlf.remaining))
  }

  /**
   * Field lines, read while a field line matches at the front of the
   * buffer.  They come back in the order they appear.
   */
  function MarshalFieldLines(data: seq<byte>): Result<Parsed<seq<FieldLine>>>
    decreases |data|
  {
    if FindFieldLine(data) == {} then Success(Parsed([], data)) else
    var line :- MarshalFieldLine(data);
    FieldLineConsumes(data);
    var rest :- MarshalFieldLines(line.remaining);
    Success(Parsed([line.value] + rest.value, rest.remaining))
  }

  /** A field line that parses consumes at least the bytes of its CRLF. */
  lemma FieldLineConsumes(data: seq<byte>)
    requires MarshalFieldLine(data).Success?
    ensures |MarshalFieldLine(data).value.remaining| < |data|
  {
    var name := ParseLongest(data, FindFieldName);
    var colon := ParseShortest(name.remaining, FindColon);
    var ows1 := ParseLongest(colon.remaining, FindOws);
    var value := ParseLongest(ows1.remaining, FindFieldValue);
    var ows2 := ParseLongest(value.remaining, FindOws);
    var crlf := ParseShortest(ows2.remaining, FindCrLf);
    assert |crlf.parsed| > 0 && MarshalFieldLine(data).value.remaining == crlf.remaining;
    assert |crlf.remaining| < |ows2.remaining| <= |value.remaining| <= |ows1.remaining| <= |colon.remaining| <= |name.remaining| <= |data|;
  }

  /** HTTP-message, with the request line as its start line; the body is whatever follows the empty line. */
  function MarshalRequest(u: UriGrammar, data: seq<byte>): Result<Request>
  {
    var line :- MarshalRequestLine(u, data);
    var crlf1 :- TakeShortest(line.remaining, FindCrLf, "CRLF after request-line not found");
    var fields :- MarshalFieldLines(crlf1.remaining);
    var crlf2 :- TakeShortest(fields.remaining, FindCrLf, "CRLF before message-body not found");
    Success(Request(line.value.requestMethod, line.value.requestTarget, line.value.httpVersion,
                    fields.value, crlf2.remaining))
  }

  /** HTTP-message, with the status line as its start line; the body is whatever follows the empty line. */
  function MarshalResponse(data: seq<byte>): Result<Response>
  {
    var line :- MarshalStatusLine(data);
    var crlf1 :- TakeShortest(line.remaining, FindCrLf, "CRLF after request-line not found");
    var fields :- MarshalFieldLines(crlf1.remaining);
    var crlf2 :- TakeShortest(fields.remaining, FindCrLf, "CRLF before message-body not found");
    Success(Response(line.value.httpVersion, line.value.statusCode, line.value.reasonPhrase,
                     fields.value, crlf2.remaining))
  }

  // ---------------------------------------------------------------------
  // Serializing

  /** field-name ":" SP field-value CRLF */
  function FieldLineBytes(l: FieldLine): seq<byte>
  {
    l.fieldName + [COLON, SP] + l.fieldValue + CRLF
  }

  /** The field lines serialized one after another, in order. */
  function FieldLinesBytes(lines: seq<FieldLine>): seq<byte>
  {
    if |lines| == 0 then [] else FieldLineBytes(lines[0]) + FieldLinesBytes(lines[1..])
  }

  function UnmarshalRequest(req: Request): seq<byte>
  {
    req.requestMethod + [SP] + req.requestTarget + [SP] + req.httpVersion + CRLF
    + FieldLinesBytes(req.fieldLines) + CRLF + req.messageBody
  }

  function UnmarshalResponse(resp: Response): seq<byte>
  {
    resp.httpVersion + [SP] + resp.statusCode + [SP] + resp.reasonPhrase + CRLF
    + FieldLinesBytes(resp.fieldLines) + CRLF + resp.messageBody
  }

  /** The text whose characters have the codes of the bytes, one for one. */
  function BytesToString(b: seq<byte>): (s: string)
    ensures |s| == |b|
  {
    seq(|b|, i requires 0 <= i < |b| => b[i] as char)
  }

  /** The codes of the characters of a text of single-byte characters. */
  function StringToBytes(s: string): seq<byte>
    requires forall i :: 0 <= i < |s| ==> s[i] as int < 256
  {
    seq(|s|, i requires 0 <= i < |s| => s[i] as int)
  }

  function RequestString(req: Request): string
  {
    BytesToString(UnmarshalRequest(req))
  }

  function ResponseString(resp: Response): string
  {
    BytesToString(UnmarshalResponse(resp))
  }
}
